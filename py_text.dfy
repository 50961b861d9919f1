/**
 * The few pieces of Python's text handling that the instance files rely on:
 * `str(i)` for an integer, `int(s)` for a base-10 literal, `s.strip()` and
 * `s.split(" ")`.  Strings are sequences of characters.
 */
module PyText {

  datatype Option<T> = None | Some(value: T)

  /** Python's `str.isspace` on one character: the characters that
      `str.strip()` removes. */
  predicate IsSpace(c: char) {
    || (9 <= c as int <= 13)
    || (28 <= c as int <= 32)
    || c as int == 0x85 || c as int == 0xA0 || c as int == 0x1680
    || (0x2000 <= c as int <= 0x200A)
    || c as int == 0x2028 || c as int == 0x2029 || c as int == 0x202F
    || c as int == 0x205F || c as int == 0x3000
  }

  /** The whitespace `int()` skips around a literal: the ASCII characters
      tab, line feed, vertical tab, form feed, carriage return and space,
      and every non-ASCII `str.isspace` character.  The ASCII separators
      U+001C..U+001F are whitespace to `str.strip()` but not to `int()`. */
  predicate IntSpace(c: char) {
    (9 <= c as int <= 13) || c == ' ' || (c as int >= 0x80 && IsSpace(c))
  }

  predicate NoSpace(s: string) {
    forall i :: 0 <= i < |s| ==> !IsSpace(s[i])
  }

  // ---------------------------------------------------------------- strip()

  /** Drops the leading characters that `space` accepts. */
  function StripLeft(s: string, space: char -> bool): string {
    if s != [] && space(s[0]) then StripLeft(s[1..], space) else s
  }

  /** Drops the trailing characters that `space` accepts. */
  function StripRight(s: string, space: char -> bool): string {
    if s != [] && space(s[|s| - 1]) then StripRight(s[..|s| - 1], space) else s
  }

  /** Python's `s.strip()`. */
  function Strip(s: string): string {
    StripRight(StripLeft(s, IsSpace), IsSpace)
  }

  /** The trimming `int()` does before it reads a literal. */
  function IntStrip(s: string): string {
    StripRight(StripLeft(s, IntSpace), IntSpace)
  }

  /** StripLeft keeps a suffix of `s`, everything it drops is accepted by
      `space`, and what it keeps does not start with such a character. */
  lemma {:induction false} StripLeftSpec(s: string, space: char -> bool)
    ensures |StripLeft(s, space)| <= |s| && StripLeft(s, space) == s[|s| - |StripLeft(s, space)|..]
    ensures forall i :: 0 <= i < |s| - |StripLeft(s, space)| ==> space(s[i])
    ensures StripLeft(s, space) == [] || !space(StripLeft(s, space)[0])
    decreases |s|
  {
    if s != [] && space(s[0]) {
      StripLeftSpec(s[1..], space);
      var r := StripLeft(s[1..], space);
      assert s[1..][|s| - 1 - |r|..] == s[|s| - |r|..];
      forall i | 1 <= i < |s| - |r| ensures space(s[i]) {
        assert s[i] == s[1..][i - 1];
      }
    }
  }

  /** StripRight keeps a prefix of `s`, everything it drops is accepted by
      `space`, and what it keeps does not end with such a character. */
  lemma {:induction false} StripRightSpec(s: string, space: char -> bool)
    ensures |StripRight(s, space)| <= |s| && StripRight(s, space) == s[..|StripRight(s, space)|]
    ensures forall i :: |StripRight(s, space)| <= i < |s| ==> space(s[i])
    ensures StripRight(s, space) == [] || !space(StripRight(s, space)[|StripRight(s, space)| - 1])
    decreases |s|
  {
    if s != [] && space(s[|s| - 1]) {
      StripRightSpec(s[..|s| - 1], space);
      var r := StripRight(s[..|s| - 1], space);
      assert s[..|s| - 1][..|r|] == s[..|r|];
      forall i | |r| <= i < |s| - 1 ensures space(s[i]) {
        assert s[i] == s[..|s| - 1][i];
      }
    }
  }

  /** Stripping leaves alone a string that neither starts nor ends with a
      character `space` accepts. */
  lemma StripTrimmed(s: string, space: char -> bool)
    requires s != [] ==> !space(s[0]) && !space(s[|s| - 1])
    ensures StripRight(StripLeft(s, space), space) == s
  {
    assert StripLeft(s, space) == s;
  }

  // ------------------------------------------------------------ split(" ")

  /** `sep.join(pieces)`; the inverse of Split. */
  function Join(pieces: seq<string>, sep: char): string
    requires |pieces| >= 1
  {
    if |pieces| == 1 then pieces[0] else pieces[0] + [sep] + Join(pieces[1..], sep)
  }

  /** Python's `s.split(sep)` for a one-character separator: every occurrence
      of `sep` cuts, so empty pieces appear between adjacent separators and at
      either end, and the empty string gives one empty piece. */
  function Split(s: string, sep: char): (pieces: seq<string>)
    ensures |pieces| >= 1
    ensures Join(pieces, sep) == s
    ensures forall i :: 0 <= i < |pieces| ==> sep !in pieces[i]
  {
    if s == [] then [[]]
    else
      var rest := Split(s[1..], sep);
      if s[0] == sep then
        [[]] + rest
      else
        var pieces := [[s[0]] + rest[0]] + rest[1..];
        assert pieces[1..] == rest[1..];
        pieces
  }

  lemma {:induction false} SplitCut(p: string, sep: char, t: string)
    requires sep !in p
    ensures Split(p + [sep] + t, sep) == [p] + Split(t, sep)
    decreases |p|
  {
    if p == [] {
      assert (p + [sep] + t)[1..] == t;
    } else {
      assert (p + [sep] + t)[1..] == p[1..] + [sep] + t;
      SplitCut(p[1..], sep, t);
      assert [p[0]] + p[1..] == p;
    }
  }

  lemma {:induction false} SplitWhole(p: string, sep: char)
    requires sep !in p
    ensures Split(p, sep) == [p]
    decreases |p|
  {
    if p != [] {
      SplitWhole(p[1..], sep);
      assert [p[0]] + p[1..] == p;
    }
  }

  /** Splitting a joined list of separator-free pieces gives the pieces back. */
  lemma {:induction false} SplitJoin(pieces: seq<string>, sep: char)
    requires |pieces| >= 1
    requires forall i :: 0 <= i < |pieces| ==> sep !in pieces[i]
    ensures Split(Join(pieces, sep), sep) == pieces
    decreases |pieces|
  {
    if |pieces| == 1 {
      SplitWhole(pieces[0], sep);
    } else {
      SplitCut(pieces[0], sep, Join(pieces[1..], sep));
      SplitJoin(pieces[1..], sep);
      assert [pieces[0]] + pieces[1..] == pieces;
    }
  }

  // ------------------------------------------------------- str() and int()

  predicate IsDigit(c: char) {
    '0' <= c <= '9'
  }

  predicate AllDigits(s: string) {
    forall i :: 0 <= i < |s| ==> IsDigit(s[i])
  }

  function DigitValue(c: char): (d: nat)
    requires IsDigit(c)
    ensures d < 10
  {
    c as int - '0' as int
  }

  function DigitChar(d: nat): (c: char)
    requires d < 10
    ensures IsDigit(c) && DigitValue(c) == d
  {
    ('0' as int + d) as char
  }

  /** The decimal digits of `n`, most significant first, with no leading
      zero except for 0 itself. */
  function NatToDecimal(n: nat): (s: string)
    ensures s != [] && AllDigits(s)
    ensures s[0] == '0' <==> n == 0
    decreases n
  {
    if n < 10 then [DigitChar(n)] else NatToDecimal(n / 10) + [DigitChar(n % 10)]
  }

  /** The number a string of decimal digits denotes (leading zeros allowed). */
  function DecimalValue(s: string): nat
    requires AllDigits(s)
  {
    if s == [] then 0 else DecimalValue(s[..|s| - 1]) * 10 + DigitValue(s[|s| - 1])
  }

  lemma {:induction false} DecimalRoundTrip(n: nat)
    ensures DecimalValue(NatToDecimal(n)) == n
    decreases n
  {
    if n >= 10 {
      var s := NatToDecimal(n);
      assert s[..|s| - 1] == NatToDecimal(n / 10);
      DecimalRoundTrip(n / 10);
    }
  }

  /** Python's `str(x)` for an integer `x`: a minus sign exactly when `x` is
      negative, then decimal digits. */
  function IntToString(x: int): string {
    if x < 0 then "-" + NatToDecimal(-x) else NatToDecimal(x)
  }

  /** The text of an integer holds no whitespace, so it survives `strip()` and
      `split(" ")` unchanged. */
  lemma IntToStringNoSpace(x: int)
    ensures NoSpace(IntToString(x))
  {
    var s := IntToString(x);
    forall i | 0 <= i < |s| ensures !IsSpace(s[i]) {
      if x < 0 && i > 0 {
        assert s[i] == NatToDecimal(-x)[i - 1];
      }
    }
  }

  /** Python's `int(s)`: surrounding IntSpace whitespace is ignored, then an
      optional sign and at least one decimal digit; anything else is a
      ValueError (None). */
  function ParseInt(s: string): Option<int> {
    var t := IntStrip(s);
    if t != [] && (t[0] == '-' || t[0] == '+') then
      var digits := t[1..];
      if digits != [] && AllDigits(digits) then
        var value: int := DecimalValue(digits);
        Some(if t[0] == '-' then -value else value)
      else None
    else if t != [] && AllDigits(t) then Some(DecimalValue(t))
    else None
  }

  /** `int(str(x)) == x` for every integer. */
  lemma IntRoundTrip(x: int)
    ensures ParseInt(IntToString(x)) == Some(x)
  {
    var s := IntToString(x);
    IntToStringNoSpace(x);
    StripTrimmed(s, IntSpace);
    if x < 0 {
      assert s[1..] == NatToDecimal(-x);
      DecimalRoundTrip(-x);
    } else {
      DecimalRoundTrip(x);
    }
  }

  /** `int()` refuses the empty string and whitespace alone, including the
      separators U+001C..U+001F that it does not skip. */
  lemma ParseIntBlank(s: string)
    requires forall i :: 0 <= i < |s| ==> IsSpace(s[i])
    ensures ParseInt(s) == None
  {
    var left := StripLeft(s, IntSpace);
    StripLeftSpec(s, IntSpace);
    StripRightSpec(left, IntSpace);
    var t := IntStrip(s);
    if t != [] {
      assert t[0] == s[|s| - |left|];
      assert IsSpace(t[0]);
    }
  }

  /** `int()` does not skip the ASCII separators U+001C..U+001F, although
      `strip()` does: a literal padded with one of them is refused. */
  lemma ParseIntKeepsSeparators(digits: string, c: char)
    requires digits != [] && AllDigits(digits)
    requires 0x1C <= c as int <= 0x1F
    ensures ParseInt([c] + digits) == None && ParseInt(digits + [c]) == None
    ensures Strip([c] + digits) == digits && Strip(digits + [c]) == digits
  {
    var front, back := [c] + digits, digits + [c];
    assert StripLeft(front, IntSpace) == front;
    assert StripRight(front, IntSpace) == front;
    assert StripLeft(back, IntSpace) == back;
    assert StripRight(back, IntSpace) == back;
    assert !AllDigits(front) by { assert !IsDigit(front[0]); }
    assert !AllDigits(back) by { assert !IsDigit(back[|back| - 1]); }
    assert front[1..] == digits;
    StripTrimmed(digits, IsSpace);
    assert back[..|back| - 1] == digits;
    assert StripLeft(back, IsSpace) == back;
  }
}
