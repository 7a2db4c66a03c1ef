/**
 * Decimal integers as text: Python's `int(str)` for base 10 and the
 * decimal rendering of an integer (`str(n)` and f-string interpolation).
 */
module Text {
  import opened Wrappers

  predicate IsDigit(c: char) {
    '0' <= c <= '9'
  }

  /**
   * The ASCII whitespace `int()` skips around the number (`string.whitespace`):
   * tab to carriage return, and space. The separators U+001C to U+001F, which
   * `str.isspace()` accepts, are not skipped.
   */
  predicate IsSpace(c: char) {
    c == ' ' || 9 <= c as int <= 13
  }

  function TrimLeft(s: string): (t: string)
    ensures |t| <= |s|
  {
    if s != [] && IsSpace(s[0]) then TrimLeft(s[1..]) else s
  }

  function TrimRight(s: string): (t: string)
    ensures |t| <= |s|
  {
    if s != [] && IsSpace(s[|s| - 1]) then TrimRight(s[..|s| - 1]) else s
  }

  /** The digit part `int()` accepts: ASCII digits, with single underscores allowed between two digits. */
  predicate DigitPart(s: string) {
    && |s| > 0 && IsDigit(s[0]) && IsDigit(s[|s| - 1])
    && (forall i :: 0 <= i < |s| ==> IsDigit(s[i]) || s[i] == '_')
    && (forall i :: 0 <= i < |s| - 1 ==> s[i] == '_' ==> s[i + 1] != '_')
  }

  /** The value of a digit part, underscores skipped. */
  function DigitsValue(s: string): nat
    requires forall i :: 0 <= i < |s| ==> IsDigit(s[i]) || s[i] == '_'
  {
    if s == [] then 0
    else if s[|s| - 1] == '_' then DigitsValue(s[..|s| - 1])
    else
      assert IsDigit(s[|s| - 1]);
      DigitsValue(s[..|s| - 1]) * 10 + (s[|s| - 1] as int - '0' as int)
  }

  /** The number of digits `int()` and `str()` convert at most, by default. */
  const MaxStrDigits: nat := 4300

  /** The digits of a text, underscores and other characters not counted. */
  function DigitCount(s: string): nat {
    if s == [] then 0 else DigitCount(s[..|s| - 1]) + (if IsDigit(s[|s| - 1]) then 1 else 0)
  }

  /** A digit part `int()` converts: well formed and no longer than the digit limit. */
  predicate Convertible(s: string) {
    DigitPart(s) && DigitCount(s) <= MaxStrDigits
  }

  /**
   * `int(s)` in base 10: surrounding whitespace, an optional sign, then a
   * digit part of at most 4300 digits; `None` where it raises.
   */
  function ParseInt(s: string): Option<int> {
    var t := TrimRight(TrimLeft(s));
    if |t| > 0 && (t[0] == '-' || t[0] == '+') then
      if Convertible(t[1..]) then
        Some(if t[0] == '-' then -(DigitsValue(t[1..]) as int) else DigitsValue(t[1..]))
      else None
    else if Convertible(t) then Some(DigitsValue(t))
    else None
  }

  function DigitChar(d: nat): (c: char)
    requires d < 10
    ensures IsDigit(c) && c as int - '0' as int == d
  {
    ('0' as int + d) as char
  }

  /** The decimal digits of a natural number, without leading zeros. */
  function Decimal(n: nat): (s: string)
    ensures |s| > 0 && forall i :: 0 <= i < |s| ==> IsDigit(s[i])
  {
    if n < 10 then [DigitChar(n)] else Decimal(n / 10) + [DigitChar(n % 10)]
  }

  /** `str(n)` for an integer. */
  function FormatInt(n: int): string {
    if n < 0 then "-" + Decimal(-n) else Decimal(n)
  }

  /** The number of decimal digits of `n`, sign not counted. */
  function DigitLength(n: int): nat {
    |Decimal(if n < 0 then -n else n)|
  }

  lemma {:induction false} DecimalValue(n: nat)
    ensures DigitsValue(Decimal(n)) == n
  {
    if n >= 10 {
      var s := Decimal(n);
      assert s[..|s| - 1] == Decimal(n / 10);
      DecimalValue(n / 10);
    }
  }

  lemma DecimalIsDigitPart(n: nat)
    ensures DigitPart(Decimal(n))
  {
  }

  /** Text with no whitespace at either end is left alone by stripping. */
  lemma StripUnchanged(s: string)
    requires s != [] && !IsSpace(s[0]) && !IsSpace(s[|s| - 1])
    ensures TrimRight(TrimLeft(s)) == s
  {
  }

  /** Text made only of digits has one digit per character. */
  lemma {:induction false} DigitCountAll(s: string)
    requires forall i :: 0 <= i < |s| ==> IsDigit(s[i])
    ensures DigitCount(s) == |s|
  {
    if s != [] {
      DigitCountAll(s[..|s| - 1]);
    }
  }

  /**
   * `int()` reads the decimal text of every integer of at most 4300 digits
   * back as that integer, and refuses the text of every longer one.
   */
  lemma ParseFormat(n: int)
    ensures DigitLength(n) <= MaxStrDigits ==> ParseInt(FormatInt(n)) == Some(n)
    ensures DigitLength(n) > MaxStrDigits ==> ParseInt(FormatInt(n)) == None
  {
    var m: nat := if n < 0 then -n else n;
    var d := Decimal(m);
    DecimalValue(m);
    DecimalIsDigitPart(m);
    DigitCountAll(d);
    if n < 0 {
      ParseNegative(d);
    } else {
      ParseUnsigned(d);
    }
  }

  /** A bare digit part is converted exactly when it is within the digit limit. */
  lemma ParseUnsigned(d: string)
    requires DigitPart(d)
    ensures ParseInt(d) == if Convertible(d) then Some(DigitsValue(d) as int) else None
  {
    StripUnchanged(d);
    assert IsDigit(d[0]);
  }

  /** A digit part after a minus sign is converted, negated, exactly when it is within the digit limit. */
  lemma ParseNegative(d: string)
    requires DigitPart(d)
    ensures ParseInt("-" + d) == if Convertible(d) then Some(-(DigitsValue(d) as int)) else None
  {
    var s := "-" + d;
    assert s[0] == '-' && s[1..] == d && s[|s| - 1] == d[|d| - 1];
    StripUnchanged(s);
  }
}
