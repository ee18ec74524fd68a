/**
 * Decimal digits: Python's `int(text)` with base 10, `str(n)`, and the
 * zero-padded fields `strftime` prints.
 */
module Integers {
  import opened Wrappers
  import opened Strings

  predicate IsDigit(c: char) {
    '0' <= c <= '9'
  }

  predicate AllDigits(s: string) {
    forall k | 0 <= k < |s| :: IsDigit(s[k])
  }

  function DigitValue(c: char): (d: nat)
    requires IsDigit(c)
    ensures d < 10
  {
    c as int - '0' as int
  }

  function DigitChar(d: nat): (c: char)
    requires d < 10
    ensures IsDigit(c) && DigitValue(c) == d
  {
    (d + '0' as int) as char
  }

  /** The number a string of decimal digits denotes; leading zeros add nothing. */
  function DigitsValue(s: string): nat
    requires AllDigits(s)
  {
    if s == [] then 0 else 10 * DigitsValue(s[..|s| - 1]) + DigitValue(s[|s| - 1])
  }

  /** `str(n)` for a natural number: decimal digits, no leading zero. */
  function Decimal(n: nat): (s: string)
    ensures |s| > 0 && AllDigits(s)
    ensures s[0] == '0' ==> n == 0
  {
    if n < 10 then [DigitChar(n)] else Decimal(n / 10) + [DigitChar(n % 10)]
  }

  /** `str(i)` for any integer. */
  function Render(i: int): string {
    if i < 0 then "-" + Decimal(-i) else Decimal(i)
  }

  lemma {:induction false} DecimalValue(n: nat)
    ensures DigitsValue(Decimal(n)) == n
  {
    if n >= 10 {
      var s := Decimal(n);
      assert s[..|s| - 1] == Decimal(n / 10);
      DecimalValue(n / 10);
    }
  }

  function Pow10(k: nat): (p: nat)
    ensures p > 0
  {
    if k == 0 then 1 else 10 * Pow10(k - 1)
  }

  /** A number below 10^width needs at most `width` digits. */
  lemma {:induction false} DecimalFits(n: nat, width: nat)
    requires 0 < width && n < Pow10(width)
    ensures |Decimal(n)| <= width
  {
    if n >= 10 {
      DecimalFits(n / 10, width - 1);
    }
  }

  function Zeros(k: nat): (z: string)
    ensures |z| == k && AllDigits(z)
  {
    if k == 0 then "" else "0" + Zeros(k - 1)
  }

  /** `n` printed in at least `width` digits, zero-padded on the left (`%02d`, `%04d`). */
  function Pad(n: nat, width: nat): (s: string)
    ensures AllDigits(s)
    ensures |s| == if |Decimal(n)| < width then width else |Decimal(n)|
  {
    var d := Decimal(n);
    if |d| < width then Zeros(width - |d|) + d else d
  }

  lemma {:induction false} LeadingZeros(k: nat, s: string)
    requires AllDigits(s)
    ensures DigitsValue(Zeros(k) + s) == DigitsValue(s)
    decreases |s|, k
  {
    if s == [] {
      if k > 0 {
        assert Zeros(k) + s == Zeros(k);
        assert Zeros(k)[..k - 1] == Zeros(k - 1) by {
          ZerosSnoc(k - 1);
        }
        LeadingZeros(k - 1, []);
        assert Zeros(k - 1) + [] == Zeros(k - 1);
      }
    } else {
      var t := Zeros(k) + s;
      assert t[..|t| - 1] == Zeros(k) + s[..|s| - 1];
      LeadingZeros(k, s[..|s| - 1]);
    }
  }

  lemma {:induction false} ZerosSnoc(k: nat)
    ensures Zeros(k + 1) == Zeros(k) + "0"
  {
    if k > 0 {
      ZerosSnoc(k - 1);
    }
  }

  /** Padding never changes the value printed. */
  lemma PadValue(n: nat, width: nat)
    ensures DigitsValue(Pad(n, width)) == n
  {
    var d := Decimal(n);
    assert DigitsValue(d) == n by {
      DecimalValue(n);
    }
    if |d| < width {
      var z := Zeros(width - |d|);
      assert Pad(n, width) == z + d;
      assert DigitsValue(z + d) == DigitsValue(d) by {
        LeadingZeros(width - |d|, d);
      }
    }
  }

  /**
   * The digits part `int()` accepts: digits, with single underscores
   * allowed between two digits (`"1_000"`), and nothing else.
   */
  predicate IsDigitGroup(t: string) {
    && |t| > 0 && IsDigit(t[0]) && IsDigit(t[|t| - 1])
    && (forall k | 0 <= k < |t| :: IsDigit(t[k]) || t[k] == '_')
    && (forall k | 0 <= k < |t| - 1 :: t[k] == '_' ==> IsDigit(t[k + 1]))
  }

  function DropUnderscores(t: string): (r: string)
    requires forall k | 0 <= k < |t| :: IsDigit(t[k]) || t[k] == '_'
    ensures AllDigits(r)
  {
    if t == [] then "" else (if t[0] == '_' then "" else [t[0]]) + DropUnderscores(t[1..])
  }

  lemma {:induction false} DropNoUnderscores(t: string)
    requires AllDigits(t)
    ensures DropUnderscores(t) == t
  {
    if t != [] {
      DropNoUnderscores(t[1..]);
      assert [t[0]] + t[1..] == t;
    }
  }

  /**
   * `int(s)`: the whitespace `int()` skips is ignored at both ends, then one
   * optional sign and a digit group; anything else is the `ValueError`
   * Python raises (`None`).
   */
  function ParseInt(s: string): (r: Option<int>)
    ensures AllBlank(IntBlanks, s) ==> r.None?
  {
    ParseSigned(Trim(IntBlanks, s))
  }

  /** `int()` once the surrounding whitespace is gone: an optional sign, then a digit group. */
  function ParseSigned(t: string): (r: Option<int>)
    ensures t == [] ==> r.None?
  {
    if |t| > 0 && t[0] == '-' then
      match ParseUnsigned(t[1..])
      case None => None
      case Some(v) => var n: int := v; Some(-n)
    else if |t| > 0 && t[0] == '+' then
      match ParseUnsigned(t[1..])
      case None => None
      case Some(v) => Some(v)
    else
      match ParseUnsigned(t)
      case None => None
      case Some(v) => Some(v)
  }

  /** A digit group and its value; `None` for anything else. */
  function ParseUnsigned(u: string): Option<nat> {
    if IsDigitGroup(u) then Some(DigitsValue(DropUnderscores(u))) else None
  }

  /** A plain run of digits is a digit group worth its value. */
  lemma UnsignedDigits(d: string)
    requires d != [] && AllDigits(d)
    ensures ParseUnsigned(d) == Some(DigitsValue(d))
  {
    DigitsAreGroup(d);
    DropNoUnderscores(d);
  }

  lemma DigitsAreGroup(d: string)
    requires d != [] && AllDigits(d)
    ensures IsDigitGroup(d)
  {
  }

  /** A plain run of digits, leading zeros included, parses as its value. */
  lemma ParseIntDigits(s: string)
    requires s != [] && AllDigits(s)
    ensures ParseInt(s) == Some(DigitsValue(s))
  {
    DigitsUnstripped(s);
    DigitsSigned(s);
  }

  lemma DigitsUnstripped(s: string)
    requires s != [] && AllDigits(s)
    ensures Trim(IntBlanks, s) == s
  {
    assert IsDigit(s[0]) && IsDigit(s[|s| - 1]);
    TrimKeeps(IntBlanks, s);
  }

  lemma DigitsSigned(s: string)
    requires s != [] && AllDigits(s)
    ensures ParseSigned(s) == Some(DigitsValue(s))
  {
    assert IsDigit(s[0]);
    UnsignedDigits(s);
  }

  /** A minus sign followed by a plain run of digits parses as the negated value. */
  lemma ParseIntNegative(d: string)
    requires d != [] && AllDigits(d)
    ensures ParseInt("-" + d) == Some(0 - DigitsValue(d))
  {
    NegativeUnstripped(d);
    NegativeSigned(d);
  }

  lemma NegativeUnstripped(d: string)
    requires d != [] && AllDigits(d)
    ensures Trim(IntBlanks, "-" + d) == "-" + d
  {
    var s := "-" + d;
    assert s[0] == '-' && s[|s| - 1] == d[|d| - 1] && IsDigit(d[|d| - 1]);
    TrimKeeps(IntBlanks, s);
  }

  lemma NegativeSigned(d: string)
    requires d != [] && AllDigits(d)
    ensures ParseSigned("-" + d) == Some(0 - DigitsValue(d))
  {
    assert ("-" + d)[1..] == d;
    UnsignedDigits(d);
  }

  /** Whitespace `int()` skips may surround the digits on either side. */
  lemma ParseIntSpaced(pre: string, d: string, post: string)
    requires AllBlank(IntBlanks, pre) && AllBlank(IntBlanks, post)
    requires d != [] && AllDigits(d)
    ensures ParseInt(pre + d + post) == Some(DigitsValue(d))
  {
    assert IsDigit(d[0]) && IsDigit(d[|d| - 1]);
    TrimSurrounded(IntBlanks, pre, d, post);
    DigitsSigned(d);
  }

  /**
   * An ASCII separator U+001C..U+001F in front of the digits is whitespace
   * to `strip()` but not to `int()`, which raises on it.
   */
  lemma ParseIntRejectsSeparator(c: char, d: string)
    requires '\U{1C}' <= c <= '\U{1F}'
    requires d != [] && AllDigits(d)
    ensures Strip([c] + d) == d
    ensures ParseInt([c] + d).None?
  {
    SeparatorStripped(c, d);
    SeparatorKept(c, d);
    assert !IsDigit(([c] + d)[0]);
  }

  lemma SeparatorStripped(c: char, d: string)
    requires '\U{1C}' <= c <= '\U{1F}'
    requires d != [] && AllDigits(d)
    ensures Strip([c] + d) == d
  {
    assert IsDigit(d[0]) && IsDigit(d[|d| - 1]);
    assert [c] + d == [c] + d + [];
    TrimSurrounded(StrBlanks, [c], d, []);
  }

  lemma SeparatorKept(c: char, d: string)
    requires '\U{1C}' <= c <= '\U{1F}'
    requires d != [] && AllDigits(d)
    ensures Trim(IntBlanks, [c] + d) == [c] + d
  {
    var s := [c] + d;
    assert s[|s| - 1] == d[|d| - 1] && IsDigit(d[|d| - 1]);
    TrimKeeps(IntBlanks, s);
  }

  /** `int(str(i)) == i`. */
  lemma ParseIntRender(i: int)
    ensures ParseInt(Render(i)) == Some(i)
  {
    var n := if i < 0 then -i else i;
    DecimalValue(n);
    if i < 0 {
      ParseIntNegative(Decimal(n));
    } else {
      ParseIntDigits(Decimal(n));
    }
  }
}
