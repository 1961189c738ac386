/** Decimal numerals as Python reads and writes them: `str(n)` of an int,
    `int(s)` of a string, and the value `decimal.Decimal(s)` gives a string. */
module Numerals {
  import opened Outcomes
  import opened Text

  predicate IsDigit(c: char) {
    '0' <= c <= '9'
  }

  predicate AllDigits(s: string) {
    forall i :: 0 <= i < |s| ==> IsDigit(s[i])
  }

  function DigitChar(d: nat): (c: char)
    requires d < 10
    ensures IsDigit(c)
  {
    ('0' as int + d) as char
  }

  function DigitValue(c: char): (d: nat)
    requires IsDigit(c)
    ensures d < 10 && DigitChar(d) == c
  {
    c as int - '0' as int
  }

  function Pow10(k: nat): (p: nat)
    ensures p >= 1
  {
    if k == 0 then 1 else 10 * Pow10(k - 1)
  }

  /** The number a string of decimal digits denotes (leading zeros allowed). */
  function DigitsValue(s: string): nat
    requires AllDigits(s)
  {
    if |s| == 0 then 0 else 10 * DigitsValue(s[..|s| - 1]) + DigitValue(s[|s| - 1])
  }

  /** The canonical decimal digits of a natural number. */
  function NatStr(n: nat): (s: string)
    ensures |s| >= 1 && AllDigits(s)
    ensures |s| == 1 <==> n < 10
  {
    if n < 10 then [DigitChar(n)] else NatStr(n / 10) + [DigitChar(n % 10)]
  }

  /** Python's `str(n)` for an int. */
  function Str(n: int): string {
    if n < 0 then "-" + NatStr(-n) else NatStr(n)
  }

  function Zeros(k: nat): (z: string)
    ensures |z| == k && AllDigits(z)
  {
    seq(k, _ => '0')
  }

  /** `s` with zeros in front, up to at least `width` characters. */
  function ZeroPad(s: string, width: nat): (r: string)
    ensures |r| >= width && |r| >= |s|
  {
    if |s| < width then Zeros(width - |s|) + s else s
  }

  /** Python's `int(s)`: an optional sign followed by decimal digits. */
  function ParseInt(s: string): (r: Result<int>)
    ensures r.Err? ==> r.error == ValueError
  {
    if |s| > 0 && (s[0] == '-' || s[0] == '+') then
      var body := s[1..];
      if |body| > 0 && AllDigits(body) then
        Ok(Signed(s[0] == '-', DigitsValue(body)))
      else Err(ValueError)
    else if |s| > 0 && AllDigits(s) then Ok(DigitsValue(s))
    else Err(ValueError)
  }

  /** A number as `decimal.Decimal` holds it: an integer coefficient with
      `places` digits after the point. */
  datatype Decimal = Decimal(coefficient: int, places: nat) {
    function Value(): real {
      coefficient as real * Tenths(places)
    }
  }

  /** Two places make hundredths, one place tenths. */
  lemma DecimalPlacesValue(c: int)
    ensures Decimal(c, 2).Value() == c as real / 100.0
    ensures Decimal(c, 1).Value() == c as real / 10.0
  {
    assert Tenths(2) == 0.01;
    assert Tenths(1) == 0.1;
  }

  /** One tenth raised to the power `k`. */
  function Tenths(k: nat): real {
    if k == 0 then 1.0 else Tenths(k - 1) / 10.0
  }

  /** `decimal.Decimal(s)` for an optional sign, digits, and at most one
      decimal point with at least one digit on some side of it; any other
      text raises InvalidOperation (None here). */
  function DecimalText(s: string): Option<Decimal> {
    if |s| > 0 && s[0] == '-' then
      match UnsignedDecimal(s[1..])
      case None => None
      case Some(d) => Some(Decimal(-d.coefficient, d.places))
    else if |s| > 0 && s[0] == '+' then UnsignedDecimal(s[1..])
    else UnsignedDecimal(s)
  }

  /** An unsigned numeral: `a.b` has the digits `ab` as coefficient and
      `|b|` places. */
  function UnsignedDecimal(body: string): Option<Decimal> {
    match Find(body, ".")
    case None =>
      if |body| > 0 && AllDigits(body) then Some(Decimal(DigitsValue(body), 0)) else None
    case Some(i) =>
      var whole, frac := body[..i], body[i + 1..];
      if AllDigits(whole) && AllDigits(frac) && |whole| + |frac| > 0 then
        Some(Decimal(DigitsValue(whole + frac), |frac|))
      else None
  }

  function Signed(negative: bool, v: nat): int {
    if negative then -(v as int) else v
  }

  /** Reading the digits of `a + b` is reading `a`, shifted by `|b|` places,
      plus reading `b`. */
  lemma {:induction false} DigitsValueAppend(a: string, b: string)
    requires AllDigits(a) && AllDigits(b)
    ensures AllDigits(a + b)
    ensures DigitsValue(a + b) == DigitsValue(a) * Pow10(|b|) + DigitsValue(b)
    decreases |b|
  {
    if |b| == 0 {
      assert a + b == a;
    } else {
      var b' := b[..|b| - 1];
      var d := DigitValue(b[|b| - 1]);
      DigitsValueAppend(a, b');
      assert (a + b)[..|a + b| - 1] == a + b';
      assert (a + b)[|a + b| - 1] == b[|b| - 1];
      assert DigitsValue(a + b) == 10 * DigitsValue(a + b') + d;
      assert DigitsValue(b) == 10 * DigitsValue(b') + d;
      var va, p := DigitsValue(a), Pow10(|b'|);
      assert Pow10(|b|) == 10 * p;
      assert 10 * (va * p) == va * (10 * p) by {
        MulAssoc(va, p);
      }
    }
  }

  lemma MulAssoc(x: nat, y: nat)
    ensures 10 * (x * y) == x * (10 * y)
  {
  }

  /** The canonical digits read back as the number they were made from. */
  lemma {:induction false} DigitsValueNatStr(n: nat)
    ensures DigitsValue(NatStr(n)) == n
  {
    if n >= 10 {
      DigitsValueNatStr(n / 10);
      var s := NatStr(n);
      assert s[..|s| - 1] == NatStr(n / 10);
    }
  }

  /** Leading zeros do not change the value of a digit string. */
  lemma {:induction false} DigitsValueZeroPad(s: string, width: nat)
    requires AllDigits(s)
    ensures AllDigits(ZeroPad(s, width))
    ensures DigitsValue(ZeroPad(s, width)) == DigitsValue(s)
  {
    if |s| < width {
      var z := Zeros(width - |s|);
      DigitsValueAppend(z, s);
      ZerosValue(width - |s|);
    }
  }

  lemma {:induction false} ZerosValue(k: nat)
    ensures DigitsValue(Zeros(k)) == 0
  {
    if k > 0 {
      ZerosValue(k - 1);
      assert Zeros(k)[..k - 1] == Zeros(k - 1);
    }
  }

  /** `int(str(n)) == n`. */
  lemma ParseIntStr(n: int)
    ensures ParseInt(Str(n)) == Ok(n)
  {
    if n < 0 {
      ParseIntNegative(-n);
    } else {
      ParseIntNatStr(n);
    }
  }

  lemma ParseIntNatStr(n: nat)
    ensures ParseInt(NatStr(n)) == Ok(n)
  {
    var digits := NatStr(n);
    DigitsValueNatStr(n);
    assert IsDigit(digits[0]);
  }

  lemma ParseIntNegative(n: nat)
    ensures ParseInt("-" + NatStr(n)) == Ok(-(n as int))
  {
    var digits := NatStr(n);
    DigitsValueNatStr(n);
    var s := "-" + digits;
    assert s[0] == '-' && s[1..] == digits;
  }

  /** `int` reads a zero-padded numeral (as `strftime` writes `%d`, `%m`,
      `%Y`) back as the number it was made from. */
  lemma ParseIntZeroPad(n: nat, width: nat)
    ensures ParseInt(ZeroPad(NatStr(n), width)) == Ok(n)
  {
    DigitsValueZeroPad(NatStr(n), width);
    DigitsValueNatStr(n);
    var s := ZeroPad(NatStr(n), width);
    assert IsDigit(s[0]);
  }

  /** Digits contain no character other than digits. */
  lemma DigitsAvoid(s: string, c: char)
    requires AllDigits(s) && !IsDigit(c)
    ensures !Contains(s, [c])
  {
    ContainsChar(s, c);
  }

  /** `Decimal("a.b")` for digit strings `a` and `b`. */
  lemma UnsignedDecimalPoint(a: string, b: string)
    requires AllDigits(a) && AllDigits(b) && |a| + |b| > 0
    ensures UnsignedDecimal(a + "." + b) == Some(Decimal(DigitsValue(a + b), |b|))
  {
    var body := a + "." + b;
    assert OccursAt(body, ".", |a|) by {
      assert body[|a|..|a| + 1] == ".";
    }
    forall k: nat | k < |a|
      ensures !OccursAt(body, ".", k)
    {
      assert body[k] == a[k];
      assert IsDigit(a[k]);
    }
    FindFirst(body, ".", |a|);
    assert body[..|a|] == a;
    assert body[|a| + 1..] == b;
  }

  /** An unsigned numeral starting with a digit or a point is read as is. */
  lemma DecimalTextUnsigned(body: string)
    requires |body| > 0 && (IsDigit(body[0]) || body[0] == '.')
    ensures DecimalText(body) == UnsignedDecimal(body)
  {
  }

  /** A leading minus negates the value of the rest. */
  lemma DecimalTextNegative(body: string)
    ensures DecimalText("-" + body)
         == match UnsignedDecimal(body) case None => None case Some(d) => Some(Decimal(-d.coefficient, d.places))
  {
    assert ("-" + body)[1..] == body;
  }
}
