/** `parse_value` (main.py and app/main.py): an amount in cents written as
    a decimal numeral by putting a point before the last two characters of
    `str(amount)`, which `decimal.Decimal` then reads. */
module Amounts {
  import opened Outcomes
  import opened Text
  import opened Numerals

  /** The code as written: `s[:len(s) - 2] + "." + s[-2:]` with `s = str(n)`. */
  function ParseValue(n: int): string {
    var s := Str(n);
    SliceTo(s, |s| - 2) + "." + SliceFrom(s, -2)
  }

  /** Exactly one point goes in, and deleting it gives back `str(n)`. */
  lemma ParseValueInsertsOnePoint(n: int)
    ensures multiset(ParseValue(n))['.'] == 1
    ensures Delete(ParseValue(n), '.') == Str(n)
  {
    var s := Str(n);
    var k := Clamp(|s| - 2, |s|);
    var head, tail := s[..k], s[k..];
    assert ParseValue(n) == head + "." + tail;
    StrHasNoPoint(n);
    assert s == head + tail;
    assert '.' !in head && '.' !in tail by {
      assert forall c :: c in head ==> c in s;
      assert forall c :: c in tail ==> c in s;
    }
    OnePoint(head, tail);
  }

  /** Putting one point between two point-free texts. */
  lemma OnePoint(head: string, tail: string)
    requires '.' !in head && '.' !in tail
    ensures multiset(head + "." + tail)['.'] == 1
    ensures Delete(head + "." + tail, '.') == head + tail
  {
    assert multiset(head + "." + tail) == multiset(head) + multiset(".") + multiset(tail);
    assert multiset(head)['.'] == 0 && multiset(tail)['.'] == 0;
    assert head + "." + tail == head + ("." + tail);
    DeleteAppend(head, "." + tail, '.');
    DeleteLeading('.', tail);
    DeleteAbsent(head, '.');
    DeleteAbsent(tail, '.');
  }

  lemma StrHasNoPoint(n: int)
    ensures '.' !in Str(n)
  {
    var digits := NatStr(if n < 0 then -n else n);
    assert Str(n) == (if n < 0 then "-" else "") + digits;
    assert forall i :: 0 <= i < |digits| ==> IsDigit(digits[i]);
  }

  /** Digits with a point two places from the end read as those digits
      with two places. */
  lemma PointTwoFromEnd(digits: string)
    requires AllDigits(digits) && |digits| >= 2
    ensures UnsignedDecimal(digits[..|digits| - 2] + "." + digits[|digits| - 2..])
         == Some(Decimal(DigitsValue(digits), 2))
  {
    var a, b := digits[..|digits| - 2], digits[|digits| - 2..];
    assert AllDigits(a) && AllDigits(b) && |b| == 2;
    assert UnsignedDecimal(a + "." + b) == Some(Decimal(DigitsValue(a + b), |b|)) by {
      UnsignedDecimalPoint(a, b);
    }
    assert a + b == digits;
  }

  /** For two or more digits the point lands two places from the end, so
      the text denotes exactly `n / 100`. */
  lemma ParseValueDenotesCents(n: int)
    requires n >= 10 || n <= -10
    ensures DecimalText(ParseValue(n)) == Some(Decimal(n, 2))
    ensures DecimalText(ParseValue(n)).value.Value() == n as real / 100.0
  {
    if n < 0 {
      ParseValueNegativeCents(-n);
    } else {
      ParseValuePositiveCents(n);
    }
    DecimalPlacesValue(n);
  }

  lemma ParseValuePositiveCents(m: nat)
    requires m >= 10
    ensures DecimalText(ParseValue(m)) == Some(Decimal(m, 2))
  {
    var digits := NatStr(m);
    var a, b := digits[..|digits| - 2], digits[|digits| - 2..];
    assert Str(m) == digits;
    assert ParseValue(m) == a + "." + b;
    assert |a| == 0 || IsDigit(a[0]);
    DecimalTextUnsigned(a + "." + b);
    PointTwoFromEnd(digits);
    DigitsValueNatStr(m);
  }

  lemma ParseValueNegativeCents(m: nat)
    requires m >= 10
    ensures DecimalText(ParseValue(-(m as int))) == Some(Decimal(-(m as int), 2))
  {
    var digits := NatStr(m);
    var a, b := digits[..|digits| - 2], digits[|digits| - 2..];
    assert ParseValue(-(m as int)) == "-" + (a + "." + b) by {
      var s := Str(-(m as int));
      assert s == "-" + digits;
      assert SliceTo(s, |s| - 2) == "-" + a;
      assert SliceFrom(s, -2) == b;
    }
    assert UnsignedDecimal(a + "." + b) == Some(Decimal(m, 2)) by {
      PointTwoFromEnd(digits);
      DigitsValueNatStr(m);
    }
    assert DecimalText("-" + (a + "." + b)) == Some(Decimal(-(m as int), 2)) by {
      DecimalTextNegative(a + "." + b);
    }
  }

  /** A single digit `d` becomes ".d", which denotes `n / 10`: ten times
      the amount in cents. */
  lemma ParseValueSingleDigitTenfold(n: int)
    requires 0 <= n <= 9
    ensures ParseValue(n) == "." + Str(n)
    ensures DecimalText(ParseValue(n)) == Some(Decimal(n, 1))
    ensures DecimalText(ParseValue(n)).value.Value() == n as real / 10.0
  {
    var s := Str(n);
    assert ParseValue(n) == "." + s by {
      assert |s| == 1;
      assert SliceTo(s, |s| - 2) == "";
      assert SliceFrom(s, -2) == s;
      assert "" + "." + s == "." + s;
    }
    assert UnsignedDecimal("." + s) == Some(Decimal(n, 1)) by {
      DigitsValueNatStr(n);
      UnsignedDecimalPoint("", s);
      assert "" + "." + s == "." + s;
      assert "" + s == s;
    }
    assert DecimalText("." + s) == UnsignedDecimal("." + s) by {
      DecimalTextUnsigned("." + s);
    }
    assert Decimal(n, 1).Value() == n as real / 10.0 by {
      DecimalPlacesValue(n);
    }
  }

  /** A negative single digit `-d` becomes ".-d", which `Decimal` rejects. */
  lemma ParseValueNegativeDigitRejected(n: int)
    requires -9 <= n <= -1
    ensures ParseValue(n) == ".-" + Str(-n)
    ensures DecimalText(ParseValue(n)) == None
  {
    var s := Str(n);
    assert s == "-" + NatStr(-n) && |s| == 2;
    assert SliceTo(s, |s| - 2) == "";
    assert SliceFrom(s, -2) == s;
    var r := ParseValue(n);
    assert r == "." + s;
    assert OccursAt(r, ".", 0) by {
      assert r[0..1] == ".";
    }
    FindFirst(r, ".", 0);
    assert r[1..] == s;
    assert !IsDigit(s[0]);
    DecimalTextUnsigned(r);
  }

  /** The evidently intended conversion: the magnitude is zero-padded to
      at least three digits before the point goes in. */
  function ParseValueCents(n: int): string {
    var digits := ZeroPad(NatStr(if n < 0 then -n else n), 3);
    (if n < 0 then "-" else "") + digits[..|digits| - 2] + "." + digits[|digits| - 2..]
  }

  /** Every amount, the single-digit ones included, denotes exactly
      `n / 100` under the corrected conversion. */
  lemma ParseValueCentsDenotesCents(n: int)
    ensures DecimalText(ParseValueCents(n)) == Some(Decimal(n, 2))
    ensures DecimalText(ParseValueCents(n)).value.Value() == n as real / 100.0
  {
    if n < 0 {
      ParseValueCentsNegative(-n);
    } else {
      ParseValueCentsNatural(n);
    }
    assert Decimal(n, 2).Value() == n as real / 100.0 by {
      DecimalPlacesValue(n);
    }
  }

  /** The zero-padded digits of `m` with the point two places from the
      end, and the first of them a digit. */
  lemma PaddedCents(m: nat)
    ensures |ZeroPad(NatStr(m), 3)| >= 3
    ensures IsDigit(ZeroPad(NatStr(m), 3)[0])
    ensures UnsignedDecimal(ZeroPad(NatStr(m), 3)[..|ZeroPad(NatStr(m), 3)| - 2] + "." + ZeroPad(NatStr(m), 3)[|ZeroPad(NatStr(m), 3)| - 2..])
         == Some(Decimal(m, 2))
  {
    var digits := ZeroPad(NatStr(m), 3);
    DigitsValueZeroPad(NatStr(m), 3);
    DigitsValueNatStr(m);
    PointTwoFromEnd(digits);
  }

  lemma ParseValueCentsNatural(m: nat)
    ensures DecimalText(ParseValueCents(m)) == Some(Decimal(m, 2))
  {
    var digits := ZeroPad(NatStr(m), 3);
    var a, b := digits[..|digits| - 2], digits[|digits| - 2..];
    PaddedCents(m);
    assert ParseValueCents(m) == a + "." + b;
    assert (a + "." + b)[0] == digits[0];
    DecimalTextUnsigned(a + "." + b);
  }

  lemma ParseValueCentsNegative(m: nat)
    requires m > 0
    ensures DecimalText(ParseValueCents(-(m as int))) == Some(Decimal(-(m as int), 2))
  {
    var digits := ZeroPad(NatStr(m), 3);
    var t := digits[..|digits| - 2] + "." + digits[|digits| - 2..];
    assert ParseValueCents(-(m as int)) == "-" + t by {
      assert |digits| >= 3;
    }
    assert UnsignedDecimal(t) == Some(Decimal(m, 2)) by {
      PaddedCents(m);
    }
    DecimalTextNegative(t);
  }

  /** From three digits on, the corrected conversion writes exactly the
      text the original writes. */
  lemma ParseValueCentsAgrees(n: int)
    requires n >= 100 || n <= -100
    ensures ParseValueCents(n) == ParseValue(n)
  {
    if n < 0 {
      AgreesNegative(-n);
    } else {
      AgreesNatural(n);
    }
  }

  lemma AgreesNatural(m: nat)
    requires m >= 100
    ensures ParseValueCents(m) == ParseValue(m)
  {
    var digits := NatStr(m);
    LongNatStr(m);
    var t := digits[..|digits| - 2] + "." + digits[|digits| - 2..];
    assert ParseValueCents(m) == t by {
      assert ZeroPad(digits, 3) == digits;
    }
    assert ParseValue(m) == t by {
      assert Str(m) == digits;
    }
  }

  lemma AgreesNegative(m: nat)
    requires m >= 100
    ensures ParseValueCents(-(m as int)) == ParseValue(-(m as int))
  {
    var digits := NatStr(m);
    LongNatStr(m);
    var t := "-" + digits[..|digits| - 2] + "." + digits[|digits| - 2..];
    assert ParseValueCents(-(m as int)) == t by {
      assert ZeroPad(digits, 3) == digits;
    }
    assert ParseValue(-(m as int)) == t by {
      NegativeSlices(m);
    }
  }

  /** A number from 100 on has at least three digits. */
  lemma LongNatStr(m: nat)
    requires m >= 100
    ensures |NatStr(m)| >= 3
  {
    assert NatStr(m) == NatStr(m / 10) + [DigitChar(m % 10)];
  }

  /** The two slices `parse_value` takes of `str(-m)` when `m` has at
      least two digits. */
  lemma NegativeSlices(m: nat)
    requires |NatStr(m)| >= 2
    ensures SliceTo(Str(-(m as int)), |Str(-(m as int))| - 2) == "-" + NatStr(m)[..|NatStr(m)| - 2]
    ensures SliceFrom(Str(-(m as int)), -2) == NatStr(m)[|NatStr(m)| - 2..]
  {
    var digits := NatStr(m);
    assert Str(-(m as int)) == "-" + digits;
  }
}
