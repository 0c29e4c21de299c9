/** ASCII decimal digits and the numbers they denote. */
module Decimals {
  import opened Bytes

  predicate IsDigit(b: byte) {
    48 <= b <= 57
  }

  function DigitByte(d: nat): (b: byte)
    requires d <= 9
    ensures IsDigit(b) && DigitValue(b) == d
  {
    48 + d as bv8
  }

  function DigitValue(b: byte): (d: nat)
    requires IsDigit(b)
    ensures d <= 9
  {
    (b - 48) as nat
  }

  /** Decimal value. */
  function Value(ds: seq<byte>): nat
    requires forall d | d in ds :: IsDigit(d)
  {
    if ds == [] then 0 else 10 * Value(ds[..|ds| - 1]) + DigitValue(ds[|ds| - 1])
  }

  /** Decimal notation without leading zeros. */
  function Decimal(n: nat): seq<byte> {
    (if n < 10 then [] else Decimal(n / 10)) + [DigitByte(n % 10)]
  }

  predicate AllDigits(ds: seq<byte>) {
    forall d | d in ds :: IsDigit(d)
  }

  /** What a number is written as denotes it, and does not start with a zero. */
  lemma {:induction false} DecimalDenotes(n: nat)
    ensures AllDigits(Decimal(n)) && Value(Decimal(n)) == n
    ensures Decimal(n) != [] && (Decimal(n)[0] == 48 ==> n == 0)
  {
    var init, last := if n < 10 then [] else Decimal(n / 10), DigitByte(n % 10);
    if n >= 10 {
      DecimalDenotes(n / 10);
    } else {
      DigitZero(n);
    }
    hide DigitByte, DigitValue;
    assert Decimal(n) == init + [last] && (init + [last])[..|init|] == init;
  }

  lemma DigitZero(d: nat)
    requires d <= 9
    ensures DigitByte(d) == 48 ==> d == 0
  {
  }

  /** It is the only such notation. */
  lemma {:induction false} DecimalIsCanonical(ds: seq<byte>)
    requires ds != [] && AllDigits(ds) && (ds[0] == 48 ==> |ds| == 1)
    ensures Decimal(Value(ds)) == ds
  {
    var last := |ds| - 1;
    var init, d := ds[..last], DigitValue(ds[last]);
    SameDigit(ds[last]);
    if init == [] {
      assert Value(ds) == d;
    } else {
      DecimalIsCanonical(init);
      Positive(init);
      assert Value(ds) == 10 * Value(init) + d && Value(ds) / 10 == Value(init) && Value(ds) % 10 == d;
    }
    assert ds == init + [ds[last]];
  }

  lemma SameDigit(b: byte)
    requires IsDigit(b)
    ensures DigitByte(DigitValue(b)) == b
  {
  }

  lemma {:induction false} Positive(ds: seq<byte>)
    requires ds != [] && AllDigits(ds) && ds[0] != 48
    ensures Value(ds) > 0
  {
    var last := |ds| - 1;
    if last > 0 {
      Positive(ds[..last]);
    } else {
      NotZero(ds[0]);
    }
  }

  lemma NotZero(b: byte)
    requires IsDigit(b) && b != 48
    ensures DigitValue(b) > 0
  {
  }
}
