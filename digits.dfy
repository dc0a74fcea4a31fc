/**
 * The digit codec of `Rational`: a magnitude is kept as a fixed-length list
 * of decimal digits, least significant digit first.  This module gives the
 * meaning of such a list (Value) and the list that encoding a magnitude into
 * a given number of positions produces (Encode); the loops of
 * `Rational.IntToDigits` and `Rational.DigitsToInt` are proved against them.
 */
module Digits {
  import opened NumberTheory

  /** 10 to the power n. */
  function Pow10(n: nat): (p: nat)
    ensures p >= 1
  {
    if n == 0 then 1 else 10 * Pow10(n - 1)
  }

  /** Every entry is a decimal digit 0..9. */
  predicate IsDigits(ds: seq<int>) {
    forall i :: 0 <= i < |ds| ==> 0 <= ds[i] <= 9
  }

  /** The number a least-significant-first digit list stands for. */
  function Value(ds: seq<int>): (v: int)
    ensures IsDigits(ds) ==> 0 <= v < Pow10(|ds|)
  {
    if ds == [] then 0 else ds[0] + 10 * Value(ds[1..])
  }

  /**
   * The n least significant decimal digits of v, least significant first;
   * positions past the last nonzero digit of v hold 0, and digits of v past
   * position n are dropped.
   */
  function Encode(v: nat, n: nat): (ds: seq<int>)
    ensures |ds| == n && IsDigits(ds)
  {
    if n == 0 then [] else [v % 10] + Encode(v / 10, n - 1)
  }

  lemma ModSplit(v: nat, p: nat)
    requires p > 0
    ensures v % (10 * p) == v % 10 + 10 * ((v / 10) % p)
  {
    var q, r := (v / 10) / p, (v / 10) % p;
    assert v / 10 == p * q + r;
    assert v == 10 * (v / 10) + v % 10;
    assert v == (10 * p) * q + (v % 10 + 10 * r);
    DivModUnique(v, 10 * p, q, v % 10 + 10 * r);
  }

  /** Encoding keeps v modulo 10^n: the digits beyond capacity are dropped. */
  lemma {:induction false} EncodeValue(v: nat, n: nat)
    ensures Value(Encode(v, n)) == v % Pow10(n)
  {
    if n == 0 {
      DivModUnique(v, 1, v, 0);
    } else {
      EncodeValue(v / 10, n - 1);
      assert Encode(v, n)[1..] == Encode(v / 10, n - 1);
      ModSplit(v, Pow10(n - 1));
    }
  }

  /** Round trip: a magnitude below 10^n encodes to digits that decode to it. */
  lemma RoundTrip(v: nat, n: nat)
    requires v < Pow10(n)
    ensures Value(Encode(v, n)) == v
  {
    EncodeValue(v, n);
    DivModUnique(v, Pow10(n), 0, v);
  }

  /** The other round trip: a digit list is the encoding of its own value. */
  lemma {:induction false} DecodeEncode(ds: seq<int>)
    requires IsDigits(ds)
    ensures Value(ds) >= 0 && Encode(Value(ds), |ds|) == ds
  {
    if ds != [] {
      var tail := ds[1..];
      assert IsDigits(tail);
      DecodeEncode(tail);
      var v := Value(ds);
      DivModUnique(v, 10, Value(tail), ds[0]);
      assert Encode(v, |ds|) == [ds[0]] + Encode(Value(tail), |tail|);
    }
  }

  /** One step of the encoder: the next digit moves from the pending encoding to the done prefix. */
  lemma EncodeStep(done: seq<int>, v: nat, k: nat)
    requires k > 0
    ensures done + Encode(v, k) == (done + [v % 10]) + Encode(v / 10, k - 1)
  {
    assert Encode(v, k) == [v % 10] + Encode(v / 10, k - 1);
  }

  /** Encoding 0 gives all zero digits. */
  lemma {:induction false} EncodeZero(n: nat)
    ensures forall i :: 0 <= i < n ==> Encode(0, n)[i] == 0
  {
    if n > 0 {
      EncodeZero(n - 1);
      assert Encode(0, n) == [0] + Encode(0, n - 1);
    }
  }

  /** A list whose only nonzero digit is a leading 1 stands for 1. */
  lemma {:induction false} ValueOfUnit(ds: seq<int>)
    requires |ds| >= 1 && ds[0] == 1
    requires forall i :: 1 <= i < |ds| ==> ds[i] == 0
    ensures Value(ds) == 1
  {
    ValueOfZeros(ds[1..]);
  }

  lemma {:induction false} ValueOfZeros(ds: seq<int>)
    requires forall i :: 0 <= i < |ds| ==> ds[i] == 0
    ensures Value(ds) == 0
  {
    if ds != [] {
      ValueOfZeros(ds[1..]);
    }
  }
}
