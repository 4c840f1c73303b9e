/** Positional numerals: big-endian digit sequences of a fixed base and the numbers they denote. */
module Numerals {

  function Pow(b: nat, k: nat): nat
  {
    if k == 0 then 1 else b * Pow(b, k - 1)
  }

  /** Division by repeated subtraction: keeps the solver away from symbolic `/`. */
  function Quot(n: nat, b: nat): (q: nat)
    requires b > 0
    ensures q * b <= n < q * b + b
    ensures n >= b ==> q > 0
    ensures b > 1 && n > 0 ==> q < n
  {
    if n < b then 0 else 1 + Quot(n - b, b)
  }

  function Rem(n: nat, b: nat): (r: nat)
    requires b > 0
    ensures r < b
    ensures n == Quot(n, b) * b + r
  {
    n - Quot(n, b) * b
  }

  predicate DigitsBelow(b: nat, ds: seq<nat>)
  {
    forall i :: 0 <= i < |ds| ==> ds[i] < b
  }

  /** The number written by the digits `ds`, most significant digit first. */
  function Value(b: nat, ds: seq<nat>): nat
  {
    if ds == [] then 0 else Value(b, ds[..|ds| - 1]) * b + ds[|ds| - 1]
  }

  /** The `k` least significant digits of `n`, most significant first. */
  function Field(b: nat, n: nat, k: nat): (ds: seq<nat>)
    requires b > 0
    ensures |ds| == k
    ensures DigitsBelow(b, ds)
  {
    if k == 0 then [] else Field(b, Quot(n, b), k - 1) + [Rem(n, b)]
  }

  lemma {:induction false} PowPositive(b: nat, k: nat)
    requires b > 0
    ensures Pow(b, k) > 0
  {
    if k > 0 { PowPositive(b, k - 1); }
  }

  lemma {:induction false} PowAdd(b: nat, j: nat, k: nat)
    ensures Pow(b, j + k) == Pow(b, j) * Pow(b, k)
  {
    if j > 0 {
      PowAdd(b, j - 1, k);
      MulAssoc(b, Pow(b, j - 1), Pow(b, k));
    }
  }

  lemma {:induction false} PowMonotone(b: nat, j: nat, k: nat)
    requires b > 0 && j <= k
    ensures Pow(b, j) <= Pow(b, k)
  {
    if j < k {
      PowMonotone(b, j, k - 1);
      MulMonotone(1, b, Pow(b, k - 1));
    }
  }

  lemma MulAssoc(x: nat, y: nat, z: nat)
    ensures (x * y) * z == x * (y * z)
  {
  }

  lemma MulMonotone(x: nat, y: nat, b: nat)
    requires x <= y
    ensures x * b <= y * b
  {
  }

  lemma QuotientsAgree(p: nat, r: nat, q: nat, d: nat, b: nat)
    requires r < b && d < b && p * b + r == q * b + d
    ensures p <= q
  {
    if q < p {
      MulMonotone(q + 1, p, b);
      assert false;
    }
  }

  /** Quotient and remainder are the only such pair. */
  lemma {:induction false} QuotUnique(q: nat, b: nat, d: nat)
    requires d < b
    ensures Quot(q * b + d, b) == q
    ensures Rem(q * b + d, b) == d
  {
    var n := q * b + d;
    QuotientsAgree(Quot(n, b), Rem(n, b), q, d, b);
    QuotientsAgree(q, d, Quot(n, b), Rem(n, b), b);
  }

  lemma QuotBelow(n: nat, b: nat, p: nat)
    requires b > 0 && n < b * p
    ensures Quot(n, b) < p
  {
    if p <= Quot(n, b) {
      MulMonotone(p, Quot(n, b), b);
      assert false;
    }
  }

  /** A digit sequence denotes a number below `b` to the power of its length. */
  lemma {:induction false} ValueBound(b: nat, ds: seq<nat>)
    requires DigitsBelow(b, ds)
    ensures Value(b, ds) < Pow(b, |ds|)
  {
    if ds != [] {
      var hi := ds[..|ds| - 1];
      ValueBound(b, hi);
      DigitFits(Value(b, hi), ds[|ds| - 1], b, Pow(b, |hi|));
    }
  }

  lemma DigitFits(v: nat, d: nat, b: nat, p: nat)
    requires v < p && d < b
    ensures v * b + d < b * p
  {
    MulMonotone(v + 1, p, b);
  }

  /** Writing a number that fits and reading it back is the identity. */
  lemma {:induction false} ValueOfField(b: nat, n: nat, k: nat)
    requires b > 0 && n < Pow(b, k)
    ensures Value(b, Field(b, n, k)) == n
  {
    if k > 0 {
      QuotBelow(n, b, Pow(b, k - 1));
      ValueOfField(b, Quot(n, b), k - 1);
      assert Field(b, n, k)[..k - 1] == Field(b, Quot(n, b), k - 1);
    }
  }

  /** Reading digits and writing the number back at the same width is the identity. */
  lemma {:induction false} FieldOfValue(b: nat, ds: seq<nat>)
    requires b > 0 && DigitsBelow(b, ds)
    ensures Field(b, Value(b, ds), |ds|) == ds
  {
    if ds != [] {
      var hi, lo := ds[..|ds| - 1], ds[|ds| - 1];
      FieldOfValue(b, hi);
      QuotUnique(Value(b, hi), b, lo);
      assert ds == hi + [lo];
    }
  }

  /** Splitting a numeral: the high part is worth its value times the weight of the low part. */
  lemma {:induction false} ValueAppend(b: nat, hi: seq<nat>, lo: seq<nat>)
    ensures Value(b, hi + lo) == Value(b, hi) * Pow(b, |lo|) + Value(b, lo)
  {
    if lo == [] {
      assert hi + lo == hi;
    } else {
      var lo', d := lo[..|lo| - 1], lo[|lo| - 1];
      ValueAppend(b, hi, lo');
      assert (hi + lo)[..|hi + lo| - 1] == hi + lo';
      MulAssoc(Value(b, hi), Pow(b, |lo'|), b);
      Distribute(Value(b, hi) * Pow(b, |lo'|), Value(b, lo'), b);
    }
  }

  lemma Distribute(x: nat, y: nat, b: nat)
    ensures (x + y) * b == x * b + y * b
  {
  }

  /** A narrower field is the tail of a wider one. */
  lemma {:induction false} FieldTail(b: nat, n: nat, j: nat, k: nat)
    requires b > 0
    ensures Field(b, n, j + k)[j..] == Field(b, n, k)
  {
    if k > 0 {
      FieldTail(b, Quot(n, b), j, k - 1);
      assert Field(b, n, j + k)[j..] == Field(b, Quot(n, b), j + (k - 1))[j..] + [Rem(n, b)];
    }
  }

  /** Zero is written with zero digits only. */
  lemma {:induction false} ZeroField(b: nat, k: nat, i: nat)
    requires b > 0 && i < k
    ensures Field(b, 0, k)[i] == 0
  {
    QuotUnique(0, b, 0);
    if i < k - 1 { ZeroField(b, k - 1, i); }
  }

  lemma TwoTo64()
    ensures Pow(2, 64) == 0x1_0000_0000_0000_0000
  {
    SmallPowers();
    PowAdd(2, 4, 4);
    PowAdd(2, 8, 8);
    PowAdd(2, 16, 16);
    PowAdd(2, 32, 32);
  }

  lemma SmallPowers()
    ensures Pow(2, 1) == 2 && Pow(2, 2) == 4 && Pow(2, 3) == 8 && Pow(2, 4) == 16
    ensures Pow(2, 5) == 32 && Pow(2, 6) == 64 && Pow(2, 7) == 0x80
  {
    assert Pow(2, 2) == 2 * Pow(2, 1);
    assert Pow(2, 4) == 2 * Pow(2, 3);
    assert Pow(2, 6) == 2 * Pow(2, 5);
  }
}
