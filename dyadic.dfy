/** Dyadic arithmetic shared by the wavelet code: integer powers of two, the
    floor of the base-2 logarithm, exact real powers 2^e for integer e, and the
    half-open Haar support [k 2^-j, (k+1) 2^-j). */
module Dyadic {

  /** 2^n as a natural number (Python's `2**n` on a non-negative int). */
  function Pow2(n: nat): (r: nat)
    ensures r >= 1
  {
    if n == 0 then 1 else 2 * Pow2(n - 1)
  }

  lemma {:induction false} Pow2Monotone(a: nat, b: nat)
    requires a <= b
    ensures Pow2(a) <= Pow2(b)
    decreases b - a
  {
    if a < b {
      Pow2Monotone(a + 1, b);
    }
  }

  /** Floor of log2 n; Log2Bounds says it brackets n between powers of two. */
  function Log2(n: nat): nat
    requires n >= 1
  {
    Log2From(n, 0)
  }

  /** The search behind Log2: the first exponent from e upward whose next
      power of two exceeds n. */
  function Log2From(n: nat, e: nat): nat
    requires Pow2(e) <= n
    decreases n - Pow2(e)
  {
    if n < Pow2(e + 1) then e else Log2From(n, e + 1)
  }

  lemma {:induction false} Log2FromBounds(n: nat, e: nat)
    requires Pow2(e) <= n
    ensures e <= Log2From(n, e)
    ensures Pow2(Log2From(n, e)) <= n < Pow2(Log2From(n, e) + 1)
    decreases n - Pow2(e)
  {
    if n >= Pow2(e + 1) {
      Log2FromBounds(n, e + 1);
    }
  }

  /** 2^Log2(n) <= n < 2^(Log2(n) + 1). */
  lemma Log2Bounds(n: nat)
    requires n >= 1
    ensures Pow2(Log2(n)) <= n < Pow2(Log2(n) + 1)
  {
    Log2FromBounds(n, 0);
  }

  /** Any exponent that brackets n is the one Log2 finds. */
  lemma Log2Unique(n: nat, e: nat)
    requires 1 <= n
    requires Pow2(e) <= n < Pow2(e + 1)
    ensures Log2(n) == e
  {
    var l := Log2(n);
    Log2Bounds(n);
    if l < e {
      Pow2Monotone(l + 1, e);
    } else if e < l {
      Pow2Monotone(e + 1, l);
    }
  }

  /** The real number 2^e for any integer exponent (Python's `2.0 ** e`). */
  function TwoPow(e: int): (r: real)
    ensures r > 0.0
    ensures e <= 0 ==> r * (Pow2(-e) as real) == 1.0
  {
    if e >= 0 then Pow2(e) as real else 1.0 / (Pow2(-e) as real)
  }

  /** Raising the exponent by one doubles the power, for every integer exponent. */
  lemma TwoPowStep(e: int)
    ensures TwoPow(e + 1) == 2.0 * TwoPow(e)
  {
    if e < 0 {
      var p := Pow2(-e - 1) as real;
      assert Pow2(-e) as real == 2.0 * p;
      assert TwoPow(e + 1) * p == 1.0;
      assert TwoPow(e) * (2.0 * p) == 1.0;
    }
  }

  /** Left end of the Haar support of scale j and translation k: k * 2.0 ** (-j). */
  function SupportStart(j: int, k: int): real
  {
    (k as real) * TwoPow(-j)
  }

  /** Right end of the same support: (k + 1) * 2.0 ** (-j). */
  function SupportEnd(j: int, k: int): real
  {
    ((k + 1) as real) * TwoPow(-j)
  }

  /** The comparison `support_start <= t < support_end` that both Haar
      evaluators perform. */
  predicate InSupport(t: real, j: int, k: int)
  {
    SupportStart(j, k) <= t < SupportEnd(j, k)
  }

  /** Support starts move right with the translation; each support ends where
      the next one starts. */
  lemma SupportStartMonotone(j: int, a: int, b: int)
    requires a <= b
    ensures SupportStart(j, a) <= SupportStart(j, b)
    ensures SupportEnd(j, a) == SupportStart(j, a + 1)
  {
    var w := TwoPow(-j);
    assert (a as real) <= (b as real);
    assert (a as real) * w <= (b as real) * w;
  }

  /** The supports of one scale are disjoint: a time lies in at most one. */
  lemma SupportsDisjoint(t: real, j: int, k1: int, k2: int)
    requires InSupport(t, j, k1) && InSupport(t, j, k2)
    ensures k1 == k2
  {
    if k1 < k2 {
      SupportStartMonotone(j, k1 + 1, k2);
      SupportStartMonotone(j, k1, k1);
      assert false;
    } else if k2 < k1 {
      SupportStartMonotone(j, k2 + 1, k1);
      SupportStartMonotone(j, k2, k2);
      assert false;
    }
  }

  /** Scaling lo <= t / w < hi back by a positive width w. */
  lemma ScaleBack(t: real, w: real, lo: real, hi: real)
    requires w > 0.0 && lo <= t / w < hi
    ensures lo * w <= t < hi * w
  {
    var q := t / w;
    assert q * w == t;
    assert (q - lo) * w >= 0.0;
    assert (hi - q) * w > 0.0;
  }

  /** For a positive width w, t lies between floor(t / w) * w and the next
      multiple of w. */
  lemma FloorCovers(t: real, w: real)
    requires w > 0.0
    ensures ((t / w).Floor as real) * w <= t < (((t / w).Floor + 1) as real) * w
  {
    var k := (t / w).Floor;
    ScaleBack(t, w, k as real, (k + 1) as real);
  }

  /** Every time lies in the support of the translation floor(t * 2^j). */
  lemma SupportCovers(t: real, j: int)
    ensures InSupport(t, j, (t / TwoPow(-j)).Floor)
  {
    FloorCovers(t, TwoPow(-j));
  }

  lemma QuotientBelowOne(x: real, p: real)
    requires 0.0 < p && x < p
    ensures x * (1.0 / p) < 1.0
  {
    assert x * (1.0 / p) == x / p;
  }

  /** A support that starts at most at translation 2^j - 2 ends before 1. */
  lemma SupportEndBelowOne(j: nat, k: int)
    requires k <= Pow2(j) - 2
    ensures SupportEnd(j, k) < 1.0
  {
    var p := Pow2(j) as real;
    var x := (k + 1) as real;
    assert 0.0 < p && x < p;
    assert SupportEnd(j, k) == x * (1.0 / p);
    QuotientBelowOne(x, p);
  }
}
