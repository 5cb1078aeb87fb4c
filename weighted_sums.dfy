/** Finite weighted sums sum_i coeffs[i] * psi(i), the shape of every value
    reconstruct_fbm_path accumulates, and the algebra of such sums: linearity
    in the coefficients, zero coefficients, a bound by the absolute mass, sign
    flips, and independence of the order in which the terms are added. */
module WeightedSums {

  /** coeffs[0] * psi(0) + ... + coeffs[n - 1] * psi(n - 1), added in index order. */
  function WeightedSum(coeffs: seq<real>, n: nat, psi: nat -> real): real
    requires n <= |coeffs|
  {
    if n == 0 then 0.0 else WeightedSum(coeffs, n - 1, psi) + coeffs[n - 1] * psi(n - 1)
  }

  // ---------------------------------------------------------------------------
  // Linearity in the coefficients
  // ---------------------------------------------------------------------------

  /** c is a * c1 + c2, entry by entry. */
  predicate IsCombination(a: real, c: seq<real>, c1: seq<real>, c2: seq<real>)
  {
    |c| == |c1| == |c2| && forall i :: 0 <= i < |c| ==> c[i] == a * c1[i] + c2[i]
  }

  /** (a p + q) + (a x + y) w regrouped as a (p + x w) + (q + y w). */
  lemma Distribute(a: real, x: real, y: real, w: real, p: real, q: real)
    ensures (a * p + q) + (a * x + y) * w == a * (p + x * w) + (q + y * w)
  {
    assert (a * x + y) * w == a * (x * w) + y * w;
    assert a * p + a * (x * w) == a * (p + x * w);
  }

  /** When c = a * c1 + c2 entry by entry, every partial sum for c is a times
      the partial sum for c1 plus the partial sum for c2. */
  lemma {:induction false} WeightedSumLinear(a: real, c: seq<real>, c1: seq<real>, c2: seq<real>, n: nat,
                                             psi: nat -> real)
    requires IsCombination(a, c, c1, c2) && n <= |c|
    ensures WeightedSum(c, n, psi) == a * WeightedSum(c1, n, psi) + WeightedSum(c2, n, psi)
  {
    if n > 0 {
      WeightedSumLinear(a, c, c1, c2, n - 1, psi);
      Distribute(a, c1[n - 1], c2[n - 1], psi(n - 1), WeightedSum(c1, n - 1, psi), WeightedSum(c2, n - 1, psi));
    }
  }

  /** The same for the whole sums, handed in as the values s, s1 and s2 (so a
      caller can name them by any equal expression): s = a * s1 + s2. */
  lemma {:induction false} WholeSumLinear(a: real, c: seq<real>, c1: seq<real>, c2: seq<real>, psi: nat -> real,
                                          s: real, s1: real, s2: real)
    requires IsCombination(a, c, c1, c2)
    requires s == WeightedSum(c, |c|, psi) && s1 == WeightedSum(c1, |c1|, psi) && s2 == WeightedSum(c2, |c2|, psi)
    ensures s == a * s1 + s2
  {
    WeightedSumLinear(a, c, c1, c2, |c|, psi);
  }

  /** All-zero coefficients give a zero sum, whatever the weights. */
  lemma {:induction false} WeightedSumZero(coeffs: seq<real>, n: nat, psi: nat -> real)
    requires n <= |coeffs|
    requires forall i :: 0 <= i < |coeffs| ==> coeffs[i] == 0.0
    ensures WeightedSum(coeffs, n, psi) == 0.0
  {
    if n > 0 {
      WeightedSumZero(coeffs, n - 1, psi);
    }
  }

  // ---------------------------------------------------------------------------
  // Size and sign
  // ---------------------------------------------------------------------------

  function Abs(x: real): real
  {
    if x < 0.0 then -x else x
  }

  /** |coeffs[0]| * mag(0) + ... + |coeffs[n - 1]| * mag(n - 1). */
  function AbsMass(coeffs: seq<real>, n: nat, mag: nat -> real): real
    requires n <= |coeffs|
  {
    if n == 0 then 0.0 else AbsMass(coeffs, n - 1, mag) + Abs(coeffs[n - 1]) * mag(n - 1)
  }

  /** |c * w| = |c| * s when w is s or -s and s >= 0. */
  lemma AbsScaled(c: real, w: real, s: real)
    requires s >= 0.0 && (w == s || w == -s)
    ensures Abs(c * w) == Abs(c) * s
  {
    if w == -s {
      assert c * w == -(c * s);
    }
    if c < 0.0 {
      assert c * s <= 0.0;
    } else {
      assert c * s >= 0.0;
    }
  }

  /** The triangle inequality, one term at a time. */
  lemma AbsStep(u: real, x: real, m: real, y: real)
    requires Abs(u) <= m && Abs(x) <= y
    ensures Abs(u + x) <= m + y
  {
  }

  /** When every weight is +mag(i) or -mag(i) with mag(i) >= 0, the sum is at
      most the absolute mass in absolute value. */
  lemma {:induction false} WeightedSumBounded(coeffs: seq<real>, n: nat, psi: nat -> real, mag: nat -> real)
    requires n <= |coeffs|
    requires forall i :: 0 <= i < n ==> mag(i) >= 0.0 && (psi(i) == mag(i) || psi(i) == -mag(i))
    ensures Abs(WeightedSum(coeffs, n, psi)) <= AbsMass(coeffs, n, mag)
  {
    if n > 0 {
      WeightedSumBounded(coeffs, n - 1, psi, mag);
      AbsScaled(coeffs[n - 1], psi(n - 1), mag(n - 1));
      AbsStep(WeightedSum(coeffs, n - 1, psi), coeffs[n - 1] * psi(n - 1),
              AbsMass(coeffs, n - 1, mag), Abs(coeffs[n - 1]) * mag(n - 1));
    }
  }

  /** Negating every weight negates the sum. */
  lemma {:induction false} WeightedSumNegated(coeffs: seq<real>, n: nat, psi: nat -> real, mag: nat -> real)
    requires n <= |coeffs|
    requires forall i :: 0 <= i < n ==> psi(i) == -mag(i)
    ensures WeightedSum(coeffs, n, psi) == -WeightedSum(coeffs, n, mag)
  {
    if n > 0 {
      WeightedSumNegated(coeffs, n - 1, psi, mag);
      assert coeffs[n - 1] * psi(n - 1) == -(coeffs[n - 1] * mag(n - 1));
    }
  }

  // ---------------------------------------------------------------------------
  // Order of the terms
  // ---------------------------------------------------------------------------

  /** f(order[0]) + f(order[1]) + ..., added up in the order listed. */
  function SumOver(order: seq<nat>, f: nat -> real): real
  {
    if |order| == 0 then 0.0 else f(order[0]) + SumOver(order[1..], f)
  }

  /** The indices 0 .. n - 1 in increasing order, as range(n) visits them. */
  function Range(n: nat): (r: seq<nat>)
    ensures |r| == n
    ensures forall p :: 0 <= p < n ==> r[p] == p
  {
    seq(n, p requires 0 <= p < n => p)
  }

  lemma {:induction false} SumOverAppend(a: seq<nat>, b: seq<nat>, f: nat -> real)
    ensures SumOver(a + b, f) == SumOver(a, f) + SumOver(b, f)
    decreases |a|
  {
    if |a| > 0 {
      assert (a + b)[1..] == a[1..] + b;
      SumOverAppend(a[1..], b, f);
    } else {
      assert a + b == b;
    }
  }

  /** Taking the term at position p out of the list and adding it first. */
  lemma SumOverRemove(b: seq<nat>, p: nat, f: nat -> real)
    requires p < |b|
    ensures SumOver(b, f) == f(b[p]) + SumOver(b[..p] + b[p + 1..], f)
  {
    assert b == b[..p] + b[p..];
    SumOverAppend(b[..p], b[p..], f);
    SumOverAppend(b[..p], b[p + 1..], f);
    assert b[p..][1..] == b[p + 1..];
  }

  /** Removing the entry at position p removes one copy of it from the multiset. */
  lemma MultisetRemove(b: seq<nat>, p: nat)
    requires p < |b|
    ensures multiset(b) == multiset(b[..p] + b[p + 1..]) + multiset{b[p]}
  {
    assert b == b[..p] + [b[p]] + b[p + 1..];
  }

  lemma MultisetCancel(m1: multiset<nat>, m2: multiset<nat>, x: nat)
    requires m1 + multiset{x} == m2 + multiset{x}
    ensures m1 == m2
  {
    forall y
      ensures m1[y] == m2[y]
    {
      assert (m1 + multiset{x})[y] == (m2 + multiset{x})[y];
    }
  }

  /** Adding up the same indices in any order gives the same sum. */
  lemma {:induction false} SumOverPermutation(a: seq<nat>, b: seq<nat>, f: nat -> real)
    requires multiset(a) == multiset(b)
    ensures SumOver(a, f) == SumOver(b, f)
    decreases |a|
  {
    if |a| == 0 {
      assert |multiset(b)| == 0;
    } else {
      var x := a[0];
      assert x in multiset(b);
      var p :| 0 <= p < |b| && b[p] == x;
      var rest := b[..p] + b[p + 1..];
      assert a == [x] + a[1..];
      MultisetRemove(b, p);
      MultisetCancel(multiset(a[1..]), multiset(rest), x);
      SumOverRemove(b, p, f);
      SumOverPermutation(a[1..], rest, f);
    }
  }

  /** Listing the indices 0 .. n - 1 in increasing order with f(i) =
      coeffs[i] * psi(i) gives the weighted sum. */
  lemma {:induction false} SumOverRange(coeffs: seq<real>, n: nat, psi: nat -> real, f: nat -> real)
    requires n <= |coeffs|
    requires forall i :: 0 <= i < n ==> f(i) == coeffs[i] * psi(i)
    ensures SumOver(Range(n), f) == WeightedSum(coeffs, n, psi)
  {
    if n > 0 {
      SumOverRange(coeffs, n - 1, psi, f);
      assert Range(n) == Range(n - 1) + [n - 1];
      SumOverAppend(Range(n - 1), [n - 1], f);
    }
  }
}
