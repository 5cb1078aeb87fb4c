/** Properties of the reconstructed value sum_i coeffs[i] * haar_wavelet(t, j(i), k(i), H)
    that reconstruct_fbm_path accumulates: it vanishes on zero coefficients,
    does not depend on the order in which the coefficients are visited, is
    bounded by the absolute coefficient mass, and is the same constant at
    every time from 1 on. The facts about sums are proved in WeightedSums for
    any weights psi and applied here to the wavelets at time t. */
module PathSums {
  import opened Dyadic
  import opened WeightedSums
  import opened WaveletQmc

  /** All-zero coefficients give the all-zero path. */
  lemma PathValueZero(coeffs: seq<real>, t: real, H: real, amp: Amplitude)
    requires forall i :: 0 <= i < |coeffs| ==> coeffs[i] == 0.0
    ensures PathValue(coeffs, t, H, amp) == 0.0
  {
    WeightedSumZero(coeffs, |coeffs|, WaveletsAt(t, H, amp));
  }

  /** The path is linear in the Sobol coefficients: when c = a * c1 + c2
      entry by entry, the path for c is a times the path for c1 plus the path
      for c2, at every time. */
  lemma {:induction false} PathValueLinear(a: real, c: seq<real>, c1: seq<real>, c2: seq<real>, t: real, H: real,
                                           amp: Amplitude)
    requires IsCombination(a, c, c1, c2)
    ensures PathValue(c, t, H, amp) == a * PathValue(c1, t, H, amp) + PathValue(c2, t, H, amp)
  {
    WholeSumLinear(a, c, c1, c2, WaveletsAt(t, H, amp),
                   PathValue(c, t, H, amp), PathValue(c1, t, H, amp), PathValue(c2, t, H, amp));
  }

  /** The contribution coeffs[i] * psi(i) of each coefficient index (nothing
      for an index past the end). */
  function Contributions(coeffs: seq<real>, psi: nat -> real): nat -> real
  {
    (i: nat) => if i < |coeffs| then coeffs[i] * psi(i) else 0.0
  }

  /** Visiting the coefficient indices in any order, each exactly once, gives
      the same exact sum as the loop's increasing order. */
  lemma ReconstructionOrderFree(coeffs: seq<real>, order: seq<nat>, t: real, H: real, amp: Amplitude)
    requires multiset(order) == multiset(Range(|coeffs|))
    ensures SumOver(order, Contributions(coeffs, WaveletsAt(t, H, amp))) == PathValue(coeffs, t, H, amp)
  {
    var psi := WaveletsAt(t, H, amp);
    var f := Contributions(coeffs, psi);
    forall i | 0 <= i < |coeffs|
      ensures f(i) == coeffs[i] * psi(i)
    {
    }
    SumOverRange(coeffs, |coeffs|, psi, f);
    SumOverPermutation(order, Range(|coeffs|), f);
  }

  /** The scale of each coefficient's wavelet: i |-> 2.0 ** (-j(i) * (H + 0.5)). */
  function ScalesOf(H: real, amp: Amplitude): nat -> real
  {
    i => amp(Scale(i), H)
  }

  /** With non-negative scales the path never exceeds
      sum_i |coeffs[i]| * 2.0 ** (-j(i) * (H + 0.5)) in absolute value, at any time. */
  lemma PathValueBounded(coeffs: seq<real>, t: real, H: real, amp: Amplitude)
    requires forall i :: 0 <= i < |coeffs| ==> amp(Scale(i), H) >= 0.0
    ensures Abs(PathValue(coeffs, t, H, amp)) <= AbsMass(coeffs, |coeffs|, ScalesOf(H, amp))
  {
    var psi, mag := WaveletsAt(t, H, amp), ScalesOf(H, amp);
    forall i | 0 <= i < |coeffs|
      ensures mag(i) >= 0.0 && (psi(i) == mag(i) || psi(i) == -mag(i))
    {
    }
    WeightedSumBounded(coeffs, |coeffs|, psi, mag);
  }

  /** Every support of the layout ends before 1, so from t = 1 on the path is
      the constant -sum_i coeffs[i] * 2.0 ** (-j(i) * (H + 0.5)), whatever t is. */
  lemma PathValuePastUnit(coeffs: seq<real>, t: real, H: real, amp: Amplitude)
    requires t >= 1.0
    ensures PathValue(coeffs, t, H, amp) == -WeightedSum(coeffs, |coeffs|, ScalesOf(H, amp))
  {
    var psi, mag := WaveletsAt(t, H, amp), ScalesOf(H, amp);
    forall i | 0 <= i < |coeffs|
      ensures psi(i) == -mag(i)
    {
      TranslationRange(i);
      HaarPastUnit(t, Scale(i), Translation(i), H, amp);
    }
    WeightedSumNegated(coeffs, |coeffs|, psi, mag);
  }
}
