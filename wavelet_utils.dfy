/** The helpers of core/wavelet_utils.py: the 0/1 Haar indicator haar_basis,
    the step rule adaptive_j_max that picks the finest scale from the Hurst
    parameter, and wavelet_heatmap, which lays a coefficient vector out level
    by level in a (j_max + 1) x 2^j_max array. The heatmap uses the
    conventional layout (offset 2^j - 1, translations from 0, level 0
    included), which is not the layout reconstruct_fbm_path decodes;
    ConventionMismatch says exactly where the two differ. */
module WaveletUtils {
  import opened Dyadic
  import opened WaveletQmc

  // ---------------------------------------------------------------------------
  // haar_basis
  // ---------------------------------------------------------------------------

  /** haar_basis: 1.0 on the support [k 2^-j, (k+1) 2^-j), 0.0 elsewhere. */
  function HaarBasis(t: real, j: int, k: int): (r: real)
    ensures r == 0.0 || r == 1.0
    ensures r == 1.0 <==> InSupport(t, j, k)
  {
    if InSupport(t, j, k) then 1.0 else 0.0
  }

  /** For a fixed scale, at most one translation has the indicator on at t. */
  lemma AtMostOneTranslation(t: real, j: int, k1: int, k2: int)
    requires HaarBasis(t, j, k1) == 1.0 && HaarBasis(t, j, k2) == 1.0
    ensures k1 == k2
  {
    SupportsDisjoint(t, j, k1, k2);
  }

  /** ... and one always does: the translation floor(t * 2^j). */
  lemma SomeTranslation(t: real, j: int)
    ensures HaarBasis(t, j, (t / TwoPow(-j)).Floor) == 1.0
  {
    SupportCovers(t, j);
  }

  /** The indicator and the wavelet test the same support: with a positive
      scale the basis is on exactly where the wavelet is positive, and the
      wavelet is (2 * basis - 1) times its scale. */
  lemma BasisMatchesWavelet(t: real, j: int, k: int, H: real, amp: Amplitude)
    ensures amp(j, H) > 0.0 ==> (HaarBasis(t, j, k) == 1.0 <==> HaarWavelet(t, j, k, H, amp) > 0.0)
    ensures HaarWavelet(t, j, k, H, amp) == (2.0 * HaarBasis(t, j, k) - 1.0) * amp(j, H)
  {
    HaarWaveletSign(t, j, k, H, amp);
  }

  // ---------------------------------------------------------------------------
  // adaptive_j_max
  // ---------------------------------------------------------------------------

  /** Hurst parameters below this get the finest truncation. */
  const RoughThreshold: real := 0.3
  /** Hurst parameters below this (and from RoughThreshold on) get one scale less. */
  const ModerateThreshold: real := 0.4

  /** adaptive_j_max: 8 scales for H < 0.3, 7 for H < 0.4, 6 otherwise. The
      tolerance argument is accepted and not used. */
  function AdaptiveJMax(H: real, tolerance: real): (r: nat)
    ensures 6 <= r <= 8
  {
    if H < RoughThreshold then 8
    else if H < ModerateThreshold then 7
    else 6
  }

  /** A rougher path (smaller H) never gets fewer scales, whatever the two
      tolerances are. */
  lemma AdaptiveJMaxMonotone(H1: real, H2: real, tol1: real, tol2: real)
    requires H1 <= H2
    ensures AdaptiveJMax(H1, tol1) >= AdaptiveJMax(H2, tol2)
  {
  }

  /** The thresholds themselves fall into the coarser branch, and the
      tolerance never changes the result. */
  lemma AdaptiveJMaxBoundaries(H: real, tol1: real, tol2: real)
    ensures AdaptiveJMax(RoughThreshold, tol1) == 7
    ensures AdaptiveJMax(ModerateThreshold, tol1) == 6
    ensures AdaptiveJMax(H, tol1) == AdaptiveJMax(H, tol2)
    ensures AdaptiveJMax(H, tol1) == 8 <==> H < 0.3
    ensures AdaptiveJMax(H, tol1) == 6 <==> H >= 0.4
  {
  }

  // ---------------------------------------------------------------------------
  // wavelet_heatmap
  // ---------------------------------------------------------------------------

  function Min(a: int, b: int): int
  {
    if a <= b then a else b
  }

  /** The value wavelet_heatmap leaves at row j, column k: the coefficient
      2^j - 1 + k when k is a translation of level j and that coefficient
      exists, else the initial zero. */
  function HeatCell(coeffs: seq<real>, j: nat, k: nat): real
  {
    if k < Pow2(j) && Pow2(j) - 1 + k < |coeffs| then coeffs[Pow2(j) - 1 + k] else 0.0
  }

  /** wavelet_heatmap: a fresh zeroed (jMax + 1) x 2^jMax array filled level by
      level, translation by translation, from a running coefficient counter
      that stops advancing once the coefficients run out. */
  method WaveletHeatmap(coeffs: seq<real>, jMax: nat) returns (heatmap: array2<real>)
    ensures fresh(heatmap)
    ensures heatmap.Length0 == jMax + 1 && heatmap.Length1 == Pow2(jMax)
    ensures forall j, k :: 0 <= j < heatmap.Length0 && 0 <= k < heatmap.Length1 ==>
      heatmap[j, k] == HeatCell(coeffs, j, k)
  {
    heatmap := new real[jMax + 1, Pow2(jMax)]((_, _) => 0.0);
    var idx := 0;
    for j := 0 to jMax + 1
      invariant idx == Min(|coeffs|, Pow2(j) - 1)
      invariant forall r, c :: 0 <= r < heatmap.Length0 && 0 <= c < heatmap.Length1 ==>
        heatmap[r, c] == if r < j then HeatCell(coeffs, r, c) else 0.0
    {
      Pow2Monotone(j, jMax);
      idx := FillLevel(heatmap, coeffs, j, idx);
      assert Pow2(j + 1) == 2 * Pow2(j);
    }
  }

  /** One pass of the inner loop: row j receives the next 2^j coefficients
      (as many as remain), and the counter advances by as many. */
  method FillLevel(heatmap: array2<real>, coeffs: seq<real>, j: nat, idx0: nat) returns (idx: nat)
    requires j < heatmap.Length0 && Pow2(j) <= heatmap.Length1
    requires idx0 == Min(|coeffs|, Pow2(j) - 1)
    requires forall r, c :: 0 <= r < heatmap.Length0 && 0 <= c < heatmap.Length1 ==>
      heatmap[r, c] == if r < j then HeatCell(coeffs, r, c) else 0.0
    modifies heatmap
    ensures idx == Min(|coeffs|, Pow2(j) - 1 + Pow2(j))
    ensures forall r, c :: 0 <= r < heatmap.Length0 && 0 <= c < heatmap.Length1 ==>
      heatmap[r, c] == if r <= j then HeatCell(coeffs, r, c) else 0.0
  {
    idx := idx0;
    for k := 0 to Pow2(j)
      invariant idx == Min(|coeffs|, Pow2(j) - 1 + k)
      invariant forall r, c :: 0 <= r < heatmap.Length0 && 0 <= c < heatmap.Length1 ==>
        heatmap[r, c] == if r < j || (r == j && c < k) then HeatCell(coeffs, r, c) else 0.0
    {
      if idx < |coeffs| {
        heatmap[j, k] := coeffs[idx];
        idx := idx + 1;
      }
    }
  }

  /** The conventional scale of index i: the level whose block
      2^j - 1 .. 2^(j+1) - 2 contains it. */
  function HeatScale(i: nat): nat
  {
    Log2(i + 1)
  }

  /** The conventional translation of index i within its level. */
  function HeatTranslation(i: nat): int
  {
    i - (Pow2(HeatScale(i)) - 1)
  }

  /** The conventional layout is a bijection between indices and pairs
      (j, k) with 0 <= k < 2^j: position (j, k) holds index 2^j - 1 + k, and
      that index is decoded back to (j, k). */
  lemma HeatDecode(j: nat, k: nat)
    requires k < Pow2(j)
    ensures HeatScale(Pow2(j) - 1 + k) == j
    ensures HeatTranslation(Pow2(j) - 1 + k) == k
  {
    assert Pow2(j + 1) == 2 * Pow2(j);
    Log2Unique(Pow2(j) + k, j);
  }

  /** Every coefficient the counter reaches (index below 2^(jMax+1) - 1) is
      shown in the heatmap, at its conventional position. */
  lemma HeatmapPlacement(coeffs: seq<real>, jMax: nat, i: nat)
    requires i < |coeffs| && i < Pow2(jMax + 1) - 1
    ensures HeatScale(i) <= jMax
    ensures 0 <= HeatTranslation(i) < Pow2(HeatScale(i)) <= Pow2(jMax)
    ensures HeatCell(coeffs, HeatScale(i), HeatTranslation(i) as nat) == coeffs[i]
  {
    var j := HeatScale(i);
    Log2Bounds(i + 1);
    assert Pow2(j + 1) == 2 * Pow2(j);
    if j > jMax {
      Pow2Monotone(jMax + 1, j);
    }
    Pow2Monotone(j, jMax);
  }

  /** The heatmap only ever looks at the first min(len(coeffs), 2^(jMax+1) - 1)
      coefficients: cutting the rest off leaves every cell unchanged. */
  lemma HeatmapIgnoresTail(coeffs: seq<real>, jMax: nat, j: nat, k: nat)
    requires j <= jMax && k < Pow2(jMax)
    ensures HeatCell(coeffs, j, k) == HeatCell(coeffs[..Min(|coeffs|, Pow2(jMax + 1) - 1)], j, k)
  {
    if k < Pow2(j) {
      assert Pow2(j + 1) == 2 * Pow2(j);
      Pow2Monotone(j + 1, jMax + 1);
    }
  }

  /** The heatmap and the reconstruction place a coefficient differently
      exactly when the reconstruction decodes it to translation -1: there the
      heatmap shows it one level up, at the last translation of that level.
      Everywhere else the two layouts agree. */
  lemma ConventionMismatch(i: nat)
    ensures Translation(i) != -1 ==> HeatScale(i) == Scale(i) && HeatTranslation(i) == Translation(i)
    ensures Translation(i) == -1 ==>
      Scale(i) >= 1 && HeatScale(i) == Scale(i) - 1 && HeatTranslation(i) == Pow2(Scale(i) - 1) - 1
  {
    var j := Scale(i);
    TranslationRange(i);
    ScaleRange(i);
    assert Pow2(j + 1) == 2 * Pow2(j);
    if Translation(i) == -1 {
      assert Pow2(j) == 2 * Pow2(j - 1);
      Log2Unique(i + 1, j - 1);
    } else {
      Log2Unique(i + 1, j);
    }
  }
}
