/** The wavelet-QMC path engine of core/wavelet_qmc.py: the index mapper, the
    H-dependent Haar wavelet, the single-path reconstruction and the column
    filling of the batch driver. The Sobol draw itself is an input here. */
module WaveletQmc {
  import opened Dyadic
  import opened WeightedSums

  // ---------------------------------------------------------------------------
  // Index mapper
  // ---------------------------------------------------------------------------

  /** The scale the index loop stops at, in closed form. The loop tests
      `i >= 2**j - 1` but removes `2**j`, so after j rounds it has removed
      2^j - 1; it stops at the first j with i - (2^j - 1) < 2^j - 1, which is
      floor(log2(i + 2)). A negative index never enters the loop. */
  function Scale(i: int): nat
  {
    if i < 0 then 0 else Log2(i + 2)
  }

  /** A non-negative index lies in [2^j - 2, 2^(j+1) - 2) for its scale j >= 1. */
  lemma ScaleRange(i: int)
    ensures i < 0 ==> Scale(i) == 0
    ensures i >= 0 ==> Scale(i) >= 1 && Pow2(Scale(i)) - 2 <= i < Pow2(Scale(i) + 1) - 2
  {
    if i >= 0 {
      Log2Bounds(i + 2);
      assert Pow2(1) == 2;
    }
  }

  /** What is left of the index after the loop: i minus the 2^j - 1 it removed.
      TranslationRange bounds it. */
  function Translation(i: int): int
  {
    i - (Pow2(Scale(i)) - 1)
  }

  /** A non-negative index leaves a translation between -1 and 2^j - 2; a
      negative one is its own translation. */
  lemma TranslationRange(i: int)
    ensures i >= 0 ==> -1 <= Translation(i) <= Pow2(Scale(i)) - 2
    ensures i < 0 ==> Scale(i) == 0 && Translation(i) == i
  {
    ScaleRange(i);
    if i >= 0 {
      assert Pow2(Scale(i) + 1) == 2 * Pow2(Scale(i));
    }
  }

  /** compute_j_from_index: the subtraction loop, returning the scale. */
  method ComputeJFromIndex(i: int) returns (j: nat)
    ensures j == Scale(i)
  {
    var rest := i;
    j := 0;
    while rest >= Pow2(j) - 1
      invariant rest == i - (Pow2(j) - 1)
      invariant j >= 1 ==> i >= 0 && rest >= -1
      decreases rest
    {
      rest := rest - Pow2(j);
      j := j + 1;
    }
    if j >= 1 {
      Log2Unique(i + 2, j);
    }
  }

  /** compute_k_from_index: the same loop, returning what is left of the index. */
  method ComputeKFromIndex(i: int) returns (k: int)
    ensures k == Translation(i)
  {
    var j: nat := 0;
    k := i;
    while k >= Pow2(j) - 1
      invariant k == i - (Pow2(j) - 1)
      invariant j >= 1 ==> i >= 0 && k >= -1
      decreases k
    {
      k := k - Pow2(j);
      j := j + 1;
    }
    if j >= 1 {
      Log2Unique(i + 2, j);
    }
  }

  /** The first coefficient lands at scale 1 with translation -1, not at (0, 0). */
  lemma FirstIndex()
    ensures Scale(0) == 1 && Translation(0) == -1
  {
    Log2Unique(2, 1);
  }

  /** Re-encoding the pair as 2^j - 1 + k gives the index back, so the map is
      injective. */
  lemma Reencode(i: int, i': int)
    ensures Pow2(Scale(i)) - 1 + Translation(i) == i
    ensures Scale(i) == Scale(i') && Translation(i) == Translation(i') ==> i == i'
  {
  }

  /** Every pair of the actual layout (scale j >= 1, translation -1 .. 2^j - 2)
      is decoded from the index 2^j - 1 + k. */
  lemma Decode(j: nat, k: int)
    requires j >= 1 && -1 <= k <= Pow2(j) - 2
    ensures Scale(Pow2(j) - 1 + k) == j
    ensures Translation(Pow2(j) - 1 + k) == k
  {
    var i := Pow2(j) - 1 + k;
    assert Pow2(j + 1) == 2 * Pow2(j);
    assert Pow2(j) <= i + 2 < Pow2(j + 1);
    Log2Unique(i + 2, j);
    assert Scale(i) == Log2(i + 2);
  }

  /** Scale j >= 1 owns exactly the 2^j consecutive indices 2^j - 2 .. 2^(j+1) - 3;
      no index is at scale 0. */
  lemma LevelBlock(i: int, j: nat)
    requires i >= 0
    ensures Scale(i) == j <==> j >= 1 && Pow2(j) - 2 <= i < Pow2(j + 1) - 2
  {
    ScaleRange(i);
    if j >= 1 && Pow2(j) - 2 <= i < Pow2(j + 1) - 2 {
      Log2Unique(i + 2, j);
    }
  }

  /** Walking to the next index either moves one translation to the right on
      the same scale, or, after translation 2^j - 2, starts scale j + 1 at -1. */
  lemma NextIndex(i: int)
    requires i >= 0
    ensures
      || (Scale(i + 1) == Scale(i) && Translation(i + 1) == Translation(i) + 1)
      || (Scale(i + 1) == Scale(i) + 1 && Translation(i) == Pow2(Scale(i)) - 2
          && Translation(i + 1) == -1)
  {
    var j := Scale(i);
    ScaleRange(i);
    if i + 1 < Pow2(j + 1) - 2 {
      Log2Unique(i + 3, j);
    } else {
      assert Pow2(j + 2) == 2 * Pow2(j + 1);
      Log2Unique(i + 3, j + 1);
    }
  }

  /** With 2^jMax - 1 coefficients every index has scale at most jMax, and only
      the last one, 2^jMax - 2, reaches jMax (with translation -1). */
  lemma WithinTruncation(i: int, jMax: nat)
    requires 0 <= i < Pow2(jMax) - 1
    ensures Scale(i) <= jMax
    ensures Scale(i) == jMax <==> i == Pow2(jMax) - 2
    ensures Scale(i) == jMax ==> Translation(i) == -1
  {
    var j := Scale(i);
    ScaleRange(i);
    if j > jMax {
      Pow2Monotone(jMax + 1, j);
    }
    if i == Pow2(jMax) - 2 {
      Decode(jMax, -1);
    }
  }

  // ---------------------------------------------------------------------------
  // H-dependent Haar wavelet
  // ---------------------------------------------------------------------------

  /** The normalisation 2.0 ** (-j * (H + 0.5)) as a function of (j, H). Real
      exponentiation is not available, so callers pass it in. */
  type Amplitude = (int, real) -> real

  /** haar_wavelet: +scale on [k 2^-j, (k+1) 2^-j), -scale everywhere else. The
      value's magnitude depends on j and H only. */
  function HaarWavelet(t: real, j: int, k: int, H: real, amp: Amplitude): (r: real)
    ensures r == amp(j, H) || r == -amp(j, H)
  {
    var scale := amp(j, H);
    if InSupport(t, j, k) then scale else -scale
  }

  /** The sign of the wavelet is the support test: +scale exactly on the
      support, and with a positive scale the value is positive exactly there. */
  lemma HaarWaveletSign(t: real, j: int, k: int, H: real, amp: Amplitude)
    ensures InSupport(t, j, k) ==> HaarWavelet(t, j, k, H, amp) == amp(j, H)
    ensures !InSupport(t, j, k) ==> HaarWavelet(t, j, k, H, amp) == -amp(j, H)
    ensures amp(j, H) > 0.0 ==> (HaarWavelet(t, j, k, H, amp) > 0.0 <==> InSupport(t, j, k))
  {
  }

  /** Translation -1 has the support [-2^-j, 0): at every t >= 0 the wavelet is
      -scale. */
  lemma HaarBeforeOrigin(t: real, j: int, H: real, amp: Amplitude)
    requires t >= 0.0
    ensures !InSupport(t, j, -1)
    ensures HaarWavelet(t, j, -1, H, amp) == -amp(j, H)
  {
    assert SupportEnd(j, -1) == 0.0;
  }

  /** Every support of the layout (translation at most 2^j - 2) ends before 1,
      so from t = 1 on the wavelet is -scale. */
  lemma HaarPastUnit(t: real, j: nat, k: int, H: real, amp: Amplitude)
    requires t >= 1.0 && k <= Pow2(j) - 2
    ensures !InSupport(t, j, k)
    ensures HaarWavelet(t, j, k, H, amp) == -amp(j, H)
  {
    SupportEndBelowOne(j, k);
  }

  // ---------------------------------------------------------------------------
  // Single-path reconstruction
  // ---------------------------------------------------------------------------

  /** Python's int() on a float quotient: truncation toward zero. */
  function Trunc(x: real): (n: int)
    ensures 0.0 <= x ==> 0 <= n && n as real <= x < n as real + 1.0
    ensures x < 0.0 ==> n <= 0 && n as real - 1.0 < x <= n as real
  {
    if x >= 0.0 then x.Floor else -((-x).Floor)
  }

  /** np.linspace(0, stop, num) over exact reals: num points, the first 0 and
      the last stop; LinspaceEvenlySpaced gives the spacing. */
  function Linspace(stop: real, num: nat): (g: seq<real>)
    ensures |g| == num
    ensures num >= 1 ==> g[0] == 0.0
    ensures num >= 2 ==> g[num - 1] == stop
  {
    var step := if num >= 2 then stop / ((num - 1) as real) else 0.0;
    var g := seq(num, m requires 0 <= m < num => (m as real) * step);
    assert num >= 2 ==> g[num - 1] == ((num - 1) as real) * (stop / ((num - 1) as real));
    g
  }

  /** Any two grid points are (b - a) steps of stop / (num - 1) apart. */
  lemma LinspaceEvenlySpaced(stop: real, num: nat, a: nat, b: nat)
    requires num >= 2 && a <= b < num
    ensures Linspace(stop, num)[b] - Linspace(stop, num)[a] == ((b - a) as real) * (stop / ((num - 1) as real))
  {
    var step := stop / ((num - 1) as real);
    var g := Linspace(stop, num);
    assert g[b] == (b as real) * step && g[a] == (a as real) * step;
    assert (b as real) * step - (a as real) * step == ((b as real) - (a as real)) * step;
  }

  /** The wavelets of the layout at time t, by coefficient index:
      i |-> haar_wavelet(t, j(i), k(i), H). */
  function WaveletsAt(t: real, H: real, amp: Amplitude): nat -> real
  {
    i => HaarWavelet(t, Scale(i), Translation(i), H, amp)
  }

  /** The reconstructed path's value at time t: every coefficient times its
      wavelet at t, summed over all coefficients. */
  function PathValue(coeffs: seq<real>, t: real, H: real, amp: Amplitude): real
  {
    WeightedSum(coeffs, |coeffs|, WaveletsAt(t, H, amp))
  }

  /** The accumulation loop of reconstruct_fbm_path on a given time grid: a
      zeroed path, then for every coefficient i the inner loop over the grid. */
  method AccumulatePath(coeffs: seq<real>, tValues: seq<real>, H: real, amp: Amplitude)
    returns (path: array<real>)
    ensures fresh(path)
    ensures path.Length == |tValues|
    ensures forall m :: 0 <= m < path.Length ==> path[m] == PathValue(coeffs, tValues[m], H, amp)
  {
    path := new real[|tValues|](_ => 0.0);
    for i := 0 to |coeffs|
      invariant forall m :: 0 <= m < path.Length ==>
        path[m] == WeightedSum(coeffs, i, WaveletsAt(tValues[m], H, amp))
    {
      AddCoefficient(path, tValues, coeffs, i, H, amp);
      forall m | 0 <= m < path.Length
        ensures path[m] == WeightedSum(coeffs, i + 1, WaveletsAt(tValues[m], H, amp))
      {
      }
    }
  }

  /** One round of the outer loop: compute (j, k) for index i with the two
      subtraction loops, then add coeffs[i] times that wavelet at every grid
      point. */
  method AddCoefficient(path: array<real>, tValues: seq<real>, coeffs: seq<real>, i: nat, H: real,
                        amp: Amplitude)
    requires path.Length == |tValues| && i < |coeffs|
    modifies path
    ensures forall m :: 0 <= m < path.Length ==>
      path[m] == old(path[m]) + coeffs[i] * WaveletsAt(tValues[m], H, amp)(i)
  {
    var j := ComputeJFromIndex(i);
    var k := ComputeKFromIndex(i);
    AddWavelet(path, tValues, coeffs[i], j, k, H, amp);
  }

  /** The inner loop: `path[t_idx] += c * haar_wavelet(t_values[t_idx], j, k, H)`
      for every grid point. */
  method AddWavelet(path: array<real>, tValues: seq<real>, c: real, j: int, k: int, H: real, amp: Amplitude)
    requires path.Length == |tValues|
    modifies path
    ensures forall m :: 0 <= m < path.Length ==>
      path[m] == old(path[m]) + c * HaarWavelet(tValues[m], j, k, H, amp)
  {
    for tIdx := 0 to |tValues|
      invariant forall m :: 0 <= m < tIdx ==>
        path[m] == old(path[m]) + c * HaarWavelet(tValues[m], j, k, H, amp)
      invariant forall m :: tIdx <= m < path.Length ==> path[m] == old(path[m])
    {
      path[tIdx] := path[tIdx] + c * HaarWavelet(tValues[tIdx], j, k, H, amp);
    }
  }

  /** reconstruct_fbm_path: int(T/dt) grid points from linspace(0, T, .) and
      the accumulation over them. Python raises for dt = 0 (division) and for a
      negative point count (linspace). */
  method ReconstructFbmPath(coeffs: seq<real>, H: real, T: real, dt: real, amp: Amplitude)
    returns (path: array<real>)
    requires dt != 0.0
    requires Trunc(T / dt) >= 0
    ensures fresh(path)
    ensures path.Length == Trunc(T / dt)
    ensures forall m :: 0 <= m < path.Length ==>
      path[m] == PathValue(coeffs, Linspace(T, path.Length)[m], H, amp)
  {
    var numSteps := Trunc(T / dt);
    var tValues := Linspace(T, numSteps);
    path := AccumulatePath(coeffs, tValues, H, amp);
  }

  // ---------------------------------------------------------------------------
  // Batch driver: one column per path
  // ---------------------------------------------------------------------------

  /** Why a batch fails: float division by zero, a negative array dimension, or
      a column assignment whose right-hand side does not broadcast. */
  datatype BatchError = ZeroDivision | NegativeDimension | BroadcastMismatch(rows: int, length: int)

  datatype BatchResult = Success(paths: array2<real>) | Failure(error: BatchError)

  /** numpy accepts `a[:, c] = v` for a column of `rows` cells when v has that
      many elements or exactly one (which is then repeated). */
  predicate Broadcastable(length: nat, rows: nat)
  {
    length == rows || length == 1
  }

  /** The value a broadcast assignment puts in row `row`. */
  function BroadcastAt(values: seq<real>, row: nat): real
    requires |values| == 1 || row < |values|
  {
    if |values| == 1 then values[0] else values[row]
  }

  /** `paths[:, col] = values`: fills the column when the shapes broadcast and
      leaves the buffer untouched when numpy would raise. */
  method AssignColumn(paths: array2<real>, col: nat, values: seq<real>) returns (ok: bool)
    requires col < paths.Length1
    modifies paths
    ensures ok == Broadcastable(|values|, paths.Length0)
    ensures forall r, c :: 0 <= r < paths.Length0 && 0 <= c < paths.Length1 ==>
      paths[r, c] == if ok && c == col then BroadcastAt(values, r) else old(paths[r, c])
  {
    ok := Broadcastable(|values|, paths.Length0);
    if ok {
      for row := 0 to paths.Length0
        invariant forall r, c :: 0 <= r < paths.Length0 && 0 <= c < paths.Length1 ==>
          paths[r, c] == if c == col && r < row then BroadcastAt(values, r) else old(paths[r, c])
      {
        paths[row, col] := BroadcastAt(values, row);
      }
    }
  }

  /** rough_fbm_paths with the Sobol matrix given (one row of 2^jMax - 1
      coefficients per path): a zero buffer of int(T/dt) + 1 rows and one column
      per path, column i assigned from path i. The reconstructed path has
      int(T/dt) points, so the assignment broadcasts only when int(T/dt) = 1;
      with at least one path every other step count fails. */
  method RoughFbmPaths(sobol: seq<seq<real>>, H: real, T: real, dt: real, numPaths: nat, jMax: nat,
                       amp: Amplitude)
    returns (result: BatchResult)
    requires |sobol| == numPaths
    requires forall p :: 0 <= p < numPaths ==> |sobol[p]| == Pow2(jMax) - 1
    ensures dt == 0.0 ==> result == Failure(ZeroDivision)
    ensures dt != 0.0 && Trunc(T / dt) < -1 ==> result == Failure(NegativeDimension)
    ensures dt != 0.0 && Trunc(T / dt) == -1 && numPaths > 0 ==> result == Failure(NegativeDimension)
    ensures dt != 0.0 && Trunc(T / dt) >= 0 && Trunc(T / dt) != 1 && numPaths > 0 ==>
      result == Failure(BroadcastMismatch(Trunc(T / dt) + 1, Trunc(T / dt)))
    ensures result.Success? <==>
      dt != 0.0 && (if numPaths == 0 then Trunc(T / dt) >= -1 else Trunc(T / dt) == 1)
    ensures result.Success? ==>
      && fresh(result.paths)
      && result.paths.Length0 == Trunc(T / dt) + 1
      && result.paths.Length1 == numPaths
      && forall r, c :: 0 <= r < result.paths.Length0 && 0 <= c < numPaths ==>
           result.paths[r, c] == PathValue(sobol[c], 0.0, H, amp)
  {
    if dt == 0.0 {
      return Failure(ZeroDivision);
    }
    var numSteps := Trunc(T / dt);
    if numSteps + 1 < 0 {
      return Failure(NegativeDimension);
    }
    var paths := new real[numSteps + 1, numPaths]((_, _) => 0.0);
    for i := 0 to numPaths
      invariant i > 0 ==> numSteps == 1
      invariant forall r, c :: 0 <= r < paths.Length0 && 0 <= c < paths.Length1 ==>
        paths[r, c] == if c < i then PathValue(sobol[c], 0.0, H, amp) else 0.0
    {
      if numSteps < 0 {
        return Failure(NegativeDimension);
      }
      var path := ReconstructFbmPath(sobol[i], H, T, dt, amp);
      var ok := AssignColumn(paths, i, path[..]);
      if !ok {
        return Failure(BroadcastMismatch(numSteps + 1, numSteps));
      }
    }
    return Success(paths);
  }

  /** The reconstruction on the baselines' grid: int(T/dt) + 1 points from
      linspace(0, T, .), which are 0, dt, 2 dt, ..., T when T is a whole number
      of steps (GridStep), against the int(T/dt) points of reconstruct_fbm_path. */
  method ReconstructFbmPathFixed(coeffs: seq<real>, H: real, T: real, dt: real, amp: Amplitude)
    returns (path: array<real>)
    requires dt != 0.0
    requires Trunc(T / dt) >= -1
    ensures fresh(path)
    ensures path.Length == Trunc(T / dt) + 1
    ensures forall m :: 0 <= m < path.Length ==>
      path[m] == PathValue(coeffs, Linspace(T, path.Length)[m], H, amp)
  {
    var tValues := Linspace(T, Trunc(T / dt) + 1);
    path := AccumulatePath(coeffs, tValues, H, amp);
  }

  /** The batch driver with the buffer of int(T/dt) + 1 rows kept and every
      column filled from ReconstructFbmPathFixed: it succeeds whenever the
      buffer can be allocated, the last row is maturity T, and cell (r, c) is
      path c at grid point r. */
  method RoughFbmPathsFixed(sobol: seq<seq<real>>, H: real, T: real, dt: real, numPaths: nat, jMax: nat,
                            amp: Amplitude)
    returns (result: BatchResult)
    requires |sobol| == numPaths
    requires forall p :: 0 <= p < numPaths ==> |sobol[p]| == Pow2(jMax) - 1
    ensures dt == 0.0 ==> result == Failure(ZeroDivision)
    ensures dt != 0.0 && Trunc(T / dt) < -1 ==> result == Failure(NegativeDimension)
    ensures result.Success? <==> dt != 0.0 && Trunc(T / dt) >= -1
    ensures result.Success? ==>
      && fresh(result.paths)
      && result.paths.Length0 == Trunc(T / dt) + 1
      && result.paths.Length1 == numPaths
      && (result.paths.Length0 >= 2 ==> Linspace(T, result.paths.Length0)[result.paths.Length0 - 1] == T)
      && forall r, c :: 0 <= r < result.paths.Length0 && 0 <= c < numPaths ==>
           result.paths[r, c] == PathValue(sobol[c], Linspace(T, result.paths.Length0)[r], H, amp)
  {
    if dt == 0.0 {
      return Failure(ZeroDivision);
    }
    var rows := Trunc(T / dt) + 1;
    if rows < 0 {
      return Failure(NegativeDimension);
    }
    var grid := Linspace(T, rows);
    var paths := new real[rows, numPaths]((_, _) => 0.0);
    for i := 0 to numPaths
      invariant forall r, c :: 0 <= r < paths.Length0 && 0 <= c < paths.Length1 ==>
        paths[r, c] == if c < i then PathValue(sobol[c], grid[r], H, amp) else 0.0
    {
      var path := ReconstructFbmPathFixed(sobol[i], H, T, dt, amp);
      var ok := AssignColumn(paths, i, path[..]);
      assert ok;
    }
    return Success(paths);
  }

  /** When T is n >= 1 whole steps of dt, n + 1 linspace points are exactly
      the multiples 0, dt, ..., n dt of the baselines' grid, and int(T/dt) = n. */
  lemma GridStep(T: real, dt: real, n: nat, b: nat)
    requires dt != 0.0 && n >= 1 && T == (n as real) * dt && b <= n
    ensures Trunc(T / dt) == n
    ensures Linspace(T, n + 1)[b] == (b as real) * dt
  {
    assert T / dt == n as real;
    assert T / (n as real) == dt;
  }

  /** With the repository's own configuration (T = 1, dt = 1/252) the grid of
      reconstruct_fbm_path steps by 1/251, not dt, while the corrected grid
      steps by dt. */
  lemma ConfiguredGridStep()
    ensures Linspace(1.0, Trunc(1.0 / (1.0 / 252.0)))[1] == 1.0 / 251.0 != 1.0 / 252.0
    ensures Linspace(1.0, Trunc(1.0 / (1.0 / 252.0)) + 1)[1] == 1.0 / 252.0
  {
    GridStep(1.0, 1.0 / 252.0, 252, 1);
  }

  /** With the repository's own configuration (T = 1, dt = 1/252) the buffer has
      253 rows and every reconstructed path 252 points, which numpy cannot
      broadcast. */
  lemma ConfiguredShapeMismatch()
    ensures Trunc(1.0 / (1.0 / 252.0)) == 252
    ensures !Broadcastable(252, 253)
  {
    assert 1.0 / (1.0 / 252.0) == 252.0;
  }
}
