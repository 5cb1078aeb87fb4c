# Wavelet-coupled QMC rough paths, modelled in Dafny

This project models the algorithmic core of the Wavelet-Coupled-QMC-Rough-Vol
repository. That code builds approximate fractional Brownian motion (fBM)
paths from a Sobol quasi-random draw by summing Haar wavelets. The model covers
these parts of the code:

- **The index mapper** `compute_j_from_index` / `compute_k_from_index`
  (core/wavelet_qmc.py). It turns a flat coefficient index into a scale `j` and
  a translation `k`. The loop tests `i >= 2**j - 1` but subtracts `2**j`, so
  the layout it really produces is not the textbook one:
  - every index gets `j >= 1`;
  - `k` runs from -1 to 2^j - 2;
  - index 0 becomes `(1, -1)`.

  The conventional level order, which `wavelet_heatmap` uses
  (core/wavelet_utils.py:54-60), puts index 0 at `(0, 0)`; the code puts it
  at `(1, -1)`. The model follows the code, `WaveletQmc.FirstIndex` states
  the value the code actually produces, and `WaveletUtils.ConventionMismatch`
  says where the two layouts part.
- **`haar_wavelet`**, the +scale/-scale wavelet on a half-open dyadic support.
  Its normalisation `2.0 ** (-j * (H + 0.5))` is a function-typed parameter,
  `amp`.
- **`reconstruct_fbm_path`** and the batch driver **`rough_fbm_paths`**. They
  are imperative code over arrays:
  - the two subtraction loops and the accumulation loop are proved against
    closed-form specifications (`Scale`, `Translation`, `PathValue`);
  - the batch driver fills a 2-D buffer column by column, with numpy's
    broadcasting rule for `paths[:, i] = path`.
- **core/wavelet_utils.py**:
  - `haar_basis`, the 0/1 indicator of the same support;
  - `adaptive_j_max`, a three-way step in `H`;
  - `wavelet_heatmap`, which fills a `(j_max + 1) x 2^j_max` array level by
    level with a running counter. It uses the conventional layout (offset
    `2^j - 1`, `k` from 0), so it places some coefficients differently from
    the reconstruction. `WaveletUtils.ConventionMismatch` says exactly which
    ones.

Modules:
- `Dyadic` (dyadic.dfy): powers of two, floor log2, exact real `2^e`, and the
  half-open support test the two Haar evaluators share.
- `WeightedSums` (weighted_sums.dfy): algebra of the sums
  `sum_i coeffs[i] * psi(i)` for any weights `psi`:
  - linearity;
  - zero coefficients;
  - an absolute bound;
  - sign flip;
  - order independence.
- `WaveletQmc` (wavelet_qmc.dfy): core/wavelet_qmc.py.
- `PathSums` (path_sums.dfy): the `WeightedSums` facts applied to the
  reconstructed path, i.e. with `psi = WaveletsAt(t, H, amp)`.
- `WaveletUtils` (wavelet_utils.dfy): core/wavelet_utils.py.

Numbers are exact:
- Times, coefficients and grid points are `real`.
- Python's `int()` on a quotient is `Trunc` (toward zero).
- `np.linspace(0, T, n)` is `Linspace`.

## Model

| member | source | states |
|---|---|---|
| Dyadic.TwoPow | core/wavelet_qmc.py:21-22 | `2.0 ** e` for an integer exponent is positive, and for `e <= 0` it times `2^-e` is exactly 1 |
| Dyadic.TwoPowStep | core/wavelet_qmc.py:21-22 | `2.0 ** (e + 1)` is twice `2.0 ** e` for every integer `e`, negative exponents included |
| Dyadic.SupportsDisjoint | core/wavelet_utils.py:17-20 | two translations of one scale whose half-open supports both contain `t` are equal |
| Dyadic.SupportCovers | core/wavelet_utils.py:17-20 | `t` lies in the support of translation `floor(t * 2^j)`, so the supports of a level cover the line |
| Dyadic.SupportEndBelowOne | core/wavelet_qmc.py:21-22 | a support with translation at most `2^j - 2` ends strictly before 1 |
| WaveletQmc.ScaleRange | core/wavelet_qmc.py:34-38 | for `i >= 0` the loop's scale is at least 1 and brackets the index: `2^j - 2 <= i < 2^(j+1) - 2`; a negative index gets scale 0 |
| WaveletQmc.TranslationRange | core/wavelet_qmc.py:46-50 | for `i >= 0` the remainder lies in `[-1, 2^j - 2]`; a negative index is returned unchanged as its own translation |
| WaveletQmc.ComputeJFromIndex | core/wavelet_qmc.py:30-38 | the subtraction loop terminates and returns the closed-form scale `floor(log2(i + 2))` (0 for negative `i`) |
| WaveletQmc.ComputeKFromIndex | core/wavelet_qmc.py:42-50 | the same loop returns the remainder `i - (2^j - 1)` for that scale |
| WaveletQmc.FirstIndex | core/wavelet_qmc.py:34-37 | index 0 is mapped to scale 1 and translation -1, not to `(0, 0)` |
| WaveletQmc.Reencode | core/wavelet_qmc.py:30-50 | re-encoding `2^j - 1 + k` gives back the index, so two indices with the same pair are equal |
| WaveletQmc.Decode | core/wavelet_qmc.py:35-37 | every pair with `j >= 1` and `-1 <= k <= 2^j - 2` is what the loops return for index `2^j - 1 + k`, so the layout is onto that range |
| WaveletQmc.LevelBlock | core/wavelet_qmc.py:35-38 | for `i >= 0`, scale `j` is produced exactly for the `2^j` consecutive indices `2^j - 2 .. 2^(j+1) - 3`, and never for `j = 0` |
| WaveletQmc.NextIndex | core/wavelet_qmc.py:35-37 | the next index either moves one translation to the right on the same scale, or, after translation `2^j - 2`, starts scale `j + 1` at `-1` |
| WaveletQmc.WithinTruncation | core/wavelet_qmc.py:35-38 | with the `2^jMax - 1` coefficients of line 92, every index has scale at most `jMax`; only the last index reaches `jMax`, and it gets translation -1 |
| WaveletQmc.HaarWavelet | core/wavelet_qmc.py:7-26 | the value is `+amp(j, H)` or `-amp(j, H)`, so its magnitude depends on the scale and `H` only, never on `t` or `k` |
| WaveletQmc.HaarWaveletSign | core/wavelet_qmc.py:20-26 | +scale exactly on the support, -scale off it; with a positive scale the value is positive iff `t` is in the support |
| WaveletQmc.HaarBeforeOrigin | core/wavelet_qmc.py:21-26 | translation -1 has the support `[-2^-j, 0)`, so at every `t >= 0` the wavelet is -scale |
| WaveletQmc.HaarPastUnit | core/wavelet_qmc.py:21-26 | for `t >= 1` and any translation the mapper produces (at most `2^j - 2`), `t` is outside the support and the wavelet is -scale |
| WaveletQmc.Trunc | core/wavelet_qmc.py:67 | `int()` on a quotient truncates toward zero: `n <= x < n + 1` for `x >= 0`, and `n - 1 < x <= n` for `x < 0` |
| WaveletQmc.Linspace | core/wavelet_qmc.py:68 | the grid has `num` points, starts at 0, and ends at `stop` when it has at least two points |
| WaveletQmc.LinspaceEvenlySpaced | core/wavelet_qmc.py:68 | any two grid points are `(b - a)` steps of `stop / (num - 1)` apart |
| WaveletQmc.AccumulatePath | core/wavelet_qmc.py:69-75 | the zeroed path after the nested loops holds, at every grid point, the sum over all coefficients of coefficient times wavelet (`PathValue`) |
| WaveletQmc.AddCoefficient | core/wavelet_qmc.py:71-75 | one outer round adds `coeffs[i]` times the wavelet of index `i` at every grid point and changes nothing else |
| WaveletQmc.AddWavelet | core/wavelet_qmc.py:74-75 | the inner loop adds `c * haar_wavelet(t_values[m], j, k, H)` to every cell `m` |
| WaveletQmc.ReconstructFbmPath | core/wavelet_qmc.py:54-77 | the result has `int(T/dt)` cells, and cell `m` is `PathValue` at the `m`-th point of `linspace(0, T, int(T/dt))` |
| WaveletQmc.AssignColumn | core/wavelet_qmc.py:117 | `paths[:, col] = values` succeeds iff `values` has as many elements as the column or exactly one; on success only column `col` changes, to the broadcast values, and on failure nothing changes |
| WaveletQmc.RoughFbmPaths | core/wavelet_qmc.py:97-119 | as written: `dt = 0` fails with a division error, and a negative buffer dimension fails; with at least one path, the driver fails with a broadcast mismatch of `int(T/dt) + 1` rows against `int(T/dt)` values unless `int(T/dt) = 1`; it succeeds exactly in the cases listed, and then column `c` holds path `c` |
| WaveletQmc.ReconstructFbmPathFixed | core/wavelet_qmc.py:67-77 | corrected reconstruction: `int(T/dt) + 1` cells, and cell `m` is `PathValue` at the `m`-th point of `linspace(0, T, int(T/dt) + 1)` |
| WaveletQmc.RoughFbmPathsFixed | core/wavelet_qmc.py:115-117 | corrected driver: the `int(T/dt) + 1`-row buffer is kept; it succeeds exactly when `dt != 0` and the buffer can be allocated; the last row is maturity `T`; and cell `(r, c)` is path `c` at the `r`-th of `int(T/dt) + 1` grid points |
| WaveletQmc.GridStep | core/baselines.py:16 | when `T = n dt` with `n >= 1`, `int(T/dt) = n` and the `n + 1` linspace points are exactly `0, dt, ..., n dt`, the grid `np.arange(0, T + dt, dt)` of the baselines |
| WaveletQmc.ConfiguredShapeMismatch | configs/rough_vol_params.py:3-4 | for `T = 1`, `dt = 1/252`, the path has 252 points and the buffer 253 rows, which do not broadcast |
| WaveletQmc.ConfiguredGridStep | core/wavelet_qmc.py:67-68 | for `T = 1`, `dt = 1/252`, the as-written grid steps by `1/251`, not `dt`, while the corrected grid of 253 points steps by `1/252` |
| WeightedSums.WeightedSumLinear | core/wavelet_qmc.py:71-75 | for `c = a * c1 + c2` entrywise, every partial sum over `c` is `a` times the partial sum over `c1` plus the partial sum over `c2` |
| WeightedSums.WholeSumLinear | core/wavelet_qmc.py:71-75 | the same for the complete sums, whichever equal expressions name them |
| WeightedSums.WeightedSumZero | core/wavelet_qmc.py:71-75 | all-zero coefficients give a zero sum for any weights |
| WeightedSums.WeightedSumBounded | core/wavelet_qmc.py:71-75 | when each weight is `+mag(i)` or `-mag(i)` with `mag(i) >= 0`, the sum's absolute value is at most `sum_i abs(coeffs[i]) * mag(i)` |
| WeightedSums.WeightedSumNegated | core/wavelet_qmc.py:71-75 | negating every weight negates the sum |
| WeightedSums.SumOverPermutation | core/wavelet_qmc.py:71 | adding the same multiset of indices in any two orders gives the same exact sum |
| WeightedSums.SumOverRange | core/wavelet_qmc.py:71 | adding the terms in the order `range(n)` gives the index-ordered weighted sum |
| PathSums.PathValueZero | core/wavelet_qmc.py:67-77 | all-zero coefficients reconstruct the all-zero path, at every time |
| PathSums.PathValueLinear | core/wavelet_qmc.py:67-77 | the reconstructed path is linear in the Sobol coefficients: the path for `a * c1 + c2` is `a` times the path for `c1` plus the path for `c2` |
| PathSums.ReconstructionOrderFree | core/wavelet_qmc.py:71-75 | visiting the coefficient indices in any order, each exactly once, gives the same exact value as the loop's increasing order |
| PathSums.PathValueBounded | core/wavelet_qmc.py:71-75 | with non-negative scales the path at any time is bounded in absolute value by `sum_i abs(coeffs[i]) * 2^(-j(i)(H + 1/2))` |
| PathSums.PathValuePastUnit | core/wavelet_qmc.py:71-75 | from `t = 1` on the path is the constant `-sum_i coeffs[i] * 2^(-j(i)(H + 1/2))`, because every support of the layout ends before 1 |
| WaveletUtils.HaarBasis | core/wavelet_utils.py:6-21 | the value is 0.0 or 1.0, and it is 1.0 iff `k 2^-j <= t < (k + 1) 2^-j` |
| WaveletUtils.AtMostOneTranslation | core/wavelet_utils.py:17-20 | for a fixed scale and time, at most one translation has the indicator on |
| WaveletUtils.SomeTranslation | core/wavelet_utils.py:17-20 | for every scale and time, the translation `floor(t * 2^j)` has the indicator on |
| WaveletUtils.BasisMatchesWavelet | core/wavelet_utils.py:17-21 | with a positive scale, the indicator is on iff `haar_wavelet` is positive, and the wavelet equals `(2 * basis - 1) * scale` |
| WaveletUtils.AdaptiveJMax | core/wavelet_utils.py:24-40 | the returned scale is always 6, 7 or 8 |
| WaveletUtils.AdaptiveJMaxMonotone | core/wavelet_utils.py:35-40 | a smaller `H` never gets fewer scales, whatever the tolerances |
| WaveletUtils.AdaptiveJMaxBoundaries | core/wavelet_utils.py:35-40 | 0.3 gives 7 and 0.4 gives 6; the result is 8 iff `H < 0.3` and 6 iff `H >= 0.4`; the tolerance never changes the result |
| WaveletUtils.WaveletHeatmap | core/wavelet_utils.py:43-62 | a fresh `(jMax + 1) x 2^jMax` array; cell `(j, k)` is `coeffs[2^j - 1 + k]` when `k < 2^j` and that coefficient exists, and 0 otherwise |
| WaveletUtils.FillLevel | core/wavelet_utils.py:57-60 | one inner loop fills row `j` from the next coefficients and leaves the later rows zero; the counter ends at `min(len(coeffs), 2^(j+1) - 1)` |
| WaveletUtils.HeatDecode | core/wavelet_utils.py:56-60 | the conventional layout is a bijection: position `(j, k)` with `k < 2^j` holds index `2^j - 1 + k`, and that index decodes back to `(j, k)` |
| WaveletUtils.HeatmapPlacement | core/wavelet_utils.py:54-60 | every coefficient below index `2^(jMax+1) - 1` appears in the heatmap, at its conventional position, inside the array bounds |
| WaveletUtils.HeatmapIgnoresTail | core/wavelet_utils.py:54-60 | only the first `min(len(coeffs), 2^(jMax+1) - 1)` coefficients matter: cutting off the rest leaves every cell unchanged |
| WaveletUtils.ConventionMismatch | core/wavelet_utils.py:56-60 | the heatmap and the reconstruction place index `i` at the same `(j, k)` iff the reconstruction's translation is not -1; when it is -1, the heatmap shows the coefficient one level up, at that level's last translation |

## Left out

- `generate_sobol_wavelet_coeffs` (core/wavelet_qmc.py:80-94) calls scipy's scrambled Sobol generator. It is a foreign, randomised call. The batch driver takes its result as an input matrix with `2^jMax - 1` coefficients per path.
- numba compilation and parallelism (`njit`, `parallel=True`, `prange`, `fastmath`, `nogil`) are not modelled. The loops are sequential. `PathSums.ReconstructionOrderFree` shows that any serial order of the outer loop gives the same exact sum. Lost updates from threads racing on `path[t_idx] +=` are not modelled.
- Floating point is not modelled:
  - arithmetic is exact over `real`;
  - `np.linspace` spacing is exact (`Linspace`);
  - `int(T / dt)` truncates an exact quotient (`Trunc`).
- HaarWavelet: the normalisation `2.0 ** (-j * (H + 0.5))` needs real exponentiation. It is a parameter `amp(j, H)`, so no property that depends on its value (positivity, decay in `j`) is proved unless it is stated as a hypothesis.
- ReconstructFbmPath: Python raises for `dt = 0` and for a negative point count. Here those two cases are preconditions, and likewise in `ReconstructFbmPathFixed`. `RoughFbmPaths` models them as error results instead.
- WaveletHeatmap: `j_max` is a natural number. A negative `j_max` makes numpy reject the array shape, and that case is not modelled.
- `core/baselines.py` (Cholesky reference paths) is not part of this model: it is floating-point linear algebra and random draws.
- `tests/benchmark_rough_vol.py` and `tests/visualization.py` are not part of this model: they are statistical checks, plotting and argument parsing.
- `configs/rough_vol_params.py` is a constant table. Only `T` and `dt` are used, in `WaveletQmc.ConfiguredShapeMismatch` and `WaveletQmc.ConfiguredGridStep`.

## Findings

| source | as written | input that shows it | evidently intended | confidence | as-written member | corrected member |
|---|---|---|---|---|---|---|
| core/wavelet_qmc.py:67-117 | the buffer has `int(T/dt) + 1` rows, but `reconstruct_fbm_path` builds `linspace(0, T, int(T/dt))` and returns `int(T/dt)` values, so `paths[:, i] = ...` cannot broadcast unless `int(T/dt) = 1`; that grid also steps by `T / (int(T/dt) - 1)`, not `dt` | the repository's configuration `T = 1`, `dt = 1/252`, `num_paths >= 1`: 253 rows against 252 values, on a grid of step 1/251. In floating point the quotient may truncate to 251 instead, and the counts still differ by one | the buffer is the intended shape: the baselines sample `np.arange(0, T + dt, dt)` (core/baselines.py:16) and allocate `int(T/dt) + 1` rows (core/baselines.py:64-65), and the tests compare the two cell by cell and read row -1 as maturity (tests/benchmark_rough_vol.py:21, 43). So the reconstruction grid should have `int(T/dt) + 1` points `0, dt, ..., T` | high for exact arithmetic; not executed | WaveletQmc.RoughFbmPaths, WaveletQmc.ConfiguredShapeMismatch, WaveletQmc.ConfiguredGridStep | WaveletQmc.RoughFbmPathsFixed, WaveletQmc.ReconstructFbmPathFixed, WaveletQmc.GridStep |
