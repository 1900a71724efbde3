# Parks-McClellan FIR design and I/Q conversion, in Dafny

This project models two pieces of the `tdoa-c` time-difference-of-arrival toolkit.

The first is the Parks-McClellan (Remez exchange) FIR filter designer in `tdoa-c/lib/firtool/remez.cpp`. The model covers:

- the dense frequency grid (`CreateDenseGrid`) and its predicted size;
- the initial extremal guess (`InitialGuess`);
- the differentiator weight fix and the Parks-McClellan reduction of the desired response and the weights;
- the error curve (`CalcError`);
- the extremal search with its reduction loop (`Search`);
- the convergence test (`isDone`);
- the capped exchange loop;
- the tap sampling;
- the frequency-sampling synthesis with its scaling to a peak of one half (`FreqSample`);
- the driver `remez`, which ties these together and returns 0, -1, -2 or -3.

The second is the conversion of a raw capture of interleaved unsigned 8-bit I/Q bytes into signed in-phase and quadrature channels and complex samples (`tdoa-c/lib/ReadIQ.cpp`).

Each loop of the modelled parts is a Dafny `method` over `array`s or sequences, with loop invariants. Each is proved against a specification function, and the properties the source relies on are proved as lemmas about those functions.

The exceptions are the loops inside `CalcParms` (remez.cpp:157-205) and `ComputeA` (remez.cpp:229-245). These numerical kernels are not modelled: they are function-valued parameters in `Remez.Numerics`. The C library's `cos` and `sin` are parameters too, in `FreqSampling.Trig`. The results hold for every choice of `CalcParms` and `ComputeA`, with two conditions on `cos` and `sin`:

- the reduction factor built from them must not vanish on the grid (`Remez.FactorsNonzero`);
- the linear-phase lemmas assume that `cos` is even and `sin` is odd (`FreqSampling.Parity`).

Modules:

| file | module | contents |
|---|---|---|
| `carith.dfy` | `CArith` | `fabs`, truncating `(int)` casts, C integer division |
| `remez_types.dfy` | `RemezTypes` | symmetry, filter type, constants, the half-order `r` |
| `dense_grid.dfy` | `DenseGrid` | `CreateDenseGrid` and the shape of the grid |
| `grid_size.dfy` | `GridSizing` | the grid-size prediction of `remez` |
| `initial_guess.dfy` | `InitialGuess` | `InitialGuess` |
| `search_spec.dfy` | `ExtremaSearch` | what `Search` computes |
| `search.dfy` | `Search` | `Search` over arrays |
| `convergence.dfy` | `Convergence` | `isDone` |
| `freq_sample.dfy` | `FreqSampling` | `FreqSample` |
| `remez.dfy` | `Remez` | grid preparation, `CalcError`, the exchange, the taps, `remez` |
| `readiq.dfy` | `ReadIQ` | the conversion loops of `ReadIQ` |

## Model

| member | source | states |
|---|---|---|
| CArith.Trunc | tdoa-c/lib/firtool/remez.cpp:91 | `(int)x` truncates toward zero: `n <= x < n+1` for `x >= 0`, and `n-1 < x <= n` below zero |
| CArith.CDiv | tdoa-c/lib/firtool/remez.cpp:133 | C integer division by a positive divisor truncates toward zero, for both signs of the dividend |
| RemezTypes.SymmetryOf | tdoa-c/lib/firtool/remez.cpp:534-539 | the impulse response is even-symmetric exactly for a bandpass filter |
| RemezTypes.HalfOrder | tdoa-c/lib/firtool/remez.cpp:541-543 | `r` is `numtaps/2`, plus one exactly for an odd length with even symmetry; `r >= 1` except for a single-tap odd-symmetric filter |
| DenseGrid.Grid0 | tdoa-c/lib/firtool/remez.cpp:85 | the first frequency: `delf` for an odd-symmetric filter whose first band starts below `delf`, and otherwise `bands[0]` |
| DenseGrid.Count | tdoa-c/lib/firtool/remez.cpp:91 | the number `k` of samples of band `b`: `(int)((highf - lowf)/delf + 0.5)`, truncated as C does |
| DenseGrid.GridPoints | tdoa-c/lib/firtool/remez.cpp:73-112 | the frequencies `CreateDenseGrid` leaves in `Grid`: each band's steps with the band edge in the last place, then the clamp of the final one |
| DenseGrid.Desired | tdoa-c/lib/firtool/remez.cpp:92 | the desired response `CreateDenseGrid` leaves in `D`: each band's linear interpolation from `des[2b]` to `des[2b+1]` |
| DenseGrid.Weights | tdoa-c/lib/firtool/remez.cpp:93 | the weights `CreateDenseGrid` leaves in `W`: `weight[b]` over band `b` |
| DenseGrid.CreateDenseGrid | tdoa-c/lib/firtool/remez.cpp:73-112 | `Grid`, `D` and `W` become `GridPoints`, `Desired` and `Weights`: the bands laid out one after the other, then the clamp of the last frequency |
| DenseGrid.FillBands | tdoa-c/lib/firtool/remez.cpp:88-100 | after the band loop, the three arrays hold exactly the samples of all bands |
| DenseGrid.LayBand | tdoa-c/lib/firtool/remez.cpp:89-99 | one pass of the band loop extends the written prefix by band `band`, and the next write index is `Start(band+1)` |
| DenseGrid.FillBand | tdoa-c/lib/firtool/remez.cpp:92-99 | the inner loop appends `k` steps of `delf` from `lowf` with the last replaced by `highf`, the linear interpolation of `des`, and `k` copies of the weight |
| DenseGrid.Store | tdoa-c/lib/firtool/remez.cpp:93-95 | one sample's three stores extend each prefix by one value and touch nothing before it |
| DenseGrid.Start | tdoa-c/lib/firtool/remez.cpp:86-97 | the write index at the start of band `b` is at least `2b` when every band has at least two samples |
| DenseGrid.StartMonotone | tdoa-c/lib/firtool/remez.cpp:86-97 | band start indices never decrease |
| DenseGrid.GridLayout | tdoa-c/lib/firtool/remez.cpp:88-99 | band `b`'s frequencies occupy exactly `[Start(b), Start(b+1))` |
| DenseGrid.DesiredLayout | tdoa-c/lib/firtool/remez.cpp:92 | band `b`'s desired values occupy exactly `[Start(b), Start(b+1))` |
| DenseGrid.WeightLayout | tdoa-c/lib/firtool/remez.cpp:93 | band `b`'s weights occupy exactly `[Start(b), Start(b+1))` |
| DenseGrid.PointOf | tdoa-c/lib/firtool/remez.cpp:92-98 | sample `i` of band `b` sits at index `Start(b)+i` in all three arrays |
| DenseGrid.WeightPerBand | tdoa-c/lib/firtool/remez.cpp:93 | the weight is `weight[b]` at every sample of band `b` |
| DenseGrid.InterpEnds | tdoa-c/lib/firtool/remez.cpp:92 | the interpolation starts at `des[2b]` and ends at `des[2b+1]` |
| DenseGrid.InterpBetween | tdoa-c/lib/firtool/remez.cpp:92 | every interpolated value lies between the two end values |
| DenseGrid.DesiredEndpoints | tdoa-c/lib/firtool/remez.cpp:92 | the desired response is `des[2b]` at band `b`'s first sample and `des[2b+1]` at its last |
| DenseGrid.DesiredBetween | tdoa-c/lib/firtool/remez.cpp:92 | every desired value of a band lies between the band's two desired values |
| DenseGrid.CountSpan | tdoa-c/lib/firtool/remez.cpp:91 | the rounding of `k`: `(k - 1/2) delf <= highf - lowf < (k + 1/2) delf` |
| DenseGrid.BandEnd | tdoa-c/lib/firtool/remez.cpp:99 | every band ends exactly on its upper edge unless the clamp moved the last one |
| DenseGrid.NotLast | tdoa-c/lib/firtool/remez.cpp:106-111 | the clamp touches only the final grid index |
| DenseGrid.FirstPoint | tdoa-c/lib/firtool/remez.cpp:85 | the first frequency is `bands[0]`, or `max(delf, bands[0])` for odd symmetry |
| DenseGrid.LastPoint | tdoa-c/lib/firtool/remez.cpp:106-111 | the clamp applies exactly for odd symmetry, an odd tap count and a last edge above `0.5 - delf`; the last frequency is then `0.5 - delf`, and otherwise the last edge |
| DenseGrid.StepBelowEdge | tdoa-c/lib/firtool/remez.cpp:91-96 | every sample before a band's last lies at least 1.5 steps below the band edge |
| DenseGrid.PointStrict | tdoa-c/lib/firtool/remez.cpp:92-99 | consecutive samples of a band increase, and the band edge replaces the last step without going backwards |
| DenseGrid.BandStrict | tdoa-c/lib/firtool/remez.cpp:88-111 | within a band the grid frequencies strictly increase, clamp included |
| DenseGrid.BandBoundary | tdoa-c/lib/firtool/remez.cpp:88-99 | with ordered band edges, the frequency does not decrease across a band boundary |
| DenseGrid.Locate | tdoa-c/lib/firtool/remez.cpp:86-97 | every grid index belongs to exactly one band's range |
| DenseGrid.GridNondecreasing | tdoa-c/lib/firtool/remez.cpp:73-112 | with ordered band edges the whole grid is nondecreasing |
| DenseGrid.GridBounds | tdoa-c/lib/firtool/remez.cpp:82-85 | with ordered band edges every frequency is in `[0, 0.5]`, and positive for odd symmetry |
| GridSizing.Estimate | tdoa-c/lib/firtool/remez.cpp:551 | one band's term of the prediction: `(int)(2 r griddensity (hi - lo) + 0.5)`, truncated as C does |
| GridSizing.PredictedSize | tdoa-c/lib/firtool/remez.cpp:549-553 | the size as the source predicts it: the band terms over the nominal band edges, less one for an odd-symmetric filter |
| GridSizing.PredictGridSize | tdoa-c/lib/firtool/remez.cpp:549-553 | the prediction loop as written returns `PredictedSize`: the number of points written for even symmetry, and one less for odd symmetry with the first band at or above `delf` |
| GridSizing.SampledIsStart | tdoa-c/lib/firtool/remez.cpp:549-553 | the band terms over the sampled edges add up to the number of points `CreateDenseGrid` writes |
| GridSizing.EstimateIsCount | tdoa-c/lib/firtool/remez.cpp:551 | each band term of the prediction over the sampled edges is the band's sample count `k` |
| GridSizing.LaterBandsAgree | tdoa-c/lib/firtool/remez.cpp:550-551 | the prediction and the grid differ only in the first band's term |
| GridSizing.PredictionExact | tdoa-c/lib/firtool/remez.cpp:549-553 | for even symmetry the predicted size is the number of points written |
| GridSizing.PredictionExactFromZero | tdoa-c/lib/firtool/remez.cpp:549-553 | for odd symmetry with the first band at 0, the decrement makes the prediction exact |
| GridSizing.FirstBandFromZero | tdoa-c/lib/firtool/remez.cpp:85 | moving the first band's start from 0 to `delf` removes exactly one sample |
| GridSizing.PredictionShort | tdoa-c/lib/firtool/remez.cpp:549-553 | for odd symmetry with the first band at or above `delf`, the prediction is one less than the points written |
| GridSizing.HilbertOverrun | tdoa-c/lib/firtool/remez.cpp:549-553 | a concrete 31-tap Hilbert design: predicted 191, written 192 |
| GridSizing.GridSize | tdoa-c/lib/firtool/remez.cpp:549-553 | the corrected size loop returns exactly the number of points `CreateDenseGrid` writes |
| InitialGuess.InitialGuess | tdoa-c/lib/firtool/remez.cpp:131-134 | `Ext[i] = i(gridsize-1)/r` in C division for `i <= r`; the rest of `Ext` is untouched |
| InitialGuess.GuessEndpoints | tdoa-c/lib/firtool/remez.cpp:133 | the first guess is index 0 and the last is the final grid index |
| InitialGuess.GuessMonotone | tdoa-c/lib/firtool/remez.cpp:133 | the guesses never decrease |
| InitialGuess.GuessInGrid | tdoa-c/lib/firtool/remez.cpp:133 | every guess is an index of the grid |
| InitialGuess.GuessStrict | tdoa-c/lib/firtool/remez.cpp:133 | with at least `r+1` grid points the guesses strictly increase |
| ExtremaSearch.IsCandidate | tdoa-c/lib/firtool/remez.cpp:315-339 | the scan's rules: an end point beats its one neighbour strictly, an interior point is at least its left neighbour and beats its right one, in the direction of its sign |
| ExtremaSearch.Candidates | tdoa-c/lib/firtool/remez.cpp:315-339 | all grid points the three scans report, in scan order |
| ExtremaSearch.CandidatesBelow | tdoa-c/lib/firtool/remez.cpp:315-339 | the scan over the first `n` points yields at most `n` indices, all below `n` |
| ExtremaSearch.CandidatesSound | tdoa-c/lib/firtool/remez.cpp:315-339 | every index the scan reports passes its rule, and they come in strictly increasing order |
| ExtremaSearch.CandidatesComplete | tdoa-c/lib/firtool/remez.cpp:315-339 | every grid point that passes its rule is reported |
| ExtremaSearch.CandidatesBelowPrefix | tdoa-c/lib/firtool/remez.cpp:321-339 | scanning further only appends |
| ExtremaSearch.CandidatesNonzero | tdoa-c/lib/firtool/remez.cpp:315-338 | no candidate has zero error |
| ExtremaSearch.BreakFromSpec | tdoa-c/lib/firtool/remez.cpp:361-378 | the scan of the candidate list passes every alternating step and stops at the first failing one |
| ExtremaSearch.BreakIndexSpec | tdoa-c/lib/firtool/remez.cpp:361-378 | the scan runs to the end exactly when the whole list alternates |
| ExtremaSearch.ArgMinAbsSpec | tdoa-c/lib/firtool/remez.cpp:359-363 | the tracked position has the least `abs(E)`, and on a tie it is the earliest |
| ExtremaSearch.Victim | tdoa-c/lib/firtool/remez.cpp:352-393 | the position one reduction pass deletes, computed as the source does: the end trim for an alternating list with one extra, otherwise the first smallest `abs(E)` up to and including the break |
| ExtremaSearch.VictimTieBreak | tdoa-c/lib/firtool/remez.cpp:352-393 | a non-alternating list deletes the smallest among positions `0..break`; an alternating list with one extra deletes the smaller end, and otherwise the overall smallest |
| ExtremaSearch.RemoveAtInRange | tdoa-c/lib/firtool/remez.cpp:395-399 | deletion keeps every entry a grid index |
| ExtremaSearch.RemoveAtSubseq | tdoa-c/lib/firtool/remez.cpp:395-399 | deletion leaves a subsequence |
| ExtremaSearch.SubseqTrans | tdoa-c/lib/firtool/remez.cpp:351-401 | a subsequence of a subsequence is a subsequence, so repeated deletions compose |
| ExtremaSearch.SubseqElements | tdoa-c/lib/firtool/remez.cpp:351-401 | what the reduction keeps comes from the candidate list |
| ExtremaSearch.SubseqIncreasing | tdoa-c/lib/firtool/remez.cpp:351-401 | deletions keep the list strictly increasing |
| ExtremaSearch.Reduce | tdoa-c/lib/firtool/remez.cpp:351-401 | `extra` reduction passes, each deleting its victim, leave `abs(c) - extra` grid indices |
| ExtremaSearch.ReduceSubseq | tdoa-c/lib/firtool/remez.cpp:351-401 | the reduced set is a subsequence of the candidates |
| ExtremaSearch.BoundaryTrimKeepsAlternation | tdoa-c/lib/firtool/remez.cpp:384-393 | trimming the smaller end of an alternating list keeps it alternating |
| ExtremaSearch.SearchOutcome | tdoa-c/lib/firtool/remez.cpp:305-408 | -3 exactly when there are more than `2r` candidates, -2 exactly when there are fewer than `r+1`, and success exactly in between |
| ExtremaSearch.FoundExtremaShape | tdoa-c/lib/firtool/remez.cpp:305-408 | a successful search yields `r+1` strictly increasing grid indices, each a candidate with nonzero error, taken in order from the candidates |
| Search.Search | tdoa-c/lib/firtool/remez.cpp:305-408 | the return code is that of `SearchOutcome`; on success `Ext[0..r]` is the found set, on failure `Ext` is unchanged, and `Ext` past `r` is never touched |
| Search.ScanExtrema | tdoa-c/lib/firtool/remez.cpp:309-339 | the three scans overflow the `2r` buffer exactly when there are more than `2r` candidates, and otherwise leave exactly the candidates in it |
| Search.ChooseVictim | tdoa-c/lib/firtool/remez.cpp:352-393 | the alternation scan and the boundary trim pick the position `Victim` specifies |
| Search.BreakAt | tdoa-c/lib/firtool/remez.cpp:361-378 | the loop's break position is where the specification says alternation first fails |
| Search.DeleteAt | tdoa-c/lib/firtool/remez.cpp:395-399 | the shift loop removes position `l` from `foundExt[0..k)` and leaves the rest of the buffer alone |
| Search.ReduceExtrema | tdoa-c/lib/firtool/remez.cpp:348-401 | the reduction loop leaves `Reduce` of the candidates in `foundExt[0..r]` |
| Search.StepReduceFacts | tdoa-c/lib/firtool/remez.cpp:351-401 | each deletion keeps the reduction goal of the remaining passes |
| Search.ReduceAndCopy | tdoa-c/lib/firtool/remez.cpp:345-406 | from the candidates, `Ext[0..r]` receives the found set and the rest of `Ext` is kept |
| Search.CopyExtrema | tdoa-c/lib/firtool/remez.cpp:403-406 | `Ext[0..n)` takes `foundExt[0..n)`, nothing else changes |
| Convergence.MinMag | tdoa-c/lib/firtool/remez.cpp:497-502 | the running minimum of the extremal magnitudes, replaced on a strict `<` |
| Convergence.MaxMag | tdoa-c/lib/firtool/remez.cpp:497-504 | the running maximum of the extremal magnitudes, replaced on a strict `>` |
| Convergence.Converged | tdoa-c/lib/firtool/remez.cpp:494-505 | `isDone`'s verdict: `(max - min)/max < 1e-12`, false when `max` is zero |
| Convergence.IsDone | tdoa-c/lib/firtool/remez.cpp:494-506 | the result is `Converged` on `E` and `Ext[0..r]` |
| Convergence.MinMagSpec | tdoa-c/lib/firtool/remez.cpp:497-502 | the running minimum is the least extremal magnitude, and one of them |
| Convergence.MaxMagSpec | tdoa-c/lib/firtool/remez.cpp:497-504 | the running maximum is the greatest extremal magnitude, and one of them |
| Convergence.ConvergedBand | tdoa-c/lib/firtool/remez.cpp:505 | when the test passes, the maximum is positive and every extremal magnitude is within `1e-12` of it, relatively |
| Convergence.BandConverged | tdoa-c/lib/firtool/remez.cpp:505 | the converse: magnitudes within that band of a positive maximum pass the test |
| Convergence.EquirippleConverges | tdoa-c/lib/firtool/remez.cpp:494-506 | equal nonzero extremal magnitudes pass the test |
| Convergence.ZeroErrorNotConverged | tdoa-c/lib/firtool/remez.cpp:505 | an error curve that is zero at every extremum never passes (`0/0` is not below the tolerance) |
| Convergence.ConvergedLocal | tdoa-c/lib/firtool/remez.cpp:494-506 | the test reads the error curve only at the extremal indices |
| FreqSampling.Base | tdoa-c/lib/firtool/remez.cpp:431-460 | the starting value of `val` in each of the four branches |
| FreqSampling.Tap | tdoa-c/lib/firtool/remez.cpp:431-464 | tap `n` before scaling: `val / N` after the harmonic loop |
| FreqSampling.Synthesis | tdoa-c/lib/firtool/remez.cpp:429-466 | the `N` taps the synthesis loops write, before scaling |
| FreqSampling.Scaled | tdoa-c/lib/firtool/remez.cpp:468-473 | the taps after the scaling loops, same length as before |
| FreqSampling.FreqSample | tdoa-c/lib/firtool/remez.cpp:428-474 | `h[0..N)` becomes the scaled synthesis of `A`; the rest of `h` is unchanged |
| FreqSampling.SynthesizeTap | tdoa-c/lib/firtool/remez.cpp:431-464 | one tap is `(base + sum of harmonics)/N` |
| FreqSampling.AddHarmonics | tdoa-c/lib/firtool/remez.cpp:435-436 | the `k` loop adds `2 A[k] wave(x k)` for `k = 1 .. (N-1)/2` |
| FreqSampling.NormalizeTaps | tdoa-c/lib/firtool/remez.cpp:468-473 | the two loops divide every tap by twice the peak when the peak is positive |
| FreqSampling.PeakAbsSpec | tdoa-c/lib/firtool/remez.cpp:468-471 | the running peak bounds every magnitude and is zero or one of them |
| FreqSampling.ScaledPeak | tdoa-c/lib/firtool/remez.cpp:468-473 | with some tap nonzero, the largest magnitude after scaling is exactly one half |
| FreqSampling.ScaledBound | tdoa-c/lib/firtool/remez.cpp:468-473 | after scaling no tap exceeds one half in magnitude |
| FreqSampling.ScaledIsMultiple | tdoa-c/lib/firtool/remez.cpp:472-473 | scaling multiplies every tap by one positive factor |
| FreqSampling.ScaledZero | tdoa-c/lib/firtool/remez.cpp:472 | all-zero taps are left unchanged |
| FreqSampling.PhaseMirror | tdoa-c/lib/firtool/remez.cpp:429-434 | taps `n` and `N-1-n` sit at opposite phases about `M` |
| FreqSampling.HarmonicSumMirror | tdoa-c/lib/firtool/remez.cpp:435-462 | with even `cos` and odd `sin`, mirroring keeps cosine sums and negates sine sums |
| FreqSampling.BaseMirror | tdoa-c/lib/firtool/remez.cpp:433-460 | the starting value of `val` is even or odd about the centre, according to the symmetry |
| FreqSampling.TapMirror | tdoa-c/lib/firtool/remez.cpp:431-464 | taps `n` and `N-1-n` are equal for even symmetry and opposite for odd symmetry |
| FreqSampling.SynthesisSymmetry | tdoa-c/lib/firtool/remez.cpp:429-466 | the synthesized response has linear phase: symmetric or antisymmetric about its centre |
| FreqSampling.ScaledMirror | tdoa-c/lib/firtool/remez.cpp:472-473 | scaling keeps equal taps equal and opposite taps opposite |
| FreqSampling.FreqSampleSymmetry | tdoa-c/lib/firtool/remez.cpp:428-474 | the scaled response keeps the linear phase |
| FreqSampling.HarmonicSumPrefix | tdoa-c/lib/firtool/remez.cpp:435-436 | the harmonic sums read `A[1..K]` only |
| FreqSampling.SynthesisPrefix | tdoa-c/lib/firtool/remez.cpp:428-466 | synthesis reads `A[0..N/2]` and nothing beyond |
| Remez.DiffWeights | tdoa-c/lib/firtool/remez.cpp:578-584 | the weights after the differentiator fix, the same length as the grid |
| Remez.Factor | tdoa-c/lib/firtool/remez.cpp:593-613 | the reduction factor `c`: `cos(pi f)`, `sin(2 pi f)`, `sin(pi f)` or 1, by symmetry and parity of `numtaps` |
| Remez.DiffWeightsSpec | tdoa-c/lib/firtool/remez.cpp:578-584 | a weight divided by its frequency times that frequency gives back the old weight; weights at small desired values are untouched; positive stays positive |
| Remez.DifferentiatorFix | tdoa-c/lib/firtool/remez.cpp:578-584 | the loop leaves `W` equal to `DiffWeights` of the old weights |
| Remez.ReducedError | tdoa-c/lib/firtool/remez.cpp:593-615 | on the reduced arrays, the weighted error of `a` is the original weighted error of the amplitude `c a` |
| Remez.ReduceResponse | tdoa-c/lib/firtool/remez.cpp:593-615 | `D` and `W` become `ReducedD` and `ReducedW`, with no change for an odd-length even-symmetric filter |
| Remez.ReduceLoop | tdoa-c/lib/firtool/remez.cpp:595-613 | every `D[i]` is divided and every `W[i]` multiplied by the factor at `Grid[i]` |
| Remez.ErrorCurve | tdoa-c/lib/firtool/remez.cpp:272-279 | the error `W[i](D[i] - A(Grid[i]))` at every grid point, one per grid point |
| Remez.CalcError | tdoa-c/lib/firtool/remez.cpp:272-279 | `E[i]` becomes `W[i](D[i] - A(Grid[i]))` over the whole grid |
| Remez.ErrorOfAmplitude | tdoa-c/lib/firtool/remez.cpp:272-279 | on the reduced arrays the error at a grid point is the original weighted error of the filter amplitude `c A`, and with nonzero weight it is zero exactly where that amplitude meets the desired response |
| Remez.ExchangeFrom | tdoa-c/lib/firtool/remez.cpp:620-632 | the exchange from pass `iter` on: `CalcParms` and `CalcError` on the current set, then the rest of the pass |
| Remez.ExchangeAfter | tdoa-c/lib/firtool/remez.cpp:625-631 | the rest of a pass: a failed search aborts with its code, a set that passes `isDone` stops, the fortieth pass stops at the cap, and otherwise the next pass runs |
| Remez.ExchangeEnds | tdoa-c/lib/firtool/remez.cpp:620-632 | the loop ends with code -3 or -2 from a failed search, or after a successful search with the set it found and a count at most `MAXITERATIONS` |
| Remez.ExchangeConverges | tdoa-c/lib/firtool/remez.cpp:620-632 | a stopped loop ends below the cap exactly when its last set passed the convergence test |
| Remez.Pass | tdoa-c/lib/firtool/remez.cpp:623-631 | one pass of `CalcParms`, `CalcError`, `Search` and `isDone` advances the exchange by exactly one step |
| Remez.ExchangeLoop | tdoa-c/lib/firtool/remez.cpp:620-632 | the loop returns the failed search's code, or leaves the last found set in `Ext` with the final iteration count |
| Remez.TapSamples | tdoa-c/lib/firtool/remez.cpp:641-654 | `taps[i] = ComputeA(i/numtaps) c` for `i = 0 .. numtaps/2`, `numtaps/2 + 1` of them |
| Remez.TapsMatchError | tdoa-c/lib/firtool/remez.cpp:641-654 | a tap sample at a grid frequency is the amplitude whose weighted error the exchange measured there |
| Remez.ComputeTaps | tdoa-c/lib/firtool/remez.cpp:641-654 | `taps[0..numtaps/2]` become `ComputeA(i/numtaps) c` at `i/numtaps` |
| Remez.ReturnCode | tdoa-c/lib/firtool/remez.cpp:661 | 0 when the loop stopped below the cap, -1 at the cap, and the search's code after a failed search |
| Remez.ReturnCodes | tdoa-c/lib/firtool/remez.cpp:620-661 | `remez` returns -3 or -2 exactly on a failed search, 0 exactly when the loop converged, and -1 exactly when it hit the cap |
| Remez.StoppedExtrema | tdoa-c/lib/firtool/remez.cpp:620-661 | a completed exchange ends on `r+1` strictly increasing nonzero-error local extrema, and returns 0 exactly when they pass the convergence test |
| Remez.ResponseShape | tdoa-c/lib/firtool/remez.cpp:641-659 | the response has `numtaps` taps of magnitude at most one half, symmetric for bandpass and antisymmetric otherwise |
| Remez.Remez | tdoa-c/lib/firtool/remez.cpp:531-670 | `remez` returns the exchange's code and writes `Response` to `h[0..numtaps)` after a completed exchange; `h` is untouched after a failed search |
| Remez.Design | tdoa-c/lib/firtool/remez.cpp:573-661 | guess, exchange and synthesis on the prepared grid, with the same return code and output |
| Remez.RunExchange | tdoa-c/lib/firtool/remez.cpp:573-632 | the initial guess followed by the exchange loop yields the exchange's outcome |
| Remez.PrepareGrid | tdoa-c/lib/firtool/remez.cpp:549-615 | the grid, differentiator fix and reduction produce `Prepare` in three fresh, distinct arrays |
| Remez.Synthesize | tdoa-c/lib/firtool/remez.cpp:634-659 | `h[0..numtaps)` becomes the scaled synthesis of the tap samples, and the rest of `h` is kept |
| ReadIQ.ConvertBuffer | tdoa-c/lib/ReadIQ.cpp:31-49 | the three loops return exactly `Inphase`, `Quadrature` and `Pairs` of the buffer, every part in `[-128, 127]` |
| ReadIQ.PairsShorter | tdoa-c/lib/ReadIQ.cpp:42-45 | the complex vector's size, the shorter channel's length, is the number of complete byte pairs; the in-phase channel is one longer exactly when a byte is left over |
| ReadIQ.ChannelRange | tdoa-c/lib/ReadIQ.cpp:35-39 | every re-centred sample lies in `[-128, 127]` |
| ReadIQ.InterleaveRecoversBuffer | tdoa-c/lib/ReadIQ.cpp:31-49 | the complex samples give back exactly the longest even-length prefix of the buffer |

## Left out

- Floating point: `long double` and `double` values are exact reals, and `M_PI` is a decimal constant. Rounding, overflow to infinity and NaN are not modelled, except for the `0/0` of `isDone`, which is decided as "not converged".
- `CalcParms` and `ComputeA` are abstract: they are fields of `Remez.Numerics`, and every result holds for any such functions. Their barycentric interpolation, including the `1e-12` clamp of the denominator, is not modelled.
- `cos` and `sin` are abstract: they are fields of `FreqSampling.Trig`. The symmetry lemmas assume only that `cos` is even and `sin` is odd.
- The file I/O and console output of `ReadIQ` are not modelled: opening and reading the file, the error messages and the size printout. The conversion takes the byte buffer as input and returns the vectors.
- `filters.cpp` and the I/Q filtering that calls `remez` are not part of this model.
- The reduction divides `D` by the factor `c` and multiplies `W` by it. In the source, a factor of exactly zero would give an infinity, or NaN at a stopband sample where `D` is 0. The model requires the factor to be nonzero on the grid (`FactorsNonzero` in `Admissible`).
  - With the C library's `cos` and `sin` the factor never vanishes on the grid. The case to watch is the even-length even-symmetric filter with a band reaching 0.5, where `cos(M_PI * 0.5)` is about `6e-17`, not 0. An odd-symmetric grid avoids 0, and for an odd length it also avoids 0.5.
  - With exact `cos` and `sin`, that even-length design has a factor of exactly zero at 0.5. It is therefore outside the model, while the source carries on there with a huge `D` and a tiny `W`.
  - The differentiator fix divides by the grid frequency. It needs no such precondition: a differentiator is odd-symmetric, so every grid frequency is positive (`DenseGrid.GridBounds`).
- Remez.Remez: requires at least two samples per band (`CountsOk`) and band edges in order within `[0, 0.5]` (`Ordered`). With fewer samples the source divides by zero or writes before a band's start. It also requires `r >= 1`, which `Search` needs to have a buffer.
- Search.Search: requires `r >= 1` and `gridsize >= 2`, because the scan reads `E[1]` and `E[gridsize-2]`.
- C `int` overflow of the grid-size sum and the index products is not modelled; integers are unbounded.
- `delete` on arrays allocated with `new[]`, and the variable-length stack arrays, are memory-management details and are not modelled.
- The entries of `taps` past `numtaps/2` are uninitialised in the source. The model leaves them unconstrained, and `FreqSampling.SynthesisPrefix` shows that `FreqSample` never reads them.
- Remez.PrepareGrid: allocates the grid at the size `CreateDenseGrid` writes (`GridSizing.GridSize`), not the source's prediction, which can be one short (see Findings).
- The final `CalcParms` after the loop is modelled as `num.calcParms` applied to the last extremal set. Its outputs only feed the taps.

## Findings

| source | as written | input that shows it | evidently intended | confidence | as-written member | corrected member |
|---|---|---|---|---|---|---|
| tdoa-c/lib/firtool/remez.cpp:549-553 | the grid-size prediction subtracts one for every odd-symmetric filter, but `CreateDenseGrid` drops a point only when it moves the first band's start from below `delf` up to `delf` | a 31-tap Hilbert transformer, one band `[0.05, 0.45]`, grid density 16: 191 points predicted, 192 written, so the last write lands one past the arrays | allocate exactly the number of points `CreateDenseGrid` writes | high (not executed) | GridSizing.PredictGridSize, GridSizing.PredictionShort, GridSizing.HilbertOverrun | GridSizing.GridSize, GridSizing.SampledIsStart |
