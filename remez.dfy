/** `remez` (tdoa-c/lib/firtool/remez.cpp): the Parks-McClellan driver. It
    picks the symmetry and the half-order `r`, lays out the dense grid,
    guesses the first extremal set, fixes the weights of a differentiator,
    applies the Parks-McClellan reduction to the desired response and the
    weights, runs the Remez exchange for at most `MaxIterations` passes, and
    synthesizes the impulse response from the final approximation.

    The numerical kernels are parameters: `CalcParms` (the barycentric
    interpolation data for an extremal set) and `ComputeA` (the
    interpolated amplitude at a frequency) come in a `Numerics` value, and
    `cos` and `sin` in a `Trig` value. `CalcError`, which combines them, is
    modelled as written. */
module Remez {
  import opened CArith
  import opened RemezTypes
  import opened DenseGrid
  import opened GridSizing
  import InitialGuess
  import opened ExtremaSearch
  import Search
  import opened Convergence
  import opened FreqSampling

  /** The outputs `ad`, `x` and `y` of `CalcParms`. */
  datatype Parms = Parms(ad: seq<real>, x: seq<real>, y: seq<real>)

  /** `CalcParms(r, Ext, Grid, D, W)` and `ComputeA(freq, r, parms)`. */
  datatype Numerics = Numerics(calcParms: (int, seq<int>, seq<real>, seq<real>, seq<real>) -> Parms,
                               computeA: (real, int, Parms) -> real)

  // ---------------------------------------------------------------------
  // Preparing the grid

  /** The weights after the differentiator fix: divided by the grid
      frequency wherever the desired response exceeds the threshold. */
  function DiffWeights(G: seq<real>, D: seq<real>, W: seq<real>): (W': seq<real>)
    requires |D| == |G| && |W| == |G|
    requires forall i :: 0 <= i < |G| && D[i] > DifferentiatorThreshold ==> G[i] != 0.0
    ensures |W'| == |G|
  {
    seq(|G|, i requires 0 <= i < |G| => if D[i] > DifferentiatorThreshold then W[i] / G[i] else W[i])
  }

  /** A fixed weight times its frequency is the weight it replaced, and
      positive weights at positive frequencies stay positive. */
  lemma DiffWeightsSpec(G: seq<real>, D: seq<real>, W: seq<real>, i: int)
    requires |D| == |G| && |W| == |G| && 0 <= i < |G|
    requires forall j :: 0 <= j < |G| && D[j] > DifferentiatorThreshold ==> G[j] != 0.0
    ensures D[i] > DifferentiatorThreshold ==> DiffWeights(G, D, W)[i] * G[i] == W[i]
    ensures D[i] <= DifferentiatorThreshold ==> DiffWeights(G, D, W)[i] == W[i]
    ensures G[i] > 0.0 && W[i] > 0.0 ==> DiffWeights(G, D, W)[i] > 0.0
  {
  }

  /** The differentiator loop over the grid. */
  method DifferentiatorFix(Grid: array<real>, D: array<real>, W: array<real>, gridsize: int)
    requires Grid.Length == gridsize && D.Length == gridsize && W.Length == gridsize
    requires W != Grid && W != D
    requires forall i :: 0 <= i < gridsize && D[i] > DifferentiatorThreshold ==> Grid[i] != 0.0
    modifies W
    ensures W[..] == DiffWeights(Grid[..], D[..], old(W[..]))
  {
    ghost var W0 := W[..];
    var i := 0;
    while i < gridsize
      invariant 0 <= i <= gridsize
      invariant forall j :: 0 <= j < i ==> W[j] == DiffWeights(Grid[..], D[..], W0)[j]
      invariant forall j :: i <= j < gridsize ==> W[j] == W0[j]
    {
      if D[i] > DifferentiatorThreshold {
        W[i] := W[i] / Grid[i];
      }
      i := i + 1;
    }
  }

  /** The factor `c` of the Parks-McClellan reduction at frequency `f`: the
      amplitude of the filter is `c(f) A(f)` for a cosine polynomial `A`.
      It is 1 for an odd-length even-symmetric filter, `cos(pi f)` for an
      even-length one, and `sin(2 pi f)` or `sin(pi f)` for an odd-symmetric
      filter of odd or even length. */
  function Factor(trig: Trig, symm: Symmetry, numtaps: int, f: real): real
  {
    if symm == Positive then
      if numtaps % 2 == 1 then 1.0 else trig.cos(Pi * f)
    else if numtaps % 2 == 1 then trig.sin(Pi * 2.0 * f)
    else trig.sin(Pi * f)
  }

  /** The source reduces `D` and `W` unless the factor is the constant 1. */
  predicate Reduces(symm: Symmetry, numtaps: int)
  {
    !(symm == Positive && numtaps % 2 == 1)
  }

  /** The reduction divides by the factor, so it must not vanish on the grid. */
  predicate FactorsNonzero(trig: Trig, symm: Symmetry, numtaps: int, G: seq<real>)
  {
    Reduces(symm, numtaps) ==> forall i :: 0 <= i < |G| ==> Factor(trig, symm, numtaps, G[i]) != 0.0
  }

  /** `D[i] /= c` over the grid, when the source reduces. */
  function ReducedD(trig: Trig, symm: Symmetry, numtaps: int, G: seq<real>, D: seq<real>): (D': seq<real>)
    requires |D| == |G| && FactorsNonzero(trig, symm, numtaps, G)
    ensures |D'| == |G|
  {
    if !Reduces(symm, numtaps) then D
    else seq(|G|, i requires 0 <= i < |G| => D[i] / Factor(trig, symm, numtaps, G[i]))
  }

  /** `W[i] *= c` over the grid, when the source reduces. */
  function ReducedW(trig: Trig, symm: Symmetry, numtaps: int, G: seq<real>, W: seq<real>): (W': seq<real>)
    requires |W| == |G|
    ensures |W'| == |G|
  {
    if !Reduces(symm, numtaps) then W
    else seq(|G|, i requires 0 <= i < |G| => W[i] * Factor(trig, symm, numtaps, G[i]))
  }

  /** Why the reduction is sound: the weighted error of a cosine polynomial
      value `a` against the reduced response and weight is the weighted error
      of the filter amplitude `c a` against the original ones. */
  lemma ReducedError(trig: Trig, symm: Symmetry, numtaps: int, G: seq<real>, D: seq<real>, W: seq<real>,
                     i: int, a: real)
    requires |D| == |G| && |W| == |G| && 0 <= i < |G| && FactorsNonzero(trig, symm, numtaps, G)
    ensures ReducedW(trig, symm, numtaps, G, W)[i] * (ReducedD(trig, symm, numtaps, G, D)[i] - a) ==
            W[i] * (D[i] - Factor(trig, symm, numtaps, G[i]) * a)
  {
    if Reduces(symm, numtaps) {
      var c := Factor(trig, symm, numtaps, G[i]);
      ReducedProduct(W[i], D[i], c, a);
    }
  }

  lemma ReducedProduct(w: real, d: real, c: real, a: real)
    requires c != 0.0
    ensures w * c * (d / c - a) == w * (d - c * a)
  {
    assert c * (d / c) == d;
    assert w * c * (d / c - a) == w * (c * (d / c)) - w * (c * a);
  }

  /** The reduction of the source: no loop for an odd-length
      even-symmetric filter, and otherwise the loop for the factor at hand. */
  method ReduceResponse(Grid: array<real>, D: array<real>, W: array<real>, gridsize: int,
                        symmetry: Symmetry, numtaps: int, trig: Trig)
    requires Grid.Length == gridsize && D.Length == gridsize && W.Length == gridsize
    requires Grid != D && Grid != W && D != W
    requires FactorsNonzero(trig, symmetry, numtaps, Grid[..])
    modifies D, W
    ensures D[..] == ReducedD(trig, symmetry, numtaps, Grid[..], old(D[..]))
    ensures W[..] == ReducedW(trig, symmetry, numtaps, Grid[..], old(W[..]))
  {
    if Reduces(symmetry, numtaps) {
      ghost var G, D0, W0 := Grid[..], D[..], W[..];
      ReduceLoop(Grid, D, W, gridsize, symmetry, numtaps, trig, G, D0, W0);
      assert D[..] == ReducedD(trig, symmetry, numtaps, G, D0);
      ReducedWAt(trig, symmetry, numtaps, G, W0, W[..]);
    }
  }

  lemma ReducedWAt(trig: Trig, symm: Symmetry, numtaps: int, G: seq<real>, W0: seq<real>, W1: seq<real>)
    requires Reduces(symm, numtaps) && |W0| == |G| && |W1| == |G|
    requires forall j :: 0 <= j < |G| ==> W1[j] == W0[j] * Factor(trig, symm, numtaps, G[j])
    ensures W1 == ReducedW(trig, symm, numtaps, G, W0)
  {
    var R := ReducedW(trig, symm, numtaps, G, W0);
    assert |R| == |G|;
    forall j | 0 <= j < |G| ensures R[j] == W1[j] {
      assert R[j] == W0[j] * Factor(trig, symm, numtaps, G[j]);
    }
  }

  /** `D[i] /= c; W[i] *= c` over the grid. */
  method ReduceLoop(Grid: array<real>, D: array<real>, W: array<real>, gridsize: int,
                    symmetry: Symmetry, numtaps: int, trig: Trig,
                    ghost G: seq<real>, ghost D0: seq<real>, ghost W0: seq<real>)
    requires Grid.Length == gridsize && D.Length == gridsize && W.Length == gridsize
    requires Grid != D && Grid != W && D != W
    requires G == Grid[..] && D0 == D[..] && W0 == W[..]
    requires Reduces(symmetry, numtaps)
    requires forall j :: 0 <= j < gridsize ==> Factor(trig, symmetry, numtaps, G[j]) != 0.0
    modifies D, W
    ensures forall j :: 0 <= j < gridsize ==> D[j] == D0[j] / Factor(trig, symmetry, numtaps, G[j])
    ensures forall j :: 0 <= j < gridsize ==> W[j] == W0[j] * Factor(trig, symmetry, numtaps, G[j])
  {
    var i := 0;
    while i < gridsize
      invariant 0 <= i <= gridsize
      invariant forall j :: 0 <= j < i ==> D[j] == D0[j] / Factor(trig, symmetry, numtaps, G[j])
      invariant forall j :: 0 <= j < i ==> W[j] == W0[j] * Factor(trig, symmetry, numtaps, G[j])
      invariant forall j :: i <= j < gridsize ==> D[j] == D0[j] && W[j] == W0[j]
    {
      var c := FactorAt(trig, symmetry, numtaps, Grid[i]);
      assert Grid[i] == G[i];
      D[i] := D[i] / c;
      W[i] := W[i] * c;
      i := i + 1;
    }
  }

  method FactorAt(trig: Trig, symmetry: Symmetry, numtaps: int, f: real) returns (c: real)
    requires Reduces(symmetry, numtaps)
    ensures c == Factor(trig, symmetry, numtaps, f)
  {
    if symmetry == Positive {
      c := trig.cos(Pi * f);
    } else if numtaps % 2 == 1 {
      c := trig.sin(Pi * 2.0 * f);
    } else {
      c := trig.sin(Pi * f);
    }
  }

  // ---------------------------------------------------------------------
  // The error curve

  /** `CalcError`: the weighted error `W[i] (D[i] - A(Grid[i]))` at every
      grid point, for the approximation described by `p`. */
  function ErrorCurve(num: Numerics, r: int, p: Parms, G: seq<real>, D: seq<real>, W: seq<real>): (E: seq<real>)
    requires |D| == |G| && |W| == |G|
    ensures |E| == |G|
  {
    seq(|G|, i requires 0 <= i < |G| => W[i] * (D[i] - num.computeA(G[i], r, p)))
  }

  /** On the reduced arrays the error curve is the weighted error of the
      filter amplitude `c A` against the original response and weight, and
      it vanishes exactly where that amplitude meets the response at a
      point of nonzero weight. */
  lemma ErrorOfAmplitude(num: Numerics, trig: Trig, symm: Symmetry, numtaps: int, r: int, p: Parms,
                         G: seq<real>, D: seq<real>, W: seq<real>, i: int)
    requires |D| == |G| && |W| == |G| && 0 <= i < |G| && FactorsNonzero(trig, symm, numtaps, G)
    ensures var E := ErrorCurve(num, r, p, G, ReducedD(trig, symm, numtaps, G, D), ReducedW(trig, symm, numtaps, G, W));
      var amp := Factor(trig, symm, numtaps, G[i]) * num.computeA(G[i], r, p);
      E[i] == W[i] * (D[i] - amp) &&
      (W[i] != 0.0 ==> (E[i] == 0.0 <==> amp == D[i]))
  {
    var A := num.computeA(G[i], r, p);
    var D', W' := ReducedD(trig, symm, numtaps, G, D), ReducedW(trig, symm, numtaps, G, W);
    assert ErrorCurve(num, r, p, G, D', W')[i] == W'[i] * (D'[i] - A);
    ReducedError(trig, symm, numtaps, G, D, W, i, A);
    if W[i] != 0.0 {
      WeightedZero(W[i], D[i], Factor(trig, symm, numtaps, G[i]) * A);
    }
  }

  /** A nonzero weight leaves the error zero exactly where the amplitude
      meets the desired value. */
  lemma WeightedZero(w: real, d: real, a: real)
    requires w != 0.0
    ensures w * (d - a) == 0.0 <==> a == d
  {
    if w * (d - a) == 0.0 {
      assert (d - a) == (w * (d - a)) / w;
    }
  }

  /** The `CalcError` loop. */
  method CalcError(num: Numerics, r: int, p: Parms, gridsize: int,
                   Grid: array<real>, D: array<real>, W: array<real>, E: array<real>)
    requires Grid.Length == gridsize && D.Length == gridsize && W.Length == gridsize && E.Length == gridsize
    requires E != Grid && E != D && E != W
    modifies E
    ensures E[..] == ErrorCurve(num, r, p, Grid[..], D[..], W[..])
  {
    var i := 0;
    while i < gridsize
      invariant 0 <= i <= gridsize
      invariant forall j :: 0 <= j < i ==> E[j] == W[j] * (D[j] - num.computeA(Grid[j], r, p))
    {
      var A := num.computeA(Grid[i], r, p);
      E[i] := W[i] * (D[i] - A);
      i := i + 1;
    }
    assert forall j :: 0 <= j < gridsize ==> E[..][j] == ErrorCurve(num, r, p, Grid[..], D[..], W[..])[j];
  }

  // ---------------------------------------------------------------------
  // The exchange

  /** How the exchange loop ends: a failed search with its code, or the
      last extremal set with the error curve it was found on and the final
      value of the iteration counter. */
  datatype Exchange = Aborted(code: int) | Stopped(ext: seq<int>, E: seq<real>, iter: int)

  /** The error curve of one pass: `CalcParms` on the extremal set `ext`,
      then `CalcError`. */
  function PassError(num: Numerics, r: int, G: seq<real>, D: seq<real>, W: seq<real>, ext: seq<int>): (E: seq<real>)
    requires |D| == |G| && |W| == |G|
    ensures |E| == |G|
  {
    ErrorCurve(num, r, num.calcParms(r, ext, G, D, W), G, D, W)
  }

  /** The exchange loop from pass `iter` on, with extremal set `ext`: the
      error curve of the approximation through `ext`, then the rest of the
      pass on that curve. */
  function ExchangeFrom(num: Numerics, r: int, G: seq<real>, D: seq<real>, W: seq<real>,
                        ext: seq<int>, iter: int): Exchange
    requires r >= 1 && |G| >= 2 && |D| == |G| && |W| == |G| && 0 <= iter < MaxIterations
    decreases MaxIterations - iter, 1
  {
    ExchangeAfter(num, r, G, D, W, PassError(num, r, G, D, W, ext), iter)
  }

  /** The rest of pass `iter` once its error curve `E` is known: the search
      for a new extremal set, the convergence test on it, and the passes
      that follow. */
  function ExchangeAfter(num: Numerics, r: int, G: seq<real>, D: seq<real>, W: seq<real>,
                         E: seq<real>, iter: int): Exchange
    requires r >= 1 && |G| >= 2 && |D| == |G| && |W| == |G| && |E| == |G| && 0 <= iter < MaxIterations
    decreases MaxIterations - iter, 0
  {
    var res := SearchOutcome(r, E);
    if !res.Found? then Aborted(Code(res))
    else
      FoundExtremaShape(r, E);
      if Converged(E, res.ext) then Stopped(res.ext, E, iter)
      else if iter + 1 == MaxIterations then Stopped(res.ext, E, iter + 1)
      else ExchangeFrom(num, r, G, D, W, res.ext, iter + 1)
  }

  /** The loop ends with a search failure (-3 or -2), or with the set the
      last search found, on the error curve it was found on. */
  lemma {:induction false} ExchangeEnds(num: Numerics, r: int, G: seq<real>, D: seq<real>, W: seq<real>,
                                        ext: seq<int>, iter: int)
    requires r >= 1 && |G| >= 2 && |D| == |G| && |W| == |G| && 0 <= iter < MaxIterations
    ensures var out := ExchangeFrom(num, r, G, D, W, ext, iter);
      (out.Aborted? ==> out.code == -3 || out.code == -2) &&
      (out.Stopped? ==>
        iter <= out.iter <= MaxIterations && |out.E| == |G| &&
        SearchOutcome(r, out.E) == Found(out.ext))
    decreases MaxIterations - iter
  {
    var E := PassError(num, r, G, D, W, ext);
    var res := SearchOutcome(r, E);
    assert ExchangeFrom(num, r, G, D, W, ext, iter) == ExchangeAfter(num, r, G, D, W, E, iter);
    if res.Found? {
      FoundExtremaShape(r, E);
      if !Converged(E, res.ext) && iter + 1 < MaxIterations {
        ExchangeEnds(num, r, G, D, W, res.ext, iter + 1);
      }
    }
  }

  /** The counter stays below the cap exactly when the last set passed
      the convergence test. */
  lemma {:induction false} ExchangeConverges(num: Numerics, r: int, G: seq<real>, D: seq<real>, W: seq<real>,
                                             ext: seq<int>, iter: int)
    requires r >= 1 && |G| >= 2 && |D| == |G| && |W| == |G| && 0 <= iter < MaxIterations
    requires ExchangeFrom(num, r, G, D, W, ext, iter).Stopped?
    ensures var out := ExchangeFrom(num, r, G, D, W, ext, iter);
      |out.ext| == r + 1 && IndicesIn(out.ext, out.E) &&
      (out.iter < MaxIterations <==> Converged(out.E, out.ext))
    decreases MaxIterations - iter
  {
    var E := PassError(num, r, G, D, W, ext);
    var res := SearchOutcome(r, E);
    assert ExchangeFrom(num, r, G, D, W, ext, iter) == ExchangeAfter(num, r, G, D, W, E, iter);
    FoundExtremaShape(r, E);
    if !Converged(E, res.ext) && iter + 1 < MaxIterations {
      ExchangeConverges(num, r, G, D, W, res.ext, iter + 1);
    }
  }

  /** The exchange loop of `remez` over the prepared grid. */
  method ExchangeLoop(num: Numerics, r: int, gridsize: int, Grid: array<real>, D: array<real>,
                      W: array<real>, Ext: array<int>, E: array<real>)
    returns (err: int, iter: int)
    requires r >= 1 && gridsize >= 2 && Ext.Length == r + 1
    requires Grid.Length == gridsize && D.Length == gridsize && W.Length == gridsize && E.Length == gridsize
    requires E != Grid && E != D && E != W
    modifies Ext, E
    ensures var out := ExchangeFrom(num, r, Grid[..], D[..], W[..], old(Ext[..]), 0);
      (out.Aborted? ==> err == out.code) &&
      (out.Stopped? ==> err == 0 && iter == out.iter && Ext[..] == out.ext)
  {
    ghost var G, Ds, Ws := Grid[..], D[..], W[..];
    ghost var goal := ExchangeFrom(num, r, G, Ds, Ws, Ext[..], 0);
    err := 0;
    iter := 0;
    while iter < MaxIterations
      invariant 0 <= iter <= MaxIterations && err == 0
      invariant iter < MaxIterations ==> ExchangeFrom(num, r, G, Ds, Ws, Ext[..], iter) == goal
      invariant iter == MaxIterations ==> goal.Stopped? && goal.iter == iter && goal.ext == Ext[..]
    {
      var done;
      err, done := Pass(num, r, gridsize, Grid, D, W, Ext, E, G, Ds, Ws, iter);
      if err != 0 || done {
        return;
      }
      iter := iter + 1;
    }
  }

  /** One pass of the exchange loop: `CalcParms`, `CalcError`, `Search`
      and, after a successful search, `isDone`; in terms of the
      specification, one step of `ExchangeFrom`. */
  method Pass(num: Numerics, r: int, gridsize: int, Grid: array<real>, D: array<real>,
              W: array<real>, Ext: array<int>, E: array<real>,
              ghost G: seq<real>, ghost Ds: seq<real>, ghost Ws: seq<real>, ghost iter: int)
    returns (err: int, done: bool)
    requires r >= 1 && gridsize >= 2 && Ext.Length == r + 1 && 0 <= iter < MaxIterations
    requires Grid.Length == gridsize && D.Length == gridsize && W.Length == gridsize && E.Length == gridsize
    requires E != Grid && E != D && E != W
    requires G == Grid[..] && Ds == D[..] && Ws == W[..]
    modifies Ext, E
    ensures var Ec := PassError(num, r, G, Ds, Ws, old(Ext[..]));
      var here := ExchangeFrom(num, r, G, Ds, Ws, old(Ext[..]), iter);
      (err != 0 ==> here == Aborted(err)) &&
      (err == 0 && done ==> here == Stopped(Ext[..], Ec, iter)) &&
      (err == 0 && !done && iter + 1 < MaxIterations ==> here == ExchangeFrom(num, r, G, Ds, Ws, Ext[..], iter + 1)) &&
      (err == 0 && !done && iter + 1 == MaxIterations ==>
        here.Stopped? && here.iter == iter + 1 && here.ext == Ext[..])
  {
    ghost var ext := Ext[..];
    var p := num.calcParms(r, Ext[..], Grid[..], D[..], W[..]);
    CalcError(num, r, p, gridsize, Grid, D, W, E);
    ghost var Ec := E[..];
    assert Ec == PassError(num, r, G, Ds, Ws, ext);
    ghost var here := ExchangeAfter(num, r, G, Ds, Ws, Ec, iter);
    err := Search.Search(r, Ext, gridsize, E);
    assert E[..gridsize] == E[..] == Ec;
    if err != 0 {
      done := false;
      return;
    }
    FoundExtremaShape(r, Ec);
    assert Ext[..r + 1] == Ext[..];
    done := IsDone(r, Ext, E);
  }

  // ---------------------------------------------------------------------
  // The taps

  /** The frequency `i / numtaps` of tap sample `i`. */
  function SampleFreq(i: int, numtaps: int): real
    requires numtaps >= 1
  {
    i as real / numtaps as real
  }

  /** `taps[0..numtaps/2]`: the filter amplitude `c A` at the frequencies
      `i / numtaps`, from the final approximation `p`. */
  function TapSamples(num: Numerics, trig: Trig, symm: Symmetry, numtaps: int, r: int, p: Parms): (t: seq<real>)
    requires numtaps >= 1
    ensures |t| == numtaps / 2 + 1
  {
    seq(numtaps / 2 + 1, i requires 0 <= i <= numtaps / 2 =>
      num.computeA(SampleFreq(i, numtaps), r, p) * Factor(trig, symm, numtaps, SampleFreq(i, numtaps)))
  }

  /** A tap sample at a grid frequency is the amplitude whose weighted
      error the exchange measured there: the reduced error curve at that
      point is the original weight times the desired response less the
      sample. */
  lemma TapsMatchError(num: Numerics, trig: Trig, symm: Symmetry, numtaps: int, r: int, p: Parms,
                       G: seq<real>, D: seq<real>, W: seq<real>, i: int, j: int)
    requires numtaps >= 1 && 0 <= i <= numtaps / 2
    requires |D| == |G| && |W| == |G| && 0 <= j < |G| && FactorsNonzero(trig, symm, numtaps, G)
    requires G[j] == SampleFreq(i, numtaps)
    ensures ErrorCurve(num, r, p, G, ReducedD(trig, symm, numtaps, G, D), ReducedW(trig, symm, numtaps, G, W))[j] ==
            W[j] * (D[j] - TapSamples(num, trig, symm, numtaps, r, p)[i])
  {
    ErrorOfAmplitude(num, trig, symm, numtaps, r, p, G, D, W, j);
  }

  /** The taps loop of `remez` into `taps[0..numtaps/2]`. */
  method ComputeTaps(num: Numerics, trig: Trig, symmetry: Symmetry, numtaps: int, r: int, p: Parms,
                     taps: array<real>)
    requires numtaps >= 1 && taps.Length > numtaps / 2
    modifies taps
    ensures taps[..numtaps / 2 + 1] == TapSamples(num, trig, symmetry, numtaps, r, p)
  {
    var i := 0;
    while i <= numtaps / 2
      invariant 0 <= i <= numtaps / 2 + 1
      invariant forall j :: 0 <= j < i ==> taps[j] == TapSamples(num, trig, symmetry, numtaps, r, p)[j]
    {
      var c: real;
      if symmetry == Positive {
        if numtaps % 2 == 1 {
          c := 1.0;
        } else {
          c := trig.cos(Pi * i as real / numtaps as real);
        }
      } else {
        if numtaps % 2 == 1 {
          c := trig.sin(Pi * 2.0 * i as real / numtaps as real);
        } else {
          c := trig.sin(Pi * i as real / numtaps as real);
        }
      }
      FreqArgs(i, numtaps);
      assert c == Factor(trig, symmetry, numtaps, SampleFreq(i, numtaps));
      taps[i] := num.computeA(i as real / numtaps as real, r, p) * c;
      i := i + 1;
    }
  }

  lemma FreqArgs(i: int, numtaps: int)
    requires numtaps >= 1
    ensures Pi * i as real / numtaps as real == Pi * SampleFreq(i, numtaps)
    ensures Pi * 2.0 * i as real / numtaps as real == Pi * 2.0 * SampleFreq(i, numtaps)
  {
  }

  // ---------------------------------------------------------------------
  // The whole design

  /** The grid specification `remez` hands to `CreateDenseGrid`. */
  function SpecOf(t: FilterType, numtaps: int, numband: int, bands: seq<real>, des: seq<real>,
                  weight: seq<real>, griddensity: int): GridSpec
    requires numtaps >= 1
  {
    var s := SymmetryOf(t);
    GridSpec(HalfOrder(numtaps, s), numtaps, numband, bands, des, weight, s, griddensity)
  }

  /** What `remez` relies on from its caller: at least one extremum beyond
      the first, bands of at least two grid points each, band edges in
      order within `[0, 0.5]`, and a reduction factor that does not vanish
      on the grid. */
  predicate Admissible(t: FilterType, numtaps: int, numband: int, bands: seq<real>, des: seq<real>,
                       weight: seq<real>, griddensity: int, trig: Trig)
  {
    numtaps >= 1 && HalfOrder(numtaps, SymmetryOf(t)) >= 1 &&
    var g := SpecOf(t, numtaps, numband, bands, des, weight, griddensity);
    CountsOk(g) && Ordered(g) && FactorsNonzero(trig, g.symmetry, numtaps, GridPoints(g))
  }

  /** The grid, desired response and weights the exchange runs on. */
  datatype Prepared = Prepared(G: seq<real>, D: seq<real>, W: seq<real>)

  function Prepare(t: FilterType, numtaps: int, numband: int, bands: seq<real>, des: seq<real>,
                   weight: seq<real>, griddensity: int, trig: Trig): (pr: Prepared)
    requires Admissible(t, numtaps, numband, bands, des, weight, griddensity, trig)
    ensures |pr.G| >= 2 && |pr.D| == |pr.G| && |pr.W| == |pr.G|
  {
    var g := SpecOf(t, numtaps, numband, bands, des, weight, griddensity);
    var G := GridPoints(g);
    GridBounds(g);
    var W1 := if t == Differentiator then DiffWeights(G, Desired(g), Weights(g)) else Weights(g);
    Prepared(G, ReducedD(trig, g.symmetry, numtaps, G, Desired(g)), ReducedW(trig, g.symmetry, numtaps, G, W1))
  }

  /** `InitialGuess` as a sequence. */
  function Guess(r: int, gridsize: int): (ext: seq<int>)
    requires r >= 1
    ensures |ext| == r + 1
  {
    seq(r + 1, i requires 0 <= i <= r => InitialGuess.GuessIndex(i, r, gridsize))
  }

  /** The exchange `remez` runs. */
  function Outcome(num: Numerics, t: FilterType, numtaps: int, numband: int, bands: seq<real>,
                   des: seq<real>, weight: seq<real>, griddensity: int, trig: Trig): Exchange
    requires Admissible(t, numtaps, numband, bands, des, weight, griddensity, trig)
  {
    var pr := Prepare(t, numtaps, numband, bands, des, weight, griddensity, trig);
    var r := HalfOrder(numtaps, SymmetryOf(t));
    ExchangeFrom(num, r, pr.G, pr.D, pr.W, Guess(r, |pr.G|), 0)
  }

  /** The impulse response `remez` writes after a completed exchange that
      ended with the extremal set `ext`. */
  function Response(num: Numerics, t: FilterType, numtaps: int, numband: int, bands: seq<real>,
                    des: seq<real>, weight: seq<real>, griddensity: int, trig: Trig, ext: seq<int>): seq<real>
    requires Admissible(t, numtaps, numband, bands, des, weight, griddensity, trig)
  {
    var pr := Prepare(t, numtaps, numband, bands, des, weight, griddensity, trig);
    var s := SymmetryOf(t);
    var r := HalfOrder(numtaps, s);
    Scaled(Synthesis(TapSamples(num, trig, s, numtaps, r, num.calcParms(r, ext, pr.G, pr.D, pr.W)), numtaps, s, trig))
  }

  /** The value `remez` returns. */
  function ReturnCode(out: Exchange): int
  {
    match out
    case Aborted(code) => code
    case Stopped(_, _, iter) => if iter < MaxIterations then 0 else -1
  }

  /** `remez` returns 0 when the exchange converged, -1 when it ran out of
      iterations, and the search's -3 or -2 when a search failed. */
  lemma ReturnCodes(num: Numerics, r: int, G: seq<real>, D: seq<real>, W: seq<real>, ext: seq<int>)
    requires r >= 1 && |G| >= 2 && |D| == |G| && |W| == |G|
    ensures var out := ExchangeFrom(num, r, G, D, W, ext, 0);
      var code := ReturnCode(out);
      (code == 0 || code == -1 || code == -2 || code == -3) &&
      (out.Aborted? <==> code == -3 || code == -2) &&
      (code == 0 <==> out.Stopped? && out.iter < MaxIterations) &&
      (code == -1 <==> out.Stopped? && out.iter == MaxIterations)
  {
    ExchangeEnds(num, r, G, D, W, ext, 0);
  }

  /** A completed exchange ends on `r+1` strictly increasing grid indices,
      each a local extremum of the last error curve with a nonzero error,
      and `remez` returns 0 exactly when they pass the convergence test. */
  lemma StoppedExtrema(num: Numerics, r: int, G: seq<real>, D: seq<real>, W: seq<real>, ext: seq<int>)
    requires r >= 1 && |G| >= 2 && |D| == |G| && |W| == |G|
    requires ExchangeFrom(num, r, G, D, W, ext, 0).Stopped?
    ensures var out := ExchangeFrom(num, r, G, D, W, ext, 0);
      |out.E| == |G| && |out.ext| == r + 1 && IndicesIn(out.ext, out.E) && StrictlyIncreasing(out.ext) &&
      (forall i :: 0 <= i < |out.ext| ==>
        0 <= out.ext[i] < |G| && IsCandidate(out.E, out.ext[i]) && out.E[out.ext[i]] != 0.0) &&
      (ReturnCode(out) == 0 <==> Converged(out.E, out.ext))
  {
    var out := ExchangeFrom(num, r, G, D, W, ext, 0);
    ExchangeEnds(num, r, G, D, W, ext, 0);
    ExchangeConverges(num, r, G, D, W, ext, 0);
    FoundExtremaShape(r, out.E);
  }

  /** The response has `numtaps` taps of magnitude at most one half; with
      an even `cos` and an odd `sin` it is symmetric for a bandpass filter
      and antisymmetric for a differentiator or Hilbert transformer. */
  lemma ResponseShape(num: Numerics, t: FilterType, numtaps: int, numband: int, bands: seq<real>,
                      des: seq<real>, weight: seq<real>, griddensity: int, trig: Trig, ext: seq<int>)
    requires Admissible(t, numtaps, numband, bands, des, weight, griddensity, trig)
    ensures var h := Response(num, t, numtaps, numband, bands, des, weight, griddensity, trig, ext);
      |h| == numtaps &&
      (forall i :: 0 <= i < numtaps ==> Abs(h[i]) <= 0.5) &&
      (Parity(trig) ==> forall n :: 0 <= n < numtaps ==>
        h[numtaps - 1 - n] == if t == Bandpass then h[n] else -h[n])
  {
    var pr := Prepare(t, numtaps, numband, bands, des, weight, griddensity, trig);
    var s := SymmetryOf(t);
    var r := HalfOrder(numtaps, s);
    var A := TapSamples(num, trig, s, numtaps, r, num.calcParms(r, ext, pr.G, pr.D, pr.W));
    ScaledBound(Synthesis(A, numtaps, s, trig));
    if Parity(trig) {
      forall n | 0 <= n < numtaps
        ensures Scaled(Synthesis(A, numtaps, s, trig))[numtaps - 1 - n] ==
          if t == Bandpass then Scaled(Synthesis(A, numtaps, s, trig))[n] else -Scaled(Synthesis(A, numtaps, s, trig))[n]
      {
        FreqSampleSymmetry(A, numtaps, s, trig, n);
      }
    }
  }

  /** `remez(h, numtaps, numband, bands, des, weight, type, griddensity)`. */
  method Remez(h: array<real>, numtaps: int, numband: int, bands: seq<real>, des: seq<real>,
               weight: seq<real>, t: FilterType, griddensity: int, num: Numerics, trig: Trig)
    returns (err: int)
    requires Admissible(t, numtaps, numband, bands, des, weight, griddensity, trig)
    requires h.Length >= numtaps
    modifies h
    ensures var out := Outcome(num, t, numtaps, numband, bands, des, weight, griddensity, trig);
      err == ReturnCode(out) &&
      (out.Stopped? ==> h[..numtaps] == Response(num, t, numtaps, numband, bands, des, weight, griddensity, trig, out.ext)) &&
      (out.Aborted? ==> h[..] == old(h[..])) &&
      h[numtaps..] == old(h[numtaps..])
  {
    var symmetry := if t == Bandpass then Positive else Negative;
    var r := numtaps / 2;
    if numtaps % 2 == 1 && symmetry == Positive {
      r := r + 1;
    }
    assert symmetry == SymmetryOf(t) && r == HalfOrder(numtaps, symmetry);
    var Grid, D, W := PrepareGrid(numtaps, numband, bands, des, weight, t, griddensity, trig, symmetry, r);
    err := Design(h, numtaps, r, symmetry, num, trig, Grid, D, W);
  }

  /** From the prepared grid on: the initial guess, the exchange loop and,
      unless a search failed, the synthesis of `h`. */
  method Design(h: array<real>, numtaps: int, r: int, symmetry: Symmetry, num: Numerics, trig: Trig,
                Grid: array<real>, D: array<real>, W: array<real>)
    returns (err: int)
    requires numtaps >= 1 && r >= 1 && numtaps / 2 <= r && h.Length >= numtaps
    requires Grid.Length >= 2 && D.Length == Grid.Length && W.Length == Grid.Length
    requires h != Grid && h != D && h != W
    modifies h
    ensures var out := ExchangeFrom(num, r, Grid[..], D[..], W[..], Guess(r, Grid.Length), 0);
      err == ReturnCode(out) &&
      (out.Stopped? ==>
        h[..numtaps] == Scaled(Synthesis(TapSamples(num, trig, symmetry, numtaps, r,
                                                    num.calcParms(r, out.ext, Grid[..], D[..], W[..])),
                                         numtaps, symmetry, trig))) &&
      (out.Aborted? ==> h[..] == old(h[..])) &&
      h[numtaps..] == old(h[numtaps..])
  {
    ghost var G, Ds, Ws := Grid[..], D[..], W[..];
    ghost var out := ExchangeFrom(num, r, G, Ds, Ws, Guess(r, |G|), 0);
    var Ext, iter;
    err, iter, Ext := RunExchange(num, r, Grid, D, W, G, Ds, Ws);
    if err != 0 {
      return;
    }
    var p := num.calcParms(r, Ext[..], Grid[..], D[..], W[..]);
    assert p == num.calcParms(r, out.ext, G, Ds, Ws);
    Synthesize(h, numtaps, r, symmetry, num, trig, p);
    err := if iter < MaxIterations then 0 else -1;
    assert Grid[..] == G && D[..] == Ds && W[..] == Ws;
  }

  /** The initial guess into a fresh `Ext`, then the exchange loop. */
  method RunExchange(num: Numerics, r: int, Grid: array<real>, D: array<real>, W: array<real>,
                     ghost G: seq<real>, ghost Ds: seq<real>, ghost Ws: seq<real>)
    returns (err: int, iter: int, Ext: array<int>)
    requires r >= 1 && Grid.Length >= 2 && D.Length == Grid.Length && W.Length == Grid.Length
    requires G == Grid[..] && Ds == D[..] && Ws == W[..]
    ensures fresh(Ext)
    ensures var out := ExchangeFrom(num, r, G, Ds, Ws, Guess(r, |G|), 0);
      (out.Aborted? <==> err != 0) &&
      (out.Aborted? ==> err == out.code) &&
      (out.Stopped? ==> iter == out.iter && Ext[..] == out.ext)
  {
    var gridsize := Grid.Length;
    Ext := new int[r + 1];
    InitialGuess.InitialGuess(r, Ext, gridsize);
    assert Ext[..] == Guess(r, gridsize);
    var E := new real[gridsize];
    err, iter := ExchangeLoop(num, r, gridsize, Grid, D, W, Ext, E);
    ExchangeEnds(num, r, G, Ds, Ws, Guess(r, |G|), 0);
  }

  /** The grid, the differentiator fix and the reduction: three fresh arrays
      holding `Prepare`. */
  method PrepareGrid(numtaps: int, numband: int, bands: seq<real>, des: seq<real>, weight: seq<real>,
                     t: FilterType, griddensity: int, trig: Trig, symmetry: Symmetry, r: int)
    returns (Grid: array<real>, D: array<real>, W: array<real>)
    requires Admissible(t, numtaps, numband, bands, des, weight, griddensity, trig)
    requires symmetry == SymmetryOf(t) && r == HalfOrder(numtaps, symmetry)
    ensures fresh(Grid) && fresh(D) && fresh(W) && Grid != D && Grid != W && D != W
    ensures var pr := Prepare(t, numtaps, numband, bands, des, weight, griddensity, trig);
      Grid[..] == pr.G && D[..] == pr.D && W[..] == pr.W
  {
    ghost var g := GridSpec(r, numtaps, numband, bands, des, weight, symmetry, griddensity);
    var gridsize := GridSize(r, numtaps, numband, bands, des, weight, symmetry, griddensity);
    Grid := new real[gridsize];
    D := new real[gridsize];
    W := new real[gridsize];
    CreateDenseGrid(r, numtaps, numband, bands, des, weight, gridsize, Grid, D, W, symmetry, griddensity);
    GridBounds(g);
    if t == Differentiator {
      DifferentiatorFix(Grid, D, W, gridsize);
    }
    ReduceResponse(Grid, D, W, gridsize, symmetry, numtaps, trig);
  }

  /** The taps loop followed by `FreqSample` into `h`. */
  method Synthesize(h: array<real>, numtaps: int, r: int, symmetry: Symmetry, num: Numerics, trig: Trig, p: Parms)
    requires numtaps >= 1 && numtaps / 2 <= r && h.Length >= numtaps
    modifies h
    ensures h[..numtaps] == Scaled(Synthesis(TapSamples(num, trig, symmetry, numtaps, r, p), numtaps, symmetry, trig))
    ensures h[numtaps..] == old(h[numtaps..])
  {
    var taps := new real[r + 1];
    ComputeTaps(num, trig, symmetry, numtaps, r, p, taps);
    FreqSample(numtaps, taps, h, symmetry, trig);
    ghost var A := TapSamples(num, trig, symmetry, numtaps, r, p);
    assert A[..numtaps / 2 + 1] == A;
    SynthesisPrefix(taps[..], A, numtaps, symmetry, trig);
  }
}
