/** Enumerations, constants and the half-order `r` shared by the parts of
    the Parks-McClellan designer (tdoa-c/lib/firtool/remez.cpp). */
module RemezTypes {

  /** `PN_t`: even-symmetric (POSITIVE) or odd-symmetric (NEGATIVE) impulse response. */
  datatype Symmetry = Negative | Positive

  /** `REMEZ_t`, the kind of filter requested from `remez`. */
  datatype FilterType = Bandpass | Differentiator | Hilbert

  /** `MAXITERATIONS`: the cap on Remez exchange iterations. */
  const MaxIterations: nat := 40

  /** `GRIDDENSITY`: the customary grid density (callers pass their own). */
  const GridDensity: int := 16

  /** The relative spread of the extremal errors below which `isDone` reports convergence. */
  const Tolerance: real := 0.000000000001

  /** The threshold on the desired response above which the differentiator
      weights are divided by the frequency. */
  const DifferentiatorThreshold: real := 0.000000000001

  /** The symmetry `remez` picks for a filter type. */
  function SymmetryOf(t: FilterType): (s: Symmetry)
    ensures s == Positive <==> t == Bandpass
  {
    if t == Bandpass then Positive else Negative
  }

  /** The number `r` of extrema minus one: half the number of taps, one more
      for an odd-length even-symmetric filter. */
  function HalfOrder(numtaps: int, s: Symmetry): (r: int)
    requires numtaps >= 1
    ensures numtaps / 2 <= r <= numtaps / 2 + 1
    ensures r == numtaps / 2 + 1 <==> numtaps % 2 == 1 && s == Positive
    ensures r >= 1 <==> !(numtaps == 1 && s == Negative)
  {
    if numtaps % 2 == 1 && s == Positive then numtaps / 2 + 1
    else
      assert numtaps != 1 ==> numtaps >= 2 && numtaps / 2 >= 1;
      assert numtaps == 1 ==> numtaps / 2 == 0 && s == Negative;
      numtaps / 2
  }
}
