/** The size of the dense grid that `remez` (tdoa-c/lib/firtool/remez.cpp)
    allocates before `CreateDenseGrid` fills it. The source predicts it from
    the band widths; `CreateDenseGrid` then writes `Start(g, numband)`
    points (module DenseGrid). The two agree except for an odd-symmetric
    filter whose first band starts at or above the grid step, where the
    prediction falls one short. */
module GridSizing {
  import opened CArith
  import opened RemezTypes
  import opened DenseGrid

  /** One band's term of the prediction:
      `(int)(2.0 * r * griddensity * (hi - lo) + 0.5)`. */
  function Estimate(r: int, griddensity: int, lo: real, hi: real): int
  {
    Trunc(2.0 * r as real * griddensity as real * (hi - lo) + 0.5)
  }

  /** The sum of the band terms of the source, over the nominal band edges. */
  function EstimateUpTo(g: GridSpec, n: int): int
    requires WellFormed(g) && 0 <= n <= g.numband
    decreases n
  {
    if n == 0 then 0
    else EstimateUpTo(g, n - 1) + Estimate(g.r, g.griddensity, g.bands[2 * (n - 1)], g.bands[2 * (n - 1) + 1])
  }

  /** The prediction as the source writes it: the band terms, less one for
      an odd-symmetric filter. */
  function PredictedSize(g: GridSpec): int
    requires WellFormed(g)
  {
    EstimateUpTo(g, g.numband) - (if g.symmetry == Negative then 1 else 0)
  }

  /** The band terms over the edges `CreateDenseGrid` actually samples: the
      first band starts at `grid0` rather than at `bands[0]`. */
  function SampledUpTo(g: GridSpec, n: int): int
    requires WellFormed(g) && 0 <= n <= g.numband
    decreases n
  {
    if n == 0 then 0
    else SampledUpTo(g, n - 1) + Estimate(g.r, g.griddensity, LowF(g, n - 1), HighF(g, n - 1))
  }

  /** Dividing a width by `delf = 0.5 / (griddensity r)` is multiplying it by
      `2 griddensity r`. */
  lemma OverStep(g: GridSpec, w: real)
    requires WellFormed(g)
    ensures w / Delf(g) == 2.0 * g.r as real * g.griddensity as real * w
  {
    var n := g.griddensity as real * g.r as real;
    assert (g.griddensity * g.r) as real == n;
    assert n > 0.0 by { PositiveProduct(g.griddensity, g.r); }
    assert Delf(g) == 0.5 / n;
    assert (2.0 * n * w) * (0.5 / n) == w;
  }

  /** Each band term over the sampled edges is the band's sample count. */
  lemma EstimateIsCount(g: GridSpec, b: int)
    requires WellFormed(g) && 0 <= b < g.numband
    ensures Estimate(g.r, g.griddensity, LowF(g, b), HighF(g, b)) == Count(g, b)
  {
    OverStep(g, HighF(g, b) - LowF(g, b));
    SameTerm(g.r, g.griddensity, LowF(g, b), HighF(g, b), Delf(g));
  }

  lemma SameTerm(r: int, griddensity: int, lo: real, hi: real, d: real)
    requires d != 0.0
    requires (hi - lo) / d == 2.0 * r as real * griddensity as real * (hi - lo)
    ensures Estimate(r, griddensity, lo, hi) == Trunc((hi - lo) / d + 0.5)
  {
  }

  /** The corrected prediction is exactly the number of points written. */
  lemma {:induction false} SampledIsStart(g: GridSpec, n: int)
    requires CountsOk(g) && 0 <= n <= g.numband
    ensures SampledUpTo(g, n) == Start(g, n)
    decreases n
  {
    if n > 0 {
      SampledIsStart(g, n - 1);
      EstimateIsCount(g, n - 1);
    }
  }

  /** The bands after the first contribute the same term to both sums. */
  lemma {:induction false} LaterBandsAgree(g: GridSpec, n: int)
    requires WellFormed(g) && 1 <= n <= g.numband
    ensures EstimateUpTo(g, n) - Estimate(g.r, g.griddensity, g.bands[0], g.bands[1]) ==
            SampledUpTo(g, n) - Estimate(g.r, g.griddensity, LowF(g, 0), HighF(g, 0))
    decreases n
  {
    if n > 1 {
      LaterBandsAgree(g, n - 1);
    }
  }

  /** For an even-symmetric filter the source's prediction is exact. */
  lemma PredictionExact(g: GridSpec)
    requires CountsOk(g) && g.symmetry == Positive
    ensures PredictedSize(g) == Start(g, g.numband)
  {
    LaterBandsAgree(g, g.numband);
    SampledIsStart(g, g.numband);
  }

  /** For an odd-symmetric filter whose first band starts at zero, the first
      band loses its sample at zero, and the prediction's decrement accounts
      for it exactly. */
  lemma PredictionExactFromZero(g: GridSpec)
    requires CountsOk(g) && g.symmetry == Negative && g.bands[0] == 0.0
    ensures PredictedSize(g) == Start(g, g.numband)
  {
    LaterBandsAgree(g, g.numband);
    SampledIsStart(g, g.numband);
    FirstBandFromZero(g);
  }

  /** Starting the first band at `delf` instead of zero removes exactly one
      step from its width, and one sample from its term. */
  lemma FirstBandFromZero(g: GridSpec)
    requires CountsOk(g) && g.symmetry == Negative && g.bands[0] == 0.0
    ensures Estimate(g.r, g.griddensity, g.bands[0], g.bands[1]) ==
            Estimate(g.r, g.griddensity, LowF(g, 0), HighF(g, 0)) + 1
  {
    var s := 2.0 * g.r as real * g.griddensity as real;
    var d := Delf(g);
    var hi := HighF(g, 0);
    assert LowF(g, 0) == d;
    StepTimesScale(g);
    Shift(s, hi, d);
    var y := s * (hi - d) + 0.5;
    assert s * (hi - 0.0) + 0.5 == y + 1.0;
    EstimateIsCount(g, 0);
    assert Trunc(y) >= 2;
    TruncShift(y);
  }

  /** `2 r griddensity delf` is one. */
  lemma StepTimesScale(g: GridSpec)
    requires WellFormed(g)
    ensures 2.0 * g.r as real * g.griddensity as real * Delf(g) == 1.0
  {
    OverStep(g, Delf(g));
    assert Delf(g) / Delf(g) == 1.0;
  }

  lemma Shift(s: real, hi: real, d: real)
    ensures s * (hi - d) == s * hi - s * d
  {
  }

  lemma TruncShift(y: real)
    requires y >= 0.0
    ensures Trunc(y + 1.0) == Trunc(y) + 1
  {
  }

  /** For an odd-symmetric filter whose first band starts at or above the
      grid step, `grid0` is `bands[0]`, every band term is the band's sample
      count, and the decrement makes the prediction one smaller than the
      number of points `CreateDenseGrid` writes. */
  lemma PredictionShort(g: GridSpec)
    requires CountsOk(g) && g.symmetry == Negative && g.bands[0] >= Delf(g)
    ensures PredictedSize(g) == Start(g, g.numband) - 1
  {
    LaterBandsAgree(g, g.numband);
    SampledIsStart(g, g.numband);
  }

  /** A Hilbert transformer of 31 taps with one band from 0.05 to 0.45 at
      the customary grid density `GridDensity` (16): the prediction is 191
      points and the grid has 192. */
  lemma HilbertOverrun()
    ensures var g := GridSpec(15, 31, 1, [0.05, 0.45], [1.0, 1.0], [1.0], Negative, GridDensity);
      CountsOk(g) && PredictedSize(g) == 191 && Start(g, 1) == 192
  {
    var g := GridSpec(15, 31, 1, [0.05, 0.45], [1.0, 1.0], [1.0], Negative, GridDensity);
    assert Delf(g) == 0.5 / 240.0;
    assert LowF(g, 0) == 0.05;
    assert (0.45 - 0.05) / (0.5 / 240.0) + 0.5 == 192.5;
    assert Count(g, 0) == 192;
    assert Estimate(15, GridDensity, 0.05, 0.45) == 192;
  }

  /** The prediction loop of `remez` as written: the band terms over the
      nominal edges, then the decrement for an odd-symmetric filter. */
  method PredictGridSize(r: int, numtaps: int, numband: int, bands: seq<real>, des: seq<real>,
                         weight: seq<real>, symmetry: Symmetry, griddensity: int)
    returns (gridsize: int)
    requires WellFormed(GridSpec(r, numtaps, numband, bands, des, weight, symmetry, griddensity))
    ensures var g := GridSpec(r, numtaps, numband, bands, des, weight, symmetry, griddensity);
      gridsize == PredictedSize(g) &&
      (CountsOk(g) && symmetry == Positive ==> gridsize == Start(g, numband)) &&
      (CountsOk(g) && symmetry == Negative && bands[0] >= Delf(g) ==> gridsize == Start(g, numband) - 1)
  {
    ghost var g := GridSpec(r, numtaps, numband, bands, des, weight, symmetry, griddensity);
    gridsize := 0;
    var i := 0;
    while i < numband
      invariant 0 <= i <= numband
      invariant gridsize == EstimateUpTo(g, i)
    {
      gridsize := gridsize + Estimate(r, griddensity, bands[2 * i], bands[2 * i + 1]);
      i := i + 1;
    }
    if symmetry == Negative {
      gridsize := gridsize - 1;
    }
    if CountsOk(g) && symmetry == Positive {
      PredictionExact(g);
    }
    if CountsOk(g) && symmetry == Negative && bands[0] >= Delf(g) {
      PredictionShort(g);
    }
  }

  /** The size `remez` allocates, computed as the source's loop does but
      over the edges `CreateDenseGrid` samples: the first band from `grid0`,
      and no decrement. */
  method GridSize(r: int, numtaps: int, numband: int, bands: seq<real>, des: seq<real>,
                  weight: seq<real>, symmetry: Symmetry, griddensity: int)
    returns (gridsize: int)
    requires WellFormed(GridSpec(r, numtaps, numband, bands, des, weight, symmetry, griddensity))
    ensures var g := GridSpec(r, numtaps, numband, bands, des, weight, symmetry, griddensity);
      CountsOk(g) ==> gridsize == Start(g, numband)
  {
    ghost var g := GridSpec(r, numtaps, numband, bands, des, weight, symmetry, griddensity);
    var delf := 0.5 / ((griddensity * r) as real);
    var grid0 := if symmetry == Negative && delf > bands[0] then delf else bands[0];
    assert grid0 == Grid0(g) by { assert delf == Delf(g); }
    gridsize := 0;
    var i := 0;
    while i < numband
      invariant 0 <= i <= numband
      invariant gridsize == SampledUpTo(g, i)
    {
      var lowf := if i == 0 then grid0 else bands[2 * i];
      gridsize := gridsize + Estimate(r, griddensity, lowf, bands[2 * i + 1]);
      i := i + 1;
    }
    if CountsOk(g) {
      SampledIsStart(g, numband);
    }
  }
}
