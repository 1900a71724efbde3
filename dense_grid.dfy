/** `CreateDenseGrid` (tdoa-c/lib/firtool/remez.cpp): the dense frequency
    grid of the Remez exchange, with the desired response and the weight at
    every grid point. The specification lays the bands out one after the
    other (`GridUpTo`, `DUpTo`, `WUpTo`); the method fills three arrays with
    a running index `j` and a running frequency `lowf`, and is proved to
    produce that layout. */
module DenseGrid {
  import opened CArith
  import opened RemezTypes

  /** The inputs of `CreateDenseGrid` other than `gridsize` and the output
      arrays: band `b` runs from `bands[2b]` to `bands[2b+1]`, its desired
      response from `des[2b]` to `des[2b+1]`, and its weight is `weight[b]`. */
  datatype GridSpec = GridSpec(r: int, numtaps: int, numband: int,
                               bands: seq<real>, des: seq<real>, weight: seq<real>,
                               symmetry: Symmetry, griddensity: int)

  /** The shapes `CreateDenseGrid` indexes: at least one band, and a
      positive density and half-order for the step `delf`. */
  predicate WellFormed(g: GridSpec)
  {
    g.r >= 1 && g.griddensity >= 1 && g.numband >= 1 &&
    |g.bands| >= 2 * g.numband && |g.des| >= 2 * g.numband && |g.weight| >= g.numband
  }

  lemma PositiveProduct(a: int, b: int)
    requires a >= 1 && b >= 1
    ensures a * b >= 1
  {
  }

  /** The grid step `delf = 0.5 / (griddensity * r)`. */
  function Delf(g: GridSpec): (d: real)
    requires WellFormed(g)
    ensures d > 0.0
  {
    PositiveProduct(g.griddensity, g.r);
    0.5 / ((g.griddensity * g.r) as real)
  }

  /** `grid0`: the first frequency, moved up to `delf` for an odd-symmetric
      filter whose first band starts below it. */
  function Grid0(g: GridSpec): real
    requires WellFormed(g)
  {
    if g.symmetry == Negative && Delf(g) > g.bands[0] then Delf(g) else g.bands[0]
  }

  /** The first frequency sampled in band `b`. */
  function LowF(g: GridSpec, b: int): real
    requires WellFormed(g) && 0 <= b < g.numband
  {
    if b == 0 then Grid0(g) else g.bands[2 * b]
  }

  /** The upper edge of band `b`. */
  function HighF(g: GridSpec, b: int): real
    requires WellFormed(g) && 0 <= b < g.numband
  {
    g.bands[2 * b + 1]
  }

  /** `k`: the number of samples in band `b`, the band width over the step
      rounded by adding one half and truncating. */
  function Count(g: GridSpec, b: int): int
    requires WellFormed(g) && 0 <= b < g.numband
  {
    Trunc((HighF(g, b) - LowF(g, b)) / Delf(g) + 0.5)
  }

  /** Every band has at least two samples: with one, the interpolation of
      the desired response divides by zero, and with none the band-end
      write lands on the previous band (or before the array). */
  predicate CountsOk(g: GridSpec)
  {
    WellFormed(g) && forall b :: 0 <= b < g.numband ==> Count(g, b) >= 2
  }

  /** The grid index where band `b` starts: the samples of the bands before it. */
  function Start(g: GridSpec, b: int): (s: int)
    requires CountsOk(g) && 0 <= b <= g.numband
    ensures s >= 2 * b
  {
    if b == 0 then 0 else Start(g, b - 1) + Count(g, b - 1)
  }

  /** The arrays hold exactly the samples of all bands. */
  predicate Fits(g: GridSpec, gridsize: int)
  {
    CountsOk(g) && Start(g, g.numband) == gridsize
  }

  /** `n` frequencies from `lo` in steps of `d`: the successive values of `lowf`. */
  function Steps(lo: real, d: real, n: nat): seq<real>
  {
    seq(n, i => lo + (i as real) * d)
  }

  /** The frequencies written for one band: the steps, with the last one
      replaced by the band edge `hi`. */
  function Ramp(lo: real, d: real, hi: real, n: nat): seq<real>
    requires n >= 1
  {
    Steps(lo, d, n)[n - 1 := hi]
  }

  /** The desired response over `n` samples, interpolated from `d0` to `d1`. */
  function Interp(d0: real, d1: real, n: nat): seq<real>
    requires n >= 2
  {
    seq(n, i => d0 + (i as real) * (d1 - d0) / ((n - 1) as real))
  }

  /** `n` copies of the weight `w`. */
  function Fill(w: real, n: nat): seq<real>
  {
    seq(n, _ => w)
  }

  function BandGrid(g: GridSpec, b: int): seq<real>
    requires CountsOk(g) && 0 <= b < g.numband
  {
    Ramp(LowF(g, b), Delf(g), HighF(g, b), Count(g, b))
  }

  function BandD(g: GridSpec, b: int): seq<real>
    requires CountsOk(g) && 0 <= b < g.numband
  {
    Interp(g.des[2 * b], g.des[2 * b + 1], Count(g, b))
  }

  function BandW(g: GridSpec, b: int): seq<real>
    requires CountsOk(g) && 0 <= b < g.numband
  {
    Fill(g.weight[b], Count(g, b))
  }

  /** The frequencies of bands `0..n-1`, one band after the other. */
  function GridUpTo(g: GridSpec, n: int): (s: seq<real>)
    requires CountsOk(g) && 0 <= n <= g.numband
    ensures |s| == Start(g, n)
  {
    if n == 0 then [] else GridUpTo(g, n - 1) + BandGrid(g, n - 1)
  }

  /** The desired responses of bands `0..n-1`. */
  function DUpTo(g: GridSpec, n: int): (s: seq<real>)
    requires CountsOk(g) && 0 <= n <= g.numband
    ensures |s| == Start(g, n)
  {
    if n == 0 then [] else DUpTo(g, n - 1) + BandD(g, n - 1)
  }

  /** The weights of bands `0..n-1`. */
  function WUpTo(g: GridSpec, n: int): (s: seq<real>)
    requires CountsOk(g) && 0 <= n <= g.numband
    ensures |s| == Start(g, n)
  {
    if n == 0 then [] else WUpTo(g, n - 1) + BandW(g, n - 1)
  }

  /** Whether the last frequency is pulled back to `0.5 - delf`: an
      odd-symmetric filter with an odd number of taps whose last grid
      frequency lies above it. */
  predicate Clamps(g: GridSpec)
    requires CountsOk(g)
  {
    var s := GridUpTo(g, g.numband);
    g.symmetry == Negative && s[|s| - 1] > 0.5 - Delf(g) && g.numtaps % 2 != 0
  }

  /** The frequency array `Grid` as `CreateDenseGrid` leaves it. */
  function GridPoints(g: GridSpec): seq<real>
    requires CountsOk(g)
  {
    var s := GridUpTo(g, g.numband);
    if Clamps(g) then s[|s| - 1 := 0.5 - Delf(g)] else s
  }

  /** The desired-response array `D` as `CreateDenseGrid` leaves it. */
  function Desired(g: GridSpec): seq<real>
    requires CountsOk(g)
  {
    DUpTo(g, g.numband)
  }

  /** The weight array `W` as `CreateDenseGrid` leaves it. */
  function Weights(g: GridSpec): seq<real>
    requires CountsOk(g)
  {
    WUpTo(g, g.numband)
  }

  /** The inner loop over the `k` samples of one band, starting at grid
      index `j0`, followed by the write of the band edge to the last one. */
  method FillBand(Grid: array<real>, D: array<real>, W: array<real>, j0: int, k: int,
                  lowf0: real, highf: real, delf: real, d0: real, d1: real, w: real,
                  ghost G0: seq<real>, ghost D0: seq<real>, ghost W0: seq<real>)
    requires Grid != D && D != W && Grid != W
    requires 0 <= j0 && 2 <= k && j0 + k <= Grid.Length && j0 + k <= D.Length && j0 + k <= W.Length
    requires Grid[..j0] == G0 && D[..j0] == D0 && W[..j0] == W0
    modifies Grid, D, W
    ensures Grid[..j0 + k] == G0 + Ramp(lowf0, delf, highf, k)
    ensures D[..j0 + k] == D0 + Interp(d0, d1, k)
    ensures W[..j0 + k] == W0 + Fill(w, k)
  {
    var lowf := lowf0;
    var j := j0;
    var i := 0;
    while i < k
      invariant 0 <= i <= k && j == j0 + i
      invariant lowf == lowf0 + (i as real) * delf
      invariant Grid[..j] == G0 + Steps(lowf0, delf, i)
      invariant D[..j] == D0 + Interp(d0, d1, k)[..i]
      invariant W[..j] == W0 + Fill(w, i)
    {
      SampleSnoc(G0, D0, W0, lowf0, delf, d0, d1, w, k, i);
      Store(Grid, D, W, j, lowf, d0 + (i as real) * (d1 - d0) / ((k - 1) as real), w,
            G0 + Steps(lowf0, delf, i), D0 + Interp(d0, d1, k)[..i], W0 + Fill(w, i));
      lowf := lowf + delf;
      j := j + 1;
      i := i + 1;
    }
    Grid[j - 1] := highf;
    assert Interp(d0, d1, k)[..k] == Interp(d0, d1, k);
  }

  /** The three stores of one pass of the sample loop: `D[j]`, `W[j]` and
      `Grid[j]` take the values of sample `j`. */
  method Store(Grid: array<real>, D: array<real>, W: array<real>, j: int,
               gv: real, dv: real, wv: real,
               ghost G: seq<real>, ghost Ds: seq<real>, ghost Ws: seq<real>)
    requires Grid != D && D != W && Grid != W
    requires 0 <= j < Grid.Length && j < D.Length && j < W.Length
    requires Grid[..j] == G && D[..j] == Ds && W[..j] == Ws
    modifies Grid, D, W
    ensures Grid[..j + 1] == G + [gv] && D[..j + 1] == Ds + [dv] && W[..j + 1] == Ws + [wv]
  {
    D[j] := dv;
    W[j] := wv;
    Grid[j] := gv;
    assert Grid[..j + 1] == Grid[..j] + [gv];
    assert D[..j + 1] == D[..j] + [dv];
    assert W[..j + 1] == W[..j] + [wv];
  }

  /** One more sample extends each of the three sequences by its value. */
  lemma SampleSnoc(G0: seq<real>, D0: seq<real>, W0: seq<real>,
                   lo: real, d: real, d0: real, d1: real, w: real, k: nat, i: nat)
    requires k >= 2 && i < k
    ensures G0 + Steps(lo, d, i + 1) == (G0 + Steps(lo, d, i)) + [lo + (i as real) * d]
    ensures D0 + Interp(d0, d1, k)[..i + 1] ==
            (D0 + Interp(d0, d1, k)[..i]) + [d0 + (i as real) * (d1 - d0) / ((k - 1) as real)]
    ensures W0 + Fill(w, i + 1) == (W0 + Fill(w, i)) + [w]
    ensures lo + (i as real) * d + d == lo + ((i + 1) as real) * d
  {
    StepsSnoc(lo, d, i);
    InterpSnoc(d0, d1, k, i);
    assert Fill(w, i + 1) == Fill(w, i) + [w];
    ShiftProduct(i, d);
  }

  lemma StepsSnoc(lo: real, d: real, i: nat)
    ensures Steps(lo, d, i + 1) == Steps(lo, d, i) + [lo + (i as real) * d]
  {
    assert forall t :: 0 <= t < i ==> Steps(lo, d, i + 1)[t] == Steps(lo, d, i)[t];
  }

  lemma InterpSnoc(d0: real, d1: real, n: nat, i: nat)
    requires n >= 2 && i < n
    ensures Interp(d0, d1, n)[..i + 1] ==
            Interp(d0, d1, n)[..i] + [d0 + (i as real) * (d1 - d0) / ((n - 1) as real)]
  {
    var s := Interp(d0, d1, n);
    assert s[i] == d0 + (i as real) * (d1 - d0) / ((n - 1) as real);
    assert s[..i + 1] == s[..i] + [s[i]];
  }

  lemma {:induction false} StartMonotone(g: GridSpec, b: int, n: int)
    requires CountsOk(g) && 0 <= b <= n <= g.numband
    ensures Start(g, b) <= Start(g, n)
    decreases n
  {
    if b < n {
      StartMonotone(g, b, n - 1);
    }
  }

  /** The whole of `CreateDenseGrid`: the band loop, then the clamp of the
      last frequency. */
  method CreateDenseGrid(r: int, numtaps: int, numband: int, bands: seq<real>,
                         des: seq<real>, weight: seq<real>, gridsize: int,
                         Grid: array<real>, D: array<real>, W: array<real>,
                         symmetry: Symmetry, griddensity: int)
    requires Fits(GridSpec(r, numtaps, numband, bands, des, weight, symmetry, griddensity), gridsize)
    requires Grid.Length == gridsize && D.Length == gridsize && W.Length == gridsize
    requires Grid != D && D != W && Grid != W
    modifies Grid, D, W
    ensures var g := GridSpec(r, numtaps, numband, bands, des, weight, symmetry, griddensity);
      Grid[..] == GridPoints(g) && D[..] == Desired(g) && W[..] == Weights(g)
  {
    ghost var g := GridSpec(r, numtaps, numband, bands, des, weight, symmetry, griddensity);
    var delf := 0.5 / ((griddensity * r) as real);
    assert delf == Delf(g);
    var grid0 := if symmetry == Negative && delf > bands[0] then delf else bands[0];
    FillBands(numband, bands, des, weight, gridsize, Grid, D, W, delf, grid0, g);
    ghost var s := GridUpTo(g, numband);
    assert Grid[gridsize - 1] == s[|s| - 1];
    if symmetry == Negative && Grid[gridsize - 1] > 0.5 - delf && numtaps % 2 != 0 {
      Grid[gridsize - 1] := 0.5 - delf;
    }
  }

  /** The loop over the bands, which lays them out one after the other. */
  method FillBands(numband: int, bands: seq<real>, des: seq<real>, weight: seq<real>, gridsize: int,
                   Grid: array<real>, D: array<real>, W: array<real>, delf: real, grid0: real,
                   ghost g: GridSpec)
    requires Fits(g, gridsize) && numband == g.numband
    requires bands == g.bands && des == g.des && weight == g.weight
    requires delf == Delf(g) && grid0 == Grid0(g)
    requires Grid.Length == gridsize && D.Length == gridsize && W.Length == gridsize
    requires Grid != D && D != W && Grid != W
    modifies Grid, D, W
    ensures Grid[..] == GridUpTo(g, numband) && D[..] == DUpTo(g, numband) && W[..] == WUpTo(g, numband)
  {
    var j := 0;
    var band := 0;
    while band < numband
      invariant 0 <= band <= numband && j == Start(g, band) && j <= gridsize
      invariant Grid[..j] == GridUpTo(g, band)
      invariant D[..j] == DUpTo(g, band)
      invariant W[..j] == WUpTo(g, band)
    {
      j := LayBand(band, bands, des, weight, j, Grid, D, W, delf, grid0, g);
      band := band + 1;
    }
    assert Grid[..j] == Grid[..] && D[..j] == D[..] && W[..j] == W[..];
  }

  /** The body of the band loop: the band's first and last frequency, its
      sample count `k`, and the inner loop writing samples `j..j+k-1`; the
      result is the index after them. */
  method LayBand(band: int, bands: seq<real>, des: seq<real>, weight: seq<real>, j: int,
                 Grid: array<real>, D: array<real>, W: array<real>, delf: real, grid0: real,
                 ghost g: GridSpec)
    returns (next: int)
    requires CountsOk(g) && 0 <= band < g.numband && j == Start(g, band)
    requires j <= Grid.Length
    requires bands == g.bands && des == g.des && weight == g.weight
    requires delf == Delf(g) && grid0 == Grid0(g)
    requires Grid.Length == Start(g, g.numband) && D.Length == Grid.Length && W.Length == Grid.Length
    requires Grid != D && D != W && Grid != W
    requires Grid[..j] == GridUpTo(g, band) && D[..j] == DUpTo(g, band) && W[..j] == WUpTo(g, band)
    modifies Grid, D, W
    ensures next == Start(g, band + 1) <= Grid.Length
    ensures Grid[..next] == GridUpTo(g, band + 1)
    ensures D[..next] == DUpTo(g, band + 1)
    ensures W[..next] == WUpTo(g, band + 1)
  {
    var lowf := if band == 0 then grid0 else bands[2 * band];
    var highf := bands[2 * band + 1];
    var k := Trunc((highf - lowf) / delf + 0.5);
    assert lowf == LowF(g, band) && k == Count(g, band);
    StartMonotone(g, band + 1, g.numband);
    UpToSnoc(g, band);
    FillBand(Grid, D, W, j, k, lowf, highf, delf, des[2 * band], des[2 * band + 1], weight[band],
             GridUpTo(g, band), DUpTo(g, band), WUpTo(g, band));
    next := j + k;
  }

  /** One more band appends that band's samples, as `FillBand` writes them. */
  lemma UpToSnoc(g: GridSpec, b: int)
    requires CountsOk(g) && 0 <= b < g.numband
    ensures Start(g, b + 1) == Start(g, b) + Count(g, b)
    ensures GridUpTo(g, b + 1) == GridUpTo(g, b) + Ramp(LowF(g, b), Delf(g), HighF(g, b), Count(g, b))
    ensures DUpTo(g, b + 1) == DUpTo(g, b) + Interp(g.des[2 * b], g.des[2 * b + 1], Count(g, b))
    ensures WUpTo(g, b + 1) == WUpTo(g, b) + Fill(g.weight[b], Count(g, b))
  {
  }

  lemma SliceOfPrefix(A: seq<real>, B: seq<real>, s: int, e: int)
    requires 0 <= s <= e <= |A|
    ensures (A + B)[s..e] == A[s..e]
  {
    assert forall t :: s <= t < e ==> (A + B)[t] == A[t];
  }

  /** Band `b` occupies the slice `[Start(b), Start(b+1))` of the frequencies
      of every prefix of bands that includes it. */
  lemma {:induction false} GridLayout(g: GridSpec, n: int, b: int)
    requires CountsOk(g) && 0 <= b < n <= g.numband
    ensures Start(g, b + 1) <= Start(g, n)
    ensures GridUpTo(g, n)[Start(g, b)..Start(g, b + 1)] == BandGrid(g, b)
    decreases n
  {
    var s, e := Start(g, b), Start(g, b + 1);
    if b < n - 1 {
      GridLayout(g, n - 1, b);
      SliceOfPrefix(GridUpTo(g, n - 1), BandGrid(g, n - 1), s, e);
    } else {
      assert GridUpTo(g, n)[s..e] == BandGrid(g, b);
    }
  }

  /** Band `b` occupies the slice `[Start(b), Start(b+1))` of the desired responses
      of every prefix of bands that includes it. */
  lemma {:induction false} DesiredLayout(g: GridSpec, n: int, b: int)
    requires CountsOk(g) && 0 <= b < n <= g.numband
    ensures Start(g, b + 1) <= Start(g, n)
    ensures DUpTo(g, n)[Start(g, b)..Start(g, b + 1)] == BandD(g, b)
    decreases n
  {
    var s, e := Start(g, b), Start(g, b + 1);
    if b < n - 1 {
      DesiredLayout(g, n - 1, b);
      SliceOfPrefix(DUpTo(g, n - 1), BandD(g, n - 1), s, e);
    } else {
      assert DUpTo(g, n)[s..e] == BandD(g, b);
    }
  }

  /** Band `b` occupies the slice `[Start(b), Start(b+1))` of the weights
      of every prefix of bands that includes it. */
  lemma {:induction false} WeightLayout(g: GridSpec, n: int, b: int)
    requires CountsOk(g) && 0 <= b < n <= g.numband
    ensures Start(g, b + 1) <= Start(g, n)
    ensures WUpTo(g, n)[Start(g, b)..Start(g, b + 1)] == BandW(g, b)
    decreases n
  {
    var s, e := Start(g, b), Start(g, b + 1);
    if b < n - 1 {
      WeightLayout(g, n - 1, b);
      SliceOfPrefix(WUpTo(g, n - 1), BandW(g, n - 1), s, e);
    } else {
      assert WUpTo(g, n)[s..e] == BandW(g, b);
    }
  }

  lemma RampAt(lo: real, d: real, hi: real, k: nat, i: int)
    requires k >= 1 && 0 <= i < k
    ensures Ramp(lo, d, hi, k)[i] == if i == k - 1 then hi else lo + (i as real) * d
  {
  }

  /** The frequency of sample `i` of band `b`: `lowf` after `i` steps, or
      the band edge for the last sample. */
  function Point(g: GridSpec, b: int, i: int): real
    requires CountsOk(g) && 0 <= b < g.numband
  {
    if i == Count(g, b) - 1 then HighF(g, b) else LowF(g, b) + (i as real) * Delf(g)
  }

  lemma BandGridAt(g: GridSpec, b: int, i: int)
    requires CountsOk(g) && 0 <= b < g.numband && 0 <= i < Count(g, b)
    ensures BandGrid(g, b)[i] == Point(g, b, i)
  {
    RampAt(LowF(g, b), Delf(g), HighF(g, b), Count(g, b), i);
  }

  /** Sample `i` of band `b`, read off the sequences before the clamp. */
  lemma PointOf(g: GridSpec, b: int, i: int)
    requires CountsOk(g) && 0 <= b < g.numband && 0 <= i < Count(g, b)
    ensures Start(g, b) + i < Start(g, b + 1) <= Start(g, g.numband)
    ensures GridUpTo(g, g.numband)[Start(g, b) + i] == BandGrid(g, b)[i]
    ensures Desired(g)[Start(g, b) + i] == BandD(g, b)[i]
    ensures Weights(g)[Start(g, b) + i] == g.weight[b]
  {
    GridLayout(g, g.numband, b);
    DesiredLayout(g, g.numband, b);
    WeightLayout(g, g.numband, b);
    var s, e := Start(g, b), Start(g, b + 1);
    assert GridUpTo(g, g.numband)[s..e][i] == GridUpTo(g, g.numband)[s + i];
    assert Desired(g)[s..e][i] == Desired(g)[s + i];
    assert Weights(g)[s..e][i] == Weights(g)[s + i];
  }

  /** The weight is constant over each band. */
  lemma WeightPerBand(g: GridSpec, b: int, i: int)
    requires CountsOk(g) && 0 <= b < g.numband && 0 <= i < Count(g, b)
    ensures Start(g, b) + i < |Weights(g)|
    ensures Weights(g)[Start(g, b) + i] == g.weight[b]
  {
    PointOf(g, b, i);
  }

  /** The interpolation starts at `d0` and ends at `d1`. */
  lemma InterpEnds(d0: real, d1: real, n: nat)
    requires n >= 2
    ensures Interp(d0, d1, n)[0] == d0 && Interp(d0, d1, n)[n - 1] == d1
  {
    var m := (n - 1) as real;
    assert m * (d1 - d0) / m == d1 - d0;
  }

  lemma MulNonneg(a: real, b: real)
    requires a >= 0.0 && b >= 0.0
    ensures a * b >= 0.0
  {
  }

  /** A fraction `i/m` of `x`, with `0 <= i <= m`, lies between `0` and `x`. */
  lemma FractionOf(i: int, m: int, x: real)
    requires 0 <= i <= m && m >= 1
    ensures x >= 0.0 ==> 0.0 <= (i as real) * x / (m as real) <= x
    ensures x < 0.0 ==> x <= (i as real) * x / (m as real) <= 0.0
  {
    var t := (i as real) / (m as real);
    assert 0.0 <= t <= 1.0;
    assert (i as real) * x / (m as real) == t * x;
    if x >= 0.0 {
      MulNonneg(t, x);
      MulNonneg(1.0 - t, x);
      assert (1.0 - t) * x == x - t * x;
    } else {
      MulNonneg(t, -x);
      MulNonneg(1.0 - t, -x);
      assert (1.0 - t) * (-x) == t * x - x;
    }
  }

  /** Every interpolated value lies between the two end values. */
  lemma InterpBetween(d0: real, d1: real, n: nat, i: int)
    requires n >= 2 && 0 <= i < n
    ensures var v := Interp(d0, d1, n)[i];
      (d0 <= d1 ==> d0 <= v <= d1) && (d1 <= d0 ==> d1 <= v <= d0)
  {
    FractionOf(i, n - 1, d1 - d0);
  }

  /** The desired response runs from `des[2b]` at the first sample of band
      `b` to `des[2b+1]` at its last. */
  lemma DesiredEndpoints(g: GridSpec, b: int)
    requires CountsOk(g) && 0 <= b < g.numband
    ensures Start(g, b + 1) - 1 < |Desired(g)|
    ensures Desired(g)[Start(g, b)] == g.des[2 * b]
    ensures Desired(g)[Start(g, b + 1) - 1] == g.des[2 * b + 1]
  {
    var k := Count(g, b);
    PointOf(g, b, 0);
    PointOf(g, b, k - 1);
    InterpEnds(g.des[2 * b], g.des[2 * b + 1], k);
  }

  /** Every desired value of band `b` lies between the band's two desired
      values. */
  lemma DesiredBetween(g: GridSpec, b: int, i: int)
    requires CountsOk(g) && 0 <= b < g.numband && 0 <= i < Count(g, b)
    ensures Start(g, b) + i < |Desired(g)|
    ensures var v, d0, d1 := Desired(g)[Start(g, b) + i], g.des[2 * b], g.des[2 * b + 1];
      (d0 <= d1 ==> d0 <= v <= d1) && (d1 <= d0 ==> d1 <= v <= d0)
  {
    PointOf(g, b, i);
    InterpBetween(g.des[2 * b], g.des[2 * b + 1], Count(g, b), i);
  }

  /** The rounding of `k`: `(k - 1/2) delf <= high - low < (k + 1/2) delf`. */
  lemma CountSpan(g: GridSpec, b: int)
    requires CountsOk(g) && 0 <= b < g.numband
    ensures var k, d := Count(g, b) as real, Delf(g);
      (k - 0.5) * d <= HighF(g, b) - LowF(g, b) < (k + 0.5) * d
  {
    var d := Delf(g);
    var w := HighF(g, b) - LowF(g, b);
    var x := w / d;
    var k := Count(g, b) as real;
    assert x * d == w;
    assert k <= x + 0.5 < k + 1.0;
    assert (x - (k - 0.5)) * d >= 0.0;
    assert ((k + 0.5) - x) * d > 0.0;
  }

  /** Band `b` ends exactly on its upper edge `bands[2b+1]`; for the last
      band that holds unless the clamp moved it. */
  lemma BandEnd(g: GridSpec, b: int)
    requires CountsOk(g) && 0 <= b < g.numband
    requires b == g.numband - 1 ==> !Clamps(g)
    ensures Start(g, b + 1) - 1 < |GridPoints(g)|
    ensures GridPoints(g)[Start(g, b + 1) - 1] == g.bands[2 * b + 1]
  {
    PointOf(g, b, Count(g, b) - 1);
    BandGridAt(g, b, Count(g, b) - 1);
    if b < g.numband - 1 {
      StartMonotone(g, b + 2, g.numband);
    }
  }

  /** A sample of band `b` other than the last sample of the last band lies
      before the final grid index, which is the only one the clamp touches. */
  lemma NotLast(g: GridSpec, b: int, i: int)
    requires CountsOk(g) && 0 <= b < g.numband && 0 <= i < Count(g, b)
    requires b < g.numband - 1 || i < Count(g, b) - 1
    ensures Start(g, b) + i < Start(g, g.numband) - 1
    ensures GridPoints(g)[Start(g, b) + i] == Point(g, b, i)
  {
    PointOf(g, b, i);
    BandGridAt(g, b, i);
    if b < g.numband - 1 {
      StartMonotone(g, b + 2, g.numband);
    }
  }

  /** The first frequency is `bands[0]`, raised to `delf` for an
      odd-symmetric filter: `max(delf, bands[0])`. */
  lemma FirstPoint(g: GridSpec)
    requires CountsOk(g)
    ensures |GridPoints(g)| >= 2
    ensures g.symmetry == Positive ==> GridPoints(g)[0] == g.bands[0]
    ensures g.symmetry == Negative ==>
      GridPoints(g)[0] >= Delf(g) && GridPoints(g)[0] >= g.bands[0] &&
      (GridPoints(g)[0] == Delf(g) || GridPoints(g)[0] == g.bands[0])
  {
    NotLast(g, 0, 0);
  }

  /** The last frequency is the upper edge of the last band, or `0.5 - delf`
      for an odd-symmetric filter with an odd number of taps whose last
      band edge lies above `0.5 - delf`. */
  lemma LastPoint(g: GridSpec)
    requires CountsOk(g)
    ensures Clamps(g) <==>
      g.symmetry == Negative && g.bands[2 * g.numband - 1] > 0.5 - Delf(g) && g.numtaps % 2 != 0
    ensures var G := GridPoints(g);
      |G| == Start(g, g.numband) &&
      G[|G| - 1] == if Clamps(g) then 0.5 - Delf(g) else g.bands[2 * g.numband - 1]
  {
    PointOf(g, g.numband - 1, Count(g, g.numband - 1) - 1);
    BandGridAt(g, g.numband - 1, Count(g, g.numband - 1) - 1);
  }

  lemma ShiftProduct(k: int, d: real)
    ensures ((k - 2) as real) * d == (k as real - 0.5) * d - 1.5 * d
    ensures ((k + 1) as real) * d == (k as real) * d + d
  {
  }

  /** Every sample of band `b` before the band edge lies at least one and a
      half steps below the edge. */
  lemma StepBelowEdge(g: GridSpec, b: int, i: int)
    requires CountsOk(g) && 0 <= b < g.numband && 0 <= i <= Count(g, b) - 2
    ensures LowF(g, b) + (i as real) * Delf(g) <= HighF(g, b) - 1.5 * Delf(g)
  {
    var k, d := Count(g, b), Delf(g);
    CountSpan(g, b);
    ShiftProduct(k, d);
    MulNonneg(((k - 2) - i) as real, d);
    assert ((k - 2) as real) * d - (i as real) * d == (((k - 2) - i) as real) * d;
  }

  lemma EdgeGap(prev: real, hi: real, d: real)
    requires d > 0.0 && prev <= hi - 1.5 * d
    ensures prev < hi - d
  {
  }

  /** Consecutive samples of a band increase, and every sample but the last
      stays more than one step below the band edge. */
  lemma PointStrict(g: GridSpec, b: int, i: int)
    requires CountsOk(g) && 0 <= b < g.numband && 0 < i < Count(g, b)
    ensures Point(g, b, i - 1) < Point(g, b, i)
    ensures Point(g, b, i - 1) < HighF(g, b) - Delf(g)
  {
    var d := Delf(g);
    StepBelowEdge(g, b, i - 1);
    EdgeGap(LowF(g, b) + ((i - 1) as real) * d, HighF(g, b), d);
    ShiftProduct(i - 1, d);
  }

  /** Within a band the frequencies strictly increase, the clamped last one
      included when the last band edge is at most 0.5. */
  lemma BandStrict(g: GridSpec, b: int, i: int)
    requires CountsOk(g) && g.bands[2 * g.numband - 1] <= 0.5
    requires 0 <= b < g.numband && 0 < i < Count(g, b)
    ensures Start(g, b) + i < |GridPoints(g)|
    ensures GridPoints(g)[Start(g, b) + i - 1] < GridPoints(g)[Start(g, b) + i]
  {
    NotLast(g, b, i - 1);
    PointStrict(g, b, i);
    if b == g.numband - 1 && i == Count(g, b) - 1 {
      LastPoint(g);
      assert Point(g, b, i) == g.bands[2 * g.numband - 1];
    } else {
      NotLast(g, b, i);
    }
  }

  /** The band edges in order, starting at 0 and ending at most at 0.5. */
  predicate Ordered(g: GridSpec)
    requires WellFormed(g)
  {
    (forall t :: 0 <= t < 2 * g.numband - 1 ==> g.bands[t] <= g.bands[t + 1]) &&
    0.0 <= g.bands[0] && g.bands[2 * g.numband - 1] <= 0.5
  }

  /** Across the boundary between bands `b - 1` and `b` the frequency does
      not decrease: the edge `bands[2b-1]` is followed by `bands[2b]`. */
  lemma BandBoundary(g: GridSpec, b: int)
    requires CountsOk(g) && Ordered(g) && 1 <= b < g.numband
    ensures 1 <= Start(g, b) < |GridPoints(g)|
    ensures GridPoints(g)[Start(g, b) - 1] <= GridPoints(g)[Start(g, b)]
  {
    BandEnd(g, b - 1);
    NotLast(g, b, 0);
    assert g.bands[2 * b - 1] <= g.bands[2 * b];
  }

  /** The band containing grid index `i`. */
  lemma {:induction false} Locate(g: GridSpec, i: int, n: int) returns (b: int)
    requires CountsOk(g) && 0 <= n <= g.numband && 0 <= i < Start(g, n)
    ensures 0 <= b < n && Start(g, b) <= i < Start(g, b + 1)
    decreases n
  {
    if i >= Start(g, n - 1) {
      b := n - 1;
    } else {
      b := Locate(g, i, n - 1);
    }
  }

  /** For ordered band edges the grid frequencies never decrease. */
  lemma GridNondecreasing(g: GridSpec)
    requires CountsOk(g) && Ordered(g)
    ensures forall i :: 0 < i < |GridPoints(g)| ==> GridPoints(g)[i - 1] <= GridPoints(g)[i]
  {
    var G := GridPoints(g);
    LastPoint(g);
    forall i | 0 < i < |G|
      ensures G[i - 1] <= G[i]
    {
      var b := Locate(g, i, g.numband);
      if i > Start(g, b) {
        BandStrict(g, b, i - Start(g, b));
      } else {
        BandBoundary(g, b);
      }
    }
  }

  lemma {:induction false} Chain(G: seq<real>, i: int, j: int)
    requires forall t :: 0 < t < |G| ==> G[t - 1] <= G[t]
    requires 0 <= i <= j < |G|
    ensures G[i] <= G[j]
    decreases j - i
  {
    if i < j {
      Chain(G, i, j - 1);
    }
  }

  /** For ordered band edges every grid frequency lies in `[0, 0.5]`, and
      for an odd-symmetric filter it is positive. */
  lemma GridBounds(g: GridSpec)
    requires CountsOk(g) && Ordered(g)
    ensures forall i :: 0 <= i < |GridPoints(g)| ==> 0.0 <= GridPoints(g)[i] <= 0.5
    ensures g.symmetry == Negative ==> forall i :: 0 <= i < |GridPoints(g)| ==> GridPoints(g)[i] > 0.0
  {
    var G := GridPoints(g);
    GridNondecreasing(g);
    FirstPoint(g);
    LastPoint(g);
    forall i | 0 <= i < |G|
      ensures G[0] <= G[i] <= G[|G| - 1]
    {
      Chain(G, 0, i);
      Chain(G, i, |G| - 1);
    }
  }
}
