/** `FreqSample` (tdoa-c/lib/firtool/remez.cpp): frequency-sampling synthesis
    of the impulse response `h[0..N)` from the amplitude samples `A`, then
    scaling so that the largest tap has magnitude one half. The library
    functions `cos` and `sin` are not modelled; they are passed in. */
module FreqSampling {
  import opened CArith
  import opened RemezTypes

  /** The C library's `cos` and `sin`. */
  datatype Trig = Trig(cos: real -> real, sin: real -> real)

  /** `M_PI`. */
  const Pi: real := 3.14159265358979323846

  /** `M = (N - 1) / 2`, the centre of the impulse response. */
  function Mid(N: int): real
  {
    (N as real - 1.0) / 2.0
  }

  /** `x = 2 pi (n - M) / N`, the phase step of tap `n`. */
  function Phase(N: int, n: int): real
    requires N >= 1
  {
    Pi * 2.0 * (n as real - Mid(N)) / N as real
  }

  /** `cos` for an even-symmetric filter, `sin` for an odd-symmetric one. */
  function Wave(trig: Trig, symm: Symmetry, t: real): real
  {
    if symm == Positive then trig.cos(t) else trig.sin(t)
  }

  /** The highest harmonic in every branch: `k <= M` for odd `N` and
      `k <= N/2 - 1` for even `N` are both `k <= (N-1)/2`. */
  function Harmonics(N: int): int
    requires N >= 1
  {
    (N - 1) / 2
  }

  /** `sum_{k=1..K} 2 A[k] wave(x k)`, accumulated in increasing `k`. */
  function HarmonicSum(A: seq<real>, x: real, K: int, symm: Symmetry, trig: Trig): real
    requires 0 <= K < |A|
    decreases K
  {
    if K == 0 then 0.0
    else HarmonicSum(A, x, K - 1, symm, trig) + 2.0 * A[K] * Wave(trig, symm, x * K as real)
  }

  lemma HarmonicSumStep(A: seq<real>, x: real, K: int, symm: Symmetry, trig: Trig, w: real)
    requires 0 < K < |A| && w == Wave(trig, symm, x * K as real)
    ensures HarmonicSum(A, x, K, symm, trig) == HarmonicSum(A, x, K - 1, symm, trig) + 2.0 * A[K] * w
  {
  }

  /** The starting value of `val`: `A[0]` for even symmetry, `0` for odd
      symmetry and odd `N`, and the half-band term `A[N/2] sin(pi (n - M))`
      for odd symmetry and even `N`. */
  function Base(A: seq<real>, N: int, n: int, symm: Symmetry, trig: Trig): real
    requires N >= 1 && |A| > N / 2
  {
    if symm == Positive then A[0]
    else if N % 2 == 1 then 0.0
    else A[N / 2] * trig.sin(Pi * (n as real - Mid(N)))
  }

  /** Tap `n` before scaling: `val / N`. */
  function Tap(A: seq<real>, N: int, n: int, symm: Symmetry, trig: Trig): real
    requires N >= 1 && |A| > N / 2
  {
    (Base(A, N, n, symm, trig) + HarmonicSum(A, Phase(N, n), Harmonics(N), symm, trig)) / N as real
  }

  /** All `N` taps before scaling. */
  function Synthesis(A: seq<real>, N: int, symm: Symmetry, trig: Trig): (h: seq<real>)
    requires N >= 1 && |A| > N / 2
    ensures |h| == N
  {
    seq(N, n requires 0 <= n < N => Tap(A, N, n, symm, trig))
  }

  // ---------------------------------------------------------------------
  // Scaling

  /** The running maximum of `fabs(h[i])` over the first `n` taps, started
      at `0` and replaced on a strict `<`. */
  function PeakAbs(h: seq<real>, n: int): real
    requires 0 <= n <= |h|
    decreases n
  {
    if n == 0 then 0.0
    else
      var m := PeakAbs(h, n - 1);
      if m < Abs(h[n - 1]) then Abs(h[n - 1]) else m
  }

  /** The peak bounds every magnitude and is zero or one of them. */
  lemma {:induction false} PeakAbsSpec(h: seq<real>, n: int)
    requires 0 <= n <= |h|
    ensures PeakAbs(h, n) >= 0.0
    ensures forall i :: 0 <= i < n ==> Abs(h[i]) <= PeakAbs(h, n)
    ensures PeakAbs(h, n) == 0.0 || exists i :: 0 <= i < n && Abs(h[i]) == PeakAbs(h, n)
    decreases n
  {
    if n > 0 {
      PeakAbsSpec(h, n - 1);
    }
  }

  /** The taps after the scaling loop: each divided by twice the peak, or
      left alone when the peak is zero. */
  function Scaled(h: seq<real>): (g: seq<real>)
    ensures |g| == |h|
  {
    var m := PeakAbs(h, |h|);
    if m > 0.0 then seq(|h|, i requires 0 <= i < |h| => h[i] / (m * 2.0)) else h
  }

  /** The two loops of the scaling tail over `h[0..N)`. */
  method NormalizeTaps(h: array<real>, N: int)
    requires 0 <= N <= h.Length
    modifies h
    ensures h[..N] == Scaled(old(h[..N]))
    ensures h[N..] == old(h[N..])
  {
    ghost var h0 := h[..N];
    var peak := 0.0;
    var n := 0;
    while n < N
      invariant 0 <= n <= N
      invariant peak == PeakAbs(h0, n)
    {
      if peak < Abs(h[n]) {
        peak := Abs(h[n]);
      }
      n := n + 1;
    }
    assert peak == PeakAbs(h0, |h0|);
    n := 0;
    while peak > 0.0 && n < N
      invariant 0 <= n <= N
      invariant n > 0 ==> peak > 0.0
      invariant forall i :: 0 <= i < n ==> peak > 0.0 && h[i] == h0[i] / (peak * 2.0)
      invariant forall i :: n <= i < h.Length ==> h[i] == old(h[i])
    {
      h[n] := h[n] / (peak * 2.0);
      n := n + 1;
    }
    assert h[..N] == Scaled(h0);
  }

  /** Some tap nonzero: afterwards the largest magnitude is exactly one half. */
  lemma ScaledPeak(h: seq<real>)
    requires exists i :: 0 <= i < |h| && h[i] != 0.0
    ensures PeakAbs(Scaled(h), |h|) == 0.5
  {
    var m := PeakAbs(h, |h|);
    PeakAbsSpec(h, |h|);
    var w :| 0 <= w < |h| && h[w] != 0.0;
    assert m > 0.0 by { assert Abs(h[w]) <= m; }
    var j :| 0 <= j < |h| && Abs(h[j]) == m;
    var g := Scaled(h);
    forall i | 0 <= i < |h| ensures Abs(g[i]) == Abs(h[i]) / (m * 2.0) {
      AbsQuotient(h[i], m * 2.0);
    }
    HalfOf(m);
    assert Abs(g[j]) == 0.5;
    PeakAbsSpec(g, |g|);
    forall i | 0 <= i < |h| ensures Abs(g[i]) <= 0.5 {
      QuotientAtMost(Abs(h[i]), m);
    }
  }

  /** After scaling no tap exceeds one half in magnitude. */
  lemma ScaledBound(h: seq<real>)
    ensures forall i :: 0 <= i < |h| ==> Abs(Scaled(h)[i]) <= 0.5
  {
    var m := PeakAbs(h, |h|);
    PeakAbsSpec(h, |h|);
    forall i | 0 <= i < |h| ensures Abs(Scaled(h)[i]) <= 0.5 {
      if m > 0.0 {
        AbsQuotient(h[i], m * 2.0);
        QuotientAtMost(Abs(h[i]), m);
      } else {
        assert Abs(h[i]) == 0.0;
      }
    }
  }

  /** The factor the scaling loop applies: `1 / (2 max)`, or `1` when the
      loop does not run. */
  function ScaleFactor(h: seq<real>): real
  {
    var m := PeakAbs(h, |h|);
    if m > 0.0 then 1.0 / (m * 2.0) else 1.0
  }

  /** Scaling multiplies every tap by one positive factor, so the ratios
      and signs of the taps are kept. */
  lemma ScaledIsMultiple(h: seq<real>)
    ensures ScaleFactor(h) > 0.0
    ensures forall i :: 0 <= i < |h| ==> Scaled(h)[i] == ScaleFactor(h) * h[i]
  {
    var m := PeakAbs(h, |h|);
    if m > 0.0 {
      Reciprocal(m * 2.0);
      forall i | 0 <= i < |h| ensures Scaled(h)[i] == ScaleFactor(h) * h[i] {
        QuotientAsProduct(h[i], m * 2.0);
      }
    }
  }

  /** All taps zero: the scaling loop does not run and `h` is unchanged. */
  lemma ScaledZero(h: seq<real>)
    requires forall i :: 0 <= i < |h| ==> h[i] == 0.0
    ensures Scaled(h) == h
  {
    PeakAbsSpec(h, |h|);
  }

  lemma QuotientAsProduct(x: real, d: real)
    requires d > 0.0
    ensures x / d == (1.0 / d) * x
  {
  }

  lemma Reciprocal(d: real)
    requires d > 0.0
    ensures 1.0 / d > 0.0
  {
  }

  lemma HalfOf(m: real)
    requires m > 0.0
    ensures m / (m * 2.0) == 0.5
  {
    assert 0.5 * (m * 2.0) == m;
  }

  lemma AbsQuotient(x: real, d: real)
    requires d > 0.0
    ensures Abs(x / d) == Abs(x) / d
  {
    if x < 0.0 {
      assert x / d < 0.0;
      assert -(x / d) == (-x) / d;
    } else {
      assert x / d >= 0.0;
    }
  }

  lemma QuotientAtMost(a: real, m: real)
    requires 0.0 <= a <= m && m > 0.0
    ensures a / (m * 2.0) <= 0.5
  {
    assert a / (m * 2.0) * (m * 2.0) == a;
  }

  // ---------------------------------------------------------------------
  // The whole routine

  /** The inner loop of one branch: `val` starts at `Base` and accumulates
      the harmonics `k = 1 .. (N-1)/2`; the tap is `val / N`. */
  method SynthesizeTap(A: array<real>, N: int, n: int, symm: Symmetry, trig: Trig) returns (t: real)
    requires N >= 1 && A.Length > N / 2
    ensures t == Tap(A[..], N, n, symm, trig)
  {
    var M := (N as real - 1.0) / 2.0;
    var x := Pi * 2.0 * (n as real - M) / N as real;
    assert M == Mid(N) && x == Phase(N, n);
    var val: real;
    if symm == Positive {
      val := A[0];
    } else if N % 2 == 1 {
      val := 0.0;
    } else {
      val := A[N / 2] * trig.sin(Pi * (n as real - M));
    }
    assert val == Base(A[..], N, n, symm, trig);
    val := AddHarmonics(A, N, x, symm, trig, val);
    t := val / N as real;
  }

  /** The `k` loop: `val += 2 A[k] wave(x k)` for `k = 1 .. (N-1)/2`. */
  method AddHarmonics(A: array<real>, N: int, x: real, symm: Symmetry, trig: Trig, val0: real)
    returns (val: real)
    requires N >= 1 && A.Length > N / 2
    ensures val == val0 + HarmonicSum(A[..], x, Harmonics(N), symm, trig)
  {
    ghost var a := A[..];
    val := val0;
    var k := 1;
    while k <= (N - 1) / 2
      invariant 1 <= k <= (N - 1) / 2 + 1
      invariant val == val0 + HarmonicSum(a, x, k - 1, symm, trig)
    {
      var w: real;
      if symm == Positive {
        w := trig.cos(x * k as real);
      } else {
        w := trig.sin(x * k as real);
      }
      HarmonicSumStep(a, x, k, symm, trig, w);
      val := val + 2.0 * A[k] * w;
      k := k + 1;
    }
  }

  /** `FreqSample(N, A, h, symm)`: synthesis of every tap, then scaling. */
  method FreqSample(N: int, A: array<real>, h: array<real>, symm: Symmetry, trig: Trig)
    requires N >= 1 && A.Length > N / 2 && h.Length >= N && A != h
    modifies h
    ensures h[..N] == Scaled(Synthesis(A[..], N, symm, trig))
    ensures h[N..] == old(h[N..])
  {
    var n := 0;
    while n < N
      invariant 0 <= n <= N
      invariant forall i :: 0 <= i < n ==> h[i] == Tap(A[..], N, i, symm, trig)
      invariant h[N..] == old(h[N..])
    {
      h[n] := SynthesizeTap(A, N, n, symm, trig);
      n := n + 1;
    }
    assert h[..N] == Synthesis(A[..], N, symm, trig);
    NormalizeTaps(h, N);
  }

  // ---------------------------------------------------------------------
  // Linear phase

  /** Negation, named so that `Parity` has a term to be instantiated on. */
  function Neg(t: real): real
  {
    -t
  }

  /** `cos` is even and `sin` is odd, as for the true functions. */
  ghost predicate Parity(trig: Trig)
  {
    forall t {:trigger Neg(t)} :: trig.cos(Neg(t)) == trig.cos(t) && trig.sin(Neg(t)) == -trig.sin(t)
  }

  /** Taps `n` and `N-1-n` sit at opposite phases. */
  lemma PhaseMirror(N: int, n: int)
    requires N >= 1
    ensures Phase(N, N - 1 - n) == Neg(Phase(N, n))
  {
    assert (N - 1 - n) as real - Mid(N) == -(n as real - Mid(N));
  }

  /** Mirroring the phase keeps the cosine sums and negates the sine sums. */
  lemma {:induction false} HarmonicSumMirror(A: seq<real>, x: real, K: int, symm: Symmetry, trig: Trig)
    requires 0 <= K < |A| && Parity(trig)
    ensures HarmonicSum(A, Neg(x), K, symm, trig) ==
      if symm == Positive then HarmonicSum(A, x, K, symm, trig) else -HarmonicSum(A, x, K, symm, trig)
    decreases K
  {
    if K > 0 {
      HarmonicSumMirror(A, x, K - 1, symm, trig);
      var t := x * K as real;
      assert Neg(x) * K as real == Neg(t);
      assert trig.cos(Neg(t)) == trig.cos(t) && trig.sin(Neg(t)) == -trig.sin(t);
    }
  }

  /** The half-band term is odd about the centre; the other bases are
      constant. */
  lemma BaseMirror(A: seq<real>, N: int, symm: Symmetry, trig: Trig, n: int)
    requires N >= 1 && |A| > N / 2 && Parity(trig)
    ensures Base(A, N, N - 1 - n, symm, trig) ==
      if symm == Positive then Base(A, N, n, symm, trig) else -Base(A, N, n, symm, trig)
  {
    var p := Pi * (n as real - Mid(N));
    assert Pi * ((N - 1 - n) as real - Mid(N)) == Neg(p);
    assert trig.sin(Neg(p)) == -trig.sin(p);
  }

  /** Taps `n` and `N-1-n` before scaling are equal for an even-symmetric
      filter and opposite for an odd-symmetric one. */
  lemma TapMirror(A: seq<real>, N: int, symm: Symmetry, trig: Trig, n: int)
    requires N >= 1 && |A| > N / 2 && Parity(trig)
    ensures Tap(A, N, N - 1 - n, symm, trig) ==
      if symm == Positive then Tap(A, N, n, symm, trig) else -Tap(A, N, n, symm, trig)
  {
    PhaseMirror(N, n);
    HarmonicSumMirror(A, Phase(N, n), Harmonics(N), symm, trig);
    BaseMirror(A, N, symm, trig, n);
    var b := Base(A, N, n, symm, trig);
    var s := HarmonicSum(A, Phase(N, n), Harmonics(N), symm, trig);
    if symm == Negative {
      NegatedQuotient(b + s, N as real);
    }
  }

  lemma NegatedQuotient(v: real, d: real)
    requires d > 0.0
    ensures (-v) / d == -(v / d)
  {
  }

  /** With an even `cos` and an odd `sin`, the synthesized response has
      linear phase: symmetric about its centre for an even-symmetric filter
      and antisymmetric for an odd-symmetric one. */
  lemma SynthesisSymmetry(A: seq<real>, N: int, symm: Symmetry, trig: Trig, n: int)
    requires N >= 1 && |A| > N / 2 && Parity(trig) && 0 <= n < N
    ensures var h := Synthesis(A, N, symm, trig);
      h[N - 1 - n] == if symm == Positive then h[n] else -h[n]
  {
    TapMirror(A, N, symm, trig, n);
  }

  /** Scaling keeps equal taps equal and opposite taps opposite. */
  lemma ScaledMirror(s: seq<real>, i: int, j: int, symm: Symmetry)
    requires 0 <= i < |s| && 0 <= j < |s|
    requires s[j] == if symm == Positive then s[i] else -s[i]
    ensures Scaled(s)[j] == if symm == Positive then Scaled(s)[i] else -Scaled(s)[i]
  {
    ScaledIsMultiple(s);
    ProductNeg(ScaleFactor(s), s[i]);
  }

  lemma ProductNeg(c: real, x: real)
    ensures c * (-x) == -(c * x)
  {
  }

  /** Scaling keeps the linear phase of the synthesized response. */
  lemma FreqSampleSymmetry(A: seq<real>, N: int, symm: Symmetry, trig: Trig, n: int)
    requires N >= 1 && |A| > N / 2 && Parity(trig) && 0 <= n < N
    ensures var h := Scaled(Synthesis(A, N, symm, trig));
      h[N - 1 - n] == if symm == Positive then h[n] else -h[n]
  {
    SynthesisSymmetry(A, N, symm, trig, n);
    ScaledMirror(Synthesis(A, N, symm, trig), n, N - 1 - n, symm);
  }

  // ---------------------------------------------------------------------
  // What the synthesis reads

  /** The harmonic sums read `A[1..K]` only. */
  lemma {:induction false} HarmonicSumPrefix(A: seq<real>, A': seq<real>, x: real, K: int,
                                              symm: Symmetry, trig: Trig)
    requires 0 <= K < |A| && K < |A'|
    requires forall k :: 0 <= k <= K ==> A[k] == A'[k]
    ensures HarmonicSum(A, x, K, symm, trig) == HarmonicSum(A', x, K, symm, trig)
    decreases K
  {
    if K > 0 {
      HarmonicSumPrefix(A, A', x, K - 1, symm, trig);
    }
  }

  /** The synthesis reads the amplitude samples `A[0..N/2]` and nothing
      beyond, so the rest of the array passed to `FreqSample` may hold
      anything. */
  lemma SynthesisPrefix(A: seq<real>, A': seq<real>, N: int, symm: Symmetry, trig: Trig)
    requires N >= 1 && |A| > N / 2 && |A'| > N / 2
    requires A[..N / 2 + 1] == A'[..N / 2 + 1]
    ensures Synthesis(A, N, symm, trig) == Synthesis(A', N, symm, trig)
  {
    forall k | 0 <= k <= N / 2 ensures A[k] == A'[k] {
      assert A[k] == A[..N / 2 + 1][k] && A'[k] == A'[..N / 2 + 1][k];
    }
    forall n | 0 <= n < N
      ensures Tap(A, N, n, symm, trig) == Tap(A', N, n, symm, trig)
    {
      HarmonicSumPrefix(A, A', Phase(N, n), Harmonics(N), symm, trig);
    }
  }
}
