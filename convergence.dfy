/** `isDone` (tdoa-c/lib/firtool/remez.cpp): the convergence test of the
    exchange loop, on the spread of the error magnitudes at the extremal
    indices. */
module Convergence {
  import opened CArith
  import opened RemezTypes

  /** Every extremal index is an index of the error curve. */
  predicate IndicesIn(ext: seq<int>, E: seq<real>)
  {
    forall i :: 0 <= i < |ext| ==> 0 <= ext[i] < |E|
  }

  /** The magnitude `fabs(E[Ext[i]])`. */
  function MagAt(E: seq<real>, ext: seq<int>, i: int): real
    requires IndicesIn(ext, E) && 0 <= i < |ext|
  {
    Abs(E[ext[i]])
  }

  /** The running minimum over the first `n` extremal magnitudes, updated
      on a strict `<` as the loop does. */
  function MinMag(E: seq<real>, ext: seq<int>, n: int): real
    requires IndicesIn(ext, E) && 1 <= n <= |ext|
    decreases n
  {
    if n == 1 then MagAt(E, ext, 0)
    else
      var m := MinMag(E, ext, n - 1);
      if MagAt(E, ext, n - 1) < m then MagAt(E, ext, n - 1) else m
  }

  /** The running maximum over the first `n` extremal magnitudes. */
  function MaxMag(E: seq<real>, ext: seq<int>, n: int): real
    requires IndicesIn(ext, E) && 1 <= n <= |ext|
    decreases n
  {
    if n == 1 then MagAt(E, ext, 0)
    else
      var m := MaxMag(E, ext, n - 1);
      if MagAt(E, ext, n - 1) > m then MagAt(E, ext, n - 1) else m
  }

  /** `MinMag` is the least of the magnitudes and is one of them. */
  lemma {:induction false} MinMagSpec(E: seq<real>, ext: seq<int>, n: int)
    requires IndicesIn(ext, E) && 1 <= n <= |ext|
    ensures forall i :: 0 <= i < n ==> MinMag(E, ext, n) <= MagAt(E, ext, i)
    ensures exists i :: 0 <= i < n && MinMag(E, ext, n) == MagAt(E, ext, i)
    decreases n
  {
    if n == 1 {
      assert MinMag(E, ext, n) == MagAt(E, ext, 0);
    } else {
      MinMagSpec(E, ext, n - 1);
      if MagAt(E, ext, n - 1) >= MinMag(E, ext, n - 1) {
        var i :| 0 <= i < n - 1 && MinMag(E, ext, n - 1) == MagAt(E, ext, i);
        assert MinMag(E, ext, n) == MagAt(E, ext, i);
      } else {
        assert MinMag(E, ext, n) == MagAt(E, ext, n - 1);
      }
    }
  }

  /** `MaxMag` is the greatest of the magnitudes and is one of them. */
  lemma {:induction false} MaxMagSpec(E: seq<real>, ext: seq<int>, n: int)
    requires IndicesIn(ext, E) && 1 <= n <= |ext|
    ensures forall i :: 0 <= i < n ==> MagAt(E, ext, i) <= MaxMag(E, ext, n)
    ensures exists i :: 0 <= i < n && MaxMag(E, ext, n) == MagAt(E, ext, i)
    decreases n
  {
    if n == 1 {
      assert MaxMag(E, ext, n) == MagAt(E, ext, 0);
    } else {
      MaxMagSpec(E, ext, n - 1);
      if MagAt(E, ext, n - 1) <= MaxMag(E, ext, n - 1) {
        var i :| 0 <= i < n - 1 && MaxMag(E, ext, n - 1) == MagAt(E, ext, i);
        assert MaxMag(E, ext, n) == MagAt(E, ext, i);
      } else {
        assert MaxMag(E, ext, n) == MagAt(E, ext, n - 1);
      }
    }
  }

  /** The value `isDone` returns for the extremal set `ext`. When every
      magnitude is zero the source divides `0` by `0`; the quotient is not a
      number, the comparison with the tolerance is false, and the result is
      "not converged", which is the first conjunct here. */
  predicate Converged(E: seq<real>, ext: seq<int>)
    requires IndicesIn(ext, E) && |ext| >= 1
  {
    var lo, hi := MinMag(E, ext, |ext|), MaxMag(E, ext, |ext|);
    hi > 0.0 && (hi - lo) / hi < Tolerance
  }

  /** The loop of `isDone` over `Ext[0..r]`. */
  method IsDone(r: int, Ext: array<int>, E: array<real>) returns (done: bool)
    requires 0 <= r < Ext.Length
    requires IndicesIn(Ext[..r + 1], E[..])
    ensures done == Converged(E[..], Ext[..r + 1])
  {
    ghost var ext := Ext[..r + 1];
    var lo := Abs(E[Ext[0]]);
    var hi := lo;
    var i := 1;
    while i <= r
      invariant 1 <= i <= r + 1
      invariant lo == MinMag(E[..], ext, i) && hi == MaxMag(E[..], ext, i)
    {
      var current := Abs(E[Ext[i]]);
      assert current == MagAt(E[..], ext, i);
      if current < lo {
        lo := current;
      }
      if current > hi {
        hi := current;
      }
      i := i + 1;
    }
    done := hi > 0.0 && (hi - lo) / hi < Tolerance;
  }

  /** For a positive divisor, a quotient below `t` is a dividend below `t`
      times the divisor. */
  lemma QuotientBelow(d: real, hi: real, t: real)
    requires hi > 0.0
    ensures d / hi < t <==> d < t * hi
  {
    var q := d / hi;
    assert q * hi == d;
    if q < t {
      assert (t - q) * hi > 0.0;
    } else {
      assert (q - t) * hi >= 0.0;
    }
  }

  /** A converged set lies in a band: every magnitude is within
      `Tolerance * hi` below the largest one `hi`, which is positive. */
  lemma ConvergedBand(E: seq<real>, ext: seq<int>)
    requires IndicesIn(ext, E) && |ext| >= 1 && Converged(E, ext)
    ensures var hi := MaxMag(E, ext, |ext|);
      hi > 0.0 &&
      forall i :: 0 <= i < |ext| ==> hi - Tolerance * hi < MagAt(E, ext, i) <= hi
  {
    var n := |ext|;
    MinMagSpec(E, ext, n);
    MaxMagSpec(E, ext, n);
    QuotientBelow(MaxMag(E, ext, n) - MinMag(E, ext, n), MaxMag(E, ext, n), Tolerance);
  }

  /** Conversely, when some positive magnitude `MagAt(j)` bounds all others
      from above and none lies `Tolerance * MagAt(j)` or more below it, the
      test passes. */
  lemma BandConverged(E: seq<real>, ext: seq<int>, j: int)
    requires IndicesIn(ext, E) && 0 <= j < |ext| && MagAt(E, ext, j) > 0.0
    requires forall i :: 0 <= i < |ext| ==>
      MagAt(E, ext, j) - Tolerance * MagAt(E, ext, j) < MagAt(E, ext, i) <= MagAt(E, ext, j)
    ensures Converged(E, ext)
  {
    var n := |ext|;
    MinMagSpec(E, ext, n);
    MaxMagSpec(E, ext, n);
    var lo, hi := MinMag(E, ext, n), MaxMag(E, ext, n);
    assert MagAt(E, ext, j) == hi;
    var a :| 0 <= a < n && lo == MagAt(E, ext, a);
    QuotientBelow(hi - lo, hi, Tolerance);
  }

  /** Extremal errors of one common nonzero magnitude (the equiripple
      condition) pass the test. */
  lemma {:induction false} EquirippleConverges(E: seq<real>, ext: seq<int>, m: real)
    requires IndicesIn(ext, E) && |ext| >= 1 && m > 0.0
    requires forall i :: 0 <= i < |ext| ==> MagAt(E, ext, i) == m
    ensures Converged(E, ext)
  {
    MinMagSpec(E, ext, |ext|);
    MaxMagSpec(E, ext, |ext|);
  }

  /** An error curve that vanishes at every extremal index never passes. */
  lemma {:induction false} ZeroErrorNotConverged(E: seq<real>, ext: seq<int>)
    requires IndicesIn(ext, E) && |ext| >= 1
    requires forall i :: 0 <= i < |ext| ==> E[ext[i]] == 0.0
    ensures !Converged(E, ext)
  {
    MaxMagSpec(E, ext, |ext|);
    var b :| 0 <= b < |ext| && MaxMag(E, ext, |ext|) == MagAt(E, ext, b);
    assert E[ext[b]] == 0.0;
  }

  /** The test reads the error curve only at the extremal indices. */
  lemma {:induction false} ConvergedLocal(E: seq<real>, E': seq<real>, ext: seq<int>)
    requires IndicesIn(ext, E) && IndicesIn(ext, E') && |ext| >= 1
    requires forall i :: 0 <= i < |ext| ==> E[ext[i]] == E'[ext[i]]
    ensures Converged(E, ext) == Converged(E', ext)
  {
    MagsLocal(E, E', ext, |ext|);
  }

  lemma {:induction false} MagsLocal(E: seq<real>, E': seq<real>, ext: seq<int>, n: int)
    requires IndicesIn(ext, E) && IndicesIn(ext, E') && 1 <= n <= |ext|
    requires forall i :: 0 <= i < |ext| ==> E[ext[i]] == E'[ext[i]]
    ensures MinMag(E, ext, n) == MinMag(E', ext, n) && MaxMag(E, ext, n) == MaxMag(E', ext, n)
    decreases n
  {
    assert MagAt(E, ext, n - 1) == MagAt(E', ext, n - 1);
    if n > 1 {
      MagsLocal(E, E', ext, n - 1);
    }
  }
}
