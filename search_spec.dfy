/** The meaning of `Search` (tdoa-c/lib/firtool/remez.cpp): which grid points
    are extremal candidates, which candidate one pass of the reduction loop
    deletes, and what the whole search returns. The methods that run it over
    arrays are in module Search. */
module ExtremaSearch {
  import opened CArith

  /** The scan rules: point 0 and the last point are compared with their one
      neighbour, an interior point with both (non-strictly on the left). */
  predicate IsCandidate(E: seq<real>, i: int)
    requires |E| >= 2 && 0 <= i < |E|
  {
    if i == 0 then
      (E[0] > 0.0 && E[0] > E[1]) || (E[0] < 0.0 && E[0] < E[1])
    else if i == |E| - 1 then
      (E[i] > 0.0 && E[i] > E[i - 1]) || (E[i] < 0.0 && E[i] < E[i - 1])
    else
      (E[i] >= E[i - 1] && E[i] > E[i + 1] && E[i] > 0.0) ||
      (E[i] <= E[i - 1] && E[i] < E[i + 1] && E[i] < 0.0)
  }

  predicate StrictlyIncreasing(s: seq<int>)
  {
    forall i, j :: 0 <= i < j < |s| ==> s[i] < s[j]
  }

  /** Every entry of `c` is an index of `E`. */
  predicate InRange(c: seq<int>, E: seq<real>)
  {
    forall i :: 0 <= i < |c| ==> 0 <= c[i] < |E|
  }

  /** The candidates among the first `n` grid points, in scan order. */
  function CandidatesBelow(E: seq<real>, n: int): (c: seq<int>)
    requires |E| >= 2 && 0 <= n <= |E|
    ensures |c| <= n
    ensures forall i :: 0 <= i < |c| ==> 0 <= c[i] < n
    decreases n
  {
    if n == 0 then []
    else
      var c := CandidatesBelow(E, n - 1);
      if IsCandidate(E, n - 1) then c + [n - 1] else c
  }

  /** Soundness of the scan: it reports only points that pass their rule,
      in increasing order. */
  lemma {:induction false} CandidatesSound(E: seq<real>, n: int)
    requires |E| >= 2 && 0 <= n <= |E|
    ensures forall i :: 0 <= i < |CandidatesBelow(E, n)| ==> IsCandidate(E, CandidatesBelow(E, n)[i])
    ensures StrictlyIncreasing(CandidatesBelow(E, n))
    decreases n
  {
    if n > 0 {
      CandidatesSound(E, n - 1);
    }
  }

  /** All candidates of the error curve. */
  function Candidates(E: seq<real>): seq<int>
    requires |E| >= 2
  {
    CandidatesBelow(E, |E|)
  }

  /** No candidate is missed: every grid point that passes its rule is in
      the scan's output. */
  lemma {:induction false} CandidatesComplete(E: seq<real>, n: int, x: int)
    requires |E| >= 2 && 0 <= x < n <= |E| && IsCandidate(E, x)
    ensures x in CandidatesBelow(E, n)
    decreases n
  {
    if x < n - 1 {
      CandidatesComplete(E, n - 1, x);
    }
  }

  /** Scanning further never loses a candidate already found. */
  lemma {:induction false} CandidatesBelowPrefix(E: seq<real>, n: int, m: int)
    requires |E| >= 2 && 0 <= n <= m <= |E|
    ensures CandidatesBelow(E, n) <= CandidatesBelow(E, m)
    decreases m - n
  {
    if n < m {
      CandidatesBelowPrefix(E, n, m - 1);
    }
  }

  /** A candidate never sits where the error is zero. */
  lemma CandidatesNonzero(E: seq<real>)
    requires |E| >= 2
    ensures forall i :: 0 <= i < |Candidates(E)| ==> E[Candidates(E)[i]] != 0.0
  {
    CandidatesSound(E, |E|);
    forall i | 0 <= i < |Candidates(E)|
      ensures E[Candidates(E)[i]] != 0.0
    {
      assert Candidates(E)[i] in Candidates(E);
    }
  }

  // ---------------------------------------------------------------------
  // One pass of the reduction loop

  /** The step from one candidate to the next that the loop accepts: with
      `up` standing for "the previous one was positive", a positive one must
      be followed by a negative one and any other by a positive one. */
  predicate AltStep(prev: real, cur: real)
  {
    (prev > 0.0 && cur < 0.0) || (!(prev > 0.0) && cur > 0.0)
  }

  /** Candidate `m` alternates in sign with candidate `m-1`. */
  predicate AltAt(c: seq<int>, E: seq<real>, m: int)
    requires InRange(c, E) && 1 <= m < |c|
  {
    AltStep(E[c[m - 1]], E[c[m]])
  }

  /** All consecutive candidates of `c` alternate in sign. */
  predicate Alternating(c: seq<int>, E: seq<real>)
    requires InRange(c, E)
  {
    forall m :: 1 <= m < |c| ==> AltAt(c, E, m)
  }

  /** The first position at or after `j` where alternation fails, or `|c|`. */
  function BreakFrom(c: seq<int>, E: seq<real>, j: int): (b: int)
    requires InRange(c, E) && 1 <= j <= |c|
    ensures j <= b <= |c|
    decreases |c| - j
  {
    if j == |c| then |c|
    else if !AltAt(c, E, j) then j
    else BreakFrom(c, E, j + 1)
  }

  /** Where the scan of the candidate list stops: the first non-alternating
      position, or `|c|` when the whole list alternates. */
  function BreakIndex(c: seq<int>, E: seq<real>): (b: int)
    requires InRange(c, E) && |c| >= 1
    ensures 1 <= b <= |c|
  {
    BreakFrom(c, E, 1)
  }

  /** The scan from `j` passes every alternating step and stops at the first
      failing one. */
  lemma {:induction false} BreakFromSpec(c: seq<int>, E: seq<real>, j: int)
    requires InRange(c, E) && 1 <= j <= |c|
    ensures forall m :: j <= m < BreakFrom(c, E, j) ==> AltAt(c, E, m)
    ensures BreakFrom(c, E, j) < |c| ==> !AltAt(c, E, BreakFrom(c, E, j))
    decreases |c| - j
  {
    if j < |c| && AltAt(c, E, j) {
      BreakFromSpec(c, E, j + 1);
    }
  }

  /** The scan runs to the end exactly when the candidates alternate; it
      stops at a position where they do not. */
  lemma BreakIndexSpec(c: seq<int>, E: seq<real>)
    requires InRange(c, E) && |c| >= 1
    ensures (BreakIndex(c, E) == |c|) == Alternating(c, E)
    ensures BreakIndex(c, E) < |c| ==>
      !AltAt(c, E, BreakIndex(c, E)) &&
      forall m :: 1 <= m < BreakIndex(c, E) ==> AltAt(c, E, m)
  {
    BreakFromSpec(c, E, 1);
  }

  /** The magnitude `fabs(E[c[m]])` of the error at candidate `m`. */
  function Mag(c: seq<int>, E: seq<real>, m: int): real
    requires InRange(c, E) && 0 <= m < |c|
  {
    Abs(E[c[m]])
  }

  /** The position of the smallest `|E|` among the first `n` candidates; the
      earliest one on a tie, since the scan replaces only on a strict `<`. */
  function ArgMinAbs(c: seq<int>, E: seq<real>, n: int): (v: int)
    requires InRange(c, E) && 1 <= n <= |c|
    ensures 0 <= v < n
    decreases n
  {
    if n == 1 then 0
    else
      var v := ArgMinAbs(c, E, n - 1);
      if Mag(c, E, n - 1) < Mag(c, E, v) then n - 1 else v
  }

  /** `ArgMinAbs` finds a minimum, and the first of the minima. */
  lemma {:induction false} ArgMinAbsSpec(c: seq<int>, E: seq<real>, n: int)
    requires InRange(c, E) && 1 <= n <= |c|
    ensures forall m :: 0 <= m < n ==> Mag(c, E, ArgMinAbs(c, E, n)) <= Mag(c, E, m)
    ensures forall m :: 0 <= m < ArgMinAbs(c, E, n) ==> Mag(c, E, ArgMinAbs(c, E, n)) < Mag(c, E, m)
    decreases n
  {
    if n > 1 {
      ArgMinAbsSpec(c, E, n - 1);
    }
  }

  /** The position one pass deletes, computed as the source does. */
  function Victim(c: seq<int>, E: seq<real>, extra: int): (v: int)
    requires InRange(c, E) && |c| >= 1
    ensures 0 <= v < |c|
  {
    var b := BreakIndex(c, E);
    if b == |c| && extra == 1 then
      (if Mag(c, E, |c| - 1) < Mag(c, E, 0) then |c| - 1 else 0)
    else
      ArgMinAbs(c, E, if b < |c| then b + 1 else |c|)
  }

  /** The tie-break of one pass. When alternation breaks at `b`, the deleted
      candidate has the smallest `|E|` among positions `0..b` (not merely of
      the non-alternating pair), the first of them on a tie. When all alternate and one candidate is
      extra, it is the smaller of the first and the last, the first on a tie.
      When all alternate and more are extra, it has the smallest `|E|`
      overall, again the first on a tie. */
  lemma VictimTieBreak(c: seq<int>, E: seq<real>, extra: int)
    requires InRange(c, E) && |c| >= 1
    ensures var v, b := Victim(c, E, extra), BreakIndex(c, E);
      (b < |c| ==> v <= b && forall m :: 0 <= m <= b ==> Mag(c, E, v) <= Mag(c, E, m)) &&
      (b < |c| ==> forall m :: 0 <= m < v ==> Mag(c, E, v) < Mag(c, E, m)) &&
      (Alternating(c, E) && extra == 1 ==>
        (v == 0 || v == |c| - 1) &&
        Mag(c, E, v) <= Mag(c, E, 0) && Mag(c, E, v) <= Mag(c, E, |c| - 1) &&
        (v != 0 ==> Mag(c, E, v) < Mag(c, E, 0))) &&
      (Alternating(c, E) && extra != 1 ==>
        (forall m :: 0 <= m < |c| ==> Mag(c, E, v) <= Mag(c, E, m)) &&
        (forall m :: 0 <= m < v ==> Mag(c, E, v) < Mag(c, E, m)))
  {
    BreakIndexSpec(c, E);
    var b := BreakIndex(c, E);
    ArgMinAbsSpec(c, E, if b < |c| then b + 1 else |c|);
  }

  /** `c` with position `v` deleted and the rest shifted left. */
  function RemoveAt(c: seq<int>, v: int): (d: seq<int>)
    requires 0 <= v < |c|
    ensures |d| == |c| - 1
  {
    c[..v] + c[v + 1..]
  }

  lemma RemoveAtInRange(c: seq<int>, E: seq<real>, v: int)
    requires InRange(c, E) && 0 <= v < |c|
    ensures InRange(RemoveAt(c, v), E)
  {
    var d := RemoveAt(c, v);
    forall i | 0 <= i < |d| ensures 0 <= d[i] < |E| {
      if i < v { assert d[i] == c[i]; } else { assert d[i] == c[i + 1]; }
    }
  }

  /** `a` is `b` with some entries left out, the others kept in order. */
  predicate IsSubseq(a: seq<int>, b: seq<int>)
    decreases |b|
  {
    |a| <= |b| &&
    (a == [] || (a[0] == b[0] && IsSubseq(a[1..], b[1..])) || IsSubseq(a, b[1..]))
  }

  lemma {:induction false} RemoveAtSubseq(c: seq<int>, v: int)
    requires 0 <= v < |c|
    ensures IsSubseq(RemoveAt(c, v), c)
    decreases |c|
  {
    var d := RemoveAt(c, v);
    if v == 0 {
      assert d == c[1..];
      SubseqRefl(c[1..]);
    } else {
      RemoveAtSubseq(c[1..], v - 1);
      assert RemoveAt(c[1..], v - 1) == d[1..];
    }
  }

  lemma {:induction false} SubseqRefl(a: seq<int>)
    ensures IsSubseq(a, a)
    decreases |a|
  {
    if a != [] {
      SubseqRefl(a[1..]);
    }
  }

  lemma {:induction false} SubseqTrans(a: seq<int>, b: seq<int>, c: seq<int>)
    requires IsSubseq(a, b) && IsSubseq(b, c)
    ensures IsSubseq(a, c)
    decreases |c|
  {
    if a == [] {
    } else if IsSubseq(b, c[1..]) {
      SubseqTrans(a, b, c[1..]);
    } else if a[0] == b[0] && IsSubseq(a[1..], b[1..]) {
      SubseqTrans(a[1..], b[1..], c[1..]);
    } else {
      SubseqTrans(a, b[1..], c[1..]);
    }
  }

  /** A subsequence takes its entries from the original. */
  lemma {:induction false} SubseqElements(a: seq<int>, b: seq<int>)
    requires IsSubseq(a, b)
    ensures forall x :: x in a ==> x in b
    decreases |b|
  {
    if a == [] {
    } else if a[0] == b[0] && IsSubseq(a[1..], b[1..]) {
      SubseqElements(a[1..], b[1..]);
      assert a == [a[0]] + a[1..];
      assert b == [b[0]] + b[1..];
    } else {
      SubseqElements(a, b[1..]);
      assert b == [b[0]] + b[1..];
    }
  }

  /** A subsequence of a strictly increasing sequence is strictly increasing. */
  lemma {:induction false} SubseqIncreasing(a: seq<int>, b: seq<int>)
    requires IsSubseq(a, b) && StrictlyIncreasing(b)
    ensures StrictlyIncreasing(a)
    decreases |b|
  {
    if a == [] {
    } else if a[0] == b[0] && IsSubseq(a[1..], b[1..]) {
      SubseqIncreasing(a[1..], b[1..]);
      SubseqElements(a[1..], b[1..]);
      forall i, j | 0 <= i < j < |a| ensures a[i] < a[j] {
        if i == 0 {
          assert a[j] == a[1..][j - 1];
          assert a[j] in b[1..];
        } else {
          assert a[i] == a[1..][i - 1] && a[j] == a[1..][j - 1];
        }
      }
    } else {
      SubseqIncreasing(a, b[1..]);
    }
  }

  /** The reduction loop: `extra` passes, each deleting its victim. */
  function Reduce(c: seq<int>, E: seq<real>, extra: int): (d: seq<int>)
    requires InRange(c, E) && 0 <= extra < |c|
    ensures |d| == |c| - extra
    ensures InRange(d, E)
    decreases extra, 1
  {
    if extra == 0 then c else ReducePass(c, E, extra)
  }

  /** A pass of the reduction loop that deletes its victim, then the passes
      that remain. */
  function ReducePass(c: seq<int>, E: seq<real>, extra: int): (d: seq<int>)
    requires InRange(c, E) && 0 < extra < |c|
    ensures |d| == |c| - extra
    ensures InRange(d, E)
    decreases extra, 0
  {
    Reduce(RemoveAt(c, Victim(c, E, extra)), E, extra - 1)
  }

  /** One pass of the reduction loop. */
  lemma ReduceStep(c: seq<int>, E: seq<real>, extra: int)
    requires InRange(c, E) && 0 < extra < |c|
    ensures Reduce(c, E, extra) == Reduce(RemoveAt(c, Victim(c, E, extra)), E, extra - 1)
  {
    assert Reduce(c, E, extra) == ReducePass(c, E, extra);
  }

  /** What the reduction keeps is a subsequence of what it started from. */
  lemma {:induction false} ReduceSubseq(c: seq<int>, E: seq<real>, extra: int)
    requires InRange(c, E) && 0 <= extra < |c|
    ensures IsSubseq(Reduce(c, E, extra), c)
    decreases extra
  {
    if extra == 0 {
      SubseqRefl(c);
    } else {
      var d := RemoveAt(c, Victim(c, E, extra));
      ReduceStep(c, E, extra);
      ReduceSubseq(d, E, extra - 1);
      RemoveAtSubseq(c, Victim(c, E, extra));
      SubseqTrans(Reduce(d, E, extra - 1), d, c);
    }
  }

  /** When the candidates already alternate and one is extra, trimming the
      smaller end leaves an alternating set. */
  lemma BoundaryTrimKeepsAlternation(c: seq<int>, E: seq<real>)
    requires InRange(c, E) && |c| >= 2 && Alternating(c, E)
    ensures Alternating(Reduce(c, E, 1), E)
  {
    BreakIndexSpec(c, E);
    var v := Victim(c, E, 1);
    assert v == 0 || v == |c| - 1;
    var d := RemoveAt(c, v);
    RemoveAtInRange(c, E, v);
    ReduceStep(c, E, 1);
    assert Reduce(c, E, 1) == d;
    forall m | 1 <= m < |d| ensures AltAt(d, E, m) {
      if v == 0 {
        assert d == c[1..];
        assert d[m - 1] == c[m] && d[m] == c[m + 1] && AltAt(c, E, m + 1);
      } else {
        assert d == c[..|c| - 1];
        assert d[m - 1] == c[m - 1] && d[m] == c[m] && AltAt(c, E, m);
      }
    }
  }

  // ---------------------------------------------------------------------
  // The whole search

  /** The outcome of `Search`: its two error returns, or the new extremal set. */
  datatype SearchResult = TooManyExtrema | TooFewExtrema | Found(ext: seq<int>)

  /** The return code of `Search`. */
  function Code(res: SearchResult): int
  {
    match res
    case TooManyExtrema => -3
    case TooFewExtrema => -2
    case Found(_) => 0
  }

  /** `Search` on the error curve `E` for `r+1` extrema: too many candidates
      for the `2r` buffer, too few for `r+1` extrema, or the reduced set. */
  function SearchOutcome(r: int, E: seq<real>): (res: SearchResult)
    requires r >= 1 && |E| >= 2
    ensures res == TooManyExtrema <==> |Candidates(E)| > 2 * r
    ensures res == TooFewExtrema <==> r + 1 > |Candidates(E)|
    ensures res.Found? <==> r + 1 <= |Candidates(E)| <= 2 * r
  {
    var n := |Candidates(E)|;
    if n > 2 * r then TooManyExtrema
    else if n < r + 1 then TooFewExtrema
    else Found(FoundSet(r, E))
  }

  /** The candidate list reduced to `r+1` entries. */
  function FoundSet(r: int, E: seq<real>): seq<int>
    requires r >= 1 && |E| >= 2 && r + 1 <= |Candidates(E)|
  {
    Reduce(Candidates(E), E, |Candidates(E)| - (r + 1))
  }

  /** A successful search yields exactly `r+1` strictly increasing grid
      indices, each a candidate (so with nonzero error), taken in order from
      the scanned candidates. */
  lemma FoundExtremaShape(r: int, E: seq<real>)
    requires r >= 1 && |E| >= 2 && SearchOutcome(r, E).Found?
    ensures var ext := SearchOutcome(r, E).ext;
      |ext| == r + 1 &&
      StrictlyIncreasing(ext) &&
      IsSubseq(ext, Candidates(E)) &&
      forall i :: 0 <= i < |ext| ==>
        0 <= ext[i] < |E| && IsCandidate(E, ext[i]) && E[ext[i]] != 0.0
  {
    var c := Candidates(E);
    var ext := SearchOutcome(r, E).ext;
    CandidatesSound(E, |E|);
    ReduceSubseq(c, E, |c| - (r + 1));
    SubseqIncreasing(ext, c);
    SubseqElements(ext, c);
    forall i | 0 <= i < |ext|
      ensures 0 <= ext[i] < |E| && IsCandidate(E, ext[i]) && E[ext[i]] != 0.0
    {
      assert ext[i] in ext;
    }
  }
}
