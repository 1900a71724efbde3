/** `Search` (tdoa-c/lib/firtool/remez.cpp) over arrays, as the source runs
    it: a scan that fills a local buffer `foundExt` of capacity `2r`, a loop
    that deletes one candidate per pass, and a copy into `Ext`. Each part is
    proved against the functions of module ExtremaSearch. */
module Search {
  import opened CArith
  import opened ExtremaSearch

  /** The body of one reduction pass up to the deletion: scan the first `k`
      candidates, tracking alternation in `up` and the smallest `|E|` in
      `l`, stop at the first non-alternating one, then apply the boundary
      trim when all alternate and one candidate is extra. */
  method ChooseVictim(foundExt: array<int>, k: int, extra: int, E: array<real>, gridsize: int,
                      ghost c: seq<int>, ghost Es: seq<real>)
    returns (l: int)
    requires 1 <= k <= foundExt.Length && 0 <= gridsize <= E.Length
    requires c == foundExt[..k] && Es == E[..gridsize] && InRange(c, Es)
    ensures l == Victim(c, Es, extra)
  {
    assert forall m :: 0 <= m < k ==> c[m] == foundExt[m] && 0 <= c[m] < gridsize && Es[c[m]] == E[foundExt[m]];
    var up := E[foundExt[0]] > 0.0;
    l := 0;
    var alt := true;
    var j := 1;
    while j < k
      invariant 1 <= j <= k
      invariant alt
      invariant up == (Es[c[j - 1]] > 0.0)
      invariant forall m :: 1 <= m < j ==> AltAt(c, Es, m)
      invariant l == ArgMinAbs(c, Es, j)
    {
      if Abs(E[foundExt[j]]) < Abs(E[foundExt[l]]) {
        l := j;
      }
      assert l == ArgMinAbs(c, Es, j + 1);
      if up && E[foundExt[j]] < 0.0 {
        up := false;
      } else if !up && E[foundExt[j]] > 0.0 {
        up := true;
      } else {
        alt := false;
        assert BreakFrom(c, Es, 1) == j by { BreakAt(c, Es, 1, j); }
        break;
      }
      j := j + 1;
    }
    assert alt ==> BreakIndex(c, Es) == k by {
      if alt { BreakAt(c, Es, 1, k); }
    }
    if alt && extra == 1 {
      if Abs(E[foundExt[k - 1]]) < Abs(E[foundExt[0]]) {
        l := k - 1;
      } else {
        l := 0;
      }
    }
  }

  /** `BreakFrom` stops at `b` when every step before `b` alternates and `b`
      is the end or a failing step. */
  lemma {:induction false} BreakAt(c: seq<int>, E: seq<real>, j: int, b: int)
    requires InRange(c, E) && 1 <= j <= b <= |c|
    requires forall m :: j <= m < b ==> AltAt(c, E, m)
    requires b < |c| ==> !AltAt(c, E, b)
    ensures BreakFrom(c, E, j) == b
    decreases b - j
  {
    if j < b {
      BreakAt(c, E, j + 1, b);
    }
  }

  /** The deletion loop: shift `foundExt[l+1..k)` one place left. */
  method DeleteAt(foundExt: array<int>, k: int, l: int)
    requires 0 <= l < k <= foundExt.Length
    modifies foundExt
    ensures foundExt[..k - 1] == RemoveAt(old(foundExt[..k]), l)
    ensures foundExt[k - 1..] == old(foundExt[k - 1..])
  {
    var j := l;
    while j < k - 1
      invariant l <= j <= k - 1
      invariant forall m :: 0 <= m < l ==> foundExt[m] == old(foundExt[m])
      invariant forall m :: l <= m < j ==> foundExt[m] == old(foundExt[m + 1])
      invariant forall m :: j <= m < foundExt.Length ==> foundExt[m] == old(foundExt[m])
    {
      foundExt[j] := foundExt[j + 1];
      j := j + 1;
    }
  }

  /** The three scans of the error curve into `foundExt`. `full` reports
      that a candidate was found while the buffer already held `2r`; then
      the scan stops. */
  method ScanExtrema(r: int, gridsize: int, E: array<real>, foundExt: array<int>, ghost Es: seq<real>)
    returns (k: int, full: bool)
    requires r >= 1 && foundExt.Length == 2 * r
    requires 2 <= gridsize <= E.Length && Es == E[..gridsize]
    modifies foundExt
    ensures full <==> |Candidates(Es)| > 2 * r
    ensures !full ==> 0 <= k <= 2 * r && foundExt[..k] == Candidates(Es)
  {
    k := 0;

    // Extremum at 0.
    if (E[0] > 0.0 && E[0] > E[1]) || (E[0] < 0.0 && E[0] < E[1]) {
      foundExt[k] := 0;
      k := k + 1;
    }
    assert foundExt[..k] == CandidatesBelow(Es, 1);

    // Extrema inside the dense grid.
    var i := 1;
    while i < gridsize - 1
      invariant 1 <= i <= gridsize - 1
      invariant 0 <= k <= 2 * r
      invariant foundExt[..k] == CandidatesBelow(Es, i)
    {
      if (E[i] >= E[i - 1] && E[i] > E[i + 1] && E[i] > 0.0) ||
         (E[i] <= E[i - 1] && E[i] < E[i + 1] && E[i] < 0.0) {
        if k >= 2 * r {
          assert |CandidatesBelow(Es, i + 1)| == k + 1;
          CandidatesBelowPrefix(Es, i + 1, gridsize);
          return k, true;
        }
        foundExt[k] := i;
        k := k + 1;
      }
      assert foundExt[..k] == CandidatesBelow(Es, i + 1);
      i := i + 1;
    }

    // Extremum at the last point.
    var j := gridsize - 1;
    if (E[j] > 0.0 && E[j] > E[j - 1]) || (E[j] < 0.0 && E[j] < E[j - 1]) {
      if k >= 2 * r {
        assert Candidates(Es) == foundExt[..k] + [j];
        return k, true;
      }
      foundExt[k] := j;
      k := k + 1;
    }
    assert foundExt[..k] == Candidates(Es);
    full := false;
  }

  /** The reduction loop: one deletion per pass until `r+1` remain. */
  method ReduceExtrema(r: int, foundExt: array<int>, k0: int, gridsize: int, E: array<real>,
                       ghost Es: seq<real>, ghost goal: seq<int>)
    requires r >= 1 && r + 1 <= k0 <= foundExt.Length && 0 <= gridsize <= E.Length
    requires Es == E[..gridsize] && InRange(foundExt[..k0], Es)
    requires goal == Reduce(foundExt[..k0], Es, k0 - (r + 1))
    modifies foundExt
    ensures foundExt[..r + 1] == goal
  {
    ghost var cur := foundExt[..k0];
    var k := k0;
    while k > r + 1
      invariant r + 1 <= k <= foundExt.Length
      invariant cur == foundExt[..k] && InRange(cur, Es)
      invariant Reduce(cur, Es, k - (r + 1)) == goal
      decreases k
    {
      var extra := k - (r + 1);
      var l := ChooseVictim(foundExt, k, extra, E, gridsize, cur, Es);
      StepReduceFacts(cur, Es, extra, l, goal);
      DeleteAt(foundExt, k, l);
      cur := RemoveAt(cur, l);
      k := k - 1;
      assert k - (r + 1) == extra - 1;
    }
  }

  /** One pass of the reduction in terms of the specification: deleting the
      victim leaves a list whose reduction by one pass fewer is unchanged. */
  lemma StepReduceFacts(cur: seq<int>, Es: seq<real>, extra: int, l: int, goal: seq<int>)
    requires InRange(cur, Es) && 0 < extra < |cur| && Reduce(cur, Es, extra) == goal
    requires l == Victim(cur, Es, extra)
    ensures InRange(RemoveAt(cur, l), Es)
    ensures Reduce(RemoveAt(cur, l), Es, extra - 1) == goal
  {
    RemoveAtInRange(cur, Es, l);
    ReduceStep(cur, Es, extra);
  }

  /** The whole search. Returns -3 when a candidate would overflow the
      `2r` buffer, -2 when fewer than `r+1` candidates were found (leaving
      `Ext` as it was in both cases), and otherwise 0 with the reduced set in
      `Ext[0..r]`. */
  method Search(r: int, Ext: array<int>, gridsize: int, E: array<real>) returns (code: int)
    requires r >= 1 && Ext.Length >= r + 1
    requires 2 <= gridsize <= E.Length
    modifies Ext
    ensures var res := SearchOutcome(r, E[..gridsize]);
      code == Code(res) &&
      (res.Found? ==> Ext[..r + 1] == res.ext) &&
      (!res.Found? ==> Ext[..] == old(Ext[..]))
    ensures forall i :: r < i < Ext.Length ==> Ext[i] == old(Ext[i])
  {
    ghost var Es := E[..gridsize];
    ghost var res := SearchOutcome(r, Es);
    var foundExt := new int[2 * r];
    var k, full := ScanExtrema(r, gridsize, E, foundExt, Es);
    if full {
      return -3;
    }
    if k < r + 1 {
      return -2;
    }
    ReduceAndCopy(r, foundExt, k, gridsize, E, Ext, Es);
    assert E[..gridsize] == Es;
    return 0;
  }

  /** The reduction loop followed by the copy into `Ext`, once the scan has
      found between `r+1` and `2r` candidates. */
  method ReduceAndCopy(r: int, foundExt: array<int>, k: int, gridsize: int, E: array<real>,
                       Ext: array<int>, ghost Es: seq<real>)
    requires r >= 1 && r + 1 <= k <= foundExt.Length && Ext.Length >= r + 1 && foundExt != Ext
    requires 2 <= gridsize <= E.Length && Es == E[..gridsize]
    requires foundExt[..k] == Candidates(Es)
    modifies foundExt, Ext
    ensures Ext[..r + 1] == FoundSet(r, Es)
    ensures forall i :: r < i < Ext.Length ==> Ext[i] == old(Ext[i])
  {
    ReduceExtrema(r, foundExt, k, gridsize, E, Es, FoundSet(r, Es));
    CopyExtrema(foundExt, Ext, r + 1);
  }

  /** The copy loop: `Ext[0..n)` takes `foundExt[0..n)`. */
  method CopyExtrema(foundExt: array<int>, Ext: array<int>, n: int)
    requires 0 <= n <= foundExt.Length && n <= Ext.Length && foundExt != Ext
    modifies Ext
    ensures Ext[..n] == foundExt[..n]
    ensures forall i :: n <= i < Ext.Length ==> Ext[i] == old(Ext[i])
  {
    var i := 0;
    while i < n
      invariant 0 <= i <= n
      invariant forall m :: 0 <= m < i ==> Ext[m] == foundExt[m]
      invariant forall m :: n <= m < Ext.Length ==> Ext[m] == old(Ext[m])
    {
      Ext[i] := foundExt[i];
      i := i + 1;
    }
    assert Ext[..n] == foundExt[..n];
  }
}
