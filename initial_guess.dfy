/** `InitialGuess` (tdoa-c/lib/firtool/remez.cpp): the first set of extremal
    indices, spread evenly over the dense grid. */
module InitialGuess {
  import opened CArith

  /** The index the source writes to `Ext[i]`: `i * (gridsize-1) / r` in C
      integer arithmetic. */
  function GuessIndex(i: int, r: int, gridsize: int): int
    requires r >= 1
  {
    CDiv(i * (gridsize - 1), r)
  }

  /** Writes `Ext[0..r]`; the rest of the array is left alone. */
  method InitialGuess(r: int, Ext: array<int>, gridsize: int)
    requires r >= 1 && Ext.Length >= r + 1
    modifies Ext
    ensures forall i :: 0 <= i <= r ==> Ext[i] == GuessIndex(i, r, gridsize)
    ensures forall i :: r < i < Ext.Length ==> Ext[i] == old(Ext[i])
  {
    var i := 0;
    while i <= r
      invariant 0 <= i <= r + 1
      invariant forall m :: 0 <= m < i ==> Ext[m] == GuessIndex(m, r, gridsize)
      invariant forall m :: r < m < Ext.Length ==> Ext[m] == old(Ext[m])
    {
      Ext[i] := CDiv(i * (gridsize - 1), r);
      i := i + 1;
    }
  }

  lemma MulMonotone(i: int, j: int, x: int)
    requires 0 <= i <= j && x >= 0
    ensures 0 <= i * x <= j * x
  {
    assert j * x == i * x + (j - i) * x;
  }

  lemma DivMonotone(a: int, b: int, r: int)
    requires 0 <= a <= b && r >= 1
    ensures a / r <= b / r
  {
    DivBounds(a, r);
    DivBounds(b, r);
    if a / r > b / r {
      assert (a / r) * r >= (b / r) * r + r by {
        assert (a / r) * r == (b / r) * r + (a / r - b / r) * r;
        MulMonotone(1, a / r - b / r, r);
      }
    }
  }

  lemma DivShift(a: int, r: int)
    requires a >= 0 && r >= 1
    ensures (a + r) / r == a / r + 1
  {
    DivBounds(a, r);
    DivBounds(a + r, r);
    var q, q' := a / r, (a + r) / r;
    if q' > q + 1 {
      assert q' * r == (q + 1) * r + (q' - q - 1) * r;
      MulMonotone(1, q' - q - 1, r);
    } else if q' < q + 1 {
      assert (q + 1) * r == q' * r + (q + 1 - q') * r;
      MulMonotone(1, q + 1 - q', r);
    }
  }

  lemma DivExact(x: int, r: int)
    requires x >= 0 && r >= 1
    ensures (r * x) / r == x
  {
    DivBounds(r * x, r);
    var q := (r * x) / r;
    if q > x {
      assert q * r == x * r + (q - x) * r;
      MulMonotone(1, q - x, r);
    } else if q < x {
      assert x * r == q * r + (x - q) * r;
      MulMonotone(1, x - q, r);
    }
  }

  /** The first guess is index 0 and the last is the final grid point. */
  lemma GuessEndpoints(r: int, gridsize: int)
    requires r >= 1 && gridsize >= 1
    ensures GuessIndex(0, r, gridsize) == 0
    ensures GuessIndex(r, r, gridsize) == gridsize - 1
  {
    DivExact(gridsize - 1, r);
  }

  /** The guesses never decrease along `Ext`. */
  lemma GuessMonotone(i: int, j: int, r: int, gridsize: int)
    requires r >= 1 && gridsize >= 1 && 0 <= i <= j
    ensures GuessIndex(i, r, gridsize) <= GuessIndex(j, r, gridsize)
  {
    MulMonotone(i, j, gridsize - 1);
    DivMonotone(i * (gridsize - 1), j * (gridsize - 1), r);
  }

  /** Every guess is an index of the dense grid. */
  lemma GuessInGrid(i: int, r: int, gridsize: int)
    requires r >= 1 && gridsize >= 1 && 0 <= i <= r
    ensures 0 <= GuessIndex(i, r, gridsize) <= gridsize - 1
  {
    MulMonotone(0, i, gridsize - 1);
    GuessMonotone(i, r, r, gridsize);
    GuessEndpoints(r, gridsize);
  }

  /** With at least `r+1` grid points the guesses are pairwise distinct,
      increasing strictly. */
  lemma GuessStrict(i: int, j: int, r: int, gridsize: int)
    requires r >= 1 && gridsize - 1 >= r && 0 <= i < j
    ensures GuessIndex(i, r, gridsize) < GuessIndex(j, r, gridsize)
  {
    var a := i * (gridsize - 1);
    MulMonotone(0, i, gridsize - 1);
    assert (i + 1) * (gridsize - 1) == a + (gridsize - 1);
    DivMonotone(a + r, a + (gridsize - 1), r);
    DivShift(a, r);
    GuessMonotone(i + 1, j, r, gridsize);
  }
}
