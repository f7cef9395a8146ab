/** Two-dimensional grids stored row by row, and the whole-grid reductions
    (sums and counts of true cells) that the classifier applies to them.
    A grid here plays the part of an H×W numpy array. */
module Grids {

  /** Row `y`, column `x` of a grid `g` is `g[y][x]`. */
  type Grid<T> = seq<seq<T>>

  /** `g` has exactly `h` rows of exactly `w` cells each. */
  predicate IsShape<T>(g: Grid<T>, h: nat, w: nat)
  {
    |g| == h && forall y :: 0 <= y < h ==> |g[y]| == w
  }

  /** The number of columns: the length of the first row (0 when there are no rows). */
  function Width<T>(g: Grid<T>): nat
  {
    if |g| == 0 then 0 else |g[0]|
  }

  /** A grid with at least one row and one column has at least one cell. */
  lemma PositiveArea(h: nat, w: nat)
    requires 1 <= h && 1 <= w
    ensures 1 <= h * w
  {
    assert h * w == (h - 1) * w + w;
  }

  /** Every row has the same length, as in a two-dimensional array. */
  predicate Rectangular<T>(g: Grid<T>)
  {
    IsShape(g, |g|, Width(g))
  }

  /** `a` and `b` have the same rows of the same lengths. */
  predicate SameShape<T, U>(a: Grid<T>, b: Grid<U>)
  {
    |a| == |b| && forall y :: 0 <= y < |a| ==> |a[y]| == |b[y]|
  }

  /** Every cell set in mask `a` is set in mask `b`. */
  predicate SubMask(a: Grid<bool>, b: Grid<bool>)
  {
    SameShape(a, b) &&
    forall y, x :: 0 <= y < |a| && 0 <= x < |a[y]| && a[y][x] ==> b[y][x]
  }

  // ---------------------------------------------------------------------------
  // Sums

  function RowSum(s: seq<real>): real
  {
    if |s| == 0 then 0.0 else s[0] + RowSum(s[1..])
  }

  /** The sum of all cells, row after row (numpy's `.sum()` over both axes). */
  function GridSum(g: Grid<real>): real
  {
    if |g| == 0 then 0.0 else RowSum(g[0]) + GridSum(g[1..])
  }

  lemma {:induction false} RowSumAtLeast(s: seq<real>, lo: real)
    requires forall i :: 0 <= i < |s| ==> lo <= s[i]
    ensures |s| as real * lo <= RowSum(s)
  {
    if |s| > 0 {
      RowSumAtLeast(s[1..], lo);
      assert |s| as real * lo == lo + (|s| - 1) as real * lo;
    }
  }

  lemma {:induction false} RowSumAtMost(s: seq<real>, hi: real)
    requires forall i :: 0 <= i < |s| ==> s[i] <= hi
    ensures RowSum(s) <= |s| as real * hi
  {
    if |s| > 0 {
      RowSumAtMost(s[1..], hi);
      assert |s| as real * hi == hi + (|s| - 1) as real * hi;
    }
  }

  /** A grid of `h*w` cells, each at least `lo`, sums to at least `h*w*lo`. */
  lemma {:induction false} GridSumAtLeast(g: Grid<real>, h: nat, w: nat, lo: real)
    requires IsShape(g, h, w)
    requires forall y, x :: 0 <= y < h && 0 <= x < w ==> lo <= g[y][x]
    ensures (h * w) as real * lo <= GridSum(g)
  {
    if h > 0 {
      RowSumAtLeast(g[0], lo);
      GridSumAtLeast(g[1..], h - 1, w, lo);
      assert (h * w) as real * lo == w as real * lo + ((h - 1) * w) as real * lo by {
        assert h * w == w + (h - 1) * w;
      }
    }
  }

  /** A grid of `h*w` cells, each at most `hi`, sums to at most `h*w*hi`. */
  lemma {:induction false} GridSumAtMost(g: Grid<real>, h: nat, w: nat, hi: real)
    requires IsShape(g, h, w)
    requires forall y, x :: 0 <= y < h && 0 <= x < w ==> g[y][x] <= hi
    ensures GridSum(g) <= (h * w) as real * hi
  {
    if h > 0 {
      RowSumAtMost(g[0], hi);
      GridSumAtMost(g[1..], h - 1, w, hi);
      assert (h * w) as real * hi == w as real * hi + ((h - 1) * w) as real * hi by {
        assert h * w == w + (h - 1) * w;
      }
    }
  }

  // ---------------------------------------------------------------------------
  // Counts of true cells

  /** The number of true cells of a row. */
  function RowCount(s: seq<bool>): (n: nat)
    ensures n <= |s|
    ensures n == 0 <==> forall i :: 0 <= i < |s| ==> !s[i]
    ensures n == |s| <==> forall i :: 0 <= i < |s| ==> s[i]
  {
    if |s| == 0 then 0
    else
      var rest := RowCount(s[1..]);
      assert forall i :: 1 <= i < |s| ==> s[i] == s[1..][i - 1];
      (if s[0] then 1 else 0) + rest
  }

  /** The number of true cells of a mask (numpy's `mask.sum()`). */
  function GridCount(m: Grid<bool>): (n: nat)
    ensures n == 0 <==> forall y, x :: 0 <= y < |m| && 0 <= x < |m[y]| ==> !m[y][x]
  {
    if |m| == 0 then 0
    else
      var rest := GridCount(m[1..]);
      assert forall y :: 1 <= y < |m| ==> m[y] == m[1..][y - 1];
      RowCount(m[0]) + rest
  }

  lemma NextRowArea(h: nat, w: nat)
    requires 1 <= h
    ensures (h - 1) * w + w == h * w
  {
  }

  /** An `h`×`w` mask has at most `h*w` true cells. */
  lemma {:induction false} GridCountBound(m: Grid<bool>, h: nat, w: nat)
    requires IsShape(m, h, w)
    ensures GridCount(m) <= h * w
  {
    if h > 0 {
      GridCountBound(m[1..], h - 1, w);
      NextRowArea(h, w);
    }
  }

  lemma {:induction false} RowCountMonotone(a: seq<bool>, b: seq<bool>)
    requires |a| == |b|
    requires forall i :: 0 <= i < |a| && a[i] ==> b[i]
    ensures RowCount(a) <= RowCount(b)
  {
    if |a| > 0 {
      RowCountMonotone(a[1..], b[1..]);
    }
  }

  /** Shrinking a mask never increases its count. */
  lemma {:induction false} GridCountMonotone(a: Grid<bool>, b: Grid<bool>)
    requires SubMask(a, b)
    ensures GridCount(a) <= GridCount(b)
  {
    if |a| > 0 {
      RowCountMonotone(a[0], b[0]);
      assert SubMask(a[1..], b[1..]) by {
        forall y, x | 0 <= y < |a[1..]| && 0 <= x < |a[1..][y]| && a[1..][y][x]
          ensures b[1..][y][x]
        {
          assert a[1..][y] == a[y + 1] && b[1..][y] == b[y + 1];
        }
      }
      GridCountMonotone(a[1..], b[1..]);
    }
  }

  lemma {:induction false} RowCountSplit(a: seq<bool>, b: seq<bool>, c: seq<bool>)
    requires |a| == |b| == |c|
    requires forall i :: 0 <= i < |a| ==> (a[i] <==> b[i] || c[i]) && !(b[i] && c[i])
    ensures RowCount(a) == RowCount(b) + RowCount(c)
  {
    if |a| > 0 {
      RowCountSplit(a[1..], b[1..], c[1..]);
    }
  }

  /** When every cell of `a` is set in exactly one of `b` and `c`, the counts add up. */
  lemma {:induction false} GridCountSplit(a: Grid<bool>, b: Grid<bool>, c: Grid<bool>)
    requires SameShape(a, b) && SameShape(a, c)
    requires forall y, x :: 0 <= y < |a| && 0 <= x < |a[y]| ==>
               (a[y][x] <==> b[y][x] || c[y][x]) && !(b[y][x] && c[y][x])
    ensures GridCount(a) == GridCount(b) + GridCount(c)
  {
    if |a| > 0 {
      RowCountSplit(a[0], b[0], c[0]);
      forall y, x | 0 <= y < |a[1..]| && 0 <= x < |a[1..][y]|
        ensures (a[1..][y][x] <==> b[1..][y][x] || c[1..][y][x]) && !(b[1..][y][x] && c[1..][y][x])
      {
        assert a[1..][y] == a[y + 1] && b[1..][y] == b[y + 1] && c[1..][y] == c[y + 1];
      }
      GridCountSplit(a[1..], b[1..], c[1..]);
    }
  }
}
