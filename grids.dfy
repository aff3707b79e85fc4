/**
 * Rectangular boards as JavaScript's arrays of rows (`T[][]`), as values and
 * as in-place grids.
 */
module Grids {

  /** A value with `m` rows of `n` cells each. */
  predicate IsGrid<T>(g: seq<seq<T>>, m: nat, n: nat)
  {
    |g| == m && forall r :: 0 <= r < m ==> |g[r]| == n
  }

  /** The distance between two coordinates on one axis: `Math.abs(x)`. */
  function Abs(x: int): (r: nat)
    ensures r == x || r == -x
  {
    if x < 0 then -x else x
  }

  /** The current contents of an in-place grid, row by row. */
  function Snapshot<T>(a: array2<T>): (g: seq<seq<T>>)
    reads a
    ensures IsGrid(g, a.Length0, a.Length1)
    ensures forall r, c :: 0 <= r < a.Length0 && 0 <= c < a.Length1 ==> g[r][c] == a[r, c]
  {
    seq(a.Length0, r requires 0 <= r < a.Length0 reads a =>
      seq(a.Length1, c requires 0 <= c < a.Length1 reads a => a[r, c]))
  }

  /** The grid with cell (r, c) set to `v`: `g[r][c] = v` on a copy. */
  function Update<T>(g: seq<seq<T>>, r: nat, c: nat, v: T): (h: seq<seq<T>>)
    requires r < |g| && c < |g[r]|
    ensures |h| == |g| && forall i :: 0 <= i < |g| ==> |h[i]| == |g[i]|
    ensures h[r][c] == v
    ensures forall i, j :: 0 <= i < |g| && 0 <= j < |g[i]| && (i != r || j != c) ==> h[i][j] == g[i][j]
  {
    g[r := g[r][c := v]]
  }

  /** Grids of the same shape are equal when they agree cell by cell. */
  lemma Equal<T>(g: seq<seq<T>>, h: seq<seq<T>>, m: nat, n: nat)
    requires IsGrid(g, m, n) && IsGrid(h, m, n)
    requires forall r, c :: 0 <= r < m && 0 <= c < n ==> g[r][c] == h[r][c]
    ensures g == h
  {
    forall r | 0 <= r < m
      ensures g[r] == h[r]
    {
      assert forall c :: 0 <= c < n ==> g[r][c] == h[r][c];
    }
  }

  /** The assignment `a[r][c] = v` on an in-place grid. */
  method Write<T>(a: array2<T>, r: nat, c: nat, v: T)
    requires r < a.Length0 && c < a.Length1
    modifies a
    ensures Snapshot(a) == Update(old(Snapshot(a)), r, c, v)
  {
    a[r, c] := v;
    Equal(Snapshot(a), Update(old(Snapshot(a)), r, c, v), a.Length0, a.Length1);
  }
}
