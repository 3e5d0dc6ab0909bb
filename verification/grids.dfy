/**
  Integer pixel grids: a `Row` of samples, a `Grid` of rows (a single-channel
  image, or one row of a colour image seen as pixels of channels) and a `Cube`
  of rows of pixels of channels. Samples are unbounded integers; the 8-bit
  range of the camera frames is not needed by any property stated here.
 */
module Grids {

  type Row = seq<int>
  type Grid = seq<Row>
  type Cube = seq<Grid>

  function Max(a: int, b: int): (m: int)
    ensures m >= a && m >= b
    ensures m == a || m == b
  {
    if a < b then b else a
  }

  /** `g` has exactly `h` rows of `w` samples. */
  predicate IsRect(g: Grid, h: nat, w: nat) {
    |g| == h && forall i :: 0 <= i < |g| ==> |g[i]| == w
  }

  /** `c` has exactly `h` rows of `w` pixels of `ch` channels. */
  predicate IsCube(c: Cube, h: nat, w: nat, ch: nat) {
    |c| == h && forall i :: 0 <= i < |c| ==> IsRect(c[i], w, ch)
  }

  predicate SameShape2(a: Grid, b: Grid) {
    |a| == |b| && forall i :: 0 <= i < |a| ==> |a[i]| == |b[i]|
  }

  predicate SameShape3(a: Cube, b: Cube) {
    |a| == |b| && forall i :: 0 <= i < |a| ==> SameShape2(a[i], b[i])
  }

  // ---------------------------------------------------------------------
  // All-zero buffers (numpy.zeros)

  function ZeroRow(w: nat): (r: Row)
    ensures |r| == w && forall k :: 0 <= k < w ==> r[k] == 0
  {
    seq(w, _ => 0)
  }

  function ZeroGrid(h: nat, w: nat): (g: Grid)
    ensures IsRect(g, h, w)
    ensures forall i, k :: 0 <= i < h && 0 <= k < w ==> g[i][k] == 0
  {
    seq(h, _ => ZeroRow(w))
  }

  function ZeroCube(h: nat, w: nat, ch: nat): (c: Cube)
    ensures IsCube(c, h, w, ch)
    ensures forall i, j, k :: 0 <= i < h && 0 <= j < w && 0 <= k < ch ==> c[i][j][k] == 0
  {
    seq(h, _ => ZeroGrid(w, ch))
  }

  // ---------------------------------------------------------------------
  // Elementwise maximum (cv2.max) and the pointwise order it is the join of

  predicate Dominates1(a: Row, b: Row) {
    |a| == |b| && forall k :: 0 <= k < |a| ==> a[k] >= b[k]
  }

  predicate Dominates2(a: Grid, b: Grid) {
    |a| == |b| && forall i :: 0 <= i < |a| ==> Dominates1(a[i], b[i])
  }

  predicate Dominates3(a: Cube, b: Cube) {
    |a| == |b| && forall i :: 0 <= i < |a| ==> Dominates2(a[i], b[i])
  }

  function MaxRow(a: Row, b: Row): (r: Row)
    requires |a| == |b|
    ensures |r| == |a|
    ensures forall k :: 0 <= k < |r| ==> r[k] == a[k] || r[k] == b[k]
    ensures Dominates1(r, a) && Dominates1(r, b)
  {
    seq(|a|, k requires 0 <= k < |a| => Max(a[k], b[k]))
  }

  function MaxGrid(a: Grid, b: Grid): (r: Grid)
    requires SameShape2(a, b)
    ensures SameShape2(r, a)
    ensures Dominates2(r, a) && Dominates2(r, b)
    // the least such grid: anything at least both operands is at least their maximum
    ensures forall u :: Dominates2(u, a) && Dominates2(u, b) ==> Dominates2(u, r)
  {
    seq(|a|, i requires 0 <= i < |a| => MaxRow(a[i], b[i]))
  }

  function MaxCube(a: Cube, b: Cube): (r: Cube)
    requires SameShape3(a, b)
    ensures SameShape3(r, a)
    ensures Dominates3(r, a) && Dominates3(r, b)
    ensures forall u :: Dominates3(u, a) && Dominates3(u, b) ==> Dominates3(u, r)
  {
    seq(|a|, i requires 0 <= i < |a| => MaxGrid(a[i], b[i]))
  }

  lemma MaxRowLaws(a: Row, b: Row, c: Row)
    requires |a| == |b| == |c|
    ensures MaxRow(a, b) == MaxRow(b, a)
    ensures MaxRow(MaxRow(a, b), c) == MaxRow(a, MaxRow(b, c))
  {
  }

  lemma MaxGridLaws(a: Grid, b: Grid, c: Grid)
    requires SameShape2(a, b) && SameShape2(b, c)
    ensures MaxGrid(a, b) == MaxGrid(b, a)
    ensures MaxGrid(MaxGrid(a, b), c) == MaxGrid(a, MaxGrid(b, c))
  {
    forall i | 0 <= i < |a| {
      MaxRowLaws(a[i], b[i], c[i]);
    }
  }

  lemma MaxCubeLaws(a: Cube, b: Cube, c: Cube)
    requires SameShape3(a, b) && SameShape3(b, c)
    ensures MaxCube(a, b) == MaxCube(b, a)
    ensures MaxCube(MaxCube(a, b), c) == MaxCube(a, MaxCube(b, c))
  {
    forall i | 0 <= i < |a| {
      MaxGridLaws(a[i], b[i], c[i]);
    }
  }

  lemma Dominates2Trans(a: Grid, b: Grid, c: Grid)
    requires Dominates2(a, b) && Dominates2(b, c)
    ensures Dominates2(a, c)
  {
  }

  lemma Dominates3Trans(a: Cube, b: Cube, c: Cube)
    requires Dominates3(a, b) && Dominates3(b, c)
    ensures Dominates3(a, c)
  {
    forall i | 0 <= i < |a| {
      Dominates2Trans(a[i], b[i], c[i]);
    }
  }

  // ---------------------------------------------------------------------
  // Sums and threshold counts (cv2.mean, (gray > t).sum())

  function SumRow(r: Row): int {
    if |r| == 0 then 0 else r[0] + SumRow(r[1..])
  }

  function SumGrid(g: Grid): int {
    if |g| == 0 then 0 else SumRow(g[0]) + SumGrid(g[1..])
  }

  function CountRowAbove(r: Row, t: real): nat {
    if |r| == 0 then 0 else (if r[0] as real > t then 1 else 0) + CountRowAbove(r[1..], t)
  }

  function CountAbove(g: Grid, t: real): nat {
    if |g| == 0 then 0 else CountRowAbove(g[0], t) + CountAbove(g[1..], t)
  }

  /** Every sample of `g` lies in `lo..hi`. */
  predicate Within(g: Grid, lo: int, hi: int) {
    forall i, k :: 0 <= i < |g| && 0 <= k < |g[i]| ==> lo <= g[i][k] <= hi
  }

  lemma Distribute(a: int, b: int, c: int)
    ensures a * (b + c) == a * b + a * c
  {
  }

  lemma {:induction false} SumRowBounds(r: Row, lo: int, hi: int)
    requires forall k :: 0 <= k < |r| ==> lo <= r[k] <= hi
    ensures lo * |r| <= SumRow(r) <= hi * |r|
  {
    if |r| > 0 {
      SumRowBounds(r[1..], lo, hi);
      Distribute(lo, 1, |r| - 1);
      Distribute(hi, 1, |r| - 1);
    }
  }

  lemma {:induction false} SumGridBounds(g: Grid, w: nat, lo: int, hi: int)
    requires IsRect(g, |g|, w) && Within(g, lo, hi)
    ensures lo * (|g| * w) <= SumGrid(g) <= hi * (|g| * w)
  {
    if |g| > 0 {
      SumRowBounds(g[0], lo, hi);
      SumGridBounds(g[1..], w, lo, hi);
      Distribute(lo, w, (|g| - 1) * w);
      Distribute(hi, w, (|g| - 1) * w);
      assert |g| * w == w + (|g| - 1) * w;
    }
  }

  lemma {:induction false} CountRowAboveSpec(r: Row, t: real)
    ensures CountRowAbove(r, t) <= |r|
    ensures CountRowAbove(r, t) == 0 <==> forall k :: 0 <= k < |r| ==> r[k] as real <= t
  {
    if |r| > 0 {
      CountRowAboveSpec(r[1..], t);
      assert forall k :: 1 <= k < |r| ==> r[k] == r[1..][k - 1];
    }
  }

  /** The threshold count is at most the number of cells, and zero exactly when no sample exceeds `t`. */
  lemma {:induction false} CountAboveSpec(g: Grid, w: nat, t: real)
    requires IsRect(g, |g|, w)
    ensures CountAbove(g, t) <= |g| * w
    ensures CountAbove(g, t) == 0 <==> forall i, k :: 0 <= i < |g| && 0 <= k < |g[i]| ==> g[i][k] as real <= t
  {
    if |g| > 0 {
      CountRowAboveSpec(g[0], t);
      CountAboveSpec(g[1..], w, t);
      assert |g| * w == w + (|g| - 1) * w;
      assert forall i :: 1 <= i < |g| ==> g[i] == g[1..][i - 1];
    }
  }

  lemma {:induction false} CountRowAboveAntitone(r: Row, t1: real, t2: real)
    requires t1 <= t2
    ensures CountRowAbove(r, t2) <= CountRowAbove(r, t1)
  {
    if |r| > 0 {
      CountRowAboveAntitone(r[1..], t1, t2);
    }
  }

  /** Raising the threshold never raises the count of samples above it. */
  lemma {:induction false} CountAboveAntitone(g: Grid, t1: real, t2: real)
    requires t1 <= t2
    ensures CountAbove(g, t2) <= CountAbove(g, t1)
  {
    if |g| > 0 {
      CountRowAboveAntitone(g[0], t1, t2);
      CountAboveAntitone(g[1..], t1, t2);
    }
  }
}
