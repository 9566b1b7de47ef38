/** Matrix contents as values: a grid is a sequence of rows, `g[y][x]` the
    cell in column `x` of row `y`. The matrix class and the pipeline state
    their results with these functions. */
module Grids {

  import opened JavaLang
  import opened CtVectors

  type Grid = seq<seq<real>>

  /** `g` has `h` rows of `w` cells each (with no rows, `w` is unconstrained,
      as for a Java matrix of height 0). */
  predicate IsGrid(g: Grid, w: int, h: int)
  {
    |g| == h && forall y :: 0 <= y < h ==> |g[y]| == w
  }

  predicate AllZero(g: Grid)
  {
    forall y, x :: 0 <= y < |g| && 0 <= x < |g[y]| ==> g[y][x] == 0.0
  }

  function Zeros(w: nat, h: nat): (g: Grid)
    ensures IsGrid(g, w, h) && AllZero(g)
  {
    seq(h, _ => ZeroVector(w))
  }

  /** Cell-by-cell sum of two grids of the same shape. */
  function GridAdd(a: Grid, b: Grid): (r: Grid)
    requires |a| == |b| && forall y :: 0 <= y < |a| ==> |a[y]| == |b[y]|
    ensures |r| == |a|
    ensures forall y :: 0 <= y < |a| ==> |r[y]| == |a[y]|
  {
    seq(|a|, y requires 0 <= y < |a| => Added(a[y], b[y]))
  }

  /** A grid whose cells are all zero is the zero grid of its shape. */
  lemma ZerosUnique(g: Grid, w: nat, h: nat)
    requires IsGrid(g, w, h) && AllZero(g)
    ensures g == Zeros(w, h)
  {
    forall y | 0 <= y < h
      ensures g[y] == ZeroVector(w)
    {
      assert forall x :: 0 <= x < w ==> g[y][x] == 0.0;
    }
  }

  /** Adding a grid to the zero grid gives it back. */
  lemma GridAddZeros(g: Grid, w: nat, h: nat)
    requires IsGrid(g, w, h)
    ensures GridAdd(Zeros(w, h), g) == g
  {
    var r := GridAdd(Zeros(w, h), g);
    forall y | 0 <= y < h
      ensures r[y] == g[y]
    {
      assert r[y] == Added(ZeroVector(w), g[y]);
      assert forall x :: 0 <= x < w ==> r[y][x] == g[y][x];
    }
  }

  /** The sum of column `k` over the first `n` rows, added top to bottom. */
  function ColSum(g: Grid, n: nat, k: nat): real
    requires n <= |g| && forall y :: 0 <= y < n ==> k < |g[y]|
  {
    if n == 0 then 0.0 else ColSum(g, n - 1, k) + g[n - 1][k]
  }

  /** The column sums of a grid of width `w`: entry `k` adds up column `k`
      over all rows. */
  function ColSums(g: Grid, w: nat): (r: seq<real>)
    requires IsGrid(g, w, |g|)
    ensures |r| == w
  {
    seq(w, k requires 0 <= k < w => ColSum(g, |g|, k))
  }

  /** A grid of `h` rows, every cell holding `v`. */
  function Constant(v: real, w: nat, h: nat): (g: Grid)
    ensures IsGrid(g, w, h)
  {
    seq(h, _ => seq(w, _ => v))
  }

  /** Summing the columns of a constant grid yields `v * h` in every entry. */
  lemma ColSumsOfConstant(v: real, w: nat, h: nat)
    ensures ColSums(Constant(v, w, h), w) == seq(w, _ => v * h as real)
  {
    forall k | 0 <= k < w
      ensures ColSum(Constant(v, w, h), h, k) == v * h as real
    {
      ColSumOfConstant(v, w, h, h, k);
    }
  }

  lemma {:induction false} ColSumOfConstant(v: real, w: nat, h: nat, n: nat, k: nat)
    requires n <= h && k < w
    ensures ColSum(Constant(v, w, h), n, k) == v * n as real
  {
    if n > 0 {
      ColSumOfConstant(v, w, h, n - 1, k);
    }
  }

  /** Column sums of the first `n` rows, row after row: the contents of the
      accumulating vector in `sumCols` after `n` turns of its loop. */
  function ColSumsUpTo(g: Grid, n: nat, w: nat): (r: seq<real>)
    requires n <= |g| && forall y :: 0 <= y < n ==> |g[y]| == w
    ensures |r| == w
  {
    if n == 0 then ZeroVector(w) else Added(ColSumsUpTo(g, n - 1, w), g[n - 1])
  }

  /** Accumulating every row gives the column sums. */
  lemma ColSumsUpToAll(g: Grid, w: nat)
    requires IsGrid(g, w, |g|)
    ensures ColSumsUpTo(g, |g|, w) == ColSums(g, w)
  {
    forall k | 0 <= k < w
      ensures ColSumsUpTo(g, |g|, w)[k] == ColSum(g, |g|, k)
    {
      ColSumsUpToAt(g, w, |g|, k);
    }
  }

  lemma {:induction false} ColSumsUpToAt(g: Grid, w: nat, n: nat, k: nat)
    requires IsGrid(g, w, |g|) && n <= |g| && k < w
    ensures ColSumsUpTo(g, n, w)[k] == ColSum(g, n, k)
  {
    if n > 0 {
      ColSumsUpToAt(g, w, n - 1, k);
    }
  }

  /** Column sums are additive: summing the columns of `a + b` is adding the
      column sums of `a` and of `b`. */
  lemma ColSumsAdditive(a: Grid, b: Grid, w: nat)
    requires IsGrid(a, w, |a|) && IsGrid(b, w, |a|)
    ensures ColSums(GridAdd(a, b), w) == Added(ColSums(a, w), ColSums(b, w))
  {
    forall k | 0 <= k < w
      ensures ColSum(GridAdd(a, b), |a|, k) == ColSum(a, |a|, k) + ColSum(b, |a|, k)
    {
      ColSumAdditive(a, b, w, |a|, k);
    }
  }

  lemma {:induction false} ColSumAdditive(a: Grid, b: Grid, w: nat, n: nat, k: nat)
    requires IsGrid(a, w, |a|) && IsGrid(b, w, |a|) && n <= |a| && k < w
    ensures ColSum(GridAdd(a, b), n, k) == ColSum(a, n, k) + ColSum(b, n, k)
  {
    if n > 0 {
      ColSumAdditive(a, b, w, n - 1, k);
    }
  }

  /** Row `d` after a vector paste of an unaliased `s` at `x`; `d` itself
      where that paste would raise. */
  function PastedRow(d: seq<real>, x: Int32, s: seq<real>): seq<real>
  {
    var r := Pasted(d, x, s, false);
    if r.Ok? then r.value else d
  }

  /** `g` with its `n` rows from `y` down replaced, one by one, by their
      vector pastes of the matching rows of `src`: the contents after `n`
      turns of the row loop of `paste`. */
  function Band(g: Grid, x: Int32, y: int, n: int, src: Grid): (r: Grid)
    requires n <= 0 || (0 <= y && y + n <= |g| && n <= |src|)
    ensures |r| == |g|
    decreases n
  {
    if n <= 0 then g
    else Band(g, x, y, n - 1, src)[y + n - 1 := PastedRow(g[y + n - 1], x, src[n - 1])]
  }

  /** An empty band leaves the grid alone. */
  lemma BandEmpty(g: Grid, x: Int32, y: int, n: int, src: Grid)
    requires n <= 0
    ensures Band(g, x, y, n, src) == g && Band(g, x, y, 0, src) == g
  {
  }

  /** One more turn of the row loop pastes row `y + n`. */
  lemma BandStep(g: Grid, x: Int32, y: int, n: nat, src: Grid)
    requires 0 <= y && y + n < |g| && n < |src|
    ensures Band(g, x, y, n + 1, src) == Band(g, x, y, n, src)[y + n := PastedRow(g[y + n], x, src[n])]
  {
  }

  /** A row inside the band is the vector paste of its source row. */
  lemma {:induction false} BandInside(g: Grid, x: Int32, y: int, n: int, src: Grid, j: int)
    requires n <= 0 || (0 <= y && y + n <= |g| && n <= |src|)
    requires y <= j < y + n
    ensures Band(g, x, y, n, src)[j] == PastedRow(g[j], x, src[j - y])
    decreases n
  {
    var row := PastedRow(g[y + n - 1], x, src[n - 1]);
    assert Band(g, x, y, n, src) == Band(g, x, y, n - 1, src)[y + n - 1 := row];
    if j < y + n - 1 {
      BandInside(g, x, y, n - 1, src, j);
    }
  }

  /** A row outside the band is the one of `g`. */
  lemma {:induction false} BandOutside(g: Grid, x: Int32, y: int, n: int, src: Grid, j: int)
    requires n <= 0 || (0 <= y && y + n <= |g| && n <= |src|)
    requires 0 <= j < |g| && !(y <= j < y + n)
    ensures Band(g, x, y, n, src)[j] == g[j]
    decreases n
  {
    if n > 0 {
      BandOutside(g, x, y, n - 1, src, j);
    }
  }

  /** The effect of `paste(x, y, src)` on a matrix holding `g` (`w` by `h`)
      when `src` (`sw` by `sh`) shares no row with it: the number of rows is
      clipped in 32-bit arithmetic to the room below `y`; each of those rows
      gets a vector paste of the matching source row at column `x`, which
      does the column clipping; a negative `y`, or a negative `x` with
      something to copy, raises on the first row before anything changes. */
  function PastedGrid(g: Grid, w: int, h: int, x: Int32, y: Int32, src: Grid, sw: int, sh: int): Result<Grid>
    requires IsGrid(g, w, h) && IsGrid(src, sw, sh)
    requires 0 <= h <= MAX_INT
  {
    var n := Min(sh, Wrap32(h - y));
    if n <= 0 then Ok(g)
    else if y < 0 then Err(IndexOutOfBounds)
    else if PasteWidth(sw, w, x) > 0 && x < 0 then Err(IndexOutOfBounds)
    else Ok(Band(g, x, y, n, src))
  }

  /** Whether a paste raises is decided before any row is written: with
      nothing to paste it succeeds unchanged, otherwise it raises exactly when
      `y` is negative or the vector pastes would start at a negative `x`. */
  lemma PastedGridOutcome(g: Grid, w: int, h: int, x: Int32, y: Int32, src: Grid, sw: int, sh: int)
    requires IsGrid(g, w, h) && IsGrid(src, sw, sh)
    requires 0 <= h <= MAX_INT
    ensures Min(sh, Wrap32(h - y)) <= 0 ==> PastedGrid(g, w, h, x, y, src, sw, sh) == Ok(g)
    ensures Min(sh, Wrap32(h - y)) > 0 ==>
      (PastedGrid(g, w, h, x, y, src, sw, sh).Ok? <==> 0 <= y && !(PasteWidth(sw, w, x) > 0 && x < 0))
    ensures PastedGrid(g, w, h, x, y, src, sw, sh).Err? ==>
      PastedGrid(g, w, h, x, y, src, sw, sh).exc == IndexOutOfBounds
    ensures PastedGrid(g, w, h, x, y, src, sw, sh).Ok? && Min(sh, Wrap32(h - y)) > 0 ==>
      y + Min(sh, Wrap32(h - y)) <= h &&
      PastedGrid(g, w, h, x, y, src, sw, sh).value == Band(g, x, y, Min(sh, Wrap32(h - y)), src)
  {
  }

  /** Pasting at a non-negative position copies the window of `src` that
      fits, `min(sh, h - y)` rows by `min(sw, w - x)` columns, to `(x, y)`,
      and leaves every other cell alone. */
  lemma PastedRegion(g: Grid, w: int, h: int, x: Int32, y: Int32, src: Grid, sw: int, sh: int)
    requires IsGrid(g, w, h) && IsGrid(src, sw, sh)
    requires 0 <= h <= MAX_INT && 1 <= w <= MAX_INT && 0 <= sh && (sh > 0 ==> 1 <= sw)
    requires 0 <= x && 0 <= y
    ensures PastedGrid(g, w, h, x, y, src, sw, sh).Ok?
    ensures var r := PastedGrid(g, w, h, x, y, src, sw, sh).value;
      && IsGrid(r, w, h)
      && forall j, i :: 0 <= j < h && 0 <= i < w ==>
           r[j][i] == if y <= j < y + Min(sh, h - y) && x <= i < x + Min(sw, w - x)
                      then src[j - y][i - x] else g[j][i]
  {
    assert Wrap32(h - y) == h - y;
    var n := Min(sh, h - y);
    var r := PastedGrid(g, w, h, x, y, src, sw, sh).value;
    forall j | 0 <= j < h
      ensures |r[j]| == w
      ensures forall i :: 0 <= i < w ==>
        r[j][i] == if y <= j < y + n && x <= i < x + Min(sw, w - x) then src[j - y][i - x] else g[j][i]
    {
      if y <= j < y + n {
        BandInside(g, x, y, n, src, j);
        PastedRowCells(g[j], x, src[j - y]);
      } else {
        BandOutside(g, x, y, n, src, j);
      }
    }
  }

  /** The cells of one row pasted at a non-negative offset. */
  lemma PastedRowCells(d: seq<real>, x: Int32, s: seq<real>)
    requires 1 <= |d| <= MAX_INT && 1 <= |s| && 0 <= x
    ensures |PastedRow(d, x, s)| == |d|
    ensures forall i :: 0 <= i < |d| ==>
      PastedRow(d, x, s)[i] == if x <= i < x + Min(|s|, |d| - x) then s[i - x] else d[i]
  {
    PasteAtOffset(d, x, s);
  }
}
