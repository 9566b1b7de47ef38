/** The matrix container: `CtMatrix` (the documented contract) and
    `ArrayCtMatrix` (its implementation as an array of row vectors), with
    `CtMatrixFactory.createArrayCtMatrix(int, int)` folded in. */
module CtMatrices {

  import opened JavaLang
  import opened CtVectors
  import opened Grids

  /** A `width` by `height` matrix held as `height` row vectors. The Java
      array of row references is filled by the constructor and never written
      again, so it is a constant sequence here; the cells live in the rows'
      arrays, which the methods below change in place. */
  class ArrayCtMatrix {

    const rows: seq<ArrayCtVector>
    const width: int
    const height: int
    /** The row index of each array that holds cells. */
    ghost const owner: map<array<real>, int>

    /** Rectangular: `height` rows, each a valid vector of `width` entries,
        each with an array of its own (`owner` inverts `rows`). */
    ghost predicate Valid()
    {
      && 0 <= height <= MAX_INT && MIN_INT <= width <= MAX_INT
      && |rows| == height
      && (forall y :: 0 <= y < height ==>
            rows[y].Valid() && rows[y].Size() == width && rows[y].data in owner && owner[rows[y].data] == y)
      && (forall a :: a in owner ==> 0 <= owner[a] < height && rows[owner[a]].data == a)
    }

    /** The arrays that hold the cells. */
    ghost function Repr(): set<array<real>>
    {
      owner.Keys
    }

    /** The cells, row by row. */
    ghost function Cells(): (g: Grid)
      reads Repr()
      requires Valid()
      ensures |g| == |rows|
      ensures forall y :: 0 <= y < |rows| ==> g[y] == rows[y].data[..]
    {
      seq(|rows|, y reads Repr() requires 0 <= y < |rows| => rows[y].data[..])
    }

    /** `ArrayCtMatrix(int, int)` for admissible dimensions: `height`
        distinct, fresh rows of `width` zeros. */
    constructor (width: int, height: int)
      requires 0 <= height <= MAX_INT && MIN_INT <= width <= MAX_INT
      requires height == 0 || width >= 1
      ensures Valid() && this.width == width && this.height == height
      ensures fresh(Repr()) && forall y :: 0 <= y < height ==> fresh(rows[y])
      ensures IsGrid(Cells(), width, height) && AllZero(Cells())
    {
      this.width := width;
      this.height := height;
      var rs: seq<ArrayCtVector> := [];
      ghost var own: map<array<real>, int> := map[];
      var y := 0;
      while y < height
        invariant 0 <= y <= height && |rs| == y
        invariant forall j :: 0 <= j < y ==>
          && fresh(rs[j]) && fresh(rs[j].data) && rs[j].Valid() && rs[j].Size() == width
          && rs[j].Elems() == ZeroVector(width)
          && rs[j].data in own && own[rs[j].data] == j
        invariant forall a :: a in own ==> 0 <= own[a] < y && rs[own[a]].data == a
      {
        var v := new ArrayCtVector(width);
        rs := rs + [v];
        own := own[v.data := y];
        y := y + 1;
      }
      rows := rs;
      owner := own;
    }

    /** `update(x, y, val)`: stores `val` in cell `(x, y)` and nowhere else;
        a coordinate out of range raises and changes nothing. */
    method Update(x: int, y: int, val: real) returns (o: Outcome)
      requires Valid()
      modifies Repr()
      ensures o == if 0 <= y < height && 0 <= x < width then Pass else Fail(IndexOutOfBounds)
      ensures Cells() == if o.Pass? then old(Cells())[y := old(Cells())[y][x := val]] else old(Cells())
    {
      if !(0 <= y < height) {
        return Fail(IndexOutOfBounds);
      }
      o := rows[y].Update(x, val);
      assert forall j :: 0 <= j < height && j != y ==> rows[j].data != rows[y].data;
    }

    /** `get(x, y)`: the value in cell `(x, y)`; out of range raises. */
    function Get(x: int, y: int): (r: Result<real>)
      reads Repr()
      requires Valid()
      ensures r.Ok? <==> 0 <= y < height && 0 <= x < width
      ensures r.Ok? ==> r.value == Cells()[y][x]
    {
      if 0 <= y < height then rows[y].Get(x) else Err(IndexOutOfBounds)
    }

    /** `getVector(y)`: the row object itself, not a copy, so later changes
        through either the matrix or the vector are seen by both. */
    function GetVector(y: int): (r: Result<ArrayCtVector>)
      requires Valid()
      ensures r.Ok? <==> 0 <= y < height
      ensures r.Ok? ==> r.value == rows[y] && r.value.data in Repr()
    {
      if 0 <= y < height then Ok(rows[y]) else Err(IndexOutOfBounds)
    }

    /** `sum(other)`: adds `other` into this matrix cell by cell; a null
        argument or a different width or height raises and changes nothing.
        `other` may be this very matrix (then every cell doubles); any other
        matrix owns rows of its own. */
    method Sum(other: ArrayCtMatrix?) returns (o: Outcome)
      requires Valid()
      requires other != null ==> other.Valid() && (other == this || Repr() !! other.Repr())
      modifies Repr()
      ensures o == if other == null || other.width != width || other.height != height
                   then Fail(IllegalArgument) else Pass
      ensures Cells() == if o.Pass? then GridAdd(old(Cells()), old(other.Cells())) else old(Cells())
    {
      if other == null || other.width != width || other.height != height {
        return Fail(IllegalArgument);
      }
      ghost var a, b := Cells(), other.Cells();
      var y := 0;
      while y < height
        invariant 0 <= y <= height
        invariant forall j :: 0 <= j < y ==> rows[j].data[..] == Added(a[j], b[j])
        invariant forall j :: y <= j < height ==> rows[j].data[..] == a[j] && other.rows[j].data[..] == b[j]
      {
        var _ := rows[y].Sum(other.GetVector(y).value);
        assert forall j :: 0 <= j < height && j != y ==> rows[j].data != rows[y].data;
        assert forall j :: 0 <= j < height && j != y ==> other.rows[j].data != rows[y].data;
        y := y + 1;
      }
      o := Pass;
    }

    /** `max()`: the largest cell. An empty matrix (height 0) raises on its
        first access to row 0. */
    method Max() returns (r: Result<real>)
      requires Valid()
      ensures r.Ok? <==> height > 0
      ensures r.Err? ==> r.exc == IndexOutOfBounds
      ensures r.Ok? ==> exists y, x :: 0 <= y < height && 0 <= x < width && r.value == Cells()[y][x]
      ensures r.Ok? ==> forall y, x :: 0 <= y < height && 0 <= x < width ==> Cells()[y][x] <= r.value
    {
      if height == 0 {
        return Err(IndexOutOfBounds);
      }
      var m := rows[0].Get(0).value;
      ghost var wy, wx := 0, 0;
      var y := 0;
      while y < height
        invariant 0 <= y <= height
        invariant 0 <= wy < height && 0 <= wx < width && m == rows[wy].data[wx]
        invariant forall j, i :: 0 <= j < y && 0 <= i < width ==> rows[j].data[i] <= m
      {
        var lm := rows[y].Max();
        ghost var p :| 0 <= p < width && lm == rows[y].data[p];
        if lm > m {
          m := lm;
          wy, wx := y, p;
        }
        y := y + 1;
      }
      assert Cells()[wy][wx] == m;
      return Ok(m);
    }

    /** `sumCols()`: a fresh vector of `width` entries, entry `k` the sum of
        column `k`; the matrix does not change. A matrix of width below 1
        (possible only with height 0) raises when the vector is created. */
    method SumCols() returns (r: Result<ArrayCtVector>)
      requires Valid()
      ensures width < 1 ==> r == Err(IllegalArgument)
      ensures width >= 1 ==>
        && r.Ok? && fresh(r.value.data) && r.value.Valid()
        && r.value.Elems() == ColSums(Cells(), width)
    {
      var created := CreateArrayCtVector(width);
      if created.Err? {
        return created;
      }
      var line := created.value;
      ghost var g := Cells();
      var y := 0;
      while y < height
        invariant 0 <= y <= height
        invariant fresh(line.data) && line.Valid() && line.Size() == width
        invariant line.Elems() == ColSumsUpTo(g, y, width)
        invariant Cells() == g
      {
        var _ := line.Sum(rows[y]);
        y := y + 1;
      }
      ColSumsUpToAll(g, width);
      return Ok(line);
    }

    /** `paste(x, y, other)`: vector-pastes the rows of `other` that fit below
        row `y` into this matrix at column `x` (see `PastedGrid`). The Java
        code also clips a `pasteWidth` to `width - x` but never uses it, so
        columns are clipped by the vector paste alone. */
    method Paste(x: Int32, y: Int32, other: ArrayCtMatrix?) returns (o: Outcome)
      requires Valid()
      requires other != null ==> other.Valid() && Repr() !! other.Repr()
      modifies Repr()
      ensures other == null ==> o == Fail(IllegalArgument) && Cells() == old(Cells())
      ensures other != null ==>
        var r := PastedGrid(old(Cells()), width, height, x, y, old(other.Cells()), other.width, other.height);
        && o == (if r.Ok? then Pass else Fail(r.exc))
        && Cells() == (if r.Ok? then r.value else old(Cells()))
    {
      if other == null {
        return Fail(IllegalArgument);
      }
      ghost var g, src := Cells(), other.Cells();
      PastedGridOutcome(g, width, height, x, y, src, other.width, other.height);
      var pasteHeight := other.height;
      if pasteHeight > Wrap32(height - y) {
        pasteHeight := Wrap32(height - y);
      }
      assert pasteHeight == Min(other.height, Wrap32(height - y));
      o := PasteRows(x, y, other, pasteHeight);
    }

    /** The row loop of `paste`: rows `y .. y + pasteHeight - 1` each get a
        vector paste of the matching row of `other`. A negative `y`, or a
        negative `x` with columns to copy, raises on the first row, before
        anything is written. */
    method PasteRows(x: Int32, y: Int32, other: ArrayCtMatrix, pasteHeight: int) returns (o: Outcome)
      requires Valid() && other.Valid() && Repr() !! other.Repr()
      requires pasteHeight <= other.height && (pasteHeight <= 0 || y + pasteHeight <= height)
      modifies Repr()
      ensures o == if pasteHeight > 0 && (y < 0 || (PasteWidth(other.width, width, x) > 0 && x < 0))
                   then Fail(IndexOutOfBounds) else Pass
      ensures o.Fail? ==> Cells() == old(Cells())
      ensures o.Pass? ==> Cells() == Band(old(Cells()), x, y, pasteHeight, old(other.Cells()))
    {
      var yy := 0;
      while yy < pasteHeight
        invariant 0 <= yy && (yy == 0 || (yy <= pasteHeight && 0 <= y))
        invariant yy > 0 ==> !(PasteWidth(other.width, width, x) > 0 && x < 0)
        invariant Cells() == Band(old(Cells()), x, y, yy, old(other.Cells()))
      {
        if !(0 <= yy + y < height) {
          assert yy == 0 && y < 0;
          return Fail(IndexOutOfBounds);
        }
        var res := PasteBandRow(x, y, other.GetVector(yy).value, yy, old(Cells()), old(other.Cells()));
        if res.Fail? {
          assert yy == 0;
          return res;
        }
        yy := yy + 1;
      }
      if pasteHeight <= 0 {
        BandEmpty(old(Cells()), x, y, pasteHeight, old(other.Cells()));
      } else {
        assert yy == pasteHeight && 0 <= y && !(PasteWidth(other.width, width, x) > 0 && x < 0);
      }
      o := Pass;
    }

    /** One turn of the row loop of `paste`: row `y + yy`, still as in `g`,
        gets the vector paste of row `yy` of `other`, which extends the
        pasted band by one row; it raises exactly when such a paste does,
        and then nothing has changed. */
    method PasteBandRow(x: Int32, y: int, from: ArrayCtVector, yy: int, ghost g: Grid, ghost src: Grid) returns (o: Outcome)
      requires Valid() && from.Valid() && from.data !in Repr()
      requires 0 <= y && 0 <= yy < |src| && y + yy < height
      requires from.Elems() == src[yy] && |g| == height && Cells() == Band(g, x, y, yy, src)
      modifies rows[y + yy].data
      ensures o == if PasteWidth(from.Size(), width, x) > 0 && x < 0 then Fail(IndexOutOfBounds) else Pass
      ensures Cells() == if o.Pass? then Band(g, x, y, yy + 1, src) else old(Cells())
    {
      ghost var before := Cells();
      BandOutside(g, x, y, yy, src, y + yy);
      PastedOutcome(g[y + yy], x, src[yy], false);
      o := rows[y + yy].Paste(x, from);
      assert forall k :: 0 <= k < height && k != y + yy ==> rows[k].data != rows[y + yy].data;
      assert Cells() == before[y + yy := rows[y + yy].data[..]];
      if o.Pass? {
        BandStep(g, x, y, yy, src);
      }
    }

    /** `pasteVector(y, v)`: overwrites row `y` with the values of `v`. A null
        vector or one whose size is not `width` raises (no clipping here),
        and so does a row out of range; nothing changes then. The row object
        stays the same one, and no alias to `v` is created. */
    method PasteVector(y: int, v: ArrayCtVector?) returns (o: Outcome)
      requires Valid() && (v != null ==> v.Valid())
      modifies Repr()
      ensures o == if v == null || v.Size() != width then Fail(IllegalArgument)
                   else if 0 <= y < height then Pass else Fail(IndexOutOfBounds)
      ensures Cells() == if o.Pass? then old(Cells())[y := old(v.Elems())] else old(Cells())
    {
      if v == null || v.Size() != width {
        return Fail(IllegalArgument);
      }
      if !(0 <= y < height) {
        return Fail(IndexOutOfBounds);
      }
      ghost var s := v.Elems();
      o := rows[y].Paste(0, v);
      assert rows[y].data[..] == s;
      assert forall j :: 0 <= j < height && j != y ==> rows[j].data != rows[y].data;
    }
  }

  /** `CtMatrixFactory.createArrayCtMatrix(width, height)`: a zero matrix.
      A negative height fails allocating the row array; a width below 1
      fails creating the first row, so with height 0 any width is taken. */
  method CreateArrayCtMatrix(width: Int32, height: Int32) returns (r: Result<ArrayCtMatrix>)
    ensures height < 0 ==> r == Err(NegativeArraySize)
    ensures height >= 1 && width < 1 ==> r == Err(IllegalArgument)
    ensures height == 0 || (height >= 1 && width >= 1) ==>
      && r.Ok? && r.value.Valid() && r.value.width == width && r.value.height == height
      && fresh(r.value.Repr()) && IsGrid(r.value.Cells(), width, height) && AllZero(r.value.Cells())
  {
    if height < 0 {
      return Err(NegativeArraySize);
    }
    if height >= 1 && width < 1 {
      return Err(IllegalArgument);
    }
    var m := new ArrayCtMatrix(width, height);
    return Ok(m);
  }

  /** A row handed out by `getVector` stays attached to the matrix: a value
      stored through the matrix is read back through the vector. */
  method RowStaysShared(m: ArrayCtMatrix, x: int, y: int, val: real) returns (seen: Result<real>)
    requires m.Valid() && 0 <= y < m.height && 0 <= x < m.width
    modifies m.Repr()
    ensures seen == Ok(val)
  {
    var row := m.GetVector(y).value;
    var _ := m.Update(x, y, val);
    seen := row.Get(x);
  }

  /** The adopting factory keeps the caller's array: a later store into the
      array is read back through the vector. */
  method AdoptedArrayStaysShared(a: array<real>, x: int, val: real) returns (seen: Result<real>)
    requires 1 <= a.Length <= MAX_INT && 0 <= x < a.Length
    modifies a
    ensures seen == Ok(val)
  {
    var v := CreateArrayCtVectorFrom(a);
    a[x] := val;
    seen := v.value.Get(x);
  }
}
