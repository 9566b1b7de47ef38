/** `Jcte.reconstruct`: back projection. Each row of the (filtered) sinogram
    is smeared across a square matrix, rotated back by its projection's
    angle and added into the output slice. */
module Reconstruction {

  import opened JavaLang
  import opened CtVectors
  import opened Grids
  import opened CtMatrices
  import opened Rotation

  /** `n` copies of the row `v`: what the inner loop of `reconstruct`
      leaves in the smearing matrix. */
  function Stacked(v: seq<real>, n: nat): (r: Grid)
    ensures IsGrid(r, |v|, n)
    ensures forall y :: 0 <= y < n ==> r[y] == v
  {
    seq(n, _ => v)
  }

  /** The contribution of the sinogram row `v` taken at `angle` degrees to
      a back projection: the row smeared over `|v|` rows and rotated by
      `-angle` degrees. */
  function Smeared(v: seq<real>, angle: real, trig: Trig): (r: Grid)
    ensures IsGrid(r, |v|, |v|)
  {
    Rotated(Stacked(v, |v|), |v|, |v|, trig(-angle))
  }

  /** The angle of sinogram row `i` when the angle starts at 0 and grows by
      `step` degrees per row, as `reconstruct` accumulates it. */
  function Angle(i: nat, step: int): real
  {
    if i == 0 then 0.0 else Angle(i - 1, step) + step as real
  }

  /** The accumulated angle is the product `i * step`. */
  lemma {:induction false} AngleIsProduct(i: nat, step: int)
    ensures Angle(i, step) == (i * step) as real
  {
    if i > 0 {
      AngleIsProduct(i - 1, step);
      assert i * step == (i - 1) * step + step;
    }
  }

  /** The `w` by `w` back projection of the first `n` rows of sinogram `g`. */
  function BackProjection(g: Grid, w: nat, n: nat, step: int, trig: Trig): (r: Grid)
    requires IsGrid(g, w, |g|) && n <= |g|
    ensures IsGrid(r, w, w)
    decreases n
  {
    if n == 0 then Zeros(w, w)
    else GridAdd(BackProjection(g, w, n - 1, step, trig), Smeared(g[n - 1], Angle(n - 1, step), trig))
  }

  /** `reconstruct(matrix, range)`: for a sinogram of width `w` and height
      `h`, a fresh `w` by `w` slice. A null sinogram raises
      NullPointerException and a negative width NegativeArraySizeException
      (from creating the output). A range outside `[0, 360]` leaves the
      slice zero; inside it, a sinogram with no rows raises on
      `range / h`, and otherwise the slice is the back projection of all
      `h` rows, `range / h` (integer division) degrees apart. The sinogram
      does not change. */
  method Reconstruct(matrix: ArrayCtMatrix?, range: Int32, trig: Trig) returns (r: Result<ArrayCtMatrix>)
    requires matrix != null ==> matrix.Valid()
    ensures matrix == null ==> r == Err(NullPointer)
    ensures matrix != null && matrix.width < 0 ==> r == Err(NegativeArraySize)
    ensures matrix != null && 0 <= matrix.width && 0 <= range <= 360 && matrix.height == 0 ==> r == Err(Arithmetic)
    ensures matrix != null && 0 <= matrix.width && !(0 <= range <= 360) ==>
      && r.Ok? && r.value.Valid() && fresh(r.value.Repr())
      && r.value.width == matrix.width && r.value.height == matrix.width
      && r.value.Cells() == Zeros(matrix.width, matrix.width)
    ensures matrix != null && 0 <= matrix.width && 0 <= range <= 360 && 0 < matrix.height ==>
      && r.Ok? && r.value.Valid() && fresh(r.value.Repr())
      && r.value.width == matrix.width && r.value.height == matrix.width
      && r.value.Cells() == BackProjection(matrix.Cells(), matrix.width, matrix.height, JavaDiv(range, matrix.height), trig)
  {
    if matrix == null {
      return Err(NullPointer);
    }
    assert matrix.height > 0 ==> matrix.rows[0].Size() == matrix.width;
    var createdOut := CreateArrayCtMatrix(matrix.width, matrix.width);
    if createdOut.Err? {
      return createdOut;
    }
    var out := createdOut.value;
    var createdSmoothed := CreateArrayCtMatrix(matrix.width, matrix.width);
    var smoothed := createdSmoothed.value;
    ghost var g := matrix.Cells();
    ZerosUnique(out.Cells(), matrix.width, matrix.width);
    if 0 <= range < 361 {
      if matrix.height == 0 {
        return Err(Arithmetic);
      }
      BackProjectAll(out, smoothed, matrix, JavaDiv(range, matrix.height), trig);
    }
    return Ok(out);
  }

  /** The row loop of `reconstruct`, with `step = range / h` and the
      output still zero: each sinogram row in turn is back projected at
      angle `y * step` and added in. */
  method BackProjectAll(out: ArrayCtMatrix, smoothed: ArrayCtMatrix, matrix: ArrayCtMatrix, s: int, trig: Trig)
    requires out.Valid() && smoothed.Valid() && matrix.Valid() && 0 <= matrix.width
    requires out.width == out.height == smoothed.width == smoothed.height == matrix.width
    requires out.Repr() !! smoothed.Repr() && out.Repr() !! matrix.Repr() && smoothed.Repr() !! matrix.Repr()
    requires out.Cells() == Zeros(matrix.width, matrix.width)
    modifies out.Repr(), smoothed.Repr()
    ensures out.Cells() == BackProjection(matrix.Cells(), matrix.width, matrix.height, s, trig)
  {
    assert matrix.height > 0 ==> matrix.rows[0].Size() == matrix.width;
    ghost var g := matrix.Cells();
    var step := s as real;
    var angle := 0.0;
    var y := 0;
    while y < matrix.height
      invariant 0 <= y <= matrix.height
      invariant matrix.Cells() == g
      invariant angle == Angle(y, s)
      invariant out.Cells() == BackProjection(g, matrix.width, y, s, trig)
    {
      BackProjectRow(out, smoothed, matrix, y, angle, trig);
      assert matrix.Cells() == g;
      angle := angle + step;
      y := y + 1;
    }
  }

  /** One turn of the row loop of `reconstruct`: row `y` of the sinogram is
      pasted into every row of `smoothed`, which is rotated by the angle
      `-angle` and added into `out`. */
  method BackProjectRow(out: ArrayCtMatrix, smoothed: ArrayCtMatrix, matrix: ArrayCtMatrix, y: int, angle: real, trig: Trig)
    requires out.Valid() && smoothed.Valid() && matrix.Valid() && 0 <= y < matrix.height
    requires out.width == out.height == smoothed.width == smoothed.height == matrix.width
    requires out.Repr() !! smoothed.Repr() && out.Repr() !! matrix.Repr() && smoothed.Repr() !! matrix.Repr()
    modifies out.Repr(), smoothed.Repr()
    ensures out.Cells() == GridAdd(old(out.Cells()), Smeared(old(matrix.Cells())[y], angle, trig))
  {
    ghost var g := matrix.Cells();
    ghost var o := out.Cells();
    var row := matrix.GetVector(y).value;
    Smear(smoothed, row, matrix.width);
    assert matrix.Cells() == g && out.Cells() == o;
    ghost var st := smoothed.Cells();
    assert st == Stacked(g[y], matrix.width);
    AddRotated(out, smoothed, trig(-angle));
    assert out.Cells() == GridAdd(o, Rotated(st, matrix.width, matrix.width, trig(-angle)));
  }

  /** The inner loop of `reconstruct`: `smoothed.pasteVector(z, row)` for
      every `z < n`, `n` the sinogram's width and `smoothed`'s height. */
  method Smear(smoothed: ArrayCtMatrix, row: ArrayCtVector, n: int)
    requires smoothed.Valid() && row.Valid() && row.data !in smoothed.Repr()
    requires row.Size() == smoothed.width && n == smoothed.height
    modifies smoothed.Repr()
    ensures smoothed.Cells() == Stacked(row.Elems(), n)
  {
    var z := 0;
    while z < n
      invariant 0 <= z <= n
      invariant IsGrid(smoothed.Cells(), smoothed.width, n)
      invariant forall j :: 0 <= j < z ==> smoothed.Cells()[j] == row.Elems()
    {
      var _ := smoothed.PasteVector(z, row);
      z := z + 1;
    }
  }

  /** `out.sum(rotate(smoothed, angle))`, given the oracle's sine and
      cosine `t` for `angle`. */
  method AddRotated(out: ArrayCtMatrix, smoothed: ArrayCtMatrix, t: SinCos)
    requires out.Valid() && smoothed.Valid() && out.Repr() !! smoothed.Repr()
    requires out.width == smoothed.width && out.height == smoothed.height
    modifies out.Repr()
    ensures out.Cells() == GridAdd(old(out.Cells()), Rotated(smoothed.Cells(), smoothed.width, smoothed.height, t))
  {
    ghost var sg := smoothed.Cells();
    var rotated := Rotate(smoothed, t);
    assert smoothed.Cells() == sg;
    ghost var rg := rotated.value.Cells();
    var _ := out.Sum(rotated.value);
    assert smoothed.Cells() == sg;
  }

  /** A zero sinogram reconstructs to a zero slice, whatever the angles. */
  lemma {:induction false} ZeroSinogram(g: Grid, w: nat, n: nat, step: int, trig: Trig)
    requires IsGrid(g, w, |g|) && n <= |g| && AllZero(g)
    ensures AllZero(BackProjection(g, w, n, step, trig))
  {
    if n > 0 {
      ZeroSinogram(g, w, n - 1, step, trig);
      var st := Stacked(g[n - 1], w);
      assert AllZero(st);
      RotatedZero(st, w, w, trig(-Angle(n - 1, step)));
    }
  }

  /** With one projection, at angle 0 where the trigonometry is exact, the
      slice is that projection smeared over every row. */
  lemma SingleProjection(g: Grid, w: nat, step: int, trig: Trig)
    requires IsGrid(g, w, |g|) && 1 <= |g|
    requires trig(0.0) == SinCos(0.0, 1.0)
    ensures BackProjection(g, w, 1, step, trig) == Stacked(g[0], w)
  {
    var st := Stacked(g[0], w);
    assert Smeared(g[0], Angle(0, step), trig) == Rotated(st, w, w, SinCos(0.0, 1.0));
    RotateByZero(st, w, w);
    GridAddZeros(st, w, w);
  }
}
