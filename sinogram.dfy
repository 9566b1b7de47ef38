/** `Jcte.makeSinogram(CtMatrix, int, int)`: the forward projection. Each
    row of the sinogram is the column sums of the phantom rotated by the next
    angle, the angles advancing by an integer-truncated step. */
module Sinograms {

  import opened JavaLang
  import opened CtVectors
  import opened Grids
  import opened CtMatrices
  import opened Rotation

  /** One projection: the column sums of the phantom `g` rotated by `angle`
      degrees. */
  function Projection(g: Grid, w: int, h: int, angle: real, trig: Trig): (r: seq<real>)
    requires IsGrid(g, w, h) && 0 <= w
    ensures |r| == w
  {
    ColSums(Rotated(g, w, h, trig(angle)), w)
  }

  /** Projection number `i` of a sinogram whose angles are `step` degrees
      apart: the one at angle `i * step`. */
  function ProjectionAt(g: Grid, w: int, h: int, i: int, step: int, trig: Trig): (r: seq<real>)
    requires IsGrid(g, w, h) && 0 <= w
    ensures |r| == w
  {
    Projection(g, w, h, (i * step) as real, trig)
  }

  /** The sinogram of `n` projections `step` degrees apart, starting at 0. */
  function Sinogram(g: Grid, w: int, h: int, n: nat, step: int, trig: Trig): (r: Grid)
    requires IsGrid(g, w, h) && 0 <= w
    ensures IsGrid(r, w, n)
    ensures forall i :: 0 <= i < n ==> r[i] == ProjectionAt(g, w, h, i, step, trig)
  {
    seq(n, i requires 0 <= i < n => ProjectionAt(g, w, h, i, step, trig))
  }

  /** `makeSinogram(matrix, range, projections)`: a null phantom, a range
      outside `[1, 360]` or a negative number of projections raise
      IllegalArgumentException; zero projections raise on the integer
      division `range / projections`. Otherwise a fresh `width` by
      `projections` matrix whose row `i` is the projection at angle
      `i * (range / projections)`; the phantom does not change. */
  method MakeSinogram(matrix: ArrayCtMatrix?, range: Int32, projections: Int32, trig: Trig) returns (r: Result<ArrayCtMatrix>)
    requires matrix != null ==> matrix.Valid()
    ensures matrix == null || range < 1 || range > 360 || projections < 0 ==> r == Err(IllegalArgument)
    ensures matrix != null && 1 <= range <= 360 && projections == 0 ==> r == Err(Arithmetic)
    ensures matrix != null && 1 <= range <= 360 && projections > 0 && matrix.width < 1 ==> r == Err(IllegalArgument)
    ensures matrix != null && 1 <= range <= 360 && projections > 0 && matrix.width >= 1 ==>
      && r.Ok? && r.value.Valid() && fresh(r.value.Repr())
      && r.value.width == matrix.width && r.value.height == projections
      && r.value.Cells() == Sinogram(matrix.Cells(), matrix.width, matrix.height, projections, JavaDiv(range, projections), trig)
  {
    if matrix == null {
      return Err(IllegalArgument);
    }
    if range < 1 || range > 360 {
      return Err(IllegalArgument);
    }
    if projections < 0 {
      return Err(IllegalArgument);
    }
    var created := CreateArrayCtMatrix(matrix.width, projections);
    if created.Err? {
      return created;
    }
    var sinogram := created.value;
    if projections == 0 {
      return Err(Arithmetic);
    }
    var step := JavaDiv(range, projections) as real;
    var angle := 0.0;
    ghost var g := matrix.Cells();
    ghost var s := JavaDiv(range, projections);
    var i := 0;
    while i < projections
      invariant 0 <= i <= projections
      invariant sinogram.Valid() && fresh(sinogram.Repr())
      invariant sinogram.width == matrix.width && sinogram.height == projections
      invariant matrix.Cells() == g
      invariant angle == (i * s) as real
      invariant IsGrid(sinogram.Cells(), matrix.width, projections)
      invariant forall j :: 0 <= j < i ==> sinogram.Cells()[j] == ProjectionAt(g, matrix.width, matrix.height, j, s, trig)
    {
      PasteProjection(sinogram, i, matrix, trig(angle));
      assert ColSums(Rotated(g, matrix.width, matrix.height, trig(angle)), matrix.width)
          == ProjectionAt(g, matrix.width, matrix.height, i, s, trig);
      assert (i + 1) * s == i * s + s;
      angle := angle + step;
      i := i + 1;
    }
    assert sinogram.Cells() == Sinogram(g, matrix.width, matrix.height, projections, JavaDiv(range, projections), trig);
    return Ok(sinogram);
  }

  /** The loop body of `makeSinogram`, `sinogram.pasteVector(i,
      rotate(matrix, angle).sumCols())`: row `i` of the sinogram becomes
      the projection for `t`, the oracle's sine and cosine for `angle`. */
  method PasteProjection(sinogram: ArrayCtMatrix, i: int, matrix: ArrayCtMatrix, t: SinCos)
    requires sinogram.Valid() && matrix.Valid() && matrix.width >= 1
    requires sinogram.width == matrix.width && 0 <= i < sinogram.height
    requires sinogram.Repr() !! matrix.Repr()
    modifies sinogram.Repr()
    ensures sinogram.Cells() == old(sinogram.Cells())[i := ColSums(Rotated(matrix.Cells(), matrix.width, matrix.height, t), matrix.width)]
  {
    ghost var g := matrix.Cells();
    var line := Project(matrix, t);
    assert matrix.Cells() == g && sinogram.Cells() == old(sinogram.Cells());
    ghost var pr := line.Elems();
    var _ := sinogram.PasteVector(i, line);
    assert sinogram.Cells() == old(sinogram.Cells())[i := pr];
    assert matrix.Cells() == g;
  }

  /** `rotate(matrix, angle).sumCols()`, given the oracle's sine and cosine
      `t` for `angle`: a fresh vector holding the projection. */
  method Project(matrix: ArrayCtMatrix, t: SinCos) returns (line: ArrayCtVector)
    requires matrix.Valid() && matrix.width >= 1
    ensures fresh(line.data) && line.Valid() && line.Size() == matrix.width
    ensures line.Elems() == ColSums(Rotated(matrix.Cells(), matrix.width, matrix.height, t), matrix.width)
  {
    ghost var g := matrix.Cells();
    var rotated := Rotate(matrix, t);
    assert matrix.Cells() == g;
    ghost var rg := rotated.value.Cells();
    assert rg == Rotated(g, matrix.width, matrix.height, t);
    var sums := rotated.value.SumCols();
    assert rotated.value.Cells() == rg;
    line := sums.value;
    assert line.Elems() == ColSums(rg, matrix.width);
    assert matrix.Cells() == g;
  }

  /** When the angle-0 trigonometry is exact, the first projection is the
      column sums of the phantom itself. */
  lemma FirstProjection(g: Grid, w: int, h: int, n: nat, step: int, trig: Trig)
    requires IsGrid(g, w, h) && 0 <= w && 0 < n
    requires trig(0.0) == SinCos(0.0, 1.0)
    ensures Sinogram(g, w, h, n, step, trig)[0] == ColSums(g, w)
  {
    assert (0 * step) as real == 0.0;
    RotateByZero(g, w, h);
  }

  /** The step is `range / projections` in integer arithmetic, so with more
      projections than degrees it is 0 and every row of the sinogram is the
      same projection, at angle 0. */
  lemma CollapsedProjections(g: Grid, w: int, h: int, range: int, n: nat, trig: Trig)
    requires IsGrid(g, w, h) && 0 <= w
    requires 1 <= range < n
    ensures JavaDiv(range, n) == 0
    ensures forall i :: 0 <= i < n ==>
      Sinogram(g, w, h, n, JavaDiv(range, n), trig)[i] == Projection(g, w, h, 0.0, trig)
  {
  }

  /** The angle `i * (range / n)` of row `i` falls short of the even
      spacing `i * range / n` degrees by `i * (range % n) / n` degrees: the
      rows cover `[0, range)` evenly only when `n` divides `range`. */
  lemma ProjectionAngles(range: int, n: int, i: int)
    requires 1 <= range && 1 <= n && 0 <= i
    ensures (i * JavaDiv(range, n)) as real
         == (i * range) as real / n as real - (i * JavaRem(range, n)) as real / n as real
    ensures 0 <= JavaRem(range, n) < n
  {
    var q, m := JavaDiv(range, n), JavaRem(range, n);
    assert q * n == range - m;
    assert i * q * n == i * range - i * m;
    assert (i * q) as real * n as real == (i * range) as real - (i * m) as real;
  }
}
