/** `Jcte.rotate`: nearest-neighbour rotation of a matrix about its centre,
    by inverse mapping. Every output pixel is mapped back onto the input
    grid and takes the value it lands on, or 0 outside the input. */
module Rotation {

  import opened JavaLang
  import opened CtVectors
  import opened Grids
  import opened CtMatrices

  /** `Math.sin(α)` and `Math.cos(α)` for the angle `α = (-angle)·π/180`
      that `rotate` derives from its argument in degrees. */
  datatype SinCos = SinCos(sin: real, cos: real)

  /** The trigonometry of `rotate` as an oracle: angle in degrees to the
      sine and cosine the Java code computes for it. */
  type Trig = real -> SinCos

  /** Pixel `p` of an axis of `n` pixels as an odd coordinate about the
      centre pixel `n / 2`: `2 (p - n/2) + 1`. */
  function Centred(p: int, n: int): int
  {
    2 * (p - JavaDiv(n, 2)) + 1
  }

  /** From an odd coordinate back to a pixel index: `(c - 1) / 2 + n / 2`,
      with Java's truncating division. */
  function Uncentred(c: int, n: int): int
  {
    JavaDiv(c - 1, 2) + JavaDiv(n, 2)
  }

  /** The two maps are inverse on pixel indices. */
  lemma UncentredCentred(p: int, n: int)
    ensures Uncentred(Centred(p, n), n) == p
  {
    JavaDivEven(p - JavaDiv(n, 2));
  }

  /** The first coordinate of `(ex, ey)` rotated by `α`, rounded with
      `Math.round`. */
  function RotX(ex: int, ey: int, t: SinCos): int
  {
    Round(ex as real * t.cos - ey as real * t.sin)
  }

  /** The second coordinate of `(ex, ey)` rotated by `α`, rounded. */
  function RotY(ex: int, ey: int, t: SinCos): int
  {
    Round(ex as real * t.sin + ey as real * t.cos)
  }

  /** The input pixel `(orgX, orgY)` that `rotate` reads for output pixel
      `(x, y)` of a `w` by `h` matrix: the centred coordinates rotated by
      `α` and rounded, then mapped back to indices. */
  function RotSource(w: int, h: int, t: SinCos, x: int, y: int): (int, int)
  {
    var ex := Centred(x, w);
    var ey := Centred(y, h);
    (Uncentred(RotX(ex, ey, t), w), Uncentred(RotY(ex, ey, t), h))
  }

  /** `RotSource` computed the way `rotate` does, one step at a time. */
  lemma RotSourceSteps(w: int, h: int, t: SinCos, x: int, y: int, elX: int, elY: int)
    requires elX == 2 * (x - JavaDiv(w, 2)) + 1 && elY == Centred(y, h)
    ensures RotSource(w, h, t, x, y)
         == (JavaDiv(RotX(elX, elY, t) - 1, 2) + JavaDiv(w, 2), JavaDiv(RotY(elX, elY, t) - 1, 2) + JavaDiv(h, 2))
  {
  }

  /** Output pixel `(x, y)`: the input value at its source pixel, or 0 when
      the source falls outside the input. */
  function RotCell(g: Grid, w: int, h: int, t: SinCos, x: int, y: int): real
    requires IsGrid(g, w, h)
  {
    var src := RotSource(w, h, t, x, y);
    if 0 <= src.0 < w && 0 <= src.1 < h then g[src.1][src.0] else 0.0
  }

  /** The value of an output pixel, given its source pixel. */
  lemma RotCellAt(g: Grid, w: int, h: int, t: SinCos, x: int, y: int, orgX: int, orgY: int)
    requires IsGrid(g, w, h) && RotSource(w, h, t, x, y) == (orgX, orgY)
    ensures RotCell(g, w, h, t, x, y) == if 0 <= orgX < w && 0 <= orgY < h then g[orgY][orgX] else 0.0
  {
  }

  /** Row `y` of the rotated grid. */
  function RotatedRow(g: Grid, w: int, h: int, t: SinCos, y: int): (r: seq<real>)
    requires IsGrid(g, w, h) && 0 <= y < h
    ensures |r| == w
    ensures forall x :: 0 <= x < w ==> r[x] == RotCell(g, w, h, t, x, y)
  {
    assert |g[y]| == w;
    seq(w, x requires 0 <= x < w => RotCell(g, w, h, t, x, y))
  }

  /** The grid `rotate` produces from `g`: same shape, every pixel filled
      from its source pixel. */
  function Rotated(g: Grid, w: int, h: int, t: SinCos): (r: Grid)
    requires IsGrid(g, w, h)
    ensures IsGrid(r, w, h)
    ensures forall y :: 0 <= y < h ==> r[y] == RotatedRow(g, w, h, t, y)
  {
    seq(h, y requires 0 <= y < h => RotatedRow(g, w, h, t, y))
  }

  /** `rotate(matrix, angle)`, given `t`, the sine and cosine the oracle
      yields for `angle`: a fresh matrix of the same width and height
      holding the rotated image; the input does not change (nothing is in
      this method's frame). A null matrix raises. */
  method Rotate(matrix: ArrayCtMatrix?, t: SinCos) returns (r: Result<ArrayCtMatrix>)
    requires matrix != null ==> matrix.Valid()
    ensures matrix == null ==> r == Err(IllegalArgument)
    ensures matrix != null ==>
      && r.Ok? && r.value.Valid() && fresh(r.value.Repr())
      && r.value.width == matrix.width && r.value.height == matrix.height
      && r.value.Cells() == Rotated(matrix.Cells(), matrix.width, matrix.height, t)
  {
    if matrix == null {
      return Err(IllegalArgument);
    }
    assert matrix.height > 0 ==> matrix.rows[0].Size() == matrix.width;
    var created := CreateArrayCtMatrix(matrix.width, matrix.height);
    var out := created.value;
    var inXCenter := JavaDiv(matrix.width, 2);
    var inYCenter := JavaDiv(matrix.height, 2);
    ghost var g := matrix.Cells();
    var y := 0;
    while y < matrix.height
      invariant 0 <= y <= matrix.height
      invariant out.Valid() && fresh(out.Repr())
      invariant out.width == matrix.width && out.height == matrix.height
      invariant matrix.Cells() == g
      invariant IsGrid(out.Cells(), matrix.width, matrix.height)
      invariant forall j :: 0 <= j < y ==> out.Cells()[j] == RotatedRow(g, matrix.width, matrix.height, t, j)
    {
      var elY := 2 * (y - inYCenter) + 1;
      var row := out.GetVector(y).value;
      RotateRow(matrix, row, t, y, elY, inXCenter, inYCenter);
      assert forall j :: 0 <= j < out.height && j != y ==> out.rows[j].data != row.data;
      y := y + 1;
    }
    assert out.Cells() == Rotated(g, matrix.width, matrix.height, t);
    return Ok(out);
  }

  /** The inner loop of `rotate`: fills row `y` of the output, which is
      held by the vector `row` (`out.update(x, y, v)` stores into the row
      vector of row `y`), and changes nothing else. */
  method RotateRow(matrix: ArrayCtMatrix, row: ArrayCtVector, t: SinCos, y: int, elY: int, inXCenter: int, inYCenter: int)
    requires matrix.Valid() && row.Valid() && row.data !in matrix.Repr()
    requires row.Size() == matrix.width && 0 <= y < matrix.height
    requires inXCenter == JavaDiv(matrix.width, 2) && inYCenter == JavaDiv(matrix.height, 2)
    requires elY == Centred(y, matrix.height)
    modifies row.data
    ensures row.Elems() == RotatedRow(matrix.Cells(), matrix.width, matrix.height, t, y)
  {
    ghost var g := matrix.Cells();
    var x := 0;
    while x < matrix.width
      invariant 0 <= x <= matrix.width
      invariant matrix.Cells() == g
      invariant forall i :: 0 <= i < x ==> row.data[i] == RotCell(g, matrix.width, matrix.height, t, i, y)
    {
      RotatePixel(matrix, row, t, x, y, elY, inXCenter, inYCenter);
      x := x + 1;
    }
    assert row.Elems() == RotatedRow(g, matrix.width, matrix.height, t, y);
  }

  /** One turn of the inner loop of `rotate`: output pixel `(x, y)` gets
      the value of its source pixel, or 0. */
  method RotatePixel(matrix: ArrayCtMatrix, row: ArrayCtVector, t: SinCos, x: int, y: int, elY: int, inXCenter: int, inYCenter: int)
    requires matrix.Valid() && row.data !in matrix.Repr()
    requires row.Size() == matrix.width && 0 <= x < matrix.width && 0 <= y < matrix.height
    requires inXCenter == JavaDiv(matrix.width, 2) && inYCenter == JavaDiv(matrix.height, 2)
    requires elY == Centred(y, matrix.height)
    modifies row.data
    ensures row.Elems() == old(row.Elems())[x := RotCell(matrix.Cells(), matrix.width, matrix.height, t, x, y)]
  {
    var elX := 2 * (x - inXCenter) + 1;
    var rotX := RotX(elX, elY, t);
    var rotY := RotY(elX, elY, t);
    var orgX := JavaDiv(rotX - 1, 2) + inXCenter;
    var orgY := JavaDiv(rotY - 1, 2) + inYCenter;
    RotSourceSteps(matrix.width, matrix.height, t, x, y, elX, elY);
    RotCellAt(matrix.Cells(), matrix.width, matrix.height, t, x, y, orgX, orgY);
    if orgX >= 0 && orgX < matrix.width && orgY >= 0 && orgY < matrix.height {
      var _ := row.Update(x, matrix.Get(orgX, orgY).value);
    } else {
      var _ := row.Update(x, 0.0);
    }
  }

  /** With `sin α = 0` and `cos α = 1` (angle 0) every pixel is its own
      source. */
  lemma ZeroTurnSource(w: int, h: int, x: int, y: int)
    ensures RotSource(w, h, SinCos(0.0, 1.0), x, y) == (x, y)
  {
    var ex, ey := Centred(x, w), Centred(y, h);
    assert ex as real * 1.0 - ey as real * 0.0 == ex as real;
    assert ex as real * 0.0 + ey as real * 1.0 == ey as real;
    RoundOfInt(ex);
    RoundOfInt(ey);
    UncentredCentred(x, w);
    UncentredCentred(y, h);
  }

  /** So rotating by angle 0 returns an exact copy. */
  lemma RotateByZero(g: Grid, w: int, h: int)
    requires IsGrid(g, w, h)
    ensures Rotated(g, w, h, SinCos(0.0, 1.0)) == g
  {
    var r := Rotated(g, w, h, SinCos(0.0, 1.0));
    forall y | 0 <= y < h
      ensures r[y] == g[y]
    {
      forall x | 0 <= x < w
        ensures r[y][x] == g[y][x]
      {
        ZeroTurnSource(w, h, x, y);
        RotCellAt(g, w, h, SinCos(0.0, 1.0), x, y, x, y);
      }
    }
  }

  /** Under a half turn (`sin α = 0`, `cos α = -1`) pixel `p` of an axis of
      `n` pixels reads pixel `2 (n/2) - 1 - p`: the mirror image `n - 1 - p`
      when `n` is even, but `n - 2 - p` when `n` is odd, because the odd
      coordinates put the centre of an odd axis half a pixel off its
      middle pixel. */
  lemma HalfTurnSource(w: int, h: int, x: int, y: int)
    ensures RotSource(w, h, SinCos(0.0, -1.0), x, y)
         == (2 * JavaDiv(w, 2) - 1 - x, 2 * JavaDiv(h, 2) - 1 - y)
  {
    var ex, ey := Centred(x, w), Centred(y, h);
    assert ex as real * -1.0 - ey as real * 0.0 == (-ex) as real;
    assert ex as real * 0.0 + ey as real * -1.0 == (-ey) as real;
    RoundOfInt(-ex);
    RoundOfInt(-ey);
    JavaDivEven(-(x - JavaDiv(w, 2)) - 1);
    JavaDivEven(-(y - JavaDiv(h, 2)) - 1);
    assert -ex - 1 == 2 * (-(x - JavaDiv(w, 2)) - 1);
    assert -ey - 1 == 2 * (-(y - JavaDiv(h, 2)) - 1);
  }

  /** On a grid of even width and height a half turn is the point
      reflection through the centre. */
  lemma HalfTurnEven(g: Grid, w: int, h: int)
    requires IsGrid(g, w, h) && w % 2 == 0 && h % 2 == 0
    ensures forall y, x :: 0 <= y < h && 0 <= x < w ==>
      Rotated(g, w, h, SinCos(0.0, -1.0))[y][x] == g[h - 1 - y][w - 1 - x]
  {
    forall y, x | 0 <= y < h && 0 <= x < w
      ensures Rotated(g, w, h, SinCos(0.0, -1.0))[y][x] == g[h - 1 - y][w - 1 - x]
    {
      HalfTurnSource(w, h, x, y);
      RotCellAt(g, w, h, SinCos(0.0, -1.0), x, y, w - 1 - x, h - 1 - y);
    }
  }

  /** Two half turns restore a grid of even width and height. */
  lemma HalfTurnTwiceEven(g: Grid, w: int, h: int)
    requires IsGrid(g, w, h) && w % 2 == 0 && h % 2 == 0
    ensures Rotated(Rotated(g, w, h, SinCos(0.0, -1.0)), w, h, SinCos(0.0, -1.0)) == g
  {
    var half := SinCos(0.0, -1.0);
    var r := Rotated(g, w, h, half);
    HalfTurnEven(g, w, h);
    HalfTurnEven(r, w, h);
    forall y | 0 <= y < h
      ensures Rotated(r, w, h, half)[y] == g[y]
    {
      forall x | 0 <= x < w
        ensures Rotated(r, w, h, half)[y][x] == g[y][x]
      {
        assert Rotated(r, w, h, half)[y][x] == r[h - 1 - y][w - 1 - x];
      }
    }
  }

  /** On a grid of odd width a half turn reads every pixel one column to the
      left of its mirror image, so the last column comes out all 0 whatever
      the input holds. */
  lemma HalfTurnOddWidth(g: Grid, w: int, h: int)
    requires IsGrid(g, w, h) && w >= 1 && w % 2 == 1
    ensures forall y :: 0 <= y < h ==> Rotated(g, w, h, SinCos(0.0, -1.0))[y][w - 1] == 0.0
  {
    forall y | 0 <= y < h
      ensures Rotated(g, w, h, SinCos(0.0, -1.0))[y][w - 1] == 0.0
    {
      assert JavaDiv(w, 2) == (w - 1) / 2;
      HalfTurnSource(w, h, w - 1, y);
      RotCellAt(g, w, h, SinCos(0.0, -1.0), w - 1, y, -1, 2 * JavaDiv(h, 2) - 1 - y);
    }
  }

  /** A rotated zero grid is zero. */
  lemma RotatedZero(g: Grid, w: int, h: int, t: SinCos)
    requires IsGrid(g, w, h) && AllZero(g)
    ensures AllZero(Rotated(g, w, h, t))
  {
  }
}
