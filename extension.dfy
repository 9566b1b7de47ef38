/** `Jcte.extend`: pads a phantom into a zero matrix large enough to hold it
    in any rotation, the phantom placed centrally. */
module Extension {

  import opened JavaLang
  import opened Grids
  import opened CtMatrices

  /** The least `r` with `r * r >= n`, searched upward from `k`. */
  function CeilSqrtFrom(n: nat, k: nat): (r: nat)
    requires k == 0 || (k - 1) * (k - 1) < n
    ensures r * r >= n && (r == 0 || (r - 1) * (r - 1) < n)
    decreases n - k
  {
    if k * k >= n then k
    else
      assert k <= k * k;
      CeilSqrtFrom(n, k + 1)
  }

  /** `(int) Math.ceil(Math.sqrt(n))` for `0 <= n <= MAX_INT`: `n` and every
      square up to it are exact doubles, and a non-square `n` lies far enough
      from the next square that the rounded root is never ceiled past it, so
      the value is the exact integer ceiling of the square root. */
  function CeilSqrt(n: nat): (r: nat)
    ensures r * r >= n && (r == 0 || (r - 1) * (r - 1) < n)
  {
    CeilSqrtFrom(n, 0)
  }

  lemma SquareLess(a: nat, b: nat)
    requires a < b
    ensures a * a < b * b
  {
    assert a * a <= a * b < b * b;
  }

  /** The ceiling root of an `int` is at most 46341, the ceiling root of
      `MAX_INT`. */
  lemma CeilSqrtBound(n: nat)
    requires n <= MAX_INT
    ensures CeilSqrt(n) <= 46341
  {
    var r := CeilSqrt(n);
    if r > 46341 {
      SquareLess(46341, r - 1);
    }
  }

  /** The diagonal `extend` computes from the phantom's width and height:
      `w * w + h * h` in wrapping `int` arithmetic, and its ceiling root;
      the root of a sum that wrapped negative is NaN, which casts to 0. */
  function Diagonal(w: Int32, h: Int32): (d: int)
    ensures 0 <= d <= 46341
  {
    var n := Wrap32(Wrap32(w * w) + Wrap32(h * h));
    if n < 0 then 0
    else
      CeilSqrtBound(n);
      CeilSqrt(n)
  }

  /** `d`, or `d + 1` when that is needed to match the parity of `p`
      (compared with Java's `%`). */
  function MatchParity(d: int, p: int): int
  {
    if JavaRem(p, 2) != JavaRem(d, 2) then d + 1 else d
  }

  /** The adjusted side is the diagonal or one more; for non-negative
      operands it has the parity of `p`, and `d` is kept when it already
      has it. */
  lemma ParityMatched(d: int, p: int)
    ensures MatchParity(d, p) == d || MatchParity(d, p) == d + 1
    ensures 0 <= d && 0 <= p ==> MatchParity(d, p) % 2 == p % 2
    ensures 0 <= d && 0 <= p && d % 2 == p % 2 ==> MatchParity(d, p) == d
  {
  }

  /** The width and the height of the extension of a `w` by `h` phantom. */
  function ExtendedWidth(w: Int32, h: Int32): nat
  {
    MatchParity(Diagonal(w, h), w)
  }

  function ExtendedHeight(w: Int32, h: Int32): nat
  {
    MatchParity(Diagonal(w, h), h)
  }

  /** The `w` by `h` phantom `g` centred in a zero `ew` by `eh` matrix, or
      the exception raised: creating the matrix fails for a height of at
      least 1 and a width of 0, and the paste at
      `((ew - w) / 2, (eh - h) / 2)` may raise. */
  function Padded(g: Grid, w: Int32, h: Int32, ew: nat, eh: nat): Result<Grid>
    requires IsGrid(g, w, h) && ew <= MAX_INT && eh <= MAX_INT
  {
    if eh >= 1 && ew < 1 then Err(IllegalArgument)
    else PastedGrid(Zeros(ew, eh), ew, eh, JavaDiv(ew - w, 2), JavaDiv(eh - h, 2), g, w, h)
  }

  /** The cells `extend` produces from phantom `g`, or the exception it
      raises. */
  function Extended(g: Grid, w: Int32, h: Int32): Result<Grid>
    requires IsGrid(g, w, h)
  {
    Padded(g, w, h, ExtendedWidth(w, h), ExtendedHeight(w, h))
  }

  /** `extend(matrix)`: a null matrix raises NullPointerException. Otherwise
      the result is a fresh matrix of the extended size holding the
      extended cells, or the exception creating or pasting raises. The
      phantom does not change. */
  method Extend(matrix: ArrayCtMatrix?) returns (r: Result<ArrayCtMatrix>)
    requires matrix != null ==> matrix.Valid()
    ensures matrix == null ==> r == Err(NullPointer)
    ensures matrix != null ==>
      var e := Extended(matrix.Cells(), matrix.width, matrix.height);
      && (e.Err? ==> r == Err(e.exc))
      && (e.Ok? ==>
            && r.Ok? && r.value.Valid() && fresh(r.value.Repr())
            && r.value.width == ExtendedWidth(matrix.width, matrix.height)
            && r.value.height == ExtendedHeight(matrix.width, matrix.height)
            && r.value.Cells() == e.value)
  {
    if matrix == null {
      return Err(NullPointer);
    }
    var diagonal := Diagonal(matrix.width, matrix.height);
    var w := diagonal;
    var h := diagonal;
    if JavaRem(matrix.width, 2) != JavaRem(w, 2) {
      w := w + 1;
    }
    if JavaRem(matrix.height, 2) != JavaRem(h, 2) {
      h := h + 1;
    }
    assert w == ExtendedWidth(matrix.width, matrix.height);
    assert h == ExtendedHeight(matrix.width, matrix.height);
    ghost var g := matrix.Cells();
    r := ExtendInto(matrix, w, h);
    assert matrix.Cells() == g;
  }

  /** The second half of `extend`, once the size `w` by `h` is chosen: a
      zero matrix of that size with the phantom pasted at
      `((w - width) / 2, (h - height) / 2)`. */
  method ExtendInto(matrix: ArrayCtMatrix, w: nat, h: nat) returns (r: Result<ArrayCtMatrix>)
    requires matrix.Valid() && w <= MAX_INT && h <= MAX_INT
    ensures var p := Padded(matrix.Cells(), matrix.width, matrix.height, w, h);
      && (p.Err? ==> r == Err(p.exc))
      && (p.Ok? ==> r.Ok? && r.value.Valid() && fresh(r.value.Repr())
                    && r.value.width == w && r.value.height == h && r.value.Cells() == p.value)
  {
    var startx := JavaDiv(w - matrix.width, 2);
    var starty := JavaDiv(h - matrix.height, 2);
    ghost var g := matrix.Cells();
    var created := CreateArrayCtMatrix(w, h);
    if created.Err? {
      return created;
    }
    var nfl := created.value;
    assert matrix.Cells() == g;
    ZerosUnique(nfl.Cells(), w, h);
    var pasted := nfl.Paste(startx, starty, matrix);
    assert matrix.Cells() == g;
    if pasted.Fail? {
      return Err(pasted.exc);
    }
    return Ok(nfl);
  }

  /** Without overflow in `w * w + h * h`, the extension is as its
      documentation says: at least the diagonal across, so at least as wide
      and as tall as the phantom, with equal margins on opposite sides. */
  lemma ExtendedSize(w: Int32, h: Int32)
    requires 0 <= w && 0 <= h && w * w + h * h <= MAX_INT
    ensures var d := Diagonal(w, h);
      var ew := ExtendedWidth(w, h);
      var eh := ExtendedHeight(w, h);
      && d * d >= w * w + h * h
      && w <= ew && h <= eh
      && ew == JavaDiv(ew - w, 2) + w + JavaDiv(ew - w, 2)
      && eh == JavaDiv(eh - h, 2) + h + JavaDiv(eh - h, 2)
  {
    var ww, hh := w * w, h * h;
    SquareNonNegative(w);
    SquareNonNegative(h);
    var d := CeilSqrt(ww + hh);
    assert Diagonal(w, h) == d;
    CeilSqrtCovers(ww + hh, w);
    CeilSqrtCovers(ww + hh, h);
    Margins(d, w);
    Margins(d, h);
  }

  lemma SquareNonNegative(x: int)
    ensures x * x >= 0
  {
  }

  /** Any `x` whose square is at most `n` is at most the ceiling root. */
  lemma CeilSqrtCovers(n: nat, x: nat)
    requires x * x <= n
    ensures x <= CeilSqrt(n)
  {
    var r := CeilSqrt(n);
    if r < x {
      SquareLess(r, x);
    }
  }

  /** Matching the parity of `p <= d` leaves equal margins on both sides. */
  lemma Margins(d: nat, p: nat)
    requires p <= d
    ensures var e := MatchParity(d, p);
      p <= e && e == JavaDiv(e - p, 2) + p + JavaDiv(e - p, 2)
  {
  }

  /** Without overflow, the extension of a phantom with at least one row
      holds the whole phantom at the margins' offset and zeros all around. */
  lemma ExtendCentred(g: Grid, w: Int32, h: Int32)
    requires IsGrid(g, w, h) && 1 <= w && 1 <= h && w * w + h * h <= MAX_INT
    ensures var ew := ExtendedWidth(w, h);
      var eh := ExtendedHeight(w, h);
      var sx := JavaDiv(ew - w, 2);
      var sy := JavaDiv(eh - h, 2);
      && Extended(g, w, h).Ok?
      && IsGrid(Extended(g, w, h).value, ew, eh)
      && forall j, i :: 0 <= j < eh && 0 <= i < ew ==>
           Extended(g, w, h).value[j][i] == if sy <= j < sy + h && sx <= i < sx + w then g[j - sy][i - sx] else 0.0
  {
    ExtendedSize(w, h);
    var ew, eh := ExtendedWidth(w, h), ExtendedHeight(w, h);
    PaddedCentred(g, w, h, ew, eh);
    assert Extended(g, w, h) == Padded(g, w, h, ew, eh);
  }

  /** A phantom padded with equal margins is held whole, zeros around it. */
  lemma PaddedCentred(g: Grid, w: Int32, h: Int32, ew: nat, eh: nat)
    requires IsGrid(g, w, h) && 1 <= w <= ew <= MAX_INT && 1 <= h <= eh <= MAX_INT
    requires ew == JavaDiv(ew - w, 2) + w + JavaDiv(ew - w, 2)
    requires eh == JavaDiv(eh - h, 2) + h + JavaDiv(eh - h, 2)
    ensures var sx := JavaDiv(ew - w, 2);
      var sy := JavaDiv(eh - h, 2);
      && Padded(g, w, h, ew, eh).Ok?
      && IsGrid(Padded(g, w, h, ew, eh).value, ew, eh)
      && forall j, i :: 0 <= j < eh && 0 <= i < ew ==>
           Padded(g, w, h, ew, eh).value[j][i] == if sy <= j < sy + h && sx <= i < sx + w then g[j - sy][i - sx] else 0.0
  {
    var sx := JavaDiv(ew - w, 2);
    var sy := JavaDiv(eh - h, 2);
    assert Min(h, eh - sy) == h && Min(w, ew - sx) == w;
    PastedRegion(Zeros(ew, eh), ew, eh, sx, sy, g, w, h);
  }
}
