/** `Jcte.computeFiler` and `Jcte.applyFilter`: the ramp-like filter kernel
    and its application to every row of a sinogram. Each row is convolved
    with the kernel and replaced by the middle slice of the result, the
    slice where the kernel's centre lines up with the row. */
module Filtering {

  import opened JavaLang
  import opened CtVectors
  import opened Convolution
  import opened Grids
  import opened CtMatrices

  /** `sinc(t)` of `Jcte`: exactly 1 at `t == 0`, otherwise
      `sin(π t) / (π t)`, whose floating-point value is the oracle
      `sinRatio(t)`. */
  function Sinc(sinRatio: real -> real, t: real): (r: real)
    ensures t == 0.0 ==> r == 1.0
  {
    if t == 0.0 then 1.0 else sinRatio(t)
  }

  /** An even oracle gives an even `sinc`: the branch at 0 keeps the
      symmetry, since `-0.0 == 0.0`. */
  lemma SincEven(sinRatio: real -> real, t: real)
    requires forall u: real :: sinRatio(-u) == sinRatio(u)
    ensures Sinc(sinRatio, -t) == Sinc(sinRatio, t)
  {
    if t != 0.0 {
      assert sinRatio(-t) == sinRatio(t);
    }
  }

  /** The kernel value at offset `t` from the centre:
      `sinc(t) / 2 - sinc(t / 2)² / 4`. */
  function KernelAt(sinRatio: real -> real, t: real): real
  {
    var a := Sinc(sinRatio, t);
    var b := Sinc(sinRatio, t / 2.0);
    a / 2.0 - b * b / 4.0
  }

  /** The kernel `computeFiler(size)` returns: `2 size + 1` entries, entry
      `k` the kernel value at offset `k - size`. */
  function FilterKernel(size: nat, sinRatio: real -> real): (r: seq<real>)
    ensures |r| == 2 * size + 1
    ensures forall k :: 0 <= k < |r| ==> r[k] == KernelAt(sinRatio, (k - size) as real)
  {
    seq(2 * size + 1, k requires 0 <= k < 2 * size + 1 => KernelAt(sinRatio, (k - size) as real))
  }

  /** Whatever the oracle, the centre entry is `1/2 - 1/4`, because
      `sinc(0)` is exactly 1. */
  lemma KernelCentre(size: nat, sinRatio: real -> real)
    ensures FilterKernel(size, sinRatio)[size] == 0.25
  {
    assert (size - size) as real == 0.0;
  }

  /** An even oracle (as `sin(π t) / (π t)` is) gives a kernel symmetric
      about its centre, since each entry depends on its offset alone. */
  lemma KernelSymmetric(size: nat, sinRatio: real -> real)
    requires forall t: real :: sinRatio(-t) == sinRatio(t)
    ensures forall p, q :: 0 <= p < 2 * size + 1 && 0 <= q < 2 * size + 1 && p + q == 2 * size ==>
      FilterKernel(size, sinRatio)[p] == FilterKernel(size, sinRatio)[q]
  {
    var k := FilterKernel(size, sinRatio);
    forall p, q | 0 <= p < 2 * size + 1 && 0 <= q < 2 * size + 1 && p + q == 2 * size
      ensures k[p] == k[q]
    {
      var t := (q - size) as real;
      assert (p - size) as real == -t;
      assert -t / 2.0 == -(t / 2.0);
      SincEven(sinRatio, t);
      SincEven(sinRatio, t / 2.0);
    }
  }

  /** `computeFiler(size)` for a non-negative size: the kernel of `2 size + 1`
      entries, built in a fresh vector that first holds the offsets
      `-size .. size` and then the kernel values computed from them. A
      length past `int` (`size >= 2^30`) wraps negative and the factory
      rejects it. */
  method ComputeFilter(size: Int32, sinRatio: real -> real) returns (r: Result<ArrayCtVector>)
    requires 0 <= size
    ensures 2 * size + 1 > MAX_INT ==> r == Err(IllegalArgument)
    ensures 2 * size + 1 <= MAX_INT ==>
      && r.Ok? && fresh(r.value.data) && r.value.Valid()
      && r.value.Elems() == FilterKernel(size, sinRatio)
  {
    var outSize := Wrap32(2 * size + 1);
    var created := CreateArrayCtVector(outSize);
    if created.Err? {
      return created;
    }
    var out := created.value;
    var i := -size;
    while i <= size
      invariant -size <= i <= size + 1
      invariant forall k :: 0 <= k < i + size ==> out.data[k] == (k - size) as real
    {
      var _ := out.Update(i + size, i as real);
      i := i + 1;
    }
    i := 0;
    while i <= outSize - 1
      invariant 0 <= i <= outSize
      invariant forall k :: 0 <= k < i ==> out.data[k] == KernelAt(sinRatio, (k - size) as real)
      invariant forall k :: i <= k < outSize ==> out.data[k] == (k - size) as real
    {
      var sinca := Sinc(sinRatio, out.Get(i).value);
      var sincb := Sinc(sinRatio, out.Get(i).value / 2.0);
      var sincc := sincb * sincb;
      var _ := out.Update(i, (sinca / 2.0) - (sincc / 4.0));
      i := i + 1;
    }
    assert out.Elems() == FilterKernel(size, sinRatio);
    return Ok(out);
  }

  /** Row `a` filtered with kernel `k` of `2 |a| + 1` entries: entries
      `|a| .. 2 |a| - 1` of their convolution, the middle `|a|` of its
      `3 |a|`. An empty row stays empty. */
  function FilteredRow(a: seq<real>, k: seq<real>): (r: seq<real>)
    requires |k| == 2 * |a| + 1
    ensures |r| == |a|
    ensures forall i :: 0 <= i < |a| ==> r[i] == ConvFrom(a, k, 0, |a| + i)
  {
    if |a| == 0 then [] else Conv(a, k)[|a|..2 * |a|]
  }

  /** Every row of `g` filtered with `k`. */
  function Filtered(g: Grid, w: int, k: seq<real>): (r: Grid)
    requires IsGrid(g, w, |g|) && 0 <= w && |k| == 2 * w + 1
    ensures IsGrid(r, w, |g|)
    ensures forall y :: 0 <= y < |g| ==> r[y] == FilteredRow(g[y], k)
  {
    seq(|g|, y requires 0 <= y < |g| => FilteredRow(g[y], k))
  }

  /** The slice is centred: with a kernel that is `c` at its centre and 0
      elsewhere, filtering scales the row by `c`, not shifting it. */
  lemma FilterImpulse(a: seq<real>, k: seq<real>, c: real)
    requires 1 <= |a| && |k| == 2 * |a| + 1
    requires k[|a|] == c && forall j :: 0 <= j < |k| && j != |a| ==> k[j] == 0.0
    ensures forall i :: 0 <= i < |a| ==> FilteredRow(a, k)[i] == c * a[i]
  {
    forall i | 0 <= i < |a|
      ensures ConvFrom(a, k, 0, |a| + i) == c * a[i]
    {
      ImpulseFrom(a, k, c, 0, i);
    }
  }

  lemma {:induction false} ImpulseFrom(a: seq<real>, k: seq<real>, c: real, lo: nat, i: nat)
    requires 1 <= |a| && |k| == 2 * |a| + 1 && i < |a|
    requires k[|a|] == c && forall j :: 0 <= j < |k| && j != |a| ==> k[j] == 0.0
    ensures ConvFrom(a, k, lo, |a| + i) == if lo <= i then c * a[i] else 0.0
    decreases |a| - lo
  {
    if lo < |a| {
      ImpulseFrom(a, k, c, lo + 1, i);
      if lo != i {
        assert k[|a| + i - lo] == 0.0;
      }
    }
  }

  /** `applyFilter(matrix)` for a matrix of non-negative width `w`: every
      row becomes its filtered row, computed with `computeFiler(w)`. The
      kernel cannot be built for `w >= 2^30`, and for `3 w` past `int`
      the first row's convolution raises; both raise
      IllegalArgumentException with nothing changed. A null matrix raises
      NullPointerException. */
  method ApplyFilter(matrix: ArrayCtMatrix?, sinRatio: real -> real) returns (o: Outcome)
    requires matrix != null ==> matrix.Valid() && 0 <= matrix.width
    modifies if matrix != null then matrix.Repr() else {}
    ensures matrix == null ==> o == Fail(NullPointer)
    ensures matrix != null ==>
      && o == (if 2 * matrix.width + 1 > MAX_INT || (matrix.height > 0 && 3 * matrix.width > MAX_INT)
               then Fail(IllegalArgument) else Pass)
      && matrix.Cells() == if o.Pass? then Filtered(old(matrix.Cells()), matrix.width, FilterKernel(matrix.width, sinRatio))
                           else old(matrix.Cells())
  {
    if matrix == null {
      return Fail(NullPointer);
    }
    var created := ComputeFilter(matrix.width, sinRatio);
    if created.Err? {
      return Fail(created.exc);
    }
    var filter := created.value;
    ghost var g := matrix.Cells();
    ghost var k := filter.Elems();
    var y := 0;
    while y < matrix.height
      invariant 0 <= y <= matrix.height
      invariant y > 0 ==> 3 * matrix.width <= MAX_INT
      invariant filter.Elems() == k
      invariant IsGrid(matrix.Cells(), matrix.width, matrix.height)
      invariant forall j :: 0 <= j < y ==> matrix.Cells()[j] == FilteredRow(g[j], k)
      invariant forall j :: y <= j < matrix.height ==> matrix.Cells()[j] == g[j]
    {
      var res := FilterRow(matrix, y, filter);
      if res.Fail? {
        assert y == 0;
        return res;
      }
      y := y + 1;
    }
    assert matrix.Cells() == Filtered(g, matrix.width, k);
    o := Pass;
  }

  /** One turn of the row loop of `applyFilter`: row `y` is convolved with
      the kernel and overwritten, cell by cell, with entries `start .. end`
      of the convolution, `start = (3w - w) / 2 = w` and
      `end = 3w - start - 1 = 2w - 1`; 3w past `int` makes the
      convolution raise before anything changes. */
  method FilterRow(matrix: ArrayCtMatrix, y: int, filter: ArrayCtVector) returns (o: Outcome)
    requires matrix.Valid() && filter.Valid() && filter.data !in matrix.Repr()
    requires 0 <= y < matrix.height && filter.Size() == 2 * matrix.width + 1
    modifies matrix.Repr()
    ensures o == if 3 * matrix.width > MAX_INT then Fail(IllegalArgument) else Pass
    ensures matrix.Cells() == if o.Pass? then old(matrix.Cells())[y := FilteredRow(old(matrix.Cells())[y], filter.Elems())]
                              else old(matrix.Cells())
  {
    var row := matrix.GetVector(y).value;
    var tmp := row.Conv(filter);
    if tmp.Err? {
      return Fail(tmp.exc);
    }
    var conv := tmp.value;
    ghost var c := conv.Elems();
    var start := JavaDiv(conv.Size() - matrix.width, 2);
    assert start == matrix.width;
    ghost var before := matrix.Cells();
    assert c == Conv(before[y], filter.Elems());
    CopySlice(row, conv, start);
    assert row.data[..] == FilteredRow(before[y], filter.Elems());
    assert forall j :: 0 <= j < matrix.height && j != y ==> matrix.rows[j].data != row.data;
    assert matrix.Cells() == before[y := row.data[..]];
    o := Pass;
  }

  /** The inner loop of `applyFilter`: entries `start .. end` of `source`,
      `end = start + n - 1`, copied in order over the `n` entries of
      `target`. */
  method CopySlice(target: ArrayCtVector, source: ArrayCtVector, start: int)
    requires target.Valid() && source.Valid() && target.data != source.data
    requires 0 <= start && start + target.Size() <= source.Size()
    modifies target.data
    ensures target.Elems() == source.Elems()[start..start + target.Size()]
  {
    var i := start;
    var end := start + target.Size() - 1;
    while i <= end
      invariant start <= i <= end + 1
      invariant forall p :: 0 <= p < i - start ==> target.data[p] == source.data[p + start]
    {
      var _ := target.Update(i - start, source.Get(i).value);
      i := i + 1;
    }
  }
}
