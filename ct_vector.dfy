/** The vector container: `CtVector` (the documented contract) and
    `ArrayCtVector` (its array implementation), with `CtVectorFactory`'s
    creation methods folded in. A vector is a fixed-size array of reals that
    its operations change in place. */
module CtVectors {

  import opened JavaLang
  import opened Convolution

  /** `d` with `s` written over it from position `x` on. */
  function Overwrite(d: seq<real>, x: nat, s: seq<real>): (r: seq<real>)
    requires x + |s| <= |d|
    ensures |r| == |d|
  {
    seq(|d|, i requires 0 <= i < |d| => if x <= i < x + |s| then s[i - x] else d[i])
  }

  /** Overwriting is splicing `s` between the untouched head and tail. */
  lemma OverwriteIsSplice(d: seq<real>, x: nat, s: seq<real>)
    requires x + |s| <= |d|
    ensures Overwrite(d, x, s) == d[..x] + s + d[x + |s|..]
  {
    var r := Overwrite(d, x, s);
    var t := d[..x] + s + d[x + |s|..];
    assert |r| == |t|;
    forall i | 0 <= i < |d|
      ensures r[i] == t[i]
    {
      if i < x {
        assert t[i] == d[..x][i];
      } else if i < x + |s| {
        assert t[i] == (d[..x] + s)[i];
      } else {
        assert t[i] == d[x + |s|..][i - x - |s|];
      }
    }
  }

  /** What a vector holds after `paste` copied its own first `n` entries to
      position `x`, front to back: an entry written earlier is read again
      later, so positions `x .. x + n - 1` repeat the first `x` entries. */
  function SelfPasted(d: seq<real>, x: nat, n: nat): (r: seq<real>)
    requires x + n <= |d|
    ensures |r| == |d|
  {
    seq(|d|, i requires 0 <= i < |d| => if 0 < x && x <= i < x + n then d[Wrapped(i, x)] else d[i])
  }

  /** `i mod x`, by repeated subtraction. */
  function Wrapped(i: nat, x: nat): (r: nat)
    requires 0 < x
    ensures r < x
    decreases i
  {
    if i < x then i else Wrapped(i - x, x)
  }

  /** When the source prefix ends before the target position, copying a
      vector into itself is an ordinary overwrite with its own prefix. */
  lemma SelfPasteWithoutOverlap(d: seq<real>, x: nat, n: nat)
    requires x + n <= |d| && n <= x
    ensures SelfPasted(d, x, n) == Overwrite(d, x, d[..n])
  {
    forall i | x <= i < x + n
      ensures d[Wrapped(i, x)] == d[..n][i - x]
    {
      assert Wrapped(i, x) == Wrapped(i - x, x) == i - x;
    }
  }

  /** The number of entries `paste` copies: the source size, cut down to the
      room `size - x` left after the offset, computed in 32-bit `int`. */
  function PasteWidth(srcSize: int, size: int, x: Int32): int
  {
    var room := Wrap32(size - x);
    if srcSize > room then room else srcSize
  }

  /** The effect of `paste(x, src)` on a vector holding `d`, where `src`
      holds `s`; `aliased` says that `src` shares the receiver's array.
      Either the new contents, or the exception the first array store
      raises (before anything is written). */
  function Pasted(d: seq<real>, x: Int32, s: seq<real>, aliased: bool): Result<seq<real>>
    requires aliased ==> s == d
  {
    var n := PasteWidth(|s|, |d|, x);
    if n <= 0 then Ok(d)
    else if x < 0 then Err(IndexOutOfBounds)
    else if aliased then Ok(SelfPasted(d, x, n))
    else Ok(Overwrite(d, x, s[..n]))
  }

  /** A paste raises exactly when it has entries to copy and starts at a
      negative offset, and then with an index error. */
  lemma PastedOutcome(d: seq<real>, x: Int32, s: seq<real>, aliased: bool)
    requires aliased ==> s == d
    ensures Pasted(d, x, s, aliased).Ok? <==> !(PasteWidth(|s|, |d|, x) > 0 && x < 0)
    ensures Pasted(d, x, s, aliased).Err? ==> Pasted(d, x, s, aliased).exc == IndexOutOfBounds
  {
  }

  /** Pasting at a non-negative offset overwrites positions
      `x .. x + min(|s|, |d| - x) - 1` with the leading entries of `s` and
      leaves every other position alone; at `x >= |d|` nothing changes. */
  lemma PasteAtOffset(d: seq<real>, x: Int32, s: seq<real>)
    requires 1 <= |d| <= MAX_INT && 1 <= |s|
    requires 0 <= x
    ensures Pasted(d, x, s, false).Ok?
    ensures var n := Min(|s|, |d| - x);
      Pasted(d, x, s, false).value
      == seq(|d|, i requires 0 <= i < |d| => if x <= i < x + n then s[i - x] else d[i])
    ensures x >= |d| ==> Pasted(d, x, s, false).value == d
  {
    assert Wrap32(|d| - x) == |d| - x;
  }

  /** A negative offset raises an index error on the first store, unless
      `size - x` overflows `int`, in which case the paste silently does
      nothing. */
  lemma PasteAtNegativeOffset(d: seq<real>, x: Int32, s: seq<real>, aliased: bool)
    requires 1 <= |d| <= MAX_INT && 1 <= |s|
    requires aliased ==> s == d
    requires x < 0
    ensures |d| - x <= MAX_INT ==> Pasted(d, x, s, aliased) == Err(IndexOutOfBounds)
    ensures |d| - x > MAX_INT ==> Pasted(d, x, s, aliased) == Ok(d)
  {
    if |d| - x > MAX_INT {
      assert Wrap32(|d| - x) == |d| - x - 0x1_0000_0000;
    }
  }

  /** `n` zeros, what a new Java `double[n]` holds. */
  function ZeroVector(n: nat): (r: seq<real>)
    ensures |r| == n && forall i :: 0 <= i < n ==> r[i] == 0.0
  {
    seq(n, _ => 0.0)
  }

  /** Elementwise sum. */
  function Added(a: seq<real>, b: seq<real>): (r: seq<real>)
    requires |a| == |b|
    ensures |r| == |a|
    ensures forall p :: 0 <= p < |a| ==> r[p] == a[p] + b[p]
  {
    seq(|a|, p requires 0 <= p < |a| => a[p] + b[p])
  }

  /** A vector of reals backed by an array. `data` is never reassigned, so
      two vectors alias exactly when they share the array. */
  class ArrayCtVector {

    const data: array<real>

    /** The Java vector is never empty, and its length fits in an `int`. */
    predicate Valid()
    {
      1 <= data.Length <= MAX_INT
    }

    function Size(): int
    {
      data.Length
    }

    ghost function Elems(): seq<real>
      reads data
    {
      data[..]
    }

    /** `ArrayCtVector(int)` for an admissible size: `size` zeros. */
    constructor (size: int)
      requires 1 <= size <= MAX_INT
      ensures Valid() && Size() == size && fresh(data)
      ensures Elems() == ZeroVector(size)
    {
      data := new real[size](_ => 0.0);
    }

    /** `ArrayCtVector(double[])` for a non-empty array: the vector adopts the
        array itself, no copy is made. */
    constructor Adopt(a: array<real>)
      requires 1 <= a.Length <= MAX_INT
      ensures Valid() && data == a
    {
      data := a;
    }

    /** `update(x, val)`: stores `val` at `x`; any other index raises. */
    method Update(x: int, val: real) returns (o: Outcome)
      modifies data
      ensures o == if 0 <= x < Size() then Pass else Fail(IndexOutOfBounds)
      ensures Elems() == if o.Pass? then old(Elems())[x := val] else old(Elems())
    {
      if !(0 <= x < data.Length) {
        return Fail(IndexOutOfBounds);
      }
      data[x] := val;
      o := Pass;
    }

    /** `get(x)`: the entry at `x`; any other index raises. */
    function Get(x: int): (r: Result<real>)
      reads data
      ensures r.Ok? <==> 0 <= x < Size()
      ensures r.Ok? ==> r.value == Elems()[x]
    {
      if 0 <= x < data.Length then Ok(data[x]) else Err(IndexOutOfBounds)
    }

    /** `conv(filter)`: a fresh vector of size `size + filter.size - 1`
        holding the full convolution; neither operand changes. A null
        filter raises, and so does a result size past `int` (the Java sum
        wraps negative and the factory rejects it). */
    method Conv(filter: ArrayCtVector?) returns (r: Result<ArrayCtVector>)
      requires Valid() && (filter != null ==> filter.Valid())
      ensures filter == null ==> r == Err(IllegalArgument)
      ensures filter != null && Size() + filter.Size() - 1 > MAX_INT ==> r == Err(IllegalArgument)
      ensures filter != null && Size() + filter.Size() - 1 <= MAX_INT ==>
        && r.Ok? && fresh(r.value.data) && r.value.Valid()
        && r.value.Elems() == Convolution.Conv(Elems(), filter.Elems())
    {
      if filter == null {
        return Err(IllegalArgument);
      }
      var created := CreateArrayCtVector(Wrap32(Size() + filter.Size() - 1));
      if created.Err? {
        return created;
      }
      var result := created.value;
      ghost var a, f := Elems(), filter.Elems();
      var hostPos := Size() - 1;
      while hostPos >= 0
        invariant -1 <= hostPos < |a|
        invariant result.Valid() && result.Size() == |a| + |f| - 1 && fresh(result.data)
        invariant forall k :: 0 <= k < result.Size() ==> result.data[k] == ConvFrom(a, f, hostPos + 1, k)
      {
        var filterPos := filter.Size() - 1;
        while filterPos >= 0
          invariant -1 <= filterPos < |f|
          invariant forall k :: 0 <= k < result.Size() ==> result.data[k] == ConvPartial(a, f, hostPos, filterPos, k)
        {
          var product := Get(hostPos).value * filter.Get(filterPos).value;
          ghost var before := result.Elems();
          var _ := result.Update(hostPos + filterPos, result.Get(hostPos + filterPos).value + product);
          forall k | 0 <= k < result.Size()
            ensures result.data[k] == ConvPartial(a, f, hostPos, filterPos - 1, k)
          {
            ConvPartialStep(a, f, hostPos, filterPos, k);
            assert result.data[k] == result.Elems()[k] == before[k] + (if k == hostPos + filterPos then product else 0.0);
          }
          filterPos := filterPos - 1;
        }
        forall k | 0 <= k < result.Size()
          ensures result.data[k] == ConvFrom(a, f, hostPos, k)
        {
          ConvPartialDone(a, f, hostPos, k);
        }
        hostPos := hostPos - 1;
      }
      return Ok(result);
    }

    /** `sum(other)`: adds `other` into this vector entry by entry; a null or
        different-size argument raises and changes nothing. `v.sum(v)`
        doubles every entry. */
    method Sum(other: ArrayCtVector?) returns (o: Outcome)
      requires Valid() && (other != null ==> other.Valid())
      modifies data
      ensures o == if other == null || other.Size() != Size() then Fail(IllegalArgument) else Pass
      ensures Elems() == if o.Pass? then Added(old(Elems()), old(other.Elems())) else old(Elems())
    {
      if other == null || other.Size() != data.Length {
        return Fail(IllegalArgument);
      }
      ghost var a, b := Elems(), other.Elems();
      var p := 0;
      while p < data.Length
        invariant 0 <= p <= data.Length
        invariant forall q :: 0 <= q < p ==> data[q] == a[q] + b[q]
        invariant forall q :: p <= q < data.Length ==> data[q] == a[q] && other.data[q] == b[q]
      {
        data[p] := data[p] + other.Get(p).value;
        p := p + 1;
      }
      o := Pass;
    }

    /** `max()`: the largest entry. */
    method Max() returns (m: real)
      requires Valid()
      ensures exists p :: 0 <= p < Size() && m == data[p]
      ensures forall p :: 0 <= p < Size() ==> data[p] <= m
    {
      m := data[0];
      var x := 1;
      while x < data.Length
        invariant 1 <= x <= data.Length
        invariant exists p :: 0 <= p < x && m == data[p]
        invariant forall p :: 0 <= p < x ==> data[p] <= m
      {
        if data[x] > m {
          m := data[x];
        }
        x := x + 1;
      }
    }

    /** `paste(x, src)`: copies the leading entries of `src` to positions
        `x ..`, silently clipped at the end of this vector (see `Pasted`).
        A null source raises; a store at a negative index raises before
        anything is written. */
    method Paste(x: Int32, src: ArrayCtVector?) returns (o: Outcome)
      requires Valid() && (src != null ==> src.Valid())
      modifies data
      ensures src == null ==> o == Fail(IllegalArgument) && Elems() == old(Elems())
      ensures src != null ==>
        var r := Pasted(old(Elems()), x, old(src.Elems()), src.data == data);
        && o == (if r.Ok? then Pass else Fail(r.exc))
        && Elems() == (if r.Ok? then r.value else old(Elems()))
    {
      if src == null {
        return Fail(IllegalArgument);
      }
      ghost var d, s, aliased := Elems(), src.Elems(), src.data == data;
      var pasteWidth := src.Size();
      if pasteWidth > Wrap32(data.Length - x) {
        pasteWidth := Wrap32(data.Length - x);
      }
      assert pasteWidth == PasteWidth(|s|, |d|, x);
      var xx := 0;
      while xx < pasteWidth
        invariant 0 <= xx && (xx == 0 || xx <= pasteWidth) && pasteWidth <= |s|
        invariant xx > 0 ==> 0 <= x && x + pasteWidth <= |d|
        invariant !aliased ==> forall i :: 0 <= i < |s| ==> src.data[i] == s[i]
        invariant forall i :: 0 <= i < |d| ==>
          data[i] == if xx > 0 && x <= i < x + xx && !(aliased && x == 0)
                     then (if aliased then d[Wrapped(i, x)] else s[i - x])
                     else d[i]
      {
        if !(0 <= xx + x < data.Length) {
          return Fail(IndexOutOfBounds);
        }
        var v := src.Get(xx).value;
        assert aliased && x > 0 ==> Wrapped(xx + x, x) == Wrapped(xx, x);
        data[xx + x] := v;
        xx := xx + 1;
      }
      if pasteWidth > 0 {
        assert aliased ==> data[..] == SelfPasted(d, x, pasteWidth);
        assert !aliased ==> data[..] == Overwrite(d, x, s[..pasteWidth]);
      }
      o := Pass;
    }
  }

  /** `CtVectorFactory.createArrayCtVector(int)`: `size` zeros, or an
      IllegalArgumentException for `size < 1`. */
  method CreateArrayCtVector(size: Int32) returns (r: Result<ArrayCtVector>)
    ensures size < 1 ==> r == Err(IllegalArgument)
    ensures size >= 1 ==>
      && r.Ok? && fresh(r.value.data) && r.value.Valid()
      && r.value.Elems() == ZeroVector(size)
  {
    if size < 1 {
      return Err(IllegalArgument);
    }
    var v := new ArrayCtVector(size);
    return Ok(v);
  }

  /** `CtVectorFactory.createArrayCtVector(double[])`: a vector over the
      caller's own array, or an IllegalArgumentException for a null or empty
      array. Later stores into the array show through `get`. */
  method CreateArrayCtVectorFrom(a: array?<real>) returns (r: Result<ArrayCtVector>)
    requires a != null ==> a.Length <= MAX_INT
    ensures a == null || a.Length == 0 ==> r == Err(IllegalArgument)
    ensures a != null && a.Length > 0 ==> r.Ok? && r.value.Valid() && r.value.data == a
  {
    if a == null || a.Length == 0 {
      return Err(IllegalArgument);
    }
    var v := new ArrayCtVector.Adopt(a);
    return Ok(v);
  }
}
