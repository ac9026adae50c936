/** The strided addressing convention shared by both kernels: an N-dimensional
    coordinate and a stride vector resolve to a flat offset by their dot
    product, and a pencil (one axis varied, all others fixed) is the run of
    offsets base, base + stride, base + 2 * stride, ... */
module Strided {

  /** Flat offset of `coord` under `strides`, accumulated axis by axis from
      axis 0 upward, as the kernels' offset loops do. */
  function Dot(coord: seq<int>, strides: seq<int>): (r: int)
    requires |coord| == |strides|
    decreases |coord|
  {
    if |coord| == 0 then 0
    else Dot(coord[..|coord| - 1], strides[..|strides| - 1]) + coord[|coord| - 1] * strides[|strides| - 1]
  }

  /** Accumulating axis `d` onto the offset of the axes before it. */
  lemma DotStep(coord: seq<int>, strides: seq<int>, d: nat)
    requires |coord| == |strides| && d < |coord|
    ensures Dot(coord[..d + 1], strides[..d + 1]) == Dot(coord[..d], strides[..d]) + coord[d] * strides[d]
  {
    assert coord[..d + 1][..d] == coord[..d];
    assert strides[..d + 1][..d] == strides[..d];
  }

  /** Changing one coordinate by `v - coord[d]` moves the flat offset by that
      many strides of axis `d`. */
  lemma {:induction false} DotUpdate(coord: seq<int>, strides: seq<int>, d: nat, v: int)
    requires |coord| == |strides| && d < |coord|
    ensures Dot(coord[d := v], strides) == Dot(coord, strides) + (v - coord[d]) * strides[d]
    decreases |coord|
  {
    var n := |coord| - 1;
    var c' := coord[d := v];
    assert c'[..n] == if d == n then coord[..n] else coord[..n][d := v];
    if d < n {
      DotUpdate(coord[..n], strides[..n], d, v);
    } else {
      calc {
        Dot(c', strides);
        Dot(coord[..n], strides[..n]) + v * strides[n];
        { assert v * strides[n] == coord[n] * strides[n] + (v - coord[n]) * strides[n]; }
        Dot(coord, strides) + (v - coord[d]) * strides[d];
      }
    }
  }

  /** The flat offset of position `j` of a pencil that starts at `base`. */
  function Addr(base: int, stride: int, j: int): (r: int)
  {
    base + j * stride
  }

  /** With a positive stride, later pencil positions have strictly larger
      offsets; in particular distinct positions never share an offset. */
  lemma AddrStrictlyIncreasing(base: int, stride: int)
    requires stride > 0
    ensures forall i, j :: i < j ==> Addr(base, stride, i) < Addr(base, stride, j)
  {
    forall i, j | i < j
      ensures Addr(base, stride, i) < Addr(base, stride, j)
    {
      assert Addr(base, stride, j) - Addr(base, stride, i) == (j - i) * stride;
      assert (j - i) * stride > 0;
    }
  }

  /** Moving a pencil's start back by `i` strides moves position `j` to
      position i + j. */
  lemma AddrRebase(base: int, stride: int, i: int, j: int)
    ensures Addr(base, stride, j) == Addr(base + (0 - i) * stride, stride, i + j)
  {
    assert (i + j) * stride == i * stride + j * stride;
    assert (0 - i) * stride == -(i * stride);
  }

  /** Every position of an `n`-element pencil is a valid index of a buffer of length `len`. */
  predicate InBounds(len: int, base: int, stride: int, n: nat)
  {
    forall j :: 0 <= j < n ==> 0 <= Addr(base, stride, j) < len
  }

  /** Offset `a` is not one of the first `n` positions of the pencil. */
  predicate OffView(a: int, base: int, stride: int, n: nat)
  {
    forall i :: 0 <= i < n ==> a != Addr(base, stride, i)
  }

  /** The flat offset of position `j` of the axis line through `idx`: the
      coordinate `idx` with its entry on `axis` replaced by `j`. */
  function LineAddr(idx: seq<nat>, strides: seq<int>, axis: nat, j: nat): (r: int)
    requires |strides| == |idx| && axis < |idx|
  {
    Dot(idx[axis := j], strides)
  }

  /** The values of `arr` along the first `n` positions of the axis line
      through `idx`. */
  ghost function Line(arr: array<int>, idx: seq<nat>, strides: seq<int>, axis: nat, n: nat): (r: seq<int>)
    reads arr
    requires |strides| == |idx| && axis < |idx|
    requires forall j :: 0 <= j < n ==> 0 <= LineAddr(idx, strides, axis, j) < arr.Length
    ensures |r| == n
    ensures forall j :: 0 <= j < n ==> r[j] == arr[LineAddr(idx, strides, axis, j)]
  {
    seq(n, j requires 0 <= j < n reads arr => arr[LineAddr(idx, strides, axis, j)])
  }

  /** The values an `n`-element pencil of `arr` holds, in axis order. */
  ghost function View(arr: array<int>, base: int, stride: int, n: nat): (r: seq<int>)
    reads arr
    requires InBounds(arr.Length, base, stride, n)
    ensures |r| == n
    ensures forall j :: 0 <= j < n ==> r[j] == arr[Addr(base, stride, j)]
  {
    seq(n, j requires 0 <= j < n reads arr => arr[Addr(base, stride, j)])
  }
}
