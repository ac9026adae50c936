/** ConcatKernel::operator() of kernels/concat.hpp for one output coordinate:
    the output offset, the scan that finds the input owning the coordinate
    along the concatenation axis, the translation of the coordinate into that
    input, and the single copied element. */
module ConcatKernel {
  import opened Strided

  /** Total extent of a run of inputs along the concatenation axis. */
  function Sum(s: seq<nat>): (r: nat)
    decreases |s|
  {
    if |s| == 0 then 0 else Sum(s[..|s| - 1]) + s[|s| - 1]
  }

  /** Extending a prefix by one input adds that input's extent. */
  lemma SumPrefixStep(s: seq<nat>, i: nat)
    requires i < |s|
    ensures Sum(s[..i + 1]) == Sum(s[..i]) + s[i]
  {
    assert s[..i + 1][..i] == s[..i];
  }

  /** Prefix sums never decrease. */
  lemma {:induction false} SumPrefixMono(s: seq<nat>, i: nat, j: nat)
    requires i <= j <= |s|
    ensures Sum(s[..i]) <= Sum(s[..j])
    decreases j - i
  {
    if i < j {
      SumPrefixStep(s, i);
      SumPrefixMono(s, i + 1, j);
    }
  }

  /** Input `c` owns axis coordinate `x`: `x` lies in the half-open range
      [start, start + extent) that input `c` occupies on the output axis. */
  predicate Owns(sizes: seq<nat>, c: nat, x: int)
    ensures Owns(sizes, c, x) ==> c < |sizes| && 0 < sizes[c] && 0 <= x
  {
    c < |sizes| && Sum(sizes[..c]) <= x < Sum(sizes[..c]) + sizes[c]
  }

  /** The ranges of the inputs are disjoint, so a coordinate has at most one
      owner. */
  lemma OwnerUnique(sizes: seq<nat>, c1: nat, c2: nat, x: int)
    requires Owns(sizes, c1, x) && Owns(sizes, c2, x)
    ensures c1 == c2
  {
    if c1 < c2 {
      SumPrefixStep(sizes, c1);
      SumPrefixMono(sizes, c1 + 1, c2);
    } else if c2 < c1 {
      SumPrefixStep(sizes, c2);
      SumPrefixMono(sizes, c2 + 1, c1);
    }
  }

  /** The owner of axis coordinate `x`, for `x` below the total extent. */
  function Locate(sizes: seq<nat>, x: nat): (c: nat)
    requires x < Sum(sizes)
    ensures c < |sizes| && Owns(sizes, c, x)
    decreases |sizes|
  {
    var n := |sizes| - 1;
    assert sizes[..n + 1] == sizes;
    if x < Sum(sizes[..n]) then
      var c := Locate(sizes[..n], x);
      assert sizes[..n][..c] == sizes[..c];
      c
    else n
  }

  /** Every input before the owner ends at or below `x`: the owner is the
      first input whose range reaches past `x`. */
  lemma LocateIsFirst(sizes: seq<nat>, x: nat, c: nat)
    requires x < Sum(sizes) && c < Locate(sizes, x)
    ensures Sum(sizes[..c]) + sizes[c] <= x
  {
    SumPrefixStep(sizes, c);
    SumPrefixMono(sizes, c + 1, Locate(sizes, x));
  }

  /** The coordinate `idx` translated into an input that starts at `offset`
      on `axis`: the axis coordinate drops by `offset`, the others stay. */
  function Translate(idx: seq<nat>, axis: nat, offset: int): (r: seq<int>)
    requires axis < |idx|
    ensures |r| == |idx|
    ensures r[axis] == idx[axis] - offset
    ensures forall d :: 0 <= d < |idx| && d != axis ==> r[d] == idx[d]
  {
    var coord: seq<int> := idx;
    coord[axis := idx[axis] - offset]
  }

  /** Moving a coordinate from `a` to `a - offset` moves its term of the dot
      product by `offset` strides. */
  lemma ShiftTerm(a: int, offset: int, stride: int)
    ensures (a - offset - a) * stride == -(offset * stride)
  {
  }

  /** The translated offset is the output coordinate's offset under the
      input's strides, moved back by `offset` steps of the axis stride. */
  lemma TranslateOffset(idx: seq<nat>, axis: nat, offset: int, strides: seq<int>)
    requires axis < |idx| && |strides| == |idx|
    ensures Dot(Translate(idx, axis, offset), strides) == Dot(idx, strides) - offset * strides[axis]
  {
    var coord: seq<int> := idx;
    var v := idx[axis] - offset;
    assert Translate(idx, axis, offset) == coord[axis := v];
    DotUpdate(coord, strides, axis, v);
    ShiftTerm(coord[axis], offset, strides[axis]);
  }

  /** Output offset: coordinate times output strides, summed axis by axis. */
  method OutputOffset(idx: seq<nat>, outStrides: seq<int>) returns (outIdx: int)
    requires |outStrides| == |idx|
    ensures outIdx == Dot(idx, outStrides)
  {
    outIdx := 0;
    for d := 0 to |idx|
      invariant outIdx == Dot(idx[..d], outStrides[..d])
    {
      DotStep(idx, outStrides, d);
      outIdx := outIdx + idx[d] * outStrides[d];
    }
    assert idx[..|idx|] == idx && outStrides[..|idx|] == outStrides;
  }

  /** The owning-input scan over the N slots of the input arrays, stopping at
      the first slot that is not an input (index num_inputs) or whose range
      holds the axis coordinate. It looks only at the first
      min(num_inputs, N) extents. When the coordinate lies below their total,
      `chosen` is its owner, an input with a non-empty range, and `offset` is
      where that input starts; otherwise `chosen` stays 0 and `offset` is the
      total. */
  method FindOwner(axisSizes: seq<nat>, numInputs: nat, axisCoord: nat) returns (chosen: nat, offset: nat)
    ensures var m := if numInputs <= |axisSizes| then numInputs else |axisSizes|;
      if axisCoord < Sum(axisSizes[..m]) then
        && chosen == Locate(axisSizes[..m], axisCoord)
        && chosen < m
        && offset == Sum(axisSizes[..chosen])
        && offset <= axisCoord < offset + axisSizes[chosen]
        && axisSizes[chosen] > 0
      else
        chosen == 0 && offset == Sum(axisSizes[..m])
  {
    ghost var m := if numInputs <= |axisSizes| then numInputs else |axisSizes|;
    chosen, offset := 0, 0;
    for k := 0 to |axisSizes|
      invariant k <= m
      invariant chosen == 0 && offset == Sum(axisSizes[..k]) && offset <= axisCoord
    {
      if k >= numInputs {
        break;
      }
      var sz := axisSizes[k];
      SumPrefixStep(axisSizes, k);
      if axisCoord < offset + sz {
        chosen := k;
        assert axisSizes[..m][..k] == axisSizes[..k];
        assert Owns(axisSizes[..m], k, axisCoord);
        SumPrefixMono(axisSizes, k + 1, m);
        OwnerUnique(axisSizes[..m], k, Locate(axisSizes[..m], axisCoord), axisCoord);
        break;
      }
      offset := offset + sz;
    }
  }

  /** Input offset: the translated coordinate times the chosen input's
      strides, summed axis by axis. */
  method InputOffset(idx: seq<nat>, axis: nat, offset: nat, inStrides: seq<int>) returns (inIdx: int)
    requires axis < |idx| && |inStrides| == |idx|
    ensures inIdx == Dot(Translate(idx, axis, offset), inStrides)
  {
    ghost var coord := Translate(idx, axis, offset);
    inIdx := 0;
    for d := 0 to |idx|
      invariant inIdx == Dot(coord[..d], inStrides[..d])
    {
      var coordOut := idx[d];
      var coordIn := if d == axis then coordOut - offset else coordOut;
      assert coordIn == coord[d];
      DotStep(coord, inStrides, d);
      inIdx := inIdx + coordIn * inStrides[d];
    }
    assert coord[..|idx|] == coord && inStrides[..|idx|] == inStrides;
  }

  /** The kernel body for output coordinate `idx`: the output element at the
      coordinate's offset receives the element of the owning input at the
      translated coordinate, and no other output element changes. */
  method Concat(inputs: seq<array<int>>, output: array<int>, inStrides: seq<seq<int>>,
                axisSizes: seq<nat>, numInputs: nat, axis: nat, outStrides: seq<int>, idx: seq<nat>)
    requires |inputs| == |axisSizes| && |inStrides| == |axisSizes| && numInputs <= |axisSizes|
    requires axis < |idx| && |outStrides| == |idx|
    requires forall c :: 0 <= c < |inStrides| ==> |inStrides[c]| == |idx|
    requires forall c :: 0 <= c < |inputs| ==> inputs[c] != output
    requires idx[axis] < Sum(axisSizes[..numInputs])
    requires 0 <= Dot(idx, outStrides) < output.Length
    requires var c := Locate(axisSizes[..numInputs], idx[axis]);
      0 <= Dot(Translate(idx, axis, Sum(axisSizes[..c])), inStrides[c]) < inputs[c].Length
    modifies output
    ensures var c := Locate(axisSizes[..numInputs], idx[axis]);
      output[Dot(idx, outStrides)] == inputs[c][Dot(Translate(idx, axis, Sum(axisSizes[..c])), inStrides[c])]
    ensures forall a :: 0 <= a < output.Length && a != Dot(idx, outStrides) ==> output[a] == old(output[a])
  {
    var outIdx := OutputOffset(idx, outStrides);
    var axisCoord := idx[axis];
    var chosen, offset := FindOwner(axisSizes, numInputs, axisCoord);
    var inIdx := InputOffset(idx, axis, offset, inStrides[chosen]);
    var src := inputs[chosen];
    output[outIdx] := src[inIdx];
  }

  /** Element `x` of input `c` along the axis lands at output axis
      coordinate start(c) + x, which input `c` owns. */
  lemma OwnerOfPlaced(sizes: seq<nat>, c: nat, x: nat)
    requires c < |sizes| && x < sizes[c]
    ensures Sum(sizes[..c]) + x < Sum(sizes)
    ensures Locate(sizes, Sum(sizes[..c]) + x) == c
  {
    var y := Sum(sizes[..c]) + x;
    SumPrefixStep(sizes, c);
    SumPrefixMono(sizes, c + 1, |sizes|);
    assert sizes[..|sizes|] == sizes;
    OwnerUnique(sizes, c, Locate(sizes, y), y);
  }

  /** The output coordinate of element `inIdx` of an input that starts at
      `offset` on `axis`. */
  function Place(inIdx: seq<nat>, axis: nat, offset: nat): (r: seq<nat>)
    requires axis < |inIdx|
    ensures |r| == |inIdx| && r[axis] == offset + inIdx[axis]
  {
    inIdx[axis := offset + inIdx[axis]]
  }

  /** Translating a coordinate that was shifted by `offset` on the axis
      restores it. */
  lemma TranslateBack(inIdx: seq<nat>, axis: nat, offset: nat)
    requires axis < |inIdx|
    ensures Translate(Place(inIdx, axis, offset), axis, offset) == inIdx
  {
    var back := Translate(Place(inIdx, axis, offset), axis, offset);
    assert forall d :: 0 <= d < |inIdx| ==> back[d] == inIdx[d];
  }

  /** Placement round trip: element `inIdx` of input `c` sits in the output at
      the coordinate shifted by where input `c` starts, and that output
      coordinate is owned by input `c` and translates back to `inIdx`. */
  lemma PlacementRoundTrip(sizes: seq<nat>, c: nat, inIdx: seq<nat>, axis: nat)
    requires c < |sizes| && axis < |inIdx| && inIdx[axis] < sizes[c]
    ensures Place(inIdx, axis, Sum(sizes[..c]))[axis] < Sum(sizes)
    ensures Locate(sizes, Place(inIdx, axis, Sum(sizes[..c]))[axis]) == c
    ensures Translate(Place(inIdx, axis, Sum(sizes[..c])), axis, Sum(sizes[..c])) == inIdx
  {
    var start := Sum(sizes[..c]);
    var out := Place(inIdx, axis, start);
    OwnerOfPlaced(sizes, c, inIdx[axis]);
    var x: nat := out[axis];
    assert Owns(sizes, c, x);
    OwnerUnique(sizes, c, Locate(sizes, x), x);
    TranslateBack(inIdx, axis, start);
  }

  /** With a single input the scan picks input 0 at offset 0, so the kernel
      copies input 0 element for element under its own strides. */
  lemma SingleInputIsCopy(sizes: seq<nat>, idx: seq<nat>, axis: nat)
    requires 1 <= |sizes| && axis < |idx| && idx[axis] < Sum(sizes[..1])
    ensures Locate(sizes[..1], idx[axis]) == 0
    ensures Translate(idx, axis, Sum(sizes[..0])) == idx
  {
  }

  /** The kernel body with one active input is an element-wise strided copy:
      the output element at the coordinate's offset under the output strides
      receives the input element at the same coordinate's offset under the
      input's strides, and no other output element changes. */
  method ConcatSingleInput(input: array<int>, output: array<int>, inStrides: seq<int>, axisSize: nat,
                           axis: nat, outStrides: seq<int>, idx: seq<nat>)
    requires input != output
    requires axis < |idx| && |outStrides| == |idx| && |inStrides| == |idx|
    requires idx[axis] < axisSize
    requires 0 <= Dot(idx, outStrides) < output.Length
    requires 0 <= Dot(idx, inStrides) < input.Length
    modifies output
    ensures output[Dot(idx, outStrides)] == input[Dot(idx, inStrides)]
    ensures forall a :: 0 <= a < output.Length && a != Dot(idx, outStrides) ==> output[a] == old(output[a])
  {
    var sizes: seq<nat> := [axisSize];
    assert sizes[..1] == sizes && Sum(sizes[..0]) == 0;
    SingleInputIsCopy(sizes, idx, axis);
    Concat([input], output, [inStrides], sizes, 1, axis, outStrides, idx);
  }

  /** An input with an empty range is skipped: with extents [2, 0, 3], axis
      coordinate 1 belongs to input 0 and coordinate 2 to input 2, which
      starts at 2. */
  lemma EmptyInputSkipped()
    ensures Locate([2, 0, 3], 1) == 0
    ensures Locate([2, 0, 3], 2) == 2 && Sum([2, 0, 3][..2]) == 2
  {
    var s: seq<nat> := [2, 0, 3];
    assert s[..2] == [2, 0] && s[..1] == [2] && s[..0] == [];
    assert Sum([2]) == 2 by { assert [2][..0] == []; }
    assert Sum([2, 0]) == 2 by { assert [2, 0][..1] == [2]; }
    assert Owns(s, 0, 1) && Owns(s, 2, 2);
    OwnerUnique(s, 0, Locate(s, 1), 1);
    OwnerUnique(s, 2, Locate(s, 2), 2);
  }
}
