/** TopKKernel::operator() of kernels/topk.cpp for one output coordinate: the
    two pencil base offsets, then either the fast path (selection kept in a
    local buffer of capacity MaxK and copied out at the end) or the fallback
    path (selection kept in the pencil's own k output slots). Both paths are
    proved to leave TopKOutput of the pencil in the k output slots and to
    write nothing else. */
module TopKKernel {
  import opened Strided
  import opened TopKSpec

  /** The offsets of coordinate `idx` in the input and in the output, both
      accumulated in one loop over the axes. */
  method BaseOffsets(idx: seq<nat>, inStrides: seq<int>, outStrides: seq<int>)
      returns (inBase: int, outBase: int)
    requires |inStrides| == |idx| && |outStrides| == |idx|
    ensures inBase == Dot(idx, inStrides)
    ensures outBase == Dot(idx, outStrides)
  {
    inBase, outBase := 0, 0;
    for d := 0 to |idx|
      invariant inBase == Dot(idx[..d], inStrides[..d])
      invariant outBase == Dot(idx[..d], outStrides[..d])
    {
      DotStep(idx, inStrides, d);
      DotStep(idx, outStrides, d);
      inBase := inBase + idx[d] * inStrides[d];
      outBase := outBase + idx[d] * outStrides[d];
    }
    assert idx[..|idx|] == idx;
    assert inStrides[..|idx|] == inStrides && outStrides[..|idx|] == outStrides;
  }

  /** When the coordinate sits at position 0 of the axis, pencil position `j`
      is the element whose coordinate differs from `idx` only on the axis,
      where it is `j`. The kernel does not check that position is 0. */
  lemma PencilIsAxisLine(idx: seq<nat>, strides: seq<int>, axis: nat, j: nat)
    requires |strides| == |idx| && axis < |idx| && idx[axis] == 0
    ensures Addr(Dot(idx, strides), strides[axis], j) == LineAddr(idx, strides, axis, j)
  {
    DotUpdate(idx, strides, axis, j);
  }

  /** The pencil the code scans for a coordinate whose axis position is `i`
      starts at position `i` of the axis line through the coordinate: pencil
      position `j` is line position i + j. */
  lemma PencilShifted(idx: seq<nat>, strides: seq<int>, axis: nat, j: nat)
    requires |strides| == |idx| && axis < |idx|
    ensures Addr(Dot(idx, strides), strides[axis], j) == Addr(LineAddr(idx, strides, axis, 0), strides[axis], idx[axis] + j)
  {
    DotUpdate(idx, strides, axis, 0);
    AddrRebase(Dot(idx, strides), strides[axis], idx[axis], j);
  }

  /** The kernel as written visits every coordinate of the output shape, whose
      extent on the axis is k, and starts each pencil at the coordinate's own
      axis position `i`. For 0 < i < k the pencil's first output slot is line
      position `i`, a slot the pencil of axis position 0 also writes; its last
      output slot is line position i + k - 1, at or past the output extent k;
      and its last input element is line position i + axisSize - 1, at or
      past the input extent. */
  lemma AsWrittenOverrun(idx: seq<nat>, inStrides: seq<int>, outStrides: seq<int>, axis: nat, axisSize: nat, k: nat)
    requires |inStrides| == |idx| && |outStrides| == |idx| && axis < |idx|
    requires 0 < idx[axis] < k && 0 < axisSize
    ensures Addr(Dot(idx, outStrides), outStrides[axis], 0)
            == Addr(LineAddr(idx, outStrides, axis, 0), outStrides[axis], idx[axis])
    ensures Addr(Dot(idx, outStrides), outStrides[axis], k - 1)
            == Addr(LineAddr(idx, outStrides, axis, 0), outStrides[axis], idx[axis] + k - 1)
    ensures k <= idx[axis] + k - 1
    ensures Addr(Dot(idx, inStrides), inStrides[axis], axisSize - 1)
            == Addr(LineAddr(idx, inStrides, axis, 0), inStrides[axis], idx[axis] + axisSize - 1)
    ensures axisSize <= idx[axis] + axisSize - 1
  {
    PencilShifted(idx, outStrides, axis, 0);
    PencilShifted(idx, outStrides, axis, k - 1);
    PencilShifted(idx, inStrides, axis, axisSize - 1);
  }

  /** Fast path search: the first of the `count` kept values that is strictly
      below `val`. */
  method FindInsertPosLocal(buf: array<int>, count: nat, val: int) returns (pos: nat)
    requires count <= buf.Length
    ensures pos == InsertPos(buf[..count], val)
  {
    pos := 0;
    while pos < count && val <= buf[pos]
      invariant pos <= count
      invariant forall a :: 0 <= a < pos ==> val <= buf[a]
    {
      pos := pos + 1;
    }
    InsertPosUnique(buf[..count], val, pos);
  }

  /** The slots of `s` after the downward shift of the tail (s, e]: each of
      those slots holds the value of the slot one above it. */
  function ShiftDown(s: seq<int>, pos: nat, e: nat): (r: seq<int>)
    requires pos <= e < |s|
    ensures |r| == |s|
    ensures forall a :: 0 <= a < |s| && (a <= pos || e < a) ==> r[a] == s[a]
    ensures forall a :: pos < a <= e ==> r[a] == s[a - 1]
  {
    s[..pos + 1] + s[pos..e] + s[e + 1..]
  }

  /** One iteration of the shift loop: copying slot s - 1 into slot s extends
      the shifted tail by one slot. */
  lemma ShiftDownStep(before: seq<int>, s: nat, e: nat)
    requires 0 < s <= e < |before|
    ensures ShiftDown(before, s, e)[s - 1] == before[s - 1]
    ensures ShiftDown(before, s, e)[s := before[s - 1]] == ShiftDown(before, s - 1, e)
  {
    var lhs := ShiftDown(before, s, e)[s := before[s - 1]];
    var rhs := ShiftDown(before, s - 1, e);
    forall i | 0 <= i < |before|
      ensures lhs[i] == rhs[i]
    {
      if i < s {
        assert lhs[i] == before[i] && rhs[i] == before[i];
      } else if i <= e {
        assert rhs[i] == before[i - 1];
      } else {
        assert lhs[i] == before[i] && rhs[i] == before[i];
      }
    }
  }

  /** Shifting the buffer's tail and writing `val` at `pos` leaves, in the
      first e + 1 slots, the kept values with `val` inserted at `pos`. */
  lemma ShiftThenWrite(kept: seq<int>, before: seq<int>, pos: nat, e: nat, val: int)
    requires pos <= e < |before| && e <= |kept| <= e + 1 && pos <= |kept|
    requires kept == before[..|kept|]
    ensures ShiftDown(before, pos, e)[pos := val][..e + 1] == Inserted(kept, pos, val)[..e + 1]
  {
    var lhs := ShiftDown(before, pos, e)[pos := val];
    var rhs := Inserted(kept, pos, val);
    forall i | 0 <= i <= e
      ensures lhs[i] == rhs[i]
    {
      if i < pos {
        assert lhs[i] == before[i];
      } else if pos < i {
        assert lhs[i] == before[i - 1];
      }
    }
  }

  /** The shift leaves the slots above `e` as they were. */
  lemma ShiftDownTail(s: seq<int>, pos: nat, e: nat)
    requires pos <= e < |s|
    ensures forall i :: e < i < |s| ==> ShiftDown(s, pos, e)[i] == s[i]
  {
  }

  /** Writing the next expected value extends a matching prefix by one slot. */
  lemma ExtendPrefix(v: seq<int>, r: seq<int>, i: nat, x: int)
    requires i < |v| && |v| == |r| && v[..i] == r[..i] && x == r[i]
    ensures v[i := x][..i + 1] == r[..i + 1]
  {
    forall a | 0 <= a <= i
      ensures v[i := x][a] == r[a]
    {
      if a < i {
        assert v[a] == v[..i][a];
      }
    }
  }

  /** Fast path shift: buffer slots (pos, endShift] take the values of the
      slots one above them, walking downward from endShift. */
  method ShiftDownLocal(buf: array<int>, pos: nat, endShift: nat)
    requires pos <= endShift < buf.Length
    modifies buf
    ensures buf[..] == ShiftDown(old(buf[..]), pos, endShift)
  {
    ghost var before := buf[..];
    assert ShiftDown(before, endShift, endShift) == before;
    var s := endShift;
    while s > pos
      invariant pos <= s <= endShift
      invariant buf[..] == ShiftDown(before, s, endShift)
    {
      ShiftDownStep(before, s, endShift);
      ghost var cur := buf[..];
      buf[s] := buf[s - 1];
      assert buf[..] == cur[s := cur[s - 1]];
      s := s - 1;
    }
  }

  /** Fast path, one scanned value: the buffer's first `count` entries become
      Step of their old contents; entries at `k` and beyond are not touched. */
  method InsertLocal(buf: array<int>, count: nat, k: nat, val: int) returns (newCount: nat)
    requires 0 < k <= buf.Length && count <= k
    modifies buf
    ensures newCount <= k
    ensures buf[..newCount] == Step(old(buf[..count]), k, val)
    ensures forall i :: k <= i < buf.Length ==> buf[i] == old(buf[i])
  {
    ghost var before := buf[..];
    ghost var kept := buf[..count];
    newCount := count;
    if count == k && val <= buf[k - 1] {
      return;
    }
    var pos := FindInsertPosLocal(buf, count, val);
    if pos < k {
      var endShift := if count < k then count else k - 1;
      ShiftDownLocal(buf, pos, endShift);
      ghost var shifted := buf[..];
      buf[pos] := val;
      assert buf[..] == shifted[pos := val];
      if count < k {
        newCount := count + 1;
      }
      ShiftDownTail(before, pos, endShift);
      ShiftThenWrite(kept, before, pos, endShift, val);
      StepInserts(kept, k, val);
      assert buf[..newCount] == buf[..][..endShift + 1];
    }
  }

  /** Fast path for one pencil of `n` values: scan into a local buffer of
      capacity `maxK`, then write the k output slots. */
  method FastPencil(input: array<int>, inBase: int, inStride: int, n: nat, k: nat, maxK: nat,
                    output: array<int>, outBase: int, outStride: int)
    requires 0 < k <= maxK && outStride > 0 && input != output
    requires InBounds(input.Length, inBase, inStride, n)
    requires InBounds(output.Length, outBase, outStride, k)
    modifies output
    ensures View(output, outBase, outStride, k) == TopKOutput(View(input, inBase, inStride, n), k)
    ensures forall a :: 0 <= a < output.Length && OffView(a, outBase, outStride, k) ==> output[a] == old(output[a])
  {
    ghost var p := View(input, inBase, inStride, n);
    var topVals := new int[maxK];
    var count: nat := 0;
    for j := 0 to n
      invariant count <= k
      invariant topVals[..count] == SelectPrefix(p, j, k)
      invariant output[..] == old(output[..])
    {
      var val := input[Addr(inBase, inStride, j)];
      count := InsertLocal(topVals, count, k, val);
    }
    ghost var result := TopKOutput(p, k);
    ghost var kept := Select(p, k);
    assert topVals[..count] == kept;
    for i := 0 to k
      modifies output
      invariant View(output, outBase, outStride, k)[..i] == result[..i]
      invariant forall a :: 0 <= a < output.Length && OffView(a, outBase, outStride, k) ==> output[a] == old(output[a])
    {
      ghost var cur := View(output, outBase, outStride, k);
      var v := if i < count then topVals[i] else 0;
      OutputSlot(p, k, i);
      assert i < count ==> topVals[i] == topVals[..count][i];
      StoreSlot(output, outBase, outStride, k, i, v);
      ExtendPrefix(cur, result, i, v);
    }
    assert View(output, outBase, outStride, k)[..k] == View(output, outBase, outStride, k);
  }

  /** Fallback path search over the `count` kept values held in the output
      slots. */
  method FindInsertPosStrided(output: array<int>, outBase: int, outStride: int, count: nat, val: int)
      returns (pos: nat)
    requires InBounds(output.Length, outBase, outStride, count)
    ensures pos == InsertPos(View(output, outBase, outStride, count), val)
  {
    pos := 0;
    while pos < count
      invariant pos <= count
      invariant forall a :: 0 <= a < pos ==> val <= output[Addr(outBase, outStride, a)]
    {
      var currOutIdx := Addr(outBase, outStride, pos);
      if val > output[currOutIdx] {
        break;
      }
      pos := pos + 1;
    }
    InsertPosUnique(View(output, outBase, outStride, count), val, pos);
  }

  /** One store into output slot `i` of a pencil: the slot view changes in
      position `i` only, and no other output element changes. */
  method StoreSlot(output: array<int>, outBase: int, outStride: int, k: nat, i: nat, v: int)
    requires i < k && outStride > 0
    requires InBounds(output.Length, outBase, outStride, k)
    modifies output
    ensures View(output, outBase, outStride, k) == old(View(output, outBase, outStride, k))[i := v]
    ensures forall a :: 0 <= a < output.Length && a != Addr(outBase, outStride, i) ==> output[a] == old(output[a])
  {
    ghost var before := View(output, outBase, outStride, k);
    var dst := Addr(outBase, outStride, i);
    assert forall j :: 0 <= j < k && j != i ==> Addr(outBase, outStride, j) != dst by {
      AddrStrictlyIncreasing(outBase, outStride);
    }
    output[dst] := v;
    assert View(output, outBase, outStride, k) == before[i := v];
  }

  /** Fallback path shift: slots (pos, endShift] take the values of the slots
      one above them, walking downward from endShift; only those slots are
      written. */
  method ShiftDownStrided(output: array<int>, outBase: int, outStride: int, pos: nat, endShift: nat, k: nat)
    requires pos <= endShift < k && outStride > 0
    requires InBounds(output.Length, outBase, outStride, k)
    modifies output
    ensures View(output, outBase, outStride, k) == ShiftDown(old(View(output, outBase, outStride, k)), pos, endShift)
    ensures forall a :: 0 <= a < output.Length && OffView(a, outBase, outStride, k) ==> output[a] == old(output[a])
  {
    ghost var before := View(output, outBase, outStride, k);
    assert ShiftDown(before, endShift, endShift) == before;
    var s := endShift;
    while s > pos
      invariant pos <= s <= endShift
      invariant View(output, outBase, outStride, k) == ShiftDown(before, s, endShift)
      invariant forall a :: 0 <= a < output.Length && OffView(a, outBase, outStride, k) ==> output[a] == old(output[a])
    {
      ShiftDownStep(before, s, endShift);
      var src := Addr(outBase, outStride, s - 1);
      StoreSlot(output, outBase, outStride, k, s, output[src]);
      s := s - 1;
    }
  }

  /** Fallback path, one scanned value: the first `count` output slots become
      Step of their old contents, shifted in place; only output slots are
      written. */
  method InsertStrided(output: array<int>, outBase: int, outStride: int, count: nat, k: nat, val: int)
      returns (newCount: nat)
    requires 0 < k && count <= k && outStride > 0
    requires InBounds(output.Length, outBase, outStride, k)
    modifies output
    ensures newCount <= k
    ensures View(output, outBase, outStride, k)[..newCount] == Step(old(View(output, outBase, outStride, k))[..count], k, val)
    ensures forall a :: 0 <= a < output.Length && OffView(a, outBase, outStride, k) ==> output[a] == old(output[a])
  {
    ghost var before := View(output, outBase, outStride, k);
    ghost var kept := before[..count];
    newCount := count;
    if count == k {
      var lastPosIdx := Addr(outBase, outStride, k - 1);
      if val <= output[lastPosIdx] {
        return;
      }
    }
    assert View(output, outBase, outStride, count) == kept;
    var pos := FindInsertPosStrided(output, outBase, outStride, count, val);
    if pos < k {
      var endShift := if count < k then count else k - 1;
      ShiftDownStrided(output, outBase, outStride, pos, endShift, k);
      StoreSlot(output, outBase, outStride, k, pos, val);
      if count < k {
        newCount := count + 1;
      }
      ShiftThenWrite(kept, before, pos, endShift, val);
      StepInserts(kept, k, val);
    }
  }

  /** Fallback path for one pencil of `n` values: run the selection inside the
      k output slots, then zero the slots it did not fill. */
  method FallbackPencil(input: array<int>, inBase: int, inStride: int, n: nat, k: nat,
                        output: array<int>, outBase: int, outStride: int)
    requires 0 < k && outStride > 0 && input != output
    requires InBounds(input.Length, inBase, inStride, n)
    requires InBounds(output.Length, outBase, outStride, k)
    modifies output
    ensures View(output, outBase, outStride, k) == TopKOutput(View(input, inBase, inStride, n), k)
    ensures forall a :: 0 <= a < output.Length && OffView(a, outBase, outStride, k) ==> output[a] == old(output[a])
  {
    ghost var p := View(input, inBase, inStride, n);
    var count: nat := 0;
    for j := 0 to n
      invariant count <= k
      invariant View(output, outBase, outStride, k)[..count] == SelectPrefix(p, j, k)
      invariant forall a :: 0 <= a < output.Length && OffView(a, outBase, outStride, k) ==> output[a] == old(output[a])
    {
      var val := input[Addr(inBase, inStride, j)];
      count := InsertStrided(output, outBase, outStride, count, k, val);
    }
    ghost var result := TopKOutput(p, k);
    assert count == |Select(p, k)|;
    assert View(output, outBase, outStride, k)[..count] == result[..count];
    for i := count to k
      invariant View(output, outBase, outStride, k)[..i] == result[..i]
      invariant forall a :: 0 <= a < output.Length && OffView(a, outBase, outStride, k) ==> output[a] == old(output[a])
    {
      ghost var cur := View(output, outBase, outStride, k);
      OutputSlot(p, k, i);
      StoreSlot(output, outBase, outStride, k, i, 0);
      ExtendPrefix(cur, result, i, 0);
    }
    assert View(output, outBase, outStride, k)[..k] == View(output, outBase, outStride, k);
    assert result[..k] == result;
  }

  /** The kernel body for output coordinate `idx`. With k == 0 nothing is
      written. Otherwise the pencil through `idx` is selected into its k
      output slots, by the fast path when 0 < k <= maxK and by the fallback
      path otherwise, and no other output element changes. */
  method TopK(input: array<int>, output: array<int>, inStrides: seq<int>, outStrides: seq<int>,
              idx: seq<nat>, axis: nat, axisSize: nat, k: nat, maxK: int)
    requires input != output
    requires |inStrides| == |idx| && |outStrides| == |idx| && axis < |idx|
    requires 0 < k ==> outStrides[axis] > 0
    requires 0 < k ==> InBounds(input.Length, Dot(idx, inStrides), inStrides[axis], axisSize)
    requires InBounds(output.Length, Dot(idx, outStrides), outStrides[axis], k)
    modifies output
    ensures k == 0 ==> output[..] == old(output[..])
    ensures 0 < k ==> View(output, Dot(idx, outStrides), outStrides[axis], k)
                      == TopKOutput(View(input, Dot(idx, inStrides), inStrides[axis], axisSize), k)
    ensures forall a :: 0 <= a < output.Length && OffView(a, Dot(idx, outStrides), outStrides[axis], k)
              ==> output[a] == old(output[a])
  {
    if k == 0 {
      return;
    }
    var inputIdx, outputIdx := BaseOffsets(idx, inStrides, outStrides);
    var inputAxisStride := inStrides[axis];
    var outputAxisStride := outStrides[axis];
    if maxK > 0 && k <= maxK {
      FastPencil(input, inputIdx, inputAxisStride, axisSize, k, maxK, output, outputIdx, outputAxisStride);
    } else {
      FallbackPencil(input, inputIdx, inputAxisStride, axisSize, k, output, outputIdx, outputAxisStride);
    }
  }

  /** The kernel body as evidently intended: one pencil per combination of
      the other coordinates, handled by the coordinate whose axis position is
      0 (the other axis positions of the output shape do nothing). The
      pencil's k output slots along the axis line through `idx` receive
      TopKOutput of the input's axis line, and no other output element
      changes. */
  method TopKAxisLine(input: array<int>, output: array<int>, inStrides: seq<int>, outStrides: seq<int>,
                      idx: seq<nat>, axis: nat, axisSize: nat, k: nat, maxK: int)
    requires input != output
    requires |inStrides| == |idx| && |outStrides| == |idx| && axis < |idx|
    requires 0 < k ==> outStrides[axis] > 0
    requires forall j :: 0 <= j < axisSize ==> 0 <= LineAddr(idx, inStrides, axis, j) < input.Length
    requires forall j :: 0 <= j < k ==> 0 <= LineAddr(idx, outStrides, axis, j) < output.Length
    modifies output
    ensures (k == 0 || idx[axis] != 0) ==> output[..] == old(output[..])
    ensures 0 < k && idx[axis] == 0 ==>
      forall j :: 0 <= j < k ==>
        output[LineAddr(idx, outStrides, axis, j)] == TopKOutput(Line(input, idx, inStrides, axis, axisSize), k)[j]
    ensures forall a :: 0 <= a < output.Length && (forall j :: 0 <= j < k ==> a != LineAddr(idx, outStrides, axis, j))
              ==> output[a] == old(output[a])
  {
    if k == 0 || idx[axis] != 0 {
      return;
    }
    ghost var line := Line(input, idx, inStrides, axis, axisSize);
    forall j: nat
      ensures Addr(Dot(idx, inStrides), inStrides[axis], j) == LineAddr(idx, inStrides, axis, j)
      ensures Addr(Dot(idx, outStrides), outStrides[axis], j) == LineAddr(idx, outStrides, axis, j)
    {
      PencilIsAxisLine(idx, inStrides, axis, j);
      PencilIsAxisLine(idx, outStrides, axis, j);
    }
    assert View(input, Dot(idx, inStrides), inStrides[axis], axisSize) == line;
    TopK(input, output, inStrides, outStrides, idx, axis, axisSize, k, maxK);
    forall j | 0 <= j < k
      ensures output[LineAddr(idx, outStrides, axis, j)] == TopKOutput(line, k)[j]
    {
      assert output[LineAddr(idx, outStrides, axis, j)] == View(output, Dot(idx, outStrides), outStrides[axis], k)[j];
    }
  }

  /** The two paths agree: run on the same pencil with the same k, they leave
      identical contents in their k output slots. */
  method PathsAgree(input: array<int>, inBase: int, inStride: int, n: nat, k: nat, maxK: nat,
                    fastOut: array<int>, slowOut: array<int>, outBase: int, outStride: int)
    requires 0 < k <= maxK && outStride > 0
    requires input != fastOut && input != slowOut && fastOut != slowOut
    requires InBounds(input.Length, inBase, inStride, n)
    requires InBounds(fastOut.Length, outBase, outStride, k)
    requires InBounds(slowOut.Length, outBase, outStride, k)
    modifies fastOut, slowOut
    ensures View(fastOut, outBase, outStride, k) == View(slowOut, outBase, outStride, k)
  {
    FastPencil(input, inBase, inStride, n, k, maxK, fastOut, outBase, outStride);
    FallbackPencil(input, inBase, inStride, n, k, slowOut, outBase, outStride);
  }
}
