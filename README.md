# Top-K and concatenation kernels, modelled in Dafny

This project models the two per-coordinate tensor kernels of the SOFIE-ALPAKA
kernels library. Both kernels work on flat arrays addressed through stride
vectors.

- `TopKKernel::operator()` (`kernels/topk.cpp`). For one output coordinate it
  scans the pencil of the input through that coordinate along `topk_axis`. It
  keeps the k largest values seen so far in a descending buffer, updated by
  online insertion: find the insertion position, shift the tail down, and drop
  the last value when the buffer is full. It then writes the buffer and zero
  padding into the k output slots of the pencil. There are two copies of the
  algorithm:
  - a fast path that keeps the buffer in a local array of capacity `MaxK`;
  - a fallback path that keeps it inside the strided output slots themselves.
- `ConcatKernel::operator()` (`kernels/concat.hpp`). For one output coordinate
  it does four things:
  - computes the output offset;
  - scans the inputs, accumulating their extents along the concatenation axis,
    for the input that owns the axis coordinate;
  - translates the coordinate into that input;
  - copies one element.

Modules:

- `Strided`: the addressing convention. It defines the dot product `Dot` of
  coordinate and strides, the pencil offsets `Addr`, the ghost view `View`
  of a pencil's elements, and the axis line `Line` through a coordinate.
- `TopKSpec`: the selection on values. `InsertPos`, `Step` (one scanned
  value), `SelectPrefix`/`Select` (a whole pencil) and `TopKOutput` (the k
  output slots), with the shape and contents lemmas.
- `TopKRank`: the same selection run on pencil positions. It proves that the
  kept values are the stable top-k: ordered by value, with earlier-scanned
  duplicates first.
- `TopKKernel`: the imperative kernel over `array<int>`. It has the offset
  loop, both paths with their loops, the kernel body `TopK` as written, the
  intended body `TopKAxisLine`, and the agreement of the two paths.
- `ConcatKernel`: the imperative concatenation kernel and its
  cumulative-offset specification (`Sum`, `Owns`, `Locate`, `Translate`).

Reading of the source:

- `kernels/topk.cpp` uses three names it never declares:
  - `input_axis_stride` (lines 50 and 91);
  - `output_axis_stride` (lines 75, 96, 103, 114-115, 120 and 128);
  - `cache_vals` (lines 53 and 57).

  The model reads them as the declared `input_topk_axis_stride`,
  `output_topk_axis_stride` (lines 39-40) and `top_vals` (line 45), which is
  evidently what was meant.
- The kernel iterates over `output_shape` (line 27), whose extent on
  `topk_axis` is k, and its base offsets include the coordinate on
  `topk_axis` (lines 33-37). A pencil starts at axis position 0 only for the
  coordinates whose axis position is 0, and the code does not restrict the
  iteration to them. See "## Findings": the other coordinates run past the
  pencil. `TopKKernel.TopK` models the body as written, for the pencil that
  starts at the offset the code computes. `TopKKernel.TopKAxisLine` models the
  evidently intended body, which handles the pencil only at axis position 0.

## Model

| member | source | states |
|---|---|---|
| Strided.Dot | kernels/concat.hpp:33-36 | defines the flat offset of a coordinate: the dot product of coordinate and strides, accumulated from axis 0 upward as the offset loops do |
| Strided.DotUpdate | kernels/concat.hpp:55-62 | changing coordinate d to v moves the dot-product offset by (v - old coordinate) strides of axis d |
| Strided.AddrStrictlyIncreasing | kernels/topk.cpp:73-80 | with a positive axis stride, later pencil positions have strictly larger offsets, so the k output slots are distinct |
| Strided.View | kernels/topk.cpp:49-51 | the pencil's n elements, element j being the array element at base + j * stride |
| Strided.Line | kernels/topk.cpp:27-37 | the n elements of the axis line through a coordinate, element j being the array element at that coordinate with its axis entry set to j |
| TopKSpec.InsertPos | kernels/topk.cpp:55-59 | the insertion position is at most the count; every kept value before it is >= the new value; the value at it is strictly smaller |
| TopKSpec.InsertPosUnique | kernels/topk.cpp:100-106 | any position with those three properties is the insertion position, so both search loops compute the same position |
| TopKSpec.Inserted | kernels/topk.cpp:61-67 | inserting at pos keeps the slots before pos, puts the value at pos, and moves each later slot up by one |
| TopKSpec.InsertedMultiset | kernels/topk.cpp:61-67 | an insertion adds exactly the new value to the buffer's multiset |
| TopKSpec.Step | kernels/topk.cpp:53-69 | one scanned value grows the count by one until it reaches k |
| TopKSpec.StepInserts | kernels/topk.cpp:53-69 | a value that is not discarded has its insertion position below k, and the buffer becomes the insertion cut to the new count |
| TopKSpec.StepUnchangedIff | kernels/topk.cpp:53 | a step leaves the buffer unchanged exactly when the buffer is full and the value is <= the last kept value (both directions) |
| TopKSpec.SelectPrefix | kernels/topk.cpp:48-70 | after scanning n values the count is min(k, n) |
| TopKSpec.Select | kernels/topk.cpp:48-70 | the selection kept after scanning the whole pencil, of length min(k, size) |
| TopKSpec.TopKOutput | kernels/topk.cpp:72-80 | the k output slots of a pencil: the selection in slots [0, min(k, size)), then 0 in the slots up to k |
| TopKSpec.InsertedDescending | kernels/topk.cpp:55-67 | inserting at the insertion position keeps a descending buffer descending |
| TopKSpec.StepShape | kernels/topk.cpp:53-69 | a step keeps the buffer descending; its multiset is within old buffer + value, and equal to it when the buffer was not full |
| TopKSpec.StepContents | kernels/topk.cpp:53-69 | one step of the contents invariant: the buffer stays a sub-multiset of the scanned values, and equals them while no more than k have been scanned |
| TopKSpec.SelectPrefixDescending | kernels/topk.cpp:48-70 | loop invariant: after every prefix of the scan the buffer is in non-increasing order |
| TopKSpec.SelectPrefixContents | kernels/topk.cpp:48-70 | loop invariant: the buffer is a sub-multiset of the scanned prefix, and equals it while at most k values have been scanned |
| TopKSpec.SelectShape | kernels/topk.cpp:48-70 | the final selection has length min(k, size), is descending and a sub-multiset of the pencil, and is a permutation of the pencil when size <= k |
| TopKSpec.OutputSlot | kernels/topk.cpp:73-80 | output slot i < k holds entry i of the selection when i is below the selection's length min(k, size), and 0 otherwise; the fast path's write-out and the fallback's zero fill (lines 127-130) both write this value |
| TopKSpec.ScenarioDuplicates | kernels/topk.cpp:48-80 | the pencil 5, 1, 9, 9, 2 with k = 3 gives 9, 9, 5: both 9s are kept and the 2 is discarded |
| TopKSpec.ScenarioPadding | kernels/topk.cpp:72-80 | the pencil 3, 3, 3 with k = 5 gives 3, 3, 3, 0, 0 |
| TopKRank.StepIdx | kernels/topk.cpp:53-69 | the step run on positions keeps at most k positions, each at or below the scanned one |
| TopKRank.SelectIdx | kernels/topk.cpp:48-70 | the positions kept after n values are min(k, n) positions below n |
| TopKRank.ValuesStepIdx | kernels/topk.cpp:53-69 | the step on positions reads off as the step on values |
| TopKRank.SelectIdxValues | kernels/topk.cpp:48-70 | the kept positions hold exactly the kept values |
| TopKRank.StepIdxDiscard | kernels/topk.cpp:53 | a discarded value ranks behind every kept value |
| TopKRank.NewPosRank | kernels/topk.cpp:56-59 | the new value ranks behind the kept values before its insertion position (equal or larger, and scanned earlier) and ahead of the rest |
| TopKRank.InsertedSorted | kernels/topk.cpp:61-67 | inserting at the insertion position keeps the positions ordered by value, with ties in scan order |
| TopKRank.InsertKeeps | kernels/topk.cpp:62-68 | after an insertion the new position and every old entry except a dropped last one are still kept |
| TopKRank.InsertRanksBehind | kernels/topk.cpp:61-69 | after an insertion every position not kept ranks behind every kept one |
| TopKRank.StepIdxInsert | kernels/topk.cpp:55-69 | inserting a value keeps the ranking invariant |
| TopKRank.StepIdxRanked | kernels/topk.cpp:53-69 | every scanned value keeps the ranking invariant |
| TopKRank.SelectIdxRanked | kernels/topk.cpp:48-70 | loop invariant of the scan over positions: sorted by rank, unkept behind kept, nothing dropped while not full |
| TopKRank.SelectIsStableTopK | kernels/topk.cpp:48-70 | the kept values are min(k, size) distinct positions, ordered by value with earlier duplicates first, and every left-out position ranks behind all kept ones |
| TopKRank.SelectTieBreak | kernels/topk.cpp:56-59 | of equal kept values the earlier-scanned comes first; every left-out value is <= every kept value; a left-out value equal to a kept one was scanned later |
| TopKRank.SelectFirstIsMax | kernels/topk.cpp:48-70 | for a non-empty pencil, output slot 0 holds the pencil's maximum |
| TopKKernel.BaseOffsets | kernels/topk.cpp:30-37 | the two accumulated offsets are the dot products of the coordinate with the input and output strides |
| TopKKernel.PencilIsAxisLine | kernels/topk.cpp:33-40 | when the axis coordinate is 0, pencil position j is the element whose coordinate is idx with the axis set to j |
| TopKKernel.PencilShifted | kernels/topk.cpp:33-40 | for a coordinate at axis position i, pencil position j is position i + j of the axis line through the coordinate |
| TopKKernel.AsWrittenOverrun | kernels/topk.cpp:27-40 | as written, a coordinate at axis position i with 0 < i < k writes its first slot at line position i (also written for position 0) and its last at line position i + k - 1 >= k, and reads input line position i + size - 1 >= size |
| TopKKernel.FindInsertPosLocal | kernels/topk.cpp:55-59 | the search loop over the local buffer returns InsertPos of the kept values |
| TopKKernel.ShiftDown | kernels/topk.cpp:62-65 | the buffer after the downward shift of the tail: slots (pos, end_shift] hold the slot above them, every other slot is unchanged |
| TopKKernel.ShiftDownLocal | kernels/topk.cpp:62-65 | the downward loop over s leaves the local buffer shifted: slots (pos, end_shift] get the slot above, the rest unchanged |
| TopKKernel.ShiftDownStep | kernels/topk.cpp:63-64 | one iteration of the shift loop extends the shifted tail by one slot |
| TopKKernel.ShiftThenWrite | kernels/topk.cpp:61-68 | shifting and then writing val at pos gives the insertion of val into the kept values, cut to the new count |
| TopKKernel.InsertLocal | kernels/topk.cpp:53-69 | the fast path's update of the local buffer for one value is Step of its old contents; entries from k up are untouched |
| TopKKernel.FastPencil | kernels/topk.cpp:42-84 | the fast path leaves TopKOutput of the pencil in the k output slots and writes no other output element |
| TopKKernel.FindInsertPosStrided | kernels/topk.cpp:100-106 | the search loop over the output slots, with its break, returns InsertPos of the kept values |
| TopKKernel.StoreSlot | kernels/topk.cpp:119-121 | storing into output slot i changes that slot of the pencil view and no other output element |
| TopKKernel.ShiftDownStrided | kernels/topk.cpp:109-117 | the strided shift loop leaves the k output slots shifted and writes nothing outside them |
| TopKKernel.InsertStrided | kernels/topk.cpp:94-124 | the fallback update for one value turns the first count output slots into Step of their old contents, writing only slots of the pencil |
| TopKKernel.FallbackPencil | kernels/topk.cpp:87-130 | the fallback path leaves TopKOutput of the pencil in the k output slots and writes no other output element |
| TopKKernel.TopK | kernels/topk.cpp:24-130 | with k = 0 no output element changes; otherwise the pencil's k output slots hold TopKOutput, whichever path MaxK selects, and no other output element changes |
| TopKKernel.TopKAxisLine | kernels/topk.cpp:24-130 | the intended body: at axis position 0 the k output slots along the axis line through the coordinate hold TopKOutput of the input's axis line; at any other axis position, or with k = 0, no output element changes; no element off those slots changes |
| TopKKernel.PathsAgree | kernels/topk.cpp:42-130 | the fast path and the fallback path leave identical contents in the k output slots of the same pencil |
| ConcatKernel.Sum | kernels/concat.hpp:41-51 | defines the total extent of a run of inputs along the axis, the value the accumulated offset tracks |
| ConcatKernel.SumPrefixMono | kernels/concat.hpp:43-52 | the accumulated offset never decreases along the scan |
| ConcatKernel.Owns | kernels/concat.hpp:46-47 | input c owns axis coordinate x when x lies in [start of c, start of c + extent of c); an owner is an existing input with a non-empty range |
| ConcatKernel.OwnerUnique | kernels/concat.hpp:43-52 | the inputs' ranges on the output axis are disjoint, so an axis coordinate has at most one owning input |
| ConcatKernel.Locate | kernels/concat.hpp:39-52 | a coordinate below the total extent has an owner c: the coordinate lies in [start of c, start of c + extent of c) |
| ConcatKernel.LocateIsFirst | kernels/concat.hpp:43-52 | every input before the owner ends at or below the coordinate, so the owner is the first input whose range reaches past it |
| ConcatKernel.Translate | kernels/concat.hpp:56-58 | the translated coordinate drops by offset on the axis and keeps every other axis |
| ConcatKernel.TranslateOffset | kernels/concat.hpp:55-62 | the translated offset is the untranslated one minus offset times the axis stride |
| ConcatKernel.OutputOffset | kernels/concat.hpp:33-36 | the output offset loop computes the dot product of coordinate and output strides |
| ConcatKernel.FindOwner | kernels/concat.hpp:39-52 | the scan reads only the first min(num_inputs, N) extents. Below their total it picks the owner, which is non-empty and starts at offset. At or above the total, chosen stays 0 and offset is the total |
| ConcatKernel.InputOffset | kernels/concat.hpp:55-62 | the input offset loop computes the dot product of the translated coordinate and the chosen input's strides |
| ConcatKernel.Concat | kernels/concat.hpp:31-66 | the output element at the coordinate's offset receives the owning input's element at the translated coordinate; no other output element changes |
| ConcatKernel.OwnerOfPlaced | kernels/concat.hpp:39-52 | element x of input c lands at axis coordinate start(c) + x, below the total extent, and input c owns it |
| ConcatKernel.TranslateBack | kernels/concat.hpp:56-58 | translating a coordinate that was shifted by offset on the axis restores it |
| ConcatKernel.PlacementRoundTrip | kernels/concat.hpp:39-62 | the output coordinate where an element of input c is placed is owned by c and translates back to the element's input coordinate |
| ConcatKernel.SingleInputIsCopy | kernels/concat.hpp:39-58 | with one input the owner of every coordinate below its extent is input 0, and translating by its start 0 leaves the coordinate unchanged |
| ConcatKernel.ConcatSingleInput | kernels/concat.hpp:31-66 | with one input the kernel is an element-wise strided copy: the output element at the coordinate's offset under the output strides receives input 0's element at the same coordinate's offset under its own strides, and nothing else changes |
| ConcatKernel.EmptyInputSkipped | kernels/concat.hpp:46-47 | with extents 2, 0, 3 coordinate 1 belongs to input 0 and coordinate 2 to input 2; the empty input is never chosen |

## Left out

- The parallel iteration domain `alpaka::uniformElementsND` and its grid-stride scheduling (kernels/topk.cpp:27, kernels/concat.hpp:29) are left out. Each kernel is modelled for one output coordinate per call, and concurrency is not modelled.
- The accelerator and dimension `static_assert`s and the template dispatch over `TAcc`, `Dim`, `Idx`, `T` and `N` are left out. They are compile-time checks.
- Elements are `int`. Floating-point element types, and their NaN behaviour under `<=` and `>`, are not modelled.
- `Idx` is modelled as unbounded integers. Fixed-width overflow and unsigned wrap-around in the offset arithmetic are excluded by in-bounds preconditions rather than modelled.
- Register versus global memory is not modelled. `MaxK` only selects the path, and the fast path's local buffer is an `array<int>` of capacity `MaxK`.
- The fast path's local buffer starts uninitialised in C++; the model allocates it with default contents. No slot at or beyond the current count is ever read, so the difference is not observable.
- `run.py` is not part of this model. It only drives `make` and benchmark runs.
- TopKKernel.TopK: requires a positive output axis stride when k > 0, so that the k output slots are distinct. It also requires input and output to be different arrays. With overlapping slots, or an output that aliases the input, the fallback path's in-place shifting has no meaningful result.
- TopKKernel.TopK: does not enforce that the coordinate's position on `topk_axis` is 0, because the code does not either. Its result is stated for the pencil that starts at the offset the code computes. The overrun this allows is recorded under "## Findings". `TopKAxisLine` states the intended result.
- TopKKernel.TopK: requires the input pencil and the k output slots to lie inside their arrays. The source's out-of-bounds accesses are undefined behaviour and are not modelled. This happens with a mismatched `topk_axis_size`, or at an axis position above 0 when the pencil runs off the end of the array. `InBounds` excludes both only when they leave the array; an overrun that stays inside the array is modelled as written.
- ConcatKernel.Concat: requires `num_inputs <= N`, an axis below the dimension count, and an axis coordinate below the total extent of the inputs. It also requires in-bounds offsets and inputs distinct from the output. These are the precondition violations the code does not check. `ConcatKernel.FindOwner` still models the scan for a coordinate beyond the total, where `chosen` stays 0.

## Findings

| source | as written | input that shows it | evidently intended | confidence | as-written member | corrected member |
|---|---|---|---|---|---|---|
| kernels/topk.cpp:27-40 | the loop visits every coordinate of `output_shape`, whose extent on `topk_axis` is k, and each coordinate scans and writes a pencil starting at its own axis position | a 1-D input of extent 3 with k = 2 and `output_shape` = [2]: coordinate [1] reads input positions 1 to 3, and position 3 is past the extent. It writes output positions 1 and 2: position 2 is past the extent k, and position 1 is also written by coordinate [0] | one pencil per combination of the other coordinates, starting at axis position 0 | medium, not executed | TopKKernel.AsWrittenOverrun | TopKKernel.TopKAxisLine |
