/** The online bounded selection that TopKKernel runs over one pencil, stated on
    values: a descending buffer of at most k entries, updated once per scanned
    element (kernels/topk.cpp, the body of the loop over j). */
module TopKSpec {

  function Min(a: nat, b: nat): (r: nat)
  {
    if a <= b then a else b
  }

  /** Non-increasing order. */
  predicate Descending(s: seq<int>)
  {
    forall a, b :: 0 <= a < b < |s| ==> s[a] >= s[b]
  }

  function Zeros(n: nat): (r: seq<int>)
    ensures |r| == n && forall i :: 0 <= i < n ==> r[i] == 0
  {
    seq(n, _ => 0)
  }

  /** Where a new value `v` enters the buffer: the first slot whose kept value
      is strictly smaller than `v`, or the end of the buffer. Kept values equal
      to `v` stay in front of it. */
  function InsertPos(buf: seq<int>, v: int): (pos: nat)
    ensures pos <= |buf|
    ensures forall a :: 0 <= a < pos ==> v <= buf[a]
    ensures pos < |buf| ==> v > buf[pos]
  {
    if |buf| == 0 || v > buf[0] then 0 else 1 + InsertPos(buf[1..], v)
  }

  /** The insertion position is the unique slot with the two properties above. */
  lemma InsertPosUnique(buf: seq<int>, v: int, pos: nat)
    requires pos <= |buf|
    requires forall a :: 0 <= a < pos ==> v <= buf[a]
    requires pos < |buf| ==> v > buf[pos]
    ensures pos == InsertPos(buf, v)
  {
  }

  /** `v` inserted into `buf` in front of slot `pos`, described slot by slot. */
  function Inserted<T>(buf: seq<T>, pos: nat, v: T): (r: seq<T>)
    requires pos <= |buf|
    ensures |r| == |buf| + 1
    ensures forall a :: 0 <= a < pos ==> r[a] == buf[a]
    ensures r[pos] == v
    ensures forall a :: pos < a <= |buf| ==> r[a] == buf[a - 1]
  {
    buf[..pos] + [v] + buf[pos..]
  }

  lemma InsertedMultiset(buf: seq<int>, pos: nat, v: int)
    requires pos <= |buf|
    ensures multiset(Inserted(buf, pos, v)) == multiset(buf) + multiset{v}
  {
    assert buf == buf[..pos] + buf[pos..];
  }

  /** One scanned value: discarded when the buffer is full and `v` is not
      above its last entry; otherwise inserted at its position, shifting the
      tail down by one and dropping the last entry if the buffer was full. */
  function Step(buf: seq<int>, k: nat, v: int): (r: seq<int>)
    requires 0 < k && |buf| <= k
    ensures |r| == if |buf| < k then |buf| + 1 else k
  {
    if |buf| == k && v <= buf[k - 1] then buf
    else
      var pos := InsertPos(buf, v);
      if pos < k then
        var count := if |buf| < k then |buf| + 1 else k;
        Inserted(buf, pos, v)[..count]
      else buf
  }

  /** A value that is not discarded is inserted: its position lies inside the
      buffer's capacity and the result is the insertion, cut to the new count. */
  lemma StepInserts(buf: seq<int>, k: nat, v: int)
    requires 0 < k && |buf| <= k && !(|buf| == k && v <= buf[k - 1])
    ensures InsertPos(buf, v) < k
    ensures Step(buf, k, v) == Inserted(buf, InsertPos(buf, v), v)[..if |buf| < k then |buf| + 1 else k]
  {
  }

  /** The buffer after the first `n` values of pencil `p` have been scanned. */
  function SelectPrefix(p: seq<int>, n: nat, k: nat): (r: seq<int>)
    requires 0 < k && n <= |p|
    ensures |r| == Min(k, n)
  {
    if n == 0 then [] else Step(SelectPrefix(p, n - 1, k), k, p[n - 1])
  }

  /** The selection kept after scanning the whole pencil. */
  function Select(p: seq<int>, k: nat): (r: seq<int>)
    requires 0 < k
    ensures |r| == Min(k, |p|)
  {
    SelectPrefix(p, |p|, k)
  }

  /** The k output slots of one pencil: the selection, then zero padding. */
  function TopKOutput(p: seq<int>, k: nat): (r: seq<int>)
    requires 0 < k
    ensures |r| == k
    ensures r[..Min(k, |p|)] == Select(p, k)
    ensures forall i :: Min(k, |p|) <= i < k ==> r[i] == 0
  {
    var s := Select(p, k);
    s + Zeros(k - |s|)
  }

  /** A step leaves the buffer unchanged exactly when the buffer is full and
      the new value is not above its last entry. */
  lemma StepUnchangedIff(buf: seq<int>, k: nat, v: int)
    requires 0 < k && |buf| <= k
    ensures Step(buf, k, v) == buf <==> (|buf| == k && v <= buf[k - 1])
  {
    if !(|buf| == k && v <= buf[k - 1]) && |buf| == k {
      var pos := InsertPos(buf, v);
      assert pos < k;
      assert Step(buf, k, v)[pos] == v != buf[pos];
    }
  }

  lemma MultisetTake(s: seq<int>, n: nat)
    requires n <= |s|
    ensures multiset(s[..n]) <= multiset(s)
  {
    assert s == s[..n] + s[n..];
  }

  /** Inserting at the insertion position keeps a descending buffer descending. */
  lemma InsertedDescending(buf: seq<int>, v: int)
    requires Descending(buf)
    ensures Descending(Inserted(buf, InsertPos(buf, v), v))
  {
    var pos := InsertPos(buf, v);
    var full := Inserted(buf, pos, v);
    forall a, b | 0 <= a < b < |full|
      ensures full[a] >= full[b]
    {
      if b <= pos {
      } else if a < pos {
        assert full[b] == buf[b - 1];
      } else if a == pos {
        assert full[b] == buf[b - 1] <= buf[pos];
      } else {
        assert full[a] == buf[a - 1] && full[b] == buf[b - 1];
      }
    }
  }

  /** A step keeps the buffer descending, and its contents come from the old
      buffer and the new value; when the buffer was not full nothing is lost. */
  lemma StepShape(buf: seq<int>, k: nat, v: int)
    requires 0 < k && |buf| <= k && Descending(buf)
    ensures Descending(Step(buf, k, v))
    ensures multiset(Step(buf, k, v)) <= multiset(buf) + multiset{v}
    ensures |buf| < k ==> multiset(Step(buf, k, v)) == multiset(buf) + multiset{v}
  {
    if !(|buf| == k && v <= buf[k - 1]) {
      var pos := InsertPos(buf, v);
      var full := Inserted(buf, pos, v);
      InsertedMultiset(buf, pos, v);
      var count := if |buf| < k then |buf| + 1 else k;
      assert Step(buf, k, v) == full[..count];
      MultisetTake(full, count);
      assert |buf| < k ==> full[..count] == full;
      InsertedDescending(buf, v);
    }
  }

  /** The invariant of the scan: after `n` values the buffer holds min(k, n)
      of them in descending order. */
  lemma {:induction false} SelectPrefixDescending(p: seq<int>, n: nat, k: nat)
    requires 0 < k && n <= |p|
    ensures Descending(SelectPrefix(p, n, k))
  {
    if n > 0 {
      SelectPrefixDescending(p, n - 1, k);
      StepShape(SelectPrefix(p, n - 1, k), k, p[n - 1]);
    }
  }

  /** One step of the contents invariant, on a buffer `prev` kept from the
      scanned values `seen`. */
  lemma StepContents(prev: seq<int>, seen: seq<int>, k: nat, v: int)
    requires 0 < k && |prev| <= k && Descending(prev)
    requires multiset(prev) <= multiset(seen)
    requires |seen| < k ==> |prev| == |seen| && multiset(prev) == multiset(seen)
    ensures multiset(Step(prev, k, v)) <= multiset(seen + [v])
    ensures |seen| + 1 <= k ==> multiset(Step(prev, k, v)) == multiset(seen + [v])
  {
    StepShape(prev, k, v);
    assert multiset(seen + [v]) == multiset(seen) + multiset{v};
  }

  /** The buffer's values are drawn from the scanned prefix, and while no
      more than k values have been seen it holds all of them. */
  lemma {:induction false} SelectPrefixContents(p: seq<int>, n: nat, k: nat)
    requires 0 < k && n <= |p|
    ensures multiset(SelectPrefix(p, n, k)) <= multiset(p[..n])
    ensures n <= k ==> multiset(SelectPrefix(p, n, k)) == multiset(p[..n])
  {
    if n > 0 {
      assert p[..n] == p[..n - 1] + [p[n - 1]];
      SelectPrefixContents(p, n - 1, k);
      SelectPrefixDescending(p, n - 1, k);
      StepContents(SelectPrefix(p, n - 1, k), p[..n - 1], k, p[n - 1]);
    }
  }

  /** The whole-pencil selection: length min(k, |p|), descending, a
      sub-multiset of the pencil and, when k ≥ |p|, the pencil itself
      rearranged. */
  lemma SelectShape(p: seq<int>, k: nat)
    requires 0 < k
    ensures |Select(p, k)| == Min(k, |p|)
    ensures Descending(Select(p, k))
    ensures multiset(Select(p, k)) <= multiset(p)
    ensures |p| <= k ==> multiset(Select(p, k)) == multiset(p)
  {
    SelectPrefixDescending(p, |p|, k);
    SelectPrefixContents(p, |p|, k);
    assert p[..|p|] == p;
  }

  /** Output slot `i` of one pencil. */
  lemma OutputSlot(p: seq<int>, k: nat, i: nat)
    requires i < k
    ensures TopKOutput(p, k)[i] == if i < |Select(p, k)| then Select(p, k)[i] else 0
  {
    var r := TopKOutput(p, k);
    if i < Min(k, |p|) {
      assert r[..Min(k, |p|)][i] == r[i];
    }
  }

  /** Scanning 5, 1, 9, 9, 2 with k = 3: the first two values fill the buffer. */
  lemma DuplicatesPrefix2()
    ensures SelectPrefix([5, 1, 9, 9, 2], 2, 3) == [5, 1]
  {
    StepInserts([], 3, 5);
    assert SelectPrefix([5, 1, 9, 9, 2], 1, 3) == [5];
    InsertPosUnique([5], 1, 1);
    StepInserts([5], 3, 1);
  }

  /** The first 9 goes to the front; the second 9 goes behind it. */
  lemma DuplicatesPrefix4()
    ensures SelectPrefix([5, 1, 9, 9, 2], 4, 3) == [9, 9, 5]
  {
    DuplicatesPrefix2();
    InsertPosUnique([5, 1], 9, 0);
    StepInserts([5, 1], 3, 9);
    assert SelectPrefix([5, 1, 9, 9, 2], 3, 3) == [9, 5, 1];
    InsertPosUnique([9, 5, 1], 9, 1);
    StepInserts([9, 5, 1], 3, 9);
  }

  /** The final 2 is not above the last kept 5 and is dropped. */
  lemma DuplicatesSelect()
    ensures Select([5, 1, 9, 9, 2], 3) == [9, 9, 5]
  {
    DuplicatesPrefix4();
    StepUnchangedIff([9, 9, 5], 3, 2);
  }

  /** Duplicates are both kept, the earlier-scanned one first, and a value
      not above the last kept one is dropped. */
  lemma ScenarioDuplicates()
    ensures TopKOutput([5, 1, 9, 9, 2], 3) == [9, 9, 5]
  {
    DuplicatesSelect();
    assert Zeros(0) == [];
  }

  /** Scanning 3, 3, 3 with k = 5: each equal value goes behind the others. */
  lemma PaddingPrefix2()
    ensures SelectPrefix([3, 3, 3], 2, 5) == [3, 3]
  {
    StepInserts([], 5, 3);
    assert SelectPrefix([3, 3, 3], 1, 5) == [3];
    InsertPosUnique([3], 3, 1);
    StepInserts([3], 5, 3);
  }

  lemma PaddingSelect()
    ensures Select([3, 3, 3], 5) == [3, 3, 3]
  {
    PaddingPrefix2();
    assert Select([3, 3, 3], 5) == Step([3, 3], 5, 3);
    InsertPosUnique([3, 3], 3, 2);
    StepInserts([3, 3], 5, 3);
    assert Inserted([3, 3], 2, 3) == [3, 3, 3];
  }

  /** A short pencil keeps all its values and is padded with zeros. */
  lemma ScenarioPadding()
    ensures TopKOutput([3, 3, 3], 5) == [3, 3, 3, 0, 0]
  {
    PaddingSelect();
    assert Zeros(2) == [0, 0];
  }
}
