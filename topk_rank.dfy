/** The selection seen through pencil positions instead of values: running the
    same online insertion on indices shows that the kept entries are exactly
    the first min(k, |p|) positions of the pencil under the order "larger
    value first, and among equal values the one scanned first", which is both
    the top-k property and the stable tie-break of kernels/topk.cpp. */
module TopKRank {
  import opened TopKSpec

  /** Position `i` of pencil `p` ranks ahead of position `j`. */
  predicate Before(p: seq<int>, i: nat, j: nat)
    requires i < |p| && j < |p|
  {
    p[i] > p[j] || (p[i] == p[j] && i < j)
  }

  /** Every entry of `idx` is a position below `n`. */
  predicate Below(idx: seq<nat>, n: nat)
  {
    forall a :: 0 <= a < |idx| ==> idx[a] < n
  }

  /** The pencil values at the positions `idx`. */
  function Values(p: seq<int>, idx: seq<nat>): (r: seq<int>)
    requires Below(idx, |p|)
    ensures |r| == |idx| && forall a :: 0 <= a < |idx| ==> r[a] == p[idx[a]]
  {
    seq(|idx|, a requires 0 <= a < |idx| => p[idx[a]])
  }

  /** Step on positions: scanning position `j`, compared by the values at the
      kept positions exactly as Step compares values. */
  function StepIdx(p: seq<int>, idx: seq<nat>, k: nat, j: nat): (r: seq<nat>)
    requires 0 < k && |idx| <= k && j < |p| && Below(idx, j)
    ensures |r| == if |idx| < k then |idx| + 1 else k
    ensures Below(r, j + 1)
  {
    var vals := Values(p, idx);
    if |idx| == k && p[j] <= vals[k - 1] then idx
    else
      var pos := InsertPos(vals, p[j]);
      if pos < k then
        var count := if |idx| < k then |idx| + 1 else k;
        Inserted(idx, pos, j)[..count]
      else idx
  }

  /** The kept positions after scanning the first `n` positions of `p`. */
  function SelectIdx(p: seq<int>, n: nat, k: nat): (r: seq<nat>)
    requires 0 < k && n <= |p|
    ensures |r| == Min(k, n) && Below(r, n)
  {
    if n == 0 then [] else StepIdx(p, SelectIdx(p, n - 1, k), k, n - 1)
  }

  /** Inserting a position and reading the values commute. */
  lemma ValuesInserted(p: seq<int>, idx: seq<nat>, pos: nat, j: nat, count: nat, r: seq<nat>)
    requires Below(idx, |p|) && j < |p| && pos <= |idx| && count <= |idx| + 1
    requires r == Inserted(idx, pos, j)[..count]
    ensures Below(r, |p|)
    ensures Values(p, r) == Inserted(Values(p, idx), pos, p[j])[..count]
  {
    var s := Inserted(Values(p, idx), pos, p[j])[..count];
    forall a | 0 <= a < count
      ensures r[a] < |p| && p[r[a]] == s[a]
    {
      if a < pos {
      } else if a == pos {
      } else {
        assert r[a] == idx[a - 1];
      }
    }
  }

  /** A step on positions yields the positions of a step on values. */
  lemma ValuesStepIdx(p: seq<int>, idx: seq<nat>, k: nat, j: nat)
    requires 0 < k && |idx| <= k && j < |p| && Below(idx, j)
    ensures Values(p, StepIdx(p, idx, k, j)) == Step(Values(p, idx), k, p[j])
  {
    var vals := Values(p, idx);
    if !(|idx| == k && p[j] <= vals[k - 1]) {
      var pos := InsertPos(vals, p[j]);
      if pos < k {
        var count := if |idx| < k then |idx| + 1 else k;
        ValuesInserted(p, idx, pos, j, count, Inserted(idx, pos, j)[..count]);
      }
    }
  }

  /** The positions kept by the scan hold the values kept by the scan. */
  lemma {:induction false} SelectIdxValues(p: seq<int>, n: nat, k: nat)
    requires 0 < k && n <= |p|
    ensures Values(p, SelectIdx(p, n, k)) == SelectPrefix(p, n, k)
  {
    if n > 0 {
      var m := n - 1;
      var prev := SelectIdx(p, m, k);
      SelectIdxValues(p, m, k);
      ValuesStepIdx(p, prev, k, m);
      assert SelectIdx(p, m + 1, k) == StepIdx(p, prev, k, m);
      assert SelectPrefix(p, m + 1, k) == Step(SelectPrefix(p, m, k), k, p[m]);
    }
  }

  /** `idx` lists positions strictly ordered by Before. */
  ghost predicate SortedBy(p: seq<int>, idx: seq<nat>)
    requires Below(idx, |p|)
  {
    forall a, b :: 0 <= a < b < |idx| ==> Before(p, idx[a], idx[b])
  }

  /** Every position below `n` that `idx` does not list ranks behind every
      position it lists. */
  ghost predicate RanksBehind(p: seq<int>, n: nat, idx: seq<nat>)
    requires n <= |p| && Below(idx, |p|)
  {
    forall j, a :: 0 <= j < n && j !in idx && 0 <= a < |idx| ==> Before(p, idx[a], j)
  }

  /** The invariant of the scan over positions `[0, n)`: `idx` holds
      min(k, n) of them, strictly ordered by Before, every unkept position
      ranks behind every kept one, and no position has been dropped while the
      buffer is not full. */
  ghost predicate Ranked(p: seq<int>, n: nat, k: nat, idx: seq<nat>)
  {
    && n <= |p|
    && |idx| == Min(k, n)
    && Below(idx, n)
    && SortedBy(p, idx)
    && RanksBehind(p, n, idx)
    && (|idx| < k ==> forall j :: 0 <= j < n ==> j in idx)
  }

  lemma BeforeTrans(p: seq<int>, i: nat, j: nat, l: nat)
    requires i < |p| && j < |p| && l < |p|
    requires Before(p, i, j) && Before(p, j, l)
    ensures Before(p, i, l)
  {
  }

  /** A discarded position ranks behind every kept one. */
  lemma StepIdxDiscard(p: seq<int>, n: nat, k: nat, idx: seq<nat>)
    requires 0 < k && n < |p| && Ranked(p, n, k, idx)
    requires |idx| == k && p[n] <= Values(p, idx)[k - 1]
    ensures Ranked(p, n + 1, k, idx)
  {
    forall a | 0 <= a < k
      ensures Before(p, idx[a], n)
    {
      if a < k - 1 {
        assert Before(p, idx[a], idx[k - 1]);
      }
    }
  }

  /** The scanned position `n` ranks behind the kept positions in front of its
      insertion position and ahead of the rest. */
  lemma NewPosRank(p: seq<int>, n: nat, idx: seq<nat>)
    requires n < |p| && Below(idx, n) && SortedBy(p, idx)
    ensures var pos := InsertPos(Values(p, idx), p[n]);
      forall a :: 0 <= a < |idx| ==> (a < pos ==> Before(p, idx[a], n)) && (pos <= a ==> Before(p, n, idx[a]))
  {
    var vals := Values(p, idx);
    var pos := InsertPos(vals, p[n]);
    forall a | 0 <= a < |idx|
      ensures a < pos ==> Before(p, idx[a], n)
      ensures pos <= a ==> Before(p, n, idx[a])
    {
      if pos < a {
        assert Before(p, idx[pos], idx[a]);
      }
    }
  }

  /** Inserting `n` where it ranks, and cutting to `count` slots, keeps the
      positions ordered by Before. */
  lemma InsertedSorted(p: seq<int>, n: nat, idx: seq<nat>, pos: nat, count: nat, r: seq<nat>)
    requires n < |p| && Below(idx, n) && SortedBy(p, idx) && pos <= |idx|
    requires forall a :: 0 <= a < |idx| ==> (a < pos ==> Before(p, idx[a], n)) && (pos <= a ==> Before(p, n, idx[a]))
    requires count <= |idx| + 1 && r == Inserted(idx, pos, n)[..count]
    ensures Below(r, n + 1)
    ensures SortedBy(p, r)
  {
    var full := Inserted(idx, pos, n);
    assert forall a :: 0 <= a < |r| ==> r[a] == full[a];
    forall a, b | 0 <= a < b < |r|
      ensures Before(p, r[a], r[b])
    {
      if b < pos {
      } else if b == pos {
      } else if a < pos {
        assert full[b] == idx[b - 1];
      } else if a == pos {
        assert full[b] == idx[b - 1];
      } else {
        assert full[a] == idx[a - 1] && full[b] == idx[b - 1];
      }
    }
  }

  /** After an insertion cut to `count` slots, the new position and every old
      entry except a dropped last one are still listed. */
  lemma InsertKeeps(idx: seq<nat>, pos: nat, n: nat, count: nat)
    requires pos < count && |idx| <= count <= |idx| + 1
    ensures n in Inserted(idx, pos, n)[..count]
    ensures forall b :: 0 <= b < count - 1 ==> idx[b] in Inserted(idx, pos, n)[..count]
  {
    var r := Inserted(idx, pos, n)[..count];
    assert r[pos] == n;
    forall b | 0 <= b < count - 1
      ensures idx[b] in r
    {
      if b < pos {
        assert r[b] == idx[b];
      } else {
        assert r[b + 1] == idx[b];
      }
    }
  }

  /** While the buffer is not full an insertion drops nothing: if every
      position below `n` was listed, every position up to `n` is listed after. */
  lemma InsertKeepsAll(idx: seq<nat>, pos: nat, n: nat, r: seq<nat>)
    requires pos <= |idx| && r == Inserted(idx, pos, n)[..|idx| + 1]
    requires forall j :: 0 <= j < n ==> j in idx
    ensures forall j :: 0 <= j < n + 1 ==> j in r
  {
    InsertKeeps(idx, pos, n, |idx| + 1);
    forall j | 0 <= j < n + 1
      ensures j in r
    {
      if j < n {
        assert j in idx;
        var b :| 0 <= b < |idx| && idx[b] == j;
      }
    }
  }

  /** The entry an insertion pushes out of a full buffer ranks behind every
      entry still listed. */
  lemma DroppedRanksBehind(p: seq<int>, n: nat, k: nat, idx: seq<nat>, pos: nat, count: nat, r: seq<nat>, j: nat, a: nat)
    requires 0 < k && n < |p| && Ranked(p, n, k, idx) && pos < k && pos <= |idx|
    requires forall a :: 0 <= a < |idx| ==> (a < pos ==> Before(p, idx[a], n)) && (pos <= a ==> Before(p, n, idx[a]))
    requires count == (if |idx| < k then |idx| + 1 else k) && r == Inserted(idx, pos, n)[..count]
    requires Below(r, n + 1) && j in idx && j !in r && a < |r|
    ensures Before(p, r[a], j)
  {
    InsertKeeps(idx, pos, n, count);
    var b :| 0 <= b < |idx| && idx[b] == j;
    assert b == count - 1;
    if a < pos {
      assert r[a] == idx[a];
      assert Before(p, idx[a], idx[b]);
    } else if a == pos {
      assert r[a] == n;
    } else {
      assert r[a] == idx[a - 1];
      assert Before(p, idx[a - 1], idx[b]);
    }
  }

  /** A position that was already unlisted ranks behind every entry listed
      after an insertion. */
  lemma UnlistedRanksBehind(p: seq<int>, n: nat, k: nat, idx: seq<nat>, pos: nat, count: nat, r: seq<nat>, j: nat, a: nat)
    requires 0 < k && n < |p| && Ranked(p, n, k, idx) && pos < k && pos <= |idx|
    requires forall a :: 0 <= a < |idx| ==> (a < pos ==> Before(p, idx[a], n)) && (pos <= a ==> Before(p, n, idx[a]))
    requires count == (if |idx| < k then |idx| + 1 else k) && r == Inserted(idx, pos, n)[..count]
    requires Below(r, n + 1) && j < n + 1 && j !in idx && j !in r && a < |r|
    ensures Before(p, r[a], j)
  {
    InsertKeeps(idx, pos, n, count);
    assert j < n;
    assert |idx| == k;
    if a < pos {
      assert r[a] == idx[a];
    } else if a == pos {
      assert r[a] == n;
      assert Before(p, n, idx[k - 1]) && Before(p, idx[k - 1], j);
      BeforeTrans(p, n, idx[k - 1], j);
    } else {
      assert r[a] == idx[a - 1];
    }
  }

  /** After an insertion every unlisted position ranks behind every listed one. */
  lemma InsertRanksBehind(p: seq<int>, n: nat, k: nat, idx: seq<nat>, pos: nat, count: nat, r: seq<nat>)
    requires 0 < k && n < |p| && Ranked(p, n, k, idx) && pos < k && pos <= |idx|
    requires forall a :: 0 <= a < |idx| ==> (a < pos ==> Before(p, idx[a], n)) && (pos <= a ==> Before(p, n, idx[a]))
    requires count == (if |idx| < k then |idx| + 1 else k) && r == Inserted(idx, pos, n)[..count]
    requires Below(r, n + 1)
    ensures RanksBehind(p, n + 1, r)
  {
    forall j, a | 0 <= j < n + 1 && j !in r && 0 <= a < |r|
      ensures Before(p, r[a], j)
    {
      if j in idx {
        DroppedRanksBehind(p, n, k, idx, pos, count, r, j, a);
      } else {
        UnlistedRanksBehind(p, n, k, idx, pos, count, r, j, a);
      }
    }
  }

  /** The invariant after inserting position `n` and cutting to `count` slots. */
  lemma InsertedRanked(p: seq<int>, n: nat, k: nat, idx: seq<nat>, pos: nat, count: nat, r: seq<nat>)
    requires 0 < k && n < |p| && Ranked(p, n, k, idx) && pos < k && pos <= |idx|
    requires forall a :: 0 <= a < |idx| ==> (a < pos ==> Before(p, idx[a], n)) && (pos <= a ==> Before(p, n, idx[a]))
    requires count == (if |idx| < k then |idx| + 1 else k) && r == Inserted(idx, pos, n)[..count]
    ensures Ranked(p, n + 1, k, r)
  {
    InsertedSorted(p, n, idx, pos, count, r);
    InsertRanksBehind(p, n, k, idx, pos, count, r);
    assert |r| == Min(k, n + 1);
    if |idx| < k {
      InsertKeepsAll(idx, pos, n, r);
    }
  }

  /** Inserting position `n` at its insertion position keeps the invariant. */
  lemma StepIdxInsert(p: seq<int>, n: nat, k: nat, idx: seq<nat>)
    requires 0 < k && n < |p| && Ranked(p, n, k, idx)
    requires !(|idx| == k && p[n] <= Values(p, idx)[k - 1])
    ensures InsertPos(Values(p, idx), p[n]) < k
    ensures Ranked(p, n + 1, k, StepIdx(p, idx, k, n))
  {
    var pos := InsertPos(Values(p, idx), p[n]);
    var count := if |idx| < k then |idx| + 1 else k;
    var r := Inserted(idx, pos, n)[..count];
    assert pos < k;
    assert StepIdx(p, idx, k, n) == r;
    NewPosRank(p, n, idx);
    InsertedRanked(p, n, k, idx, pos, count, r);
  }

  /** One scanned position, discarded or inserted, keeps the invariant. */
  lemma StepIdxRanked(p: seq<int>, n: nat, k: nat, idx: seq<nat>)
    requires 0 < k && n < |p| && Ranked(p, n, k, idx)
    ensures Ranked(p, n + 1, k, StepIdx(p, idx, k, n))
  {
    if |idx| == k && p[n] <= Values(p, idx)[k - 1] {
      StepIdxDiscard(p, n, k, idx);
    } else {
      StepIdxInsert(p, n, k, idx);
    }
  }

  /** The scan keeps the invariant from the empty prefix to every prefix. */
  lemma {:induction false} SelectIdxRanked(p: seq<int>, n: nat, k: nat)
    requires 0 < k && n <= |p|
    ensures Ranked(p, n, k, SelectIdx(p, n, k))
  {
    if n > 0 {
      var m := n - 1;
      var prev := SelectIdx(p, m, k);
      SelectIdxRanked(p, m, k);
      StepIdxRanked(p, m, k, prev);
      assert SelectIdx(p, m + 1, k) == StepIdx(p, prev, k, m);
    }
  }

  /** The selection is the stable top-k of the pencil: it lists min(k, |p|)
      distinct positions of `p`, ordered by value with earlier-scanned
      duplicates first, and every position it leaves out ranks behind all the
      positions it keeps (so its value is at most the smallest kept value). */
  lemma SelectIsStableTopK(p: seq<int>, k: nat)
    requires 0 < k
    ensures var idx := SelectIdx(p, |p|, k);
      && |idx| == Min(k, |p|)
      && Below(idx, |p|)
      && Values(p, idx) == Select(p, k)
      && (forall a, b :: 0 <= a < b < |idx| ==> Before(p, idx[a], idx[b]))
      && (forall j, a :: 0 <= j < |p| && j !in idx && 0 <= a < |idx| ==> Before(p, idx[a], j))
  {
    SelectIdxRanked(p, |p|, k);
    assert SortedBy(p, SelectIdx(p, |p|, k)) && RanksBehind(p, |p|, SelectIdx(p, |p|, k));
    SelectIdxValues(p, |p|, k);
  }

  /** Ties: of two kept equal values the earlier-scanned one comes first, and
      a value left out that equals a kept one was scanned after it; every
      value left out is at most every kept value. */
  lemma SelectTieBreak(p: seq<int>, k: nat)
    requires 0 < k
    ensures var idx, s := SelectIdx(p, |p|, k), Select(p, k);
      && |s| == |idx|
      && (forall a, b :: 0 <= a < b < |idx| && s[a] == s[b] ==> idx[a] < idx[b])
      && (forall j, a :: 0 <= j < |p| && j !in idx && 0 <= a < |idx| ==> p[j] <= s[a])
      && (forall j, a :: 0 <= j < |p| && j !in idx && 0 <= a < |idx| && p[j] == s[a] ==> idx[a] < j)
  {
    SelectIsStableTopK(p, k);
  }

  /** The first output slot is the maximum of a non-empty pencil. */
  lemma SelectFirstIsMax(p: seq<int>, k: nat)
    requires 0 < k && 0 < |p|
    ensures 0 < |Select(p, k)|
    ensures Select(p, k)[0] in p
    ensures forall j :: 0 <= j < |p| ==> p[j] <= Select(p, k)[0]
  {
    SelectIsStableTopK(p, k);
    var idx := SelectIdx(p, |p|, k);
    forall j | 0 <= j < |p|
      ensures p[j] <= Select(p, k)[0]
    {
      if j in idx {
        var a :| 0 <= a < |idx| && idx[a] == j;
        if 0 < a {
          assert Before(p, idx[0], idx[a]);
        }
      } else {
        assert Before(p, idx[0], j);
      }
    }
  }
}
