/** Reading stored leaves back by index, from a store with or without gaps. */
module LeafRange {
  import opened Binary
  import opened NodeIndex
  import opened Sparse
  import opened Store

  /** What the filter keeps of one array entry. */
  function Found(cell: Option<Node>, lo: nat, hi: nat): seq<Leaf> {
    if cell.Some? && cell.value.LeafNode? && lo <= cell.value.leaf.leafIndex <= hi then [cell.value.leaf] else []
  }

  /** `nodes.filter(node => node && lo <= node.leafIndex && node.leafIndex <= hi)` */
  function Matching(nodes: Bucket, lo: nat, hi: nat): seq<Leaf> {
    if |nodes| == 0 then []
    else Matching(nodes[..|nodes| - 1], lo, hi) + Found(nodes[|nodes| - 1], lo, hi)
  }

  /** Last leaf index of the bucket that leaf `lo` falls into. */
  function BucketEnd(h: nat, lo: nat): int {
    (CalculateBucket(LeafIndexToNodeIndex(h, lo)) + 1) * BUCKET_SIZE - Pow2(h)
  }

  function Min(a: int, b: int): int {
    if a < b then a else b
  }

  // ----- The stored leaves of a range -------------------------------------------------------

  function AsSeq(leaf: Option<Leaf>): seq<Leaf> {
    if leaf.Some? then [leaf.value] else []
  }

  /** The leaves that are stored with an index in lo..hi, each once and ascending. */
  function StoredIn(buckets: Buckets, h: nat, lo: nat, hi: int): seq<Leaf>
    decreases hi
  {
    if hi < lo then [] else StoredIn(buckets, h, lo, hi - 1) + AsSeq(LeafAt(buckets, h, hi))
  }

  lemma {:induction false} StoredInSize(buckets: Buckets, h: nat, lo: nat, hi: int)
    requires lo <= hi + 1
    ensures |StoredIn(buckets, h, lo, hi)| <= hi - lo + 1
    ensures |StoredIn(buckets, h, lo, hi)| == hi - lo + 1 <==> forall i :: lo <= i <= hi ==> LeafAt(buckets, h, i).Some?
    decreases hi
  {
    if lo <= hi { StoredInSize(buckets, h, lo, hi - 1); }
  }

  lemma {:induction false} StoredInSplit(buckets: Buckets, h: nat, lo: nat, m: nat, hi: int)
    requires lo <= m <= hi + 1
    ensures StoredIn(buckets, h, lo, hi) == StoredIn(buckets, h, lo, m - 1) + StoredIn(buckets, h, m, hi)
    decreases hi
  {
    hide LeafAt;
    if m <= hi { StoredInSplit(buckets, h, lo, m, hi - 1); }
  }

  lemma {:induction false} NothingStored(buckets: Buckets, h: nat, lo: nat, m: nat, hi: int)
    requires lo <= m <= hi + 1
    requires forall i :: m <= i <= hi ==> LeafAt(buckets, h, i) == None
    ensures StoredIn(buckets, h, lo, hi) == StoredIn(buckets, h, lo, m - 1)
    decreases hi
  {
    if m <= hi { NothingStored(buckets, h, lo, m, hi - 1); }
  }

  /** The stored leaves with an index in lo..hi, in order, of a store without gaps. */
  function Between(leaves: seq<Leaf>, lo: nat, hi: int): seq<Leaf> {
    var end := if hi < |leaves| then hi + 1 else |leaves|;
    if lo < end then leaves[lo..end] else []
  }

  lemma BetweenStep(leaves: seq<Leaf>, lo: nat, k: nat)
    requires lo <= k
    ensures Between(leaves, lo, k) == Between(leaves, lo, k - 1) + if k < |leaves| then [leaves[k]] else []
  {
  }

  lemma {:induction false} GapFreeRange(buckets: Buckets, h: nat, leaves: seq<Leaf>, lo: nat, hi: int)
    requires LeavesStored(buckets, h, leaves)
    ensures StoredIn(buckets, h, lo, hi) == Between(leaves, lo, hi)
    decreases hi
  {
    hide LeavesStored, LeafAt;
    if lo <= hi {
      StoredInCells(buckets, h, leaves);
      GapFreeRange(buckets, h, leaves, lo, hi - 1);
      BetweenStep(leaves, lo, hi);
    }
  }

  // ----- One round --------------------------------------------------------------------------

  /** What one cell of the bucket of leaf `lo` contributes. */
  lemma FoundInCell(buckets: Buckets, h: nat, lo: nat, hi: nat, b: nat, p: nat)
    requires LeavesInCells(buckets, h)
    requires b == CalculateBucket(LeafIndexToNodeIndex(h, lo)) && b in buckets && p < |buckets[b]|
    ensures var i := p - (Pow2(h) - 1);
            Found(buckets[b][p], lo, hi) == if lo <= i <= Min(hi, BucketEnd(h, lo)) then AsSeq(LeafAt(buckets, h, i)) else []
  {
    hide Pow2;
    var i := p - (Pow2(h) - 1);
    assert HasLeaf(buckets, b, p) ==> i >= 0 && CalculateBucket(p) == b && buckets[b][p].value.leaf.leafIndex == i;
    assert i >= 0 ==> LeafIndexToNodeIndex(h, i) == p;
  }

  /** The first k positions of a bucket contain, of the leaves from `lo` on, those up to k. */
  lemma {:induction false} MatchingPrefix(buckets: Buckets, h: nat, lo: nat, hi: nat, b: nat, k: nat)
    requires LeavesInCells(buckets, h)
    requires b == CalculateBucket(LeafIndexToNodeIndex(h, lo)) && b in buckets && k <= |buckets[b]|
    ensures Matching(buckets[b][..k], lo, hi)
         == StoredIn(buckets, h, lo, Min(Min(hi, BucketEnd(h, lo)), k - Pow2(h)))
    decreases k
  {
    hide LeavesInCells, BucketEnd, CalculateBucket, LeafIndexToNodeIndex, Pow2, Found, LeafAt, AsSeq, StoredIn, Min;
    var cap := Min(hi, BucketEnd(h, lo));
    if k > 0 {
      MatchingPrefix(buckets, h, lo, hi, b, k - 1);
      assert buckets[b][..k][..k - 1] == buckets[b][..k - 1];
      FoundInCell(buckets, h, lo, hi, b, k - 1);
      StoredInStep(buckets, h, lo, cap, k - Pow2(h));
    } else {
      MinBelow(cap, k - Pow2(h));
      NothingBelow(buckets, h, lo, Min(cap, k - Pow2(h)));
    }
  }

  /** One round finds exactly the requested leaves of one bucket. */
  lemma MatchingBucket(buckets: Buckets, h: nat, lo: nat, hi: nat)
    requires LeavesInCells(buckets, h) && HasDocument(buckets, h, lo) && lo <= hi
    ensures BucketEnd(h, lo) >= lo
    ensures Matching(buckets[CalculateBucket(LeafIndexToNodeIndex(h, lo))], lo, hi)
         == StoredIn(buckets, h, lo, RoundEnd(h, lo, hi))
  {
    BucketEndReached(h, lo);
    hide LeavesInCells, BucketEnd, Pow2, Matching, StoredIn, LeafAt;
    var b := CalculateBucket(LeafIndexToNodeIndex(h, lo));
    var nodes, e := buckets[b], Min(hi, BucketEnd(h, lo));
    MatchingPrefix(buckets, h, lo, hi, b, |nodes|);
    assert nodes[..|nodes|] == nodes;
    var reach := |nodes| - Pow2(h);
    if reach < e {
      forall i | lo <= i <= e && i > reach ensures LeafAt(buckets, h, i) == None { BeyondArray(buckets, h, lo, i); }
      if reach + 1 >= lo {
        NothingStored(buckets, h, lo, reach + 1, e);
      } else {
        NothingStored(buckets, h, lo, lo, e);
        NothingBelow(buckets, h, lo, reach);
        NothingBelow(buckets, h, lo, lo - 1);
      }
    }
  }

  lemma StoredInStep(buckets: Buckets, h: nat, lo: nat, cap: int, k: int)
    ensures StoredIn(buckets, h, lo, Min(cap, k))
         == StoredIn(buckets, h, lo, Min(cap, k - 1)) + if lo <= k <= cap then AsSeq(LeafAt(buckets, h, k)) else []
  {
  }

  lemma MinBelow(a: int, b: int)
    ensures Min(a, b) <= b
  {
  }

  lemma NothingBelow(buckets: Buckets, h: nat, lo: nat, hi: int)
    requires hi < lo
    ensures StoredIn(buckets, h, lo, hi) == []
  {
  }

  lemma BucketEndReached(h: nat, lo: nat)
    ensures BucketEnd(h, lo) >= lo
  {
  }

  lemma SameBucket(h: nat, lo: nat, i: nat)
    requires lo <= i
    ensures CalculateBucket(LeafIndexToNodeIndex(h, i)) == CalculateBucket(LeafIndexToNodeIndex(h, lo)) <==> i <= BucketEnd(h, lo)
  {
  }

  lemma BeyondArray(buckets: Buckets, h: nat, lo: nat, i: nat)
    requires HasDocument(buckets, h, lo) && lo <= i <= BucketEnd(h, lo)
    requires i > |buckets[CalculateBucket(LeafIndexToNodeIndex(h, lo))]| - Pow2(h)
    ensures LeafAt(buckets, h, i) == None
  {
    SameBucket(h, lo, i);
  }

  // ----- When the range read is exact --------------------------------------------------------

  /** In every bucket the stored leaves of the range are an initial segment: no missing leaf is
      followed by a stored one of the same bucket. */
  ghost predicate Dense(buckets: Buckets, h: nat, lo: nat, hi: int) {
    forall i: nat, j: nat :: lo <= i < j <= hi && j <= BucketEnd(h, i) && LeafAt(buckets, h, j).Some? ==> LeafAt(buckets, h, i).Some?
  }

  ghost predicate Within(a: seq<Leaf>, b: seq<Leaf>) {
    forall l :: l in a ==> l in b
  }

  lemma WithinConcat(a: seq<Leaf>, b: seq<Leaf>, c: seq<Leaf>, d: seq<Leaf>)
    requires Within(a, b) && Within(c, d)
    ensures Within(a + c, b + d)
  {
  }

  lemma WithinPrefix(a: seq<Leaf>, b: seq<Leaf>)
    requires a <= b
    ensures Within(a, b)
  {
  }

  lemma WithinMiddle(a: seq<Leaf>, b: seq<Leaf>, c: seq<Leaf>)
    ensures Within(b, a + (b + c))
  {
  }

  lemma WithinBoth(a: seq<Leaf>, b: seq<Leaf>, c: seq<Leaf>)
    requires Within(a, c) && Within(b, c)
    ensures Within(a + b, c)
  {
  }

  lemma GapFreeIsDense(buckets: Buckets, h: nat, leaves: seq<Leaf>, lo: nat, hi: int)
    requires LeavesStored(buckets, h, leaves)
    ensures Dense(buckets, h, lo, hi)
    ensures hi < |leaves| ==> forall i: nat :: i <= hi ==> HasDocument(buckets, h, i)
  {
    StoredInCells(buckets, h, leaves);
    hide LeavesStored;
    assert forall i: nat :: i <= hi < |leaves| ==> LeafAt(buckets, h, i).Some?;
  }

  lemma OneLeaf(buckets: Buckets, h: nat, i: nat)
    ensures StoredIn(buckets, h, i, RoundEnd(h, i, i)) == AsSeq(LeafAt(buckets, h, i))
  {
    BucketEndReached(h, i);
    hide BucketEnd, LeafAt;
  }

  /** The state of the loop after the indices below x: every stored leaf was returned, and it was
      returned once unless a gap has been passed. */
  ghost predicate RangeSoFar(buckets: Buckets, h: nat, lo: nat, hi: nat, x: nat, leaves: seq<Leaf>) {
    var exact := StoredIn(buckets, h, lo, x - 1);
    && Within(exact, leaves)
    && Within(leaves, StoredIn(buckets, h, lo, hi))
    && |leaves| >= |exact|
    && (|leaves| == |exact| ==> leaves == exact)
    && (Dense(buckets, h, lo, hi) ==> |leaves| == |exact|)
    && (|leaves| == |exact| && !Dense(buckets, h, lo, hi) ==> !Dense(buckets, h, x, hi))
  }

  lemma RangeStart(buckets: Buckets, h: nat, lo: nat, hi: nat)
    ensures RangeSoFar(buckets, h, lo, hi, lo, [])
  {
  }

  /** The index after a round that found n leaves at index x. */
  function NextIndex(x: nat, n: nat): nat {
    x + (if n > 0 then n - 1 else 0) + 1
  }

  function RoundEnd(h: nat, x: nat, hi: nat): int {
    Min(hi, BucketEnd(h, x))
  }

  /** What one round finds, against the indices that it skips. */
  lemma SkippedLeaves(buckets: Buckets, h: nat, x: nat, hi: nat)
    requires x <= hi
    ensures var e := RoundEnd(h, x, hi);
            var result := StoredIn(buckets, h, x, e);
            var next := NextIndex(x, |result|);
            var skipped := StoredIn(buckets, h, x, next - 1);
            && x < next <= e + 1
            && |skipped| <= |result|
            && skipped <= result
            && (|skipped| == |result| ==> skipped == result)
  {
    BucketEndReached(h, x);
    var e := RoundEnd(h, x, hi);
    StoredInSize(buckets, h, x, e);
    var result := StoredIn(buckets, h, x, e);
    var next := NextIndex(x, |result|);
    StoredInSplit(buckets, h, x, next, e);
  }

  /** Nothing is found twice exactly if the indices skipped are all stored or all missing, so a
      gap that has been passed without harm was the last of its bucket. */
  lemma GapsPassed(buckets: Buckets, h: nat, x: nat, hi: nat)
    requires x <= hi
    ensures var result := StoredIn(buckets, h, x, RoundEnd(h, x, hi));
            var next := NextIndex(x, |result|);
            var same := |StoredIn(buckets, h, x, next - 1)| == |result|;
            && (Dense(buckets, h, x, hi) ==> same)
            && (same && Dense(buckets, h, next, hi) ==> Dense(buckets, h, x, hi))
  {
    SkippedLeaves(buckets, h, x, hi);
    BucketEndReached(h, x);
    hide LeafAt, Dense, StoredIn, BucketEnd;
    var e := RoundEnd(h, x, hi);
    var result := StoredIn(buckets, h, x, e);
    var next := NextIndex(x, |result|);
    if Dense(buckets, h, x, hi) { DenseRun(buckets, h, x, hi, e); }
    if |StoredIn(buckets, h, x, next - 1)| == |result| && Dense(buckets, h, next, hi) {
      NoGapSkipped(buckets, h, x, hi, e, next);
    }
  }

  /** Of a dense bucket the first |result| indices are the stored ones. */
  lemma {:induction false} DenseRun(buckets: Buckets, h: nat, x: nat, hi: nat, e: int)
    requires Dense(buckets, h, x, hi) && x - 1 <= e <= hi && e <= BucketEnd(h, x)
    ensures var n := |StoredIn(buckets, h, x, e)|;
            |StoredIn(buckets, h, x, x + n - 1)| == n
    decreases e
  {
    hide LeafAt;
    StoredInSize(buckets, h, x, e);
    if x <= e {
      DenseRun(buckets, h, x, hi, e - 1);
      if LeafAt(buckets, h, e).Some? {
        forall i | x <= i < e ensures LeafAt(buckets, h, i).Some? { SameBucketEnd(h, x, i); }
      }
    }
  }

  lemma SameBucketEnd(h: nat, x: nat, i: nat)
    requires x <= i <= BucketEnd(h, x)
    ensures BucketEnd(h, i) == BucketEnd(h, x)
  {
    SameBucket(h, x, i);
  }

  lemma NoGapSkipped(buckets: Buckets, h: nat, x: nat, hi: nat, e: nat, next: nat)
    requires x <= e && e == RoundEnd(h, x, hi) && x < next <= e + 1
    requires var result := StoredIn(buckets, h, x, e);
             && next == NextIndex(x, |result|)
             && |StoredIn(buckets, h, x, next - 1)| == |result|
    requires Dense(buckets, h, next, hi)
    ensures Dense(buckets, h, x, hi)
  {
    hide LeafAt;
    var result := StoredIn(buckets, h, x, e);
    StoredInSize(buckets, h, x, next - 1);
    StoredInSplit(buckets, h, x, next, e);
    forall i: nat, j: nat | x <= i < j <= hi && j <= BucketEnd(h, i) && LeafAt(buckets, h, j).Some?
      ensures LeafAt(buckets, h, i).Some?
    {
      if i < next {
        SameBucketEnd(h, x, i);
        if |result| == 0 { NotStored(buckets, h, x, e, j); }
      }
    }
  }

  lemma NotStored(buckets: Buckets, h: nat, x: nat, e: nat, j: nat)
    requires x <= j <= e && StoredIn(buckets, h, x, e) == []
    ensures LeafAt(buckets, h, j) == None
  {
    StoredInSplit(buckets, h, x, j, e);
    StoredInSplit(buckets, h, j, j + 1, e);
  }

  /** One round of the loop. */
  lemma RangeRound(buckets: Buckets, h: nat, lo: nat, hi: nat, x: nat, leaves: seq<Leaf>)
    requires lo <= x <= hi && RangeSoFar(buckets, h, lo, hi, x, leaves)
    ensures var result := StoredIn(buckets, h, x, RoundEnd(h, x, hi));
            var next := NextIndex(x, |result|);
            && x < next <= RoundEnd(h, x, hi) + 1
            && RangeSoFar(buckets, h, lo, hi, next, leaves + result)
  {
    SkippedLeaves(buckets, h, x, hi);
    GapsPassed(buckets, h, x, hi);
    BucketEndReached(h, x);
    RoundMembers(buckets, h, lo, hi, x, leaves);
    hide LeafAt, BucketEnd, RoundEnd, StoredIn, Dense, Within;
    var result := StoredIn(buckets, h, x, RoundEnd(h, x, hi));
    var next := NextIndex(x, |result|);
    StoredInSplit(buckets, h, lo, x, next - 1);
    DenseBelow(buckets, h, lo, hi, x);
  }

  lemma RangeSoFarParts(buckets: Buckets, h: nat, lo: nat, hi: nat, x: nat, leaves: seq<Leaf>)
    requires RangeSoFar(buckets, h, lo, hi, x, leaves)
    ensures Within(StoredIn(buckets, h, lo, x - 1), leaves) && Within(leaves, StoredIn(buckets, h, lo, hi))
  {
  }

  lemma RoundMembers(buckets: Buckets, h: nat, lo: nat, hi: nat, x: nat, leaves: seq<Leaf>)
    requires lo <= x <= hi && RangeSoFar(buckets, h, lo, hi, x, leaves)
    ensures var result := StoredIn(buckets, h, x, RoundEnd(h, x, hi));
            && Within(StoredIn(buckets, h, lo, NextIndex(x, |result|) - 1), leaves + result)
            && Within(leaves + result, StoredIn(buckets, h, lo, hi))
  {
    hide LeafAt, BucketEnd, RoundEnd, StoredIn, RangeSoFar, Within;
    SkippedLeaves(buckets, h, x, hi);
    RoundEndInside(h, x, hi);
    RangeSoFarParts(buckets, h, lo, hi, x, leaves);
    var e := RoundEnd(h, x, hi);
    var result := StoredIn(buckets, h, x, e);
    var next := NextIndex(x, |result|);
    StoredInSplit(buckets, h, lo, x, next - 1);
    StoredInSplit(buckets, h, lo, x, hi);
    StoredInSplit(buckets, h, x, e + 1, hi);
    RoundSequences(StoredIn(buckets, h, lo, x - 1), StoredIn(buckets, h, x, next - 1), result, StoredIn(buckets, h, e + 1, hi), leaves);
  }

  lemma RoundEndInside(h: nat, x: nat, hi: nat)
    requires x <= hi
    ensures x <= RoundEnd(h, x, hi) <= hi
  {
    BucketEndReached(h, x);
  }

  lemma RoundSequences(exact: seq<Leaf>, skipped: seq<Leaf>, result: seq<Leaf>, rest: seq<Leaf>, leaves: seq<Leaf>)
    requires Within(exact, leaves) && Within(leaves, exact + (result + rest)) && skipped <= result
    ensures Within(exact + skipped, leaves + result)
    ensures Within(leaves + result, exact + (result + rest))
  {
    WithinPrefix(skipped, result);
    hide Within;
    WithinConcat(exact, leaves, skipped, result);
    WithinMiddle(exact, result, rest);
    WithinBoth(leaves, result, exact + (result + rest));
  }

  lemma DenseBelow(buckets: Buckets, h: nat, lo: nat, hi: int, x: nat)
    requires lo <= x
    ensures Dense(buckets, h, lo, hi) ==> Dense(buckets, h, x, hi)
  {
  }

  lemma RangeEnd(buckets: Buckets, h: nat, lo: nat, hi: nat, x: nat, leaves: seq<Leaf>)
    requires RangeSoFar(buckets, h, lo, hi, x, leaves) && x > hi && (x == hi + 1 || x == lo)
    ensures Within(StoredIn(buckets, h, lo, hi), leaves) && Within(leaves, StoredIn(buckets, h, lo, hi))
    ensures leaves == StoredIn(buckets, h, lo, hi) <==> Dense(buckets, h, lo, hi)
  {
    hide Within;
    assert Dense(buckets, h, x, hi);
  }
}
