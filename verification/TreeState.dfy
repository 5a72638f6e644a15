/** What a stored tree has to look like, in terms of the reference tree over its leaves. */
module TreeState {
  import opened Arithmetic
  import opened Binary
  import opened Hashing
  import opened NodeIndex
  import opened ReferenceTree
  import opened Sparse
  import opened Store

  /** Leaf indices must stay below 2^31 - 1 for the 32-bit loop of getFrontierSlot to stop. */
  const LEAF_LIMIT: nat := 0x7fff_ffff

  // ----- Frontier and nodes against the reference tree -------------------------------------

  /** Slot l holds the most recently completed left subtree of level l, truncated; a level with
      no completed subtree has an unwritten slot. `n` counts the leaves absorbed so far. */
  ghost predicate SlotMatches(c: Config, f: Array<string>, all: seq<string>, n: nat, l: nat) {
    At(f, l) == if Shift(n, l) >= 1 then Some(c.Truncate(NodeValue(c, all, l, LatestLeft(n, l)))) else None
  }

  /** Position p of level l is a left child all of whose leaves are among the first n. */
  predicate CompletedLeft(n: nat, l: nat, p: nat) {
    p % 2 == 0 && p < Shift(n, l)
  }

  /** What a frontier says, without the formula for the position: a written slot holds a left
      subtree that is complete, and no complete left subtree of its level comes after it. */
  lemma SlotHoldsLatest(c: Config, f: Array<string>, all: seq<string>, n: nat, h: nat, l: nat) returns (p: nat)
    requires FrontierMatches(c, f, all, n, h) && l <= h
    ensures At(f, l).Some? <==> CompletedLeft(n, l, p)
    ensures At(f, l).Some? ==> At(f, l).value == c.Truncate(NodeValue(c, all, l, p))
    ensures forall p': nat :: CompletedLeft(n, l, p') ==> p' <= p
  {
    hide Config.Truncate, NodeValue, Shift;
    assert SlotMatches(c, f, all, n, l);
    if Shift(n, l) >= 1 {
      p := LatestLeft(n, l);
      LatestLeftIsLast(n, l);
    } else {
      p := 0;
    }
  }

  ghost predicate FrontierMatches(c: Config, f: Array<string>, all: seq<string>, n: nat, h: nat) {
    forall l :: 0 <= l <= h ==> SlotMatches(c, f, all, n, l)
  }

  /** What the cell of an occupied inner node holds: the root of a tree that is not full is
      kept whole, every other value is truncated. */
  function StoredValue(c: Config, all: seq<string>, h: nat, l: nat, p: nat): string {
    if l == h && |all| < Pow2(h) then NodeValue(c, all, l, p) else c.Truncate(NodeValue(c, all, l, p))
  }

  ghost predicate Stored(c: Config, buckets: Buckets, h: nat, all: seq<string>, l: nat, p: nat)
    requires l <= h
  {
    Cell(buckets, h, l, p) == Some(InnerNode(StoredValue(c, all, h, l, p)))
  }

  /** Store agreement: occupied inner nodes hold their reference value, the others nothing. */
  ghost predicate NodeMatches(c: Config, buckets: Buckets, h: nat, all: seq<string>, l: nat, p: nat)
    requires l <= h
  {
    if p < Width(|all|, l) then Stored(c, buckets, h, all, l, p) else Cell(buckets, h, l, p) == None
  }

  ghost predicate NodesMatch(c: Config, buckets: Buckets, h: nat, all: seq<string>) {
    forall l, p: nat :: 1 <= l <= h && p < Pow2(h - l) ==> NodeMatches(c, buckets, h, all, l, p)
  }

  /** While leaf i is being absorbed: nodes completed earlier, and the path of leaf i up to
      level t, hold their reference values; nodes above no leaf of the batch hold nothing. */
  ghost predicate PathCell(c: Config, buckets: Buckets, h: nat, all: seq<string>, i: nat, t: nat, l: nat, p: nat)
    requires l <= h
  {
    && (p < Shift(i, l) || (l <= t && p == Shift(i, l)) ==> Stored(c, buckets, h, all, l, p))
    && (p >= Width(|all|, l) ==> Cell(buckets, h, l, p) == None)
  }

  ghost predicate PathStored(c: Config, buckets: Buckets, h: nat, all: seq<string>, i: nat, t: nat) {
    forall l, p: nat :: 1 <= l <= h && p < Pow2(h - l) ==> PathCell(c, buckets, h, all, i, t, l, p)
  }

  // ----- Absorbing one leaf ----------------------------------------------------------------

  /** A right child is hashed with the frontier slot of its level, which holds its left sibling. */
  lemma HashWithFrontier(c: Config, f: Array<string>, all: seq<string>, h: nat, n: nat, t: nat, p: nat)
    requires c.Valid() && AllWords(all)
    requires FrontierMatches(c, f, all, n, h) && t < h
    requires p % 2 == 1 && p < Width(|all|, t)
    requires p == Shift(n, t)
    ensures At(f, t).Some?
    ensures c.HashPair(At(f, t).value, c.Truncate(NodeValue(c, all, t, p))) == NodeValue(c, all, t + 1, p / 2)
  {
    hide Config.Bytes, Config.Truncate, Config.Sized, AllWords;
    assert SlotMatches(c, f, all, n, t) && LatestLeft(n, t) == p - 1;
    NodeValueSized(c, all, t, p - 1);
    NodeValueSized(c, all, t, p);
    c.TailOfTruncate(NodeValue(c, all, t, p - 1));
    c.TailOfTruncate(NodeValue(c, all, t, p));
    assert p / 2 < Width(|all|, t + 1);
    assert 2 * (p / 2) == p - 1;
  }

  /** A left child without right sibling is hashed with ZERO. */
  lemma HashWithZero(c: Config, all: seq<string>, t: nat)
    requires c.Valid() && AllWords(all) && |all| > 0
    requires Shift(|all| - 1, t) % 2 == 0
    ensures var p := Shift(|all| - 1, t);
            c.HashPair(c.Truncate(NodeValue(c, all, t, p)), c.Zero()) == NodeValue(c, all, t + 1, p / 2)
  {
    hide Config.Bytes, Config.Truncate, Config.Sized, AllWords;
    var p := Shift(|all| - 1, t);
    WidthOfLast(|all|, t);
    WidthOfLast(|all|, t + 1);
    NodeValueSized(c, all, t, p);
    c.TailOfTruncate(NodeValue(c, all, t, p));
    NoRightSibling(c, all, t);
    assert 2 * (p / 2) == p;
  }

  lemma PathPositions(all: seq<string>, h: nat, i: nat, l: nat)
    requires i < |all| <= Pow2(h) && l <= h
    ensures Shift(i, l) < Width(|all|, l)
    ensures Shift(i, l) < Pow2(h - l)
  {
    WidthOfLast(|all|, l);
    ShiftMonotone(i, |all| - 1, l);
    ShiftBound(i, h, l);
  }

  /** Writing the next node of the path extends PathStored by one level. */
  lemma PathStep(c: Config, buckets: Buckets, h: nat, all: seq<string>, i: nat, t: nat, value: string)
    requires i < |all| <= Pow2(h) && t < h
    requires PathStored(c, buckets, h, all, i, t)
    requires CalculateBucket(Index(h, t + 1, Shift(i, t + 1))) in buckets
    requires value == StoredValue(c, all, h, t + 1, Shift(i, t + 1))
    ensures PathStored(c, WriteInner(buckets, Index(h, t + 1, Shift(i, t + 1)), value), h, all, i, t + 1)
  {
    var t', p0 := t + 1, Shift(i, t + 1);
    var after := WriteInner(buckets, Index(h, t + 1, p0), value);
    PathPositions(all, h, i, t + 1);
    forall l, p: nat | 1 <= l <= h && p < Pow2(h - l) ensures PathCell(c, after, h, all, i, t', l, p) {
      assert PathCell(c, buckets, h, all, i, t, l, p);
      CellAfterWrite(buckets, h, t + 1, p0, value, l, p);
    }
  }

  /** Once a leaf has been hashed up to its slot, the nodes it completes are all stored. */
  lemma PathToNextLeaf(c: Config, buckets: Buckets, h: nat, all: seq<string>, i: nat)
    requires PathStored(c, buckets, h, all, i, Slot(i))
    ensures PathStored(c, buckets, h, all, i + 1, 0)
  {
    var i' := i + 1;
    forall l, p: nat | 1 <= l <= h && p < Pow2(h - l) ensures PathCell(c, buckets, h, all, i', 0, l, p) {
      assert PathCell(c, buckets, h, all, i, Slot(i), l, p);
      ShiftSucc(i, l);
    }
  }

  /** Storing the value at the slot of leaf i brings the frontier to i + 1 leaves. */
  lemma FrontierStep(c: Config, f: Array<string>, all: seq<string>, h: nat, i: nat, value: string)
    requires FrontierMatches(c, f, all, i, h)
    requires value == c.Truncate(NodeValue(c, all, Slot(i), Shift(i, Slot(i))))
    ensures FrontierMatches(c, Put(f, Slot(i), value), all, i + 1, h)
  {
    var g, i' := Put(f, Slot(i), value), i + 1;
    forall l | 0 <= l <= h ensures SlotMatches(c, g, all, i', l) {
      assert SlotMatches(c, f, all, i, l);
      AtPut(f, Slot(i), value, l);
      ShiftSucc(i, l);
      if Shift(i + 1, l) >= 1 { LatestLeftAfterLeaf(i, l); }
    }
  }

  /** The path of the last leaf, stored up to the root, completes the node store. */
  lemma PathToRoot(c: Config, buckets: Buckets, h: nat, all: seq<string>)
    requires |all| > 0 && PathStored(c, buckets, h, all, |all| - 1, h)
    ensures NodesMatch(c, buckets, h, all)
  {
    forall l, p: nat | 1 <= l <= h && p < Pow2(h - l) ensures NodeMatches(c, buckets, h, all, l, p) {
      assert PathCell(c, buckets, h, all, |all| - 1, h, l, p);
      WidthOfLast(|all|, l);
    }
  }

  // ----- Starting a batch ------------------------------------------------------------------

  lemma FrontierOfPrefix(c: Config, f: Array<string>, before: seq<string>, all: seq<string>, h: nat)
    requires before <= all && FrontierMatches(c, f, before, |before|, h)
    ensures FrontierMatches(c, f, all, |before|, h)
  {
    forall l | 0 <= l <= h ensures SlotMatches(c, f, all, |before|, l) {
      assert SlotMatches(c, f, before, |before|, l);
      if Shift(|before|, l) >= 1 { CompleteNodeStable(c, before, all, l, LatestLeft(|before|, l)); }
    }
  }

  lemma NodesOfPrefix(c: Config, buckets: Buckets, h: nat, before: seq<string>, all: seq<string>)
    requires before < all && |all| <= Pow2(h)
    requires NodesMatch(c, buckets, h, before)
    ensures PathStored(c, buckets, h, all, |before|, 0)
  {
    ShiftBound(|before|, h, h);
    forall l, p: nat | 1 <= l <= h && p < Pow2(h - l) ensures PathCell(c, buckets, h, all, |before|, 0, l, p) {
      assert NodeMatches(c, buckets, h, before, l, p);
      WidthMonotone(|before|, |all|, l);
      CompleteIsOccupied(|before|, l);
      if p < Shift(|before|, l) { CompleteNodeStable(c, before, all, l, p); }
    }
  }

  // ----- The whole document ----------------------------------------------------------------

  function LeafCount(d: Doc): nat {
    if d.latestLeaf == None then 0 else d.latestLeaf.value.leafIndex + 1
  }

  /** Number of leaves that the saved root and frontier account for. */
  function Recalculated(d: Doc): nat {
    if d.latestRecalculation == None then 0 else d.latestRecalculation.value.leafIndex + 1
  }

  function LeafOf(buckets: Buckets, h: nat, i: nat): Leaf {
    var leaf := LeafAt(buckets, h, i);
    if leaf.Some? then leaf.value else Leaf("", i, 0, "")
  }

  function StoredLeaves(d: Doc): seq<Leaf> {
    seq(LeafCount(d), i requires i >= 0 => LeafOf(d.buckets, d.treeHeight, i))
  }

  function Hashes(leaves: seq<Leaf>): seq<string> {
    seq(|leaves|, i requires 0 <= i < |leaves| => leaves[i].hash)
  }

  /** The frontier of the latest recalculation; updateTree starts from [] when there is none. */
  function SavedFrontier(d: Doc): Array<string> {
    if d.latestRecalculation == None then [] else d.latestRecalculation.value.frontier
  }

  function SavedRoot(d: Doc): Option<string> {
    if d.latestRecalculation == None then None else d.latestRecalculation.value.root
  }

  /** The leaves are gap-free, and latestLeaf describes the last of them. */
  ghost predicate LeavesConsistent(d: Doc) {
    && 1 <= d.treeHeight
    && Provisioned(d.buckets, d.treeHeight, LeafCount(d))
    && LeafCount(d) <= Pow2(d.treeHeight)
    && LeafCount(d) <= LEAF_LIMIT
    && LeavesStored(d.buckets, d.treeHeight, StoredLeaves(d))
    && AllWords(Hashes(StoredLeaves(d)))
    && (d.latestLeaf.Some? ==>
          d.latestLeaf.value.blockNumber == StoredLeaves(d)[LeafCount(d) - 1].blockNumber)
  }

  /** The saved root, frontier and nodes are those of the reference tree over the first
      Recalculated(d) leaves. */
  ghost predicate Consistent(c: Config, d: Doc) {
    && c.Valid()
    && LeavesConsistent(d)
    && Recalculated(d) <= LeafCount(d)
    && var done := Hashes(StoredLeaves(d))[..Recalculated(d)];
       && FrontierMatches(c, SavedFrontier(d), done, |done|, d.treeHeight)
       && NodesMatch(c, d.buckets, d.treeHeight, done)
       && (d.latestRecalculation.Some? ==>
             SavedRoot(d) == Some(TreeRoot(c, done, d.treeHeight)) &&
             d.latestRecalculation.value.blockNumber == StoredLeaves(d)[|done| - 1].blockNumber)
  }

  lemma StoredLeavesAre(d: Doc, leaves: seq<Leaf>)
    requires LeavesStored(d.buckets, d.treeHeight, leaves) && |leaves| == LeafCount(d)
    ensures StoredLeaves(d) == leaves
  {
    hide LeavesStored;
    StoredInCells(d.buckets, d.treeHeight, leaves);
  }

  // ----- Inserting a leaf ------------------------------------------------------------------

  function AfterInsert(d: Doc, leaf: Leaf): Doc
    requires HasDocument(d.buckets, d.treeHeight, leaf.leafIndex)
  {
    d.(buckets := WriteLeaf(d.buckets, LeafIndexToNodeIndex(d.treeHeight, leaf.leafIndex), leaf),
       latestLeaf := Some(LatestLeaf(leaf.blockNumber, leaf.leafIndex)))
  }

  /** The leaf is the next one in order, still fits, and finds its document. */
  predicate IsNext(d: Doc, leaf: Leaf) {
    && HasDocument(d.buckets, d.treeHeight, leaf.leafIndex)
    && leaf.leafIndex == LeafCount(d) < Pow2(d.treeHeight)
    && leaf.leafIndex < LEAF_LIMIT
    && IsWord(leaf.hash)
  }

  lemma InsertKeepsNodes(c: Config, d: Doc, leaf: Leaf, done: seq<string>)
    requires HasDocument(d.buckets, d.treeHeight, leaf.leafIndex)
    requires NodesMatch(c, d.buckets, d.treeHeight, done)
    ensures NodesMatch(c, AfterInsert(d, leaf).buckets, d.treeHeight, done)
  {
    var after := AfterInsert(d, leaf).buckets;
    forall l, p: nat | 1 <= l <= d.treeHeight && p < Pow2(d.treeHeight - l)
      ensures NodeMatches(c, after, d.treeHeight, done, l, p)
    {
      assert NodeMatches(c, d.buckets, d.treeHeight, done, l, p);
      InnerBound(d.treeHeight, l, p);
      InsertKeepsCells(d.buckets, d.treeHeight, leaf.leafIndex, leaf, Index(d.treeHeight, l, p));
    }
  }

  lemma InsertKeepsLeavesConsistent(d: Doc, leaf: Leaf)
    requires LeavesConsistent(d) && IsNext(d, leaf)
    ensures LeavesConsistent(AfterInsert(d, leaf))
    ensures StoredLeaves(AfterInsert(d, leaf)) == StoredLeaves(d) + [leaf]
  {
    InsertKeepsLeaves(d.buckets, d.treeHeight, StoredLeaves(d), leaf);
    StoredLeavesAre(AfterInsert(d, leaf), StoredLeaves(d) + [leaf]);
    assert Hashes(StoredLeaves(d) + [leaf]) == Hashes(StoredLeaves(d)) + [leaf.hash];
    assert AllWords(Hashes(StoredLeaves(d)) + [leaf.hash]);
  }

  /** Inserting the next leaf appends it and leaves the recalculated part untouched. */
  lemma InsertNext(c: Config, d: Doc, leaf: Leaf)
    requires Consistent(c, d) && IsNext(d, leaf)
    ensures Consistent(c, AfterInsert(d, leaf))
    ensures StoredLeaves(AfterInsert(d, leaf)) == StoredLeaves(d) + [leaf]
    ensures Recalculated(AfterInsert(d, leaf)) == Recalculated(d)
  {
    hide LeavesConsistent, NodesMatch, FrontierMatches;
    InsertKeepsLeavesConsistent(d, leaf);
    LeafCountIs(d);
    var d' := AfterInsert(d, leaf);
    var done := Hashes(StoredLeaves(d))[..Recalculated(d)];
    assert done == Hashes(StoredLeaves(d'))[..Recalculated(d')];
    InsertKeepsNodes(c, d, leaf, done);
  }

  lemma LeafCountIs(d: Doc)
    ensures |StoredLeaves(d)| == LeafCount(d)
  {
  }

  lemma InnerBound(h: nat, l: nat, p: nat)
    requires 1 <= l <= h && p < Pow2(h - l)
    ensures Index(h, l, p) < Pow2(h) - 1
  {
    PowMonotone(h - l + 1, h);
    assert Pow2(h - l + 1) == 2 * Pow2(h - l);
  }

  // ----- Updating the tree -----------------------------------------------------------------

  /** updateTree trusts the stored leaves only when the latest one carries a block number. */
  predicate HasBlock(d: Doc) {
    d.latestLeaf.Some? && d.latestLeaf.value.blockNumber != 0
  }

  /** What updateTree returns when it leaves the document as `d`. */
  function ReportedRoot(d: Doc): Option<string> {
    if HasBlock(d) then SavedRoot(d) else Some(ZERO_WORD)
  }

  /** The effect of one updateTree: every stored leaf is accounted for, and a document that
      already is up to date, or has no block number, does not change. */
  ghost predicate UpdateEffect(c: Config, d: Doc, d': Doc) {
    && Consistent(c, d')
    && d'.treeHeight == d.treeHeight && d'.latestLeaf == d.latestLeaf && d'.buckets.Keys == d.buckets.Keys
    && StoredLeaves(d') == StoredLeaves(d)
    && Recalculated(d') == (if HasBlock(d) then LeafCount(d) else Recalculated(d))
    && (Recalculated(d') == Recalculated(d) ==> d' == d)
  }

  lemma UpdateNothing(c: Config, d: Doc)
    requires Consistent(c, d) && (HasBlock(d) ==> Recalculated(d) == LeafCount(d))
    ensures UpdateEffect(c, d, d)
  {
  }

  lemma ConsistentParts(c: Config, d: Doc)
    requires Consistent(c, d)
    ensures c.Valid() && Provisioned(d.buckets, d.treeHeight, LeafCount(d)) && LeavesStored(d.buckets, d.treeHeight, StoredLeaves(d))
    ensures Recalculated(d) <= LeafCount(d) <= Pow2(d.treeHeight) && LeafCount(d) <= LEAF_LIMIT
    ensures forall i :: 0 <= i < LeafCount(d) ==> HasDocument(d.buckets, d.treeHeight, i)
    ensures |Hashes(StoredLeaves(d))| >= Recalculated(d)
    ensures var done := Hashes(StoredLeaves(d))[..Recalculated(d)];
            && |done| == Recalculated(d) && |StoredLeaves(d)| == |Hashes(StoredLeaves(d))| == LeafCount(d)
            && AllWords(Hashes(StoredLeaves(d)))
            && FrontierMatches(c, SavedFrontier(d), done, |done|, d.treeHeight)
            && NodesMatch(c, d.buckets, d.treeHeight, done)
  {
    forall i | 0 <= i < LeafCount(d)
      ensures HasDocument(d.buckets, d.treeHeight, i)
    {
      LeafIsProvisioned(d.buckets, d.treeHeight, LeafCount(d), i);
    }
  }

  /** After updateNodes over all stored leaves the document is consistent again. */
  lemma UpdateDone(c: Config, d: Doc, d': Doc)
    requires Consistent(c, d) && HasBlock(d) && Recalculated(d) < LeafCount(d)
    requires d'.treeHeight == d.treeHeight && d'.latestLeaf == d.latestLeaf
    requires d'.buckets.Keys == d.buckets.Keys
    requires LeavesStored(d'.buckets, d.treeHeight, StoredLeaves(d))
    requires d'.latestRecalculation.Some?
    requires var all := Hashes(StoredLeaves(d));
             var r := d'.latestRecalculation.value;
             && NodesMatch(c, d'.buckets, d.treeHeight, all)
             && FrontierMatches(c, r.frontier, all, |all|, d.treeHeight)
             && r.root == Some(TreeRoot(c, all, d.treeHeight))
             && r.blockNumber == d.latestLeaf.value.blockNumber && r.leafIndex == d.latestLeaf.value.leafIndex
    ensures UpdateEffect(c, d, d')
  {
    hide LeavesStored, FrontierMatches, NodesMatch, TreeRoot, AllWords, Config.Valid, Provisioned, StoredLeaves, Hashes;
    LeafCountIs(d);
    HashesSize(StoredLeaves(d));
    StoredLeavesAre(d', StoredLeaves(d));
    SameDocumentsProvide(d.buckets, d'.buckets, d.treeHeight, LeafCount(d));
    var all := Hashes(StoredLeaves(d'));
    assert all[..Recalculated(d')] == all;
  }

  lemma HashesSize(leaves: seq<Leaf>)
    ensures |Hashes(leaves)| == |leaves|
  {
  }

  lemma SameDocumentsProvide(buckets: Buckets, after: Buckets, h: nat, n: nat)
    requires after.Keys == buckets.Keys && Provisioned(buckets, h, n)
    ensures Provisioned(after, h, n)
  {
    hide LeafIndexToNodeIndex, CalculateBucket;
  }
}
