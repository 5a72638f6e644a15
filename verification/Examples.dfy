/** Concrete inputs on which a promise of the commitment manager fails. */
module Examples {
  import opened Arithmetic
  import opened Binary
  import opened ChainReplay
  import opened CommitmentTree
  import opened Hashing
  import opened LeafRange
  import opened Membership
  import opened NodeIndex
  import opened ReferenceTree
  import opened Runs
  import opened Sparse
  import opened Store
  import opened Text
  import opened TreeState

  /** Height 1, both leaves present, 27-byte values, and a hash that is constantly zero. */
  function FullTree(): (Config, Doc) {
    var c := Config(27, (bytes: seq<nat>) => ZERO_WORD);
    var t := c.Truncate(ZERO_WORD);
    var leaf0, leaf1 := Leaf(ZERO_WORD, 0, 1, ""), Leaf(ZERO_WORD, 1, 2, "");
    (c, Doc(1,
            map[0 := [Some(InnerNode(t)), Some(LeafNode(leaf0)), Some(LeafNode(leaf1))]],
            Some(LatestLeaf(2, 1)),
            Some(Recalculation(2, 1, Some(ZERO_WORD), [Some(t), Some(t)]))))
  }

  lemma FullTreeLeaves()
    ensures var (c, d) := FullTree();
            && c.Valid() && LeavesConsistent(d) && Hashes(StoredLeaves(d)) == [ZERO_WORD, ZERO_WORD]
            && StoredLeaves(d)[1].blockNumber == 2
  {
    var (c, d) := FullTree();
    var leaves := [Leaf(ZERO_WORD, 0, 1, ""), Leaf(ZERO_WORD, 1, 2, "")];
    assert Pow2(1) == 2;
    assert LeavesStored(d.buckets, 1, leaves) by {
      assert LeafCell(d.buckets, LeafIndexToNodeIndex(1, 0)) == Some(LeafNode(leaves[0]));
      assert LeafCell(d.buckets, LeafIndexToNodeIndex(1, 1)) == Some(LeafNode(leaves[1]));
    }
    StoredLeavesAre(d, leaves);
    assert IsWord(ZERO_WORD);
  }

  lemma FullTreeValues()
    ensures var (c, d) := FullTree();
            var all := [ZERO_WORD, ZERO_WORD];
            && Width(2, 0) == 2 && Width(2, 1) == 1 && Pow2(1) == 2 && Pow2(0) == 1
            && Shift(2, 0) == 2 && Shift(2, 1) == 1
            && NodeValue(c, all, 0, 0) == ZERO_WORD && NodeValue(c, all, 1, 0) == ZERO_WORD
  {
  }

  lemma FullTreeFrontier()
    ensures var (c, d) := FullTree(); FrontierMatches(c, SavedFrontier(d), [ZERO_WORD, ZERO_WORD], 2, 1)
  {
    var (c, d) := FullTree();
    FullTreeValues();
    hide NodeValue, Shift, Config.Truncate;
    assert SlotMatches(c, SavedFrontier(d), [ZERO_WORD, ZERO_WORD], 2, 0);
    assert SlotMatches(c, SavedFrontier(d), [ZERO_WORD, ZERO_WORD], 2, 1);
  }

  lemma FullTreeNodes()
    ensures var (c, d) := FullTree(); NodesMatch(c, d.buckets, 1, [ZERO_WORD, ZERO_WORD])
  {
    var (c, d) := FullTree();
    FullTreeValues();
    hide NodeValue, Width, Config.Truncate;
    assert NodeMatches(c, d.buckets, 1, [ZERO_WORD, ZERO_WORD], 1, 0);
  }

  lemma FullTreeUpToDate()
    ensures var (c, d) := FullTree(); UpToDate(c, d)
  {
    var (c, d) := FullTree();
    var all := [ZERO_WORD, ZERO_WORD];
    FullTreeLeaves();
    FullTreeFrontier();
    FullTreeNodes();
    FullTreeValues();
    RootIsTopNode(c, all, 1);
    assert all[..2] == all;
    hide LeavesConsistent, FrontierMatches, NodesMatch, TreeRoot, NodeValue, Config.Truncate;
  }

  /** A full tree with shortened values rejects the proofs that it hands out itself. */
  lemma FullTreeRejectsOwnProof()
    ensures var (c, d) := FullTree();
            UpToDate(c, d) && !Accepts(c, ReportedRoot(d), Values(d)[0], WitnessPath(c, d, 0))
  {
    var (c, d) := FullTree();
    FullTreeUpToDate();
    OwnPathAccepted(c, d, 0);
    assert Pow2(1) == 2;
  }

  // ----- A sibling in a later bucket ----------------------------------------------------------

  const ONE_WORD: string := "0x" + ZeroText(63) + "1"

  /** A digest that tells whether all bytes are zero. */
  function Mark(bytes: seq<nat>): string {
    if exists k :: 0 <= k < |bytes| && bytes[k] != 0 then ONE_WORD else ZERO_WORD
  }

  function MarkConfig(): Config {
    Config(32, Mark)
  }

  lemma MarkWords()
    ensures IsWord(ZERO_WORD) && IsWord(ONE_WORD) && ONE_WORD != ZERO_WORD
    ensures MarkConfig().Valid()
  {
    assert ONE_WORD[65] == '1' && ZERO_WORD[65] == '0';
    forall bytes ensures MarkConfig().DigestIsWord(bytes) {}
  }

  lemma {:induction false} ZeroBytes(s: string, i: nat)
    requires forall k :: i <= k < |s| ==> s[k] == '0'
    ensures forall k :: 0 <= k < |HexBytes(s, i)| ==> HexBytes(s, i)[k] == 0
    decreases |s| - i
  {
    if i + 1 < |s| { ZeroBytes(s, i + 2); }
  }

  lemma MarkBytes()
    ensures var c := MarkConfig();
            && (forall k :: 0 <= k < |c.Bytes(ZERO_WORD)| ==> c.Bytes(ZERO_WORD)[k] == 0)
            && c.Zero() == ZERO_WORD
            && |c.Bytes(ONE_WORD)| > 31 && c.Bytes(ONE_WORD)[31] == 1
  {
    var c := MarkConfig();
    MarkWords();
    assert ZERO_WORD[3] == '0' && ONE_WORD[3] == '0' && ONE_WORD[64] == '0' && ONE_WORD[65] == '1';
    assert c.FirstDigit(ZERO_WORD) == 2 && c.FirstDigit(ONE_WORD) == 2;
    ZeroBytes(ZERO_WORD, 2);
    HexByteAt(ONE_WORD, 2, 31);
  }

  lemma MarkOfPair(a: string, b: string)
    requires a == ZERO_WORD || a == ONE_WORD
    requires b == ZERO_WORD || b == ONE_WORD
    ensures MarkConfig().HashPair(a, b) == if a == ZERO_WORD && b == ZERO_WORD then ZERO_WORD else ONE_WORD
  {
    var c := MarkConfig();
    MarkWords();
    MarkBytes();
    var bytes := c.Bytes(a) + c.Bytes(b);
    hide Config.Bytes, IsWord;
    if a == ONE_WORD { assert bytes[31] != 0; }
    if b == ONE_WORD { assert bytes[|c.Bytes(a)| + 31] != 0; }
  }

  /** With the leaves zero and one, every node above leaf 0 is one. */
  lemma {:induction false} PathIsOne(l: nat)
    ensures NodeValue(MarkConfig(), [ZERO_WORD, ONE_WORD], l, 0) == if l == 0 then ZERO_WORD else ONE_WORD
    ensures l > 0 ==> Width(2, l) == 1 && NodeValue(MarkConfig(), [ZERO_WORD, ONE_WORD], l, 1) == ZERO_WORD
  {
    var c, all := MarkConfig(), [ZERO_WORD, ONE_WORD];
    MarkBytes();
    MarkWords();
    hide IsWord, Config.Valid, Config.HashPair, Config.Bytes;
    if l > 0 {
      PathIsOne(l - 1);
      NodeFromChildren(c, all, l, 0);
      MarkOfPair(NodeValue(c, all, l - 1, 0), NodeValue(c, all, l - 1, 1));
    }
  }

  /** Of a path whose siblings are zero the fold of zero is zero. */
  lemma {:induction false} FoldOfZeros(path: seq<PathNode>, k: nat)
    requires k <= |path| && forall j :: 0 <= j < k ==> path[j].hash == ZERO_WORD
    ensures Fold(MarkConfig(), ZERO_WORD, path, k) == ZERO_WORD
  {
    hide Config.HashPair;
    if k > 0 {
      FoldOfZeros(path, k - 1);
      MarkOfPair(ZERO_WORD, ZERO_WORD);
    }
  }

  /** In a tree of height 15 the leaves lie in the second bucket; the proof of leaf 0 is read with
      ZERO in place of leaf 1, and rejected. */
  lemma UnreadableSiblingRejects(d: Doc)
    requires UpToDate(MarkConfig(), d) && d.treeHeight == 15 && Values(d) == [ZERO_WORD, ONE_WORD]
    ensures !SiblingReadable(MarkConfig(), d, 0)
    ensures |WitnessPath(MarkConfig(), d, 0)| > 0 && !Accepts(MarkConfig(), ReportedRoot(d), ZERO_WORD, WitnessPath(MarkConfig(), d, 0))
  {
    hide UpToDate, Values, ReportedRoot, WitnessPath, StoredHash, NodeValue, Config.Bytes, Config.Valid, Config.HashPair, IsWord,
      Provisioned, LeavesStored, NodesMatch, AllWords, MarkConfig, Width, Shift, Fold, Pow2;
    var c, h := MarkConfig(), 15;
    UpToDateParts(c, d);
    WitnessNodes(c, d, 0);
    SiblingOfZero(d);
    var path := WitnessPath(c, d, 0);
    forall j | 0 <= j < h ensures path[j].hash == ZERO_WORD {
      ZeroPosition(j);
      if j > 0 {
        PathIsOne(j);
        Pow2Step(h - j);
        InnerRead(c, d, j, 1);
      }
    }
    FoldOfZeros(path, h);
    PathIsOne(h);
    MarkWords();
  }

  lemma ZeroPosition(l: nat)
    ensures Shift(0, l) == 0 && MarkConfig().Zero() == ZERO_WORD
  {
    MarkBytes();
  }

  lemma SiblingOfZero(d: Doc)
    requires UpToDate(MarkConfig(), d) && d.treeHeight == 15 && Values(d) == [ZERO_WORD, ONE_WORD]
    ensures !SiblingReadable(MarkConfig(), d, 0)
    ensures StoredHash(MarkConfig(), d.buckets, WitnessIndex(15, 0, 0)) == ZERO_WORD
  {
    hide UpToDate, ReportedRoot, NodeValue, Config.Bytes, Config.Valid, Config.HashPair, IsWord,
      Provisioned, LeavesStored, NodesMatch, AllWords, StoredLeaves, MarkConfig;
    UpToDateParts(MarkConfig(), d);
    FifteenLevels();
    ZeroPosition(0);
    MarkBytes();
    LeafReadByPosition(d.buckets, 15, StoredLeaves(d), 1);
    assert Flip(0) == 1 && LeafIndexToNodeIndex(15, 1) == 32768;
  }

  lemma FifteenLevels()
    ensures Pow2(15) == 32768
  {
    assert Pow2(8) == 256 && Pow2(7) == 128;
    PowSum(8, 7);
  }

  /** The tree of these two leaves, built by the operations of the class. */
  method TwoLeafTree() returns (tree: MerkleTree)
    ensures fresh(tree) && tree.config == MarkConfig()
    ensures tree.treeHeight == 15 && tree.buckets.Keys == {0, 1}
    ensures UpToDate(MarkConfig(), tree.State()) && Values(tree.State()) == [ZERO_WORD, ONE_WORD]
  {
    hide Represents, Fresh, UpToDate, Consistent, AdvanceAll, Config.Valid, IsWord, Mark, MarkConfig, Values,
      Run, TreeRoot, SavedRoot, TwoLeaves;
    StartIsFresh();
    tree := new MerkleTree(MarkConfig(), Doc(15, map[0 := [], 1 := []], None, None));
    FreshRepresents(tree.config, tree.State());
    assert SiteOf(tree.State()) == Site(15, {0, 1});
    var final, _ := Operate(tree, START, TwoLeaves());
    TwoLeavesTaken();
    TwoLeavesUpToDate(tree.State(), final);
  }

  /** The same on the class: the path of leaf 0 is read and not accepted. */
  method RejectedOwnProof() returns (accepted: bool)
    ensures !accepted
  {
    hide UpToDate, Consistent, UpdateEffect, WitnessPath, Config.Valid, IsWord, Mark, MarkConfig,
      SiblingReadable, Accepts, ReportedRoot, Values, AllDocuments;
    var tree := TwoLeafTree();
    ghost var d := tree.State();
    PathExists(d);
    ConsistentOf(d);
    var path := tree.GetSiblingPathByLeafIndex(0);
    UnreadableSiblingRejects(d);
    accepted := tree.BaselineVerify(ZERO_WORD, path.value);
    NothingToUpdate(d, tree.State());
  }

  lemma ConsistentOf(d: Doc)
    requires UpToDate(MarkConfig(), d)
    ensures Consistent(MarkConfig(), d)
  {
  }

  function TwoLeaves(): seq<Action> {
    [Occur(NewLeaf(Leaf(ZERO_WORD, 0, 1, ""))), Occur(NewLeaf(Leaf(ONE_WORD, 1, 1, ""))), Recalculate]
  }

  lemma StartIsFresh()
    ensures Fresh(MarkConfig(), Doc(15, map[0 := [], 1 := []], None, None))
  {
    MarkWords();
  }

  lemma TwoLeavesTaken()
    ensures AdvanceAll(Site(15, {0, 1}), START, TwoLeaves())
         == Ideal([Leaf(ZERO_WORD, 0, 1, ""), Leaf(ONE_WORD, 1, 1, "")], 2, 2, true)
  {
    var a, site := TwoLeaves(), Site(15, {0, 1});
    MarkWords();
    FifteenLevels();
    hide IsWord;
    assert a[..2][..1] == a[..1] && a[..1][..0] == [];
    assert AdvanceAll(site, START, []) == START;
    assert AdvanceAll(site, START, a[..1]) == Ideal([Leaf(ZERO_WORD, 0, 1, "")], 1, 0, true);
    assert AdvanceAll(site, START, a[..2]) == Ideal([Leaf(ZERO_WORD, 0, 1, ""), Leaf(ONE_WORD, 1, 1, "")], 2, 0, true);
  }

  /** The last leaf of a tree is taken like any other: height 1, two leaves, an update. */
  lemma LastLeafIsTaken(first: Leaf, last: Leaf)
    requires first.leafIndex == 0 && last.leafIndex == 1 && 0 < first.blockNumber <= last.blockNumber
    requires IsWord(first.hash) && IsWord(last.hash)
    ensures AdvanceAll(Site(1, {0}), START, [Occur(NewLeaf(first)), Occur(NewLeaf(last)), Recalculate]) == Ideal([first, last], 2, 2, true)
  {
    var a, site := [Occur(NewLeaf(first)), Occur(NewLeaf(last)), Recalculate], Site(1, {0});
    assert Pow2(1) == 2;
    hide IsWord;
    assert a[..2][..1] == a[..1] && a[..1][..0] == [];
    assert AdvanceAll(site, START, []) == START;
    assert AdvanceAll(site, START, a[..1]) == Ideal([first], 1, 0, true);
    assert AdvanceAll(site, START, a[..2]) == Ideal([first, last], 2, 0, true);
  }

  lemma TwoLeavesUpToDate(d: Doc, m: Ideal)
    requires Represents(MarkConfig(), d, m) && d.treeHeight == 15
    requires m == Ideal([Leaf(ZERO_WORD, 0, 1, ""), Leaf(ONE_WORD, 1, 1, "")], 2, 2, true)
    ensures UpToDate(MarkConfig(), d) && Values(d) == [ZERO_WORD, ONE_WORD]
  {
    hide Consistent, ChainLog, AllProvisioned;
    LatestBlockIs(MarkConfig(), d, m);
    assert m.chain[..2] == m.chain;
  }

  lemma PathExists(d: Doc)
    requires d.treeHeight == 15 && d.buckets.Keys == {0, 1}
    ensures AllDocuments(d.buckets, SiblingIndices(LeafIndexToNodeIndex(15, 0)))
  {
    hide SiblingIndices, WitnessIndex, LeafIndexToNodeIndex, CalculateBucket, Pow2;
    FifteenLevels();
    SiblingPathOfLeaf(15, 0);
    forall k | 0 <= k <= 15 ensures CalculateBucket(WitnessIndex(15, 0, k)) in d.buckets { LowSibling(k); }
    DocumentZero();
  }

  lemma DocumentZero()
    ensures CalculateBucket(0) == 0
  {
  }

  lemma LowSibling(k: nat)
    requires k <= 15
    ensures CalculateBucket(WitnessIndex(15, 0, k)) in {0, 1}
  {
    FifteenLevels();
    ZeroPosition(k);
    PowMonotone(15 - k, 15);
  }

  lemma NothingToUpdate(d: Doc, d': Doc)
    requires UpToDate(MarkConfig(), d) && UpdateEffect(MarkConfig(), d, d')
    ensures d' == d
  {
    hide Consistent;
  }

  // ----- A range with a gap --------------------------------------------------------------------

  /** Leaves 0 and 2 of a tree of height 2 are stored, leaf 1 is missing. */
  function GapBuckets(): Buckets {
    map[0 := [None, None, None, Some(LeafNode(Leaf(ZERO_WORD, 0, 1, ""))), None, Some(LeafNode(Leaf(ZERO_WORD, 2, 1, "")))]]
  }

  /** The range read returns leaf 2 twice. */
  method GapReadsTwice() returns (leaves: Read<seq<Leaf>>)
    ensures leaves.Read? && leaves.value != StoredIn(GapBuckets(), 2, 0, 2)
  {
    var tree := new MerkleTree(MarkConfig(), Doc(2, GapBuckets(), None, None));
    GapIsNotDense();
    leaves := tree.GetLeavesByLeafIndexRange(0, 2);
  }

  lemma GapIsNotDense()
    ensures LeavesInCells(GapBuckets(), 2) && !Dense(GapBuckets(), 2, 0, 2)
    ensures forall i :: 0 <= i <= 2 ==> HasDocument(GapBuckets(), 2, i)
  {
    assert Pow2(2) == 4;
    assert LeafAt(GapBuckets(), 2, 2).Some? && LeafAt(GapBuckets(), 2, 1) == None;
  }

  // ----- A stop inside a block -----------------------------------------------------------------

  /** Two leaves in block 5, of which the service stored one before it stopped. */
  function HalfBlock(): (Doc, seq<Leaf>) {
    var leaf0, leaf1 := Leaf(ZERO_WORD, 0, 5, ""), Leaf(ZERO_WORD, 1, 5, "");
    (Doc(1, map[0 := [None, Some(LeafNode(leaf0))]], Some(LatestLeaf(5, 0)), None), [leaf0, leaf1])
  }

  /** After a stop inside a block a restart leaves the rest of that block missing, and so do all
      new leaves, stops and restarts after it; only tracking the tree again brings it back. */
  lemma HalfBlockStaysIncomplete()
    ensures var (d, log) := HalfBlock();
            && ChainLog(log, d.treeHeight) && StoresPrefix(d, log, 1) && AllProvisioned(d, log)
            && !StoresPrefix(Restarted(d, log), log, |log|)
            && Lost(Service(log, d, false), 1)
            && StoresPrefix(Replay(d, log, 0, |log|), log, |log|)
  {
    var (d, log) := HalfBlock();
    assert Pow2(1) == 2;
    assert IsWord(ZERO_WORD);
    assert log[..1] == [log[0]];
    assert LeafCell(d.buckets, LeafIndexToNodeIndex(1, 0)) == Some(LeafNode(log[0]));
    assert LeavesStored(d.buckets, 1, log[..1]);
    RestartCompletes(d, log, 1);
    StopInsideBlockLoses(Service(log, d, false), 1);
    ReplayCompletes(d, log, 1, 0);
  }
}
