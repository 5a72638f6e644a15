/** Catching up with the chain: replaying newLeaf logs after the service was offline. */
module ChainReplay {
  import opened Binary
  import opened CommitmentTree
  import opened Hashing
  import opened NodeIndex
  import opened ReferenceTree
  import opened Sparse
  import opened Store
  import opened TreeState

  /** The contract's log: leaf i is entry i, and block numbers never decrease. */
  ghost predicate ChainLog(log: seq<Leaf>, h: nat) {
    && |log| <= Pow2(h) && |log| <= LEAF_LIMIT
    && (forall i :: 0 <= i < |log| ==> log[i].leafIndex == i && IsWord(log[i].hash))
    && forall i, j :: 0 <= i <= j < |log| ==> log[i].blockNumber <= log[j].blockNumber
  }

  /** eth_getLogs: the entries from a block number on. */
  function LogsFrom(log: seq<Leaf>, block: nat): seq<Leaf> {
    if |log| == 0 then []
    else LogsFrom(log[..|log| - 1], block) + if log[|log| - 1].blockNumber >= block then [log[|log| - 1]] else []
  }

  /** The first block that is asked for: everything if no block is known. */
  function ReplayStart(fromBlock: nat): nat {
    if fromBlock != 0 then fromBlock + 1 else 0
  }

  function LatestBlock(d: Doc): nat {
    if d.latestLeaf == None then 0 else d.latestLeaf.value.blockNumber
  }

  predicate AllProvisioned(d: Doc, logs: seq<Leaf>) {
    forall i :: 0 <= i < |logs| ==> HasDocument(d.buckets, d.treeHeight, logs[i].leafIndex)
  }

  /** The document after inserting, of the first e entries of the log, those from `start` on. */
  function Replay(d: Doc, log: seq<Leaf>, start: nat, e: nat): (r: Doc)
    requires AllProvisioned(d, log) && e <= |log|
    ensures r.treeHeight == d.treeHeight && r.buckets.Keys == d.buckets.Keys
    ensures r.latestRecalculation == d.latestRecalculation
    decreases e
  {
    if e == 0 then d
    else
      var before := Replay(d, log, start, e - 1);
      if log[e - 1].blockNumber >= start then AfterInsert(before, log[e - 1]) else before
  }

  /** checkChainLogs, given the log that the chain holds for the contract. */
  method CheckChainLogs(tree: MerkleTree, chain: seq<Leaf>, fromBlock: nat)
    requires AllProvisioned(tree.State(), chain)
    modifies tree
    ensures tree.State() == Replay(old(tree.State()), chain, ReplayStart(fromBlock), |chain|)
  {
    hide AfterInsert, AllProvisioned;
    var blockNum := if fromBlock != 0 then fromBlock + 1 else 0;
    var logs := LogsFrom(chain, blockNum);
    ghost var d, e := tree.State(), 0;
    assert chain[..0] == [];
    for i := 0 to |logs|
      invariant e <= |chain| && logs[..i] == LogsFrom(chain[..e], blockNum)
      invariant tree.State() == Replay(d, chain, blockNum, e)
    {
      var n := NextEntry(chain, blockNum, e, i);
      SkippedEntries(d, chain, blockNum, e, n);
      NextProvisioned(d, chain, blockNum, n);
      var _ := tree.InsertLeaf(logs[i]);
      e := n + 1;
    }
    AllEntriesSeen(d, chain, blockNum, e);
  }

  /** Position in the chain log of the i-th returned log. */
  lemma {:induction false} NextEntry(chain: seq<Leaf>, start: nat, e: nat, i: nat) returns (n: nat)
    requires e <= |chain| && i < |LogsFrom(chain, start)|
    requires LogsFrom(chain, start)[..i] == LogsFrom(chain[..e], start)
    ensures e <= n < |chain| && chain[n].blockNumber >= start
    ensures forall m :: e <= m < n ==> chain[m].blockNumber < start
    ensures LogsFrom(chain, start)[i] == chain[n]
    ensures LogsFrom(chain, start)[..i + 1] == LogsFrom(chain[..n + 1], start)
    decreases |chain| - e
  {
    assert chain[..|chain|] == chain;
    assert chain[..e + 1][..e] == chain[..e];
    LogsOfPrefix(chain, start, e + 1);
    if chain[e].blockNumber >= start {
      n := e;
      assert LogsFrom(chain[..e + 1], start) == LogsFrom(chain[..e], start) + [chain[e]];
    } else {
      assert LogsFrom(chain[..e + 1], start) == LogsFrom(chain[..e], start);
      n := NextEntry(chain, start, e + 1, i);
    }
  }

  lemma {:induction false} LogsOfPrefix(chain: seq<Leaf>, start: nat, e: nat)
    requires e <= |chain|
    ensures LogsFrom(chain[..e], start) <= LogsFrom(chain, start)
  {
    if e == |chain| {
      assert chain[..e] == chain;
    } else {
      LogsOfPrefix(chain[..|chain| - 1], start, e);
      assert chain[..|chain| - 1][..e] == chain[..e];
    }
  }

  lemma {:induction false} SkippedEntries(d: Doc, chain: seq<Leaf>, start: nat, e: nat, n: nat)
    requires AllProvisioned(d, chain) && e <= n <= |chain|
    requires forall m :: e <= m < n ==> chain[m].blockNumber < start
    ensures Replay(d, chain, start, n) == Replay(d, chain, start, e)
    decreases n
  {
    if e < n { SkippedEntries(d, chain, start, e, n - 1); }
  }

  lemma NextProvisioned(d: Doc, chain: seq<Leaf>, start: nat, n: nat)
    requires AllProvisioned(d, chain) && n < |chain|
    ensures HasDocument(Replay(d, chain, start, n).buckets, d.treeHeight, chain[n].leafIndex)
  {
  }

  lemma {:induction false} AllEntriesSeen(d: Doc, chain: seq<Leaf>, start: nat, e: nat)
    requires AllProvisioned(d, chain) && e <= |chain|
    requires LogsFrom(chain[..e], start) == LogsFrom(chain, start)
    ensures Replay(d, chain, start, e) == Replay(d, chain, start, |chain|)
    decreases |chain| - e
  {
    if e < |chain| {
      assert chain[..e + 1][..e] == chain[..e];
      LogsOfPrefix(chain, start, e + 1);
      AllEntriesSeen(d, chain, start, e + 1);
    }
  }

  /** restartSubscriptions for one active tree. */
  method Restart(tree: MerkleTree, chain: seq<Leaf>)
    requires AllProvisioned(tree.State(), chain)
    modifies tree
    ensures tree.State() == Restarted(old(tree.State()), chain)
  {
    var fromBlock := if tree.latestLeaf == None then 0 else tree.latestLeaf.value.blockNumber;
    CheckChainLogs(tree, chain, fromBlock);
  }

  function Restarted(d: Doc, chain: seq<Leaf>): Doc
    requires AllProvisioned(d, chain)
  {
    Replay(d, chain, ReplayStart(LatestBlock(d)), |chain|)
  }

  // ----- What a replay restores -------------------------------------------------------------

  /** The document stores exactly the first k entries of the log. */
  ghost predicate StoresPrefix(d: Doc, log: seq<Leaf>, k: nat) {
    && k <= |log|
    && LeavesStored(d.buckets, d.treeHeight, log[..k])
    && d.latestLeaf == if k == 0 then None else Some(LatestLeaf(log[k - 1].blockNumber, k - 1))
  }

  lemma EntryIndex(log: seq<Leaf>, h: nat, i: nat)
    requires ChainLog(log, h) && i < |log|
    ensures log[i].leafIndex == i < Pow2(h) && i < LEAF_LIMIT && IsWord(log[i].hash)
    ensures i > 0 ==> log[i - 1].blockNumber <= log[i].blockNumber
  {
  }

  function Max(a: nat, b: nat): nat {
    if a < b then b else a
  }

  /** Replaying every entry that is not stored yet extends the stored prefix. */
  lemma {:induction false} ReplayExtends(d: Doc, log: seq<Leaf>, start: nat, k: nat, e: nat)
    requires k <= |log| && e <= |log| && AllProvisioned(d, log)
    requires ChainLog(log, d.treeHeight) && LeavesStored(d.buckets, d.treeHeight, log[..k])
    requires k < |log| ==> log[k].blockNumber >= start
    ensures LeavesStored(Replay(d, log, start, e).buckets, d.treeHeight, log[..Max(k, e)])
    decreases e
  {
    hide LeavesStored, ChainLog, WriteLeaf, AllProvisioned, LeafIndexToNodeIndex, CalculateBucket, InsertedAt, AfterInsert;
    if e > 0 {
      EntryIndex(log, d.treeHeight, e - 1);
      LaterEntry(log, d.treeHeight, k, e - 1);
      NextProvisioned(d, log, start, e - 1);
      ReplayExtends(d, log, start, k, e - 1);
      if log[e - 1].blockNumber >= start {
        InsertEntry(Replay(d, log, start, e - 1), log, Max(k, e - 1), e - 1);
      }
    }
  }

  lemma InsertEntry(d: Doc, log: seq<Leaf>, m: nat, i: nat)
    requires i <= m <= |log| && i < |log| && log[i].leafIndex == i
    requires LeavesStored(d.buckets, d.treeHeight, log[..m])
    requires HasDocument(d.buckets, d.treeHeight, i)
    ensures LeavesStored(AfterInsert(d, log[i]).buckets, d.treeHeight, log[..Max(m, i + 1)])
  {
    InsertKeepsLeaves(d.buckets, d.treeHeight, log[..m], log[i]);
    hide LeavesStored;
    assert InsertedAt(log[..m], log[i]) == log[..Max(m, i + 1)];
  }

  lemma LaterEntry(log: seq<Leaf>, h: nat, k: nat, i: nat)
    requires ChainLog(log, h) && i < |log|
    ensures k <= i ==> log[k].blockNumber <= log[i].blockNumber
  {
  }

  /** The latest leaf after a replay is the last entry inserted, if any. */
  lemma {:induction false} ReplayLatest(d: Doc, log: seq<Leaf>, start: nat, e: nat)
    requires e <= |log| && AllProvisioned(d, log) && ChainLog(log, d.treeHeight)
    ensures Replay(d, log, start, e).latestLeaf
         == if e > 0 && log[e - 1].blockNumber >= start then Some(LatestLeaf(log[e - 1].blockNumber, e - 1)) else d.latestLeaf
    decreases e
  {
    hide ChainLog, AllProvisioned, WriteLeaf, HasDocument, Pow2, IsWord;
    if e > 0 {
      EntryIndex(log, d.treeHeight, e - 1);
      NextProvisioned(d, log, start, e - 1);
      ReplayLatest(d, log, start, e - 1);
    }
  }

  /** The cell of leaf k holds no leaf. */
  ghost predicate Missing(d: Doc, k: nat) {
    var x := LeafIndexToNodeIndex(d.treeHeight, k);
    !HasLeaf(d.buckets, CalculateBucket(x), x)
  }

  /** A leaf that is neither stored nor replayed is missing afterwards. */
  lemma {:induction false} ReplaySkips(d: Doc, log: seq<Leaf>, start: nat, k: nat, e: nat)
    requires k < |log| && e <= |log| && AllProvisioned(d, log)
    requires ChainLog(log, d.treeHeight) && log[k].blockNumber < start
    requires Missing(d, k)
    ensures Missing(Replay(d, log, start, e), k)
    decreases e
  {
    if e > 0 {
      EntryIndex(log, d.treeHeight, e - 1);
      NextProvisioned(d, log, start, e - 1);
      var x := LeafIndexToNodeIndex(d.treeHeight, k);
      hide ChainLog, WriteLeaf, AllProvisioned, CalculateBucket, HasLeaf;
      ReplaySkips(d, log, start, k, e - 1);
      LeafCellAfterWriteLeaf(Replay(d, log, start, e - 1).buckets,
                             LeafIndexToNodeIndex(d.treeHeight, log[e - 1].leafIndex), log[e - 1], CalculateBucket(x), x);
    }
  }

  /** The service did not stop in the middle of a block: the first missed entry, if any, has a
      later block number than the latest stored leaf (or no block number is known). */
  predicate AtBlockBoundary(d: Doc, log: seq<Leaf>, k: nat)
    requires k <= |log|
  {
    k == |log| || LatestBlock(d) == 0 || log[k].blockNumber > LatestBlock(d)
  }

  /** After a restart the store equals the whole log exactly when the service had stopped at a
      block boundary; otherwise the rest of that block is missing. */
  lemma RestartCompletes(d: Doc, log: seq<Leaf>, k: nat)
    requires ChainLog(log, d.treeHeight) && StoresPrefix(d, log, k) && AllProvisioned(d, log)
    ensures StoresPrefix(Restarted(d, log), log, |log|) <==> AtBlockBoundary(d, log, k)
  {
    var start := ReplayStart(LatestBlock(d));
    assert log[..|log|] == log;
    if AtBlockBoundary(d, log, k) {
      hide LeavesStored, ChainLog, Replay, AllProvisioned;
      ReplayCompletes(d, log, k, start);
    } else {
      hide ChainLog, Replay, AllProvisioned;
      NotStoredBeyond(d, log, k);
      ReplaySkips(d, log, start, k, |log|);
      MissingLeaf(Restarted(d, log), log, k);
    }
  }

  lemma NotStoredBeyond(d: Doc, log: seq<Leaf>, k: nat)
    requires k <= |log| && LeavesStored(d.buckets, d.treeHeight, log[..k])
    ensures Missing(d, k)
  {
  }

  lemma MissingLeaf(d: Doc, log: seq<Leaf>, k: nat)
    requires k < |log|
    requires Missing(d, k)
    ensures !LeavesStored(d.buckets, d.treeHeight, log)
  {
    var x := LeafIndexToNodeIndex(d.treeHeight, k);
    assert LeafCell(d.buckets, x) != Some(LeafNode(log[k]));
  }

  /** Replaying the whole log over a store that already has it changes no leaf and ends with the
      same latest leaf. */
  lemma FullReplayIsIdempotent(d: Doc, log: seq<Leaf>)
    requires ChainLog(log, d.treeHeight) && StoresPrefix(d, log, |log|) && AllProvisioned(d, log)
    ensures StoresPrefix(Replay(d, log, 0, |log|), log, |log|)
  {
    ReplayCompletes(d, log, |log|, 0);
  }

  /** A replay never touches the nodes above the leaves. */
  lemma {:induction false} ReplayKeepsNodes(c: Config, d: Doc, log: seq<Leaf>, start: nat, e: nat, done: seq<string>)
    requires e <= |log| && AllProvisioned(d, log) && NodesMatch(c, d.buckets, d.treeHeight, done)
    ensures NodesMatch(c, Replay(d, log, start, e).buckets, d.treeHeight, done)
    decreases e
  {
    if e > 0 {
      ReplayKeepsNodes(c, d, log, start, e - 1, done);
      NextProvisioned(d, log, start, e - 1);
      hide NodesMatch, AllProvisioned, WriteLeaf;
      InsertKeepsNodes(c, Replay(d, log, start, e - 1), log[e - 1], done);
    }
  }

  /** A replay that starts no later than the first missing entry leaves a consistent tree: the
      saved root still belongs to the leaves recalculated before, and the missed leaves wait for
      the next update. */
  lemma ReplayKeepsConsistent(c: Config, d: Doc, log: seq<Leaf>, start: nat)
    requires Consistent(c, d) && ChainLog(log, d.treeHeight) && AllProvisioned(d, log)
    requires LeafCount(d) <= |log| && StoredLeaves(d) == log[..LeafCount(d)]
    requires LeafCount(d) < |log| ==> log[LeafCount(d)].blockNumber >= start
    ensures var r := Replay(d, log, start, |log|);
            Consistent(c, r) && StoredLeaves(r) == log && Recalculated(r) == Recalculated(d)
  {
    hide LeavesConsistent, NodesMatch, FrontierMatches, Replay, AllProvisioned, ChainLog, TreeRoot, Pow2, StoredLeaves, Config.Valid;
    var done := Hashes(StoredLeaves(d))[..Recalculated(d)];
    ReplayKeepsLeaves(c, d, log, start);
    ReplayKeepsNodes(c, d, log, start, |log|, done);
    LeafCountIs(d);
    assert Hashes(log)[..Recalculated(d)] == done;
  }

  lemma ReplayKeepsLeaves(c: Config, d: Doc, log: seq<Leaf>, start: nat)
    requires Consistent(c, d) && ChainLog(log, d.treeHeight) && AllProvisioned(d, log)
    requires LeafCount(d) <= |log| && StoredLeaves(d) == log[..LeafCount(d)]
    requires LeafCount(d) < |log| ==> log[LeafCount(d)].blockNumber >= start
    ensures var r := Replay(d, log, start, |log|);
            LeavesConsistent(r) && StoredLeaves(r) == log && LeafCount(r) == |log|
  {
    hide LeavesStored, NodesMatch, FrontierMatches, Replay, AllProvisioned, ChainLog, Pow2, AllWords, Hashes, Config.Valid, StoredLeaves,
      Provisioned;
    var r := Replay(d, log, start, |log|);
    StoredIsPrefix(c, d, log);
    ReplayCompletes(d, log, LeafCount(d), start);
    CountAfter(r, log);
    assert log[..|log|] == log;
    StoredLeavesAre(r, log);
    LogWords(log, d.treeHeight);
    ReplayProvisions(d, log, start);
  }

  lemma ReplayProvisions(d: Doc, log: seq<Leaf>, start: nat)
    requires AllProvisioned(d, log) && ChainLog(log, d.treeHeight) && Provisioned(d.buckets, d.treeHeight, LeafCount(d))
    ensures Provisioned(Replay(d, log, start, |log|).buckets, d.treeHeight, |log|)
  {
    hide Replay, Pow2, LeafIndexToNodeIndex;
    if |log| > 0 { assert log[|log| - 1].leafIndex == |log| - 1; }
  }

  /** A replay that starts no later than the first missing entry stores the whole log. */
  lemma ReplayCompletes(d: Doc, log: seq<Leaf>, k: nat, start: nat)
    requires ChainLog(log, d.treeHeight) && StoresPrefix(d, log, k) && AllProvisioned(d, log)
    requires k < |log| ==> log[k].blockNumber >= start
    ensures StoresPrefix(Replay(d, log, start, |log|), log, |log|)
  {
    hide LeavesStored, ChainLog, Replay, AllProvisioned;
    assert log[..|log|] == log;
    ReplayExtends(d, log, start, k, |log|);
    ReplayLatest(d, log, start, |log|);
    if |log| > 0 { LaterEntry(log, d.treeHeight, k, |log| - 1); }
  }

  lemma StoredIsPrefix(c: Config, d: Doc, log: seq<Leaf>)
    requires Consistent(c, d) && ChainLog(log, d.treeHeight)
    requires LeafCount(d) <= |log| && StoredLeaves(d) == log[..LeafCount(d)]
    ensures StoresPrefix(d, log, LeafCount(d))
  {
    hide LeavesStored, NodesMatch, FrontierMatches, Config.Valid;
    if LeafCount(d) > 0 { assert StoredLeaves(d)[LeafCount(d) - 1] == log[LeafCount(d) - 1]; }
  }

  lemma CountAfter(r: Doc, log: seq<Leaf>)
    requires StoresPrefix(r, log, |log|)
    ensures LeafCount(r) == |log|
  {
  }

  lemma LogWords(log: seq<Leaf>, h: nat)
    requires ChainLog(log, h)
    ensures AllWords(Hashes(log)) && |log| <= Pow2(h) && |log| <= LEAF_LIMIT
  {
  }

  // ----- Leaves lost by a stop inside a block ------------------------------------------------

  /** The chain, the stored document, and whether the service listens to new leaves. */
  datatype Service = Service(chain: seq<Leaf>, doc: Doc, online: bool)

  /** Stop: the service goes down, or the tree is no longer tracked. Start: the service comes back
      and calls restartSubscriptions. Track: the tree is tracked again, from block 0. */
  datatype Event = NewLeaf(leaf: Leaf) | Stop | Start | Track

  ghost predicate Ready(s: Service) {
    ChainLog(s.chain, s.doc.treeHeight) && AllProvisioned(s.doc, s.chain)
  }

  ghost predicate CanHappen(s: Service, e: Event) {
    match e
    case NewLeaf(leaf) => Ready(Service(s.chain + [leaf], s.doc, s.online))
    case Stop => s.online
    case Start => !s.online
    case Track => !s.online
  }

  /** What an event does to the stored leaves; a new leaf is inserted live when the service is
      online, and otherwise missed. */
  ghost function After(s: Service, e: Event): Service
    requires Ready(s) && CanHappen(s, e)
  {
    match e
    case NewLeaf(leaf) =>
      NewestHasDocument(s, leaf);
      Service(s.chain + [leaf], if s.online then AfterInsert(s.doc, leaf) else s.doc, s.online)
    case Stop => s.(online := false)
    case Start => Service(s.chain, Restarted(s.doc, s.chain), true)
    case Track => Service(s.chain, Replay(s.doc, s.chain, 0, |s.chain|), true)
  }

  lemma NewestHasDocument(s: Service, leaf: Leaf)
    requires Ready(Service(s.chain + [leaf], s.doc, s.online))
    ensures HasDocument(s.doc.buckets, s.doc.treeHeight, leaf.leafIndex)
    ensures leaf.leafIndex == |s.chain| && IsWord(leaf.hash) && leaf.leafIndex < Pow2(s.doc.treeHeight) && leaf.leafIndex < LEAF_LIMIT
    ensures forall i :: 0 <= i < |s.chain| ==> s.chain[i].blockNumber <= leaf.blockNumber
  {
    var longer := s.chain + [leaf];
    assert longer[|s.chain|] == leaf;
    assert forall i :: 0 <= i < |s.chain| ==> s.chain[i] == longer[i];
  }

  ghost predicate RawRun(states: seq<Service>, events: seq<Event>) {
    && |states| == |events| + 1
    && forall k :: 0 <= k < |events| ==> RawStep(states[k], events[k], states[k + 1])
  }

  ghost predicate RawStep(s: Service, e: Event, t: Service) {
    Ready(s) && CanHappen(s, e) && t == After(s, e)
  }

  lemma RawStepOf(states: seq<Service>, events: seq<Event>, k: nat)
    requires RawRun(states, events) && k < |events|
    ensures RawStep(states[k], events[k], states[k + 1])
  {
  }

  /** Entry k is not stored, although its block is not later than that of the latest leaf. */
  ghost predicate Lost(s: Service, k: nat) {
    && k < |s.chain|
    && Missing(s.doc, k)
    && s.chain[k].blockNumber <= LatestBlock(s.doc) <= s.chain[|s.chain| - 1].blockNumber
    && LatestBlock(s.doc) != 0
  }

  /** A stop inside a block loses the rest of that block. */
  lemma StopInsideBlockLoses(s: Service, k: nat)
    requires Ready(s) && k <= |s.chain| && StoresPrefix(s.doc, s.chain, k)
    requires !AtBlockBoundary(s.doc, s.chain, k)
    ensures Lost(s, k)
  {
    hide AllProvisioned;
    NotStoredBeyond(s.doc, s.chain, k);
    hide LeavesStored;
    if k > 0 { LaterEntry(s.chain, s.doc.treeHeight, k - 1, |s.chain| - 1); }
  }

  /** No new leaf, stop or restart ever brings it back. */
  lemma StaysLost(s: Service, e: Event, k: nat)
    requires Ready(s) && CanHappen(s, e) && Lost(s, k) && e != Track
    ensures Lost(After(s, e), k)
  {
    hide HasLeaf, WriteLeaf, ChainLog, AllProvisioned, HasDocument, CalculateBucket, Replay;
    var x := LeafIndexToNodeIndex(s.doc.treeHeight, k);
    match e
    case NewLeaf(leaf) =>
      NewestHasDocument(s, leaf);
      HasDocumentMeans(s.doc.buckets, s.doc.treeHeight, leaf.leafIndex);
      LeafCellAfterWriteLeaf(s.doc.buckets, LeafIndexToNodeIndex(s.doc.treeHeight, leaf.leafIndex), leaf, CalculateBucket(x), x);
    case Stop =>
    case Start =>
      ReplaySkips(s.doc, s.chain, ReplayStart(LatestBlock(s.doc)), k, |s.chain|);
      ReplayLatest(s.doc, s.chain, ReplayStart(LatestBlock(s.doc)), |s.chain|);
      LaterEntry(s.chain, s.doc.treeHeight, k, |s.chain| - 1);
  }

  lemma HasDocumentMeans(buckets: Buckets, h: nat, i: nat)
    requires HasDocument(buckets, h, i)
    ensures CalculateBucket(LeafIndexToNodeIndex(h, i)) in buckets
  {
  }

  lemma {:induction false} LostForGood(states: seq<Service>, events: seq<Event>, k: nat, n: nat)
    requires RawRun(states, events) && Track !in events && Lost(states[0], k) && n < |states|
    ensures Lost(states[n], k)
    decreases n
  {
    if n > 0 {
      hide Lost, Ready, CanHappen, After, RawRun;
      RawStepOf(states, events, n - 1);
      LostForGood(states, events, k, n - 1);
      StaysLost(states[n - 1], events[n - 1], k);
    }
  }

  // ----- Recovery by tracking again ----------------------------------------------------------

  /** The first e entries of the log are stored; every other leaf that is stored lies in the cell
      of an entry of the log. */
  ghost predicate PartlyStored(buckets: Buckets, h: nat, log: seq<Leaf>, e: nat)
    requires e <= |log|
  {
    && (forall i :: 0 <= i < e ==>
          log[i].leafIndex == i && LeafCell(buckets, LeafIndexToNodeIndex(h, i)) == Some(LeafNode(log[i])))
    && (forall b: nat, p: nat :: HasLeaf(buckets, b, p) ==>
          p >= Pow2(h) - 1 && p - (Pow2(h) - 1) < |log| && CalculateBucket(p) == b)
    && (forall b: nat, p: nat :: HasInner(buckets, b, p) ==> p < BUCKET_SIZE && b * BUCKET_SIZE + p < Pow2(h) - 1)
  }

  lemma InsertPartly(buckets: Buckets, h: nat, log: seq<Leaf>, e: nat, i: nat)
    requires e <= |log| && i < |log| && log[i].leafIndex == i && HasDocument(buckets, h, i)
    requires PartlyStored(buckets, h, log, e)
    ensures PartlyStored(WriteLeaf(buckets, LeafIndexToNodeIndex(h, i), log[i]), h, log, if i == e then e + 1 else e)
  {
    var x := LeafIndexToNodeIndex(h, i);
    var after, e' := WriteLeaf(buckets, x, log[i]), if i == e then e + 1 else e;
    forall j | 0 <= j < e'
      ensures log[j].leafIndex == j && LeafCell(after, LeafIndexToNodeIndex(h, j)) == Some(LeafNode(log[j]))
    {
      AtPut(buckets[CalculateBucket(x)], x, LeafNode(log[i]), LeafIndexToNodeIndex(h, j));
    }
    forall b: nat, p: nat | HasLeaf(after, b, p)
      ensures p >= Pow2(h) - 1 && p - (Pow2(h) - 1) < |log| && CalculateBucket(p) == b
    {
      LeafCellAfterWriteLeaf(buckets, x, log[i], b, p);
    }
    forall b: nat, p: nat | HasInner(after, b, p) ensures HasInner(buckets, b, p) {
      AtPut(buckets[CalculateBucket(x)], x, LeafNode(log[i]), p);
    }
  }

  /** A replay keeps leaves in their cells, and one from block 0 stores every entry it passes. */
  lemma {:induction false} ReplayPartly(d: Doc, log: seq<Leaf>, start: nat, e: nat)
    requires e <= |log| && AllProvisioned(d, log) && ChainLog(log, d.treeHeight)
    requires PartlyStored(d.buckets, d.treeHeight, log, 0)
    ensures PartlyStored(Replay(d, log, start, e).buckets, d.treeHeight, log, if start == 0 then e else 0)
    decreases e
  {
    hide PartlyStored, ChainLog, AllProvisioned, WriteLeaf, HasDocument, Pow2, IsWord;
    if e > 0 {
      EntryIndex(log, d.treeHeight, e - 1);
      NextProvisioned(d, log, start, e - 1);
      ReplayPartly(d, log, start, e - 1);
      var before := Replay(d, log, start, e - 1).buckets;
      InsertPartly(before, d.treeHeight, log, if start == 0 then e - 1 else 0, e - 1);
      FewerStored(Replay(d, log, start, e).buckets, d.treeHeight, log);
    }
  }

  lemma FewerStored(buckets: Buckets, h: nat, log: seq<Leaf>)
    ensures forall e :: 0 <= e <= |log| && PartlyStored(buckets, h, log, e) ==> PartlyStored(buckets, h, log, 0)
  {
  }

  /** Every stored leaf is an entry of the log, in its cell. */
  ghost predicate WithinLog(s: Service) {
    PartlyStored(s.doc.buckets, s.doc.treeHeight, s.chain, 0) && (|s.chain| == 0 ==> s.doc.latestLeaf == None)
  }

  lemma StepWithinLog(s: Service, e: Event)
    requires Ready(s) && CanHappen(s, e) && WithinLog(s)
    ensures WithinLog(After(s, e))
    ensures e == Track ==> StoresPrefix(After(s, e).doc, s.chain, |s.chain|)
  {
    hide ChainLog, AllProvisioned, Replay, HasDocument;
    match e
    case NewLeaf(leaf) =>
      var longer := s.chain + [leaf];
      NewestHasDocument(s, leaf);
      LongerLog(s.doc.buckets, s.doc.treeHeight, s.chain, leaf);
      hide PartlyStored, WriteLeaf;
      InsertPartly(s.doc.buckets, s.doc.treeHeight, longer, 0, |s.chain|);
      FewerStored(After(s, e).doc.buckets, s.doc.treeHeight, longer);
    case Stop =>
    case Start =>
      ReplayPartly(s.doc, s.chain, ReplayStart(LatestBlock(s.doc)), |s.chain|);
      ReplayLatest(s.doc, s.chain, ReplayStart(LatestBlock(s.doc)), |s.chain|);
      FewerStored(After(s, e).doc.buckets, s.doc.treeHeight, s.chain);
    case Track =>
      ReplayPartly(s.doc, s.chain, 0, |s.chain|);
      ReplayLatest(s.doc, s.chain, 0, |s.chain|);
      assert s.chain[..|s.chain|] == s.chain;
      FewerStored(After(s, e).doc.buckets, s.doc.treeHeight, s.chain);
  }

  lemma LongerLog(buckets: Buckets, h: nat, log: seq<Leaf>, leaf: Leaf)
    requires PartlyStored(buckets, h, log, 0)
    ensures PartlyStored(buckets, h, log + [leaf], 0)
  {
  }

  /** Whatever was lost in a run, tracking the tree again stores the whole log. */
  lemma {:induction false} TrackRecovers(states: seq<Service>, events: seq<Event>, n: nat)
    requires RawRun(states, events) && WithinLog(states[0]) && n < |states|
    ensures WithinLog(states[n])
    ensures n > 0 && events[n - 1] == Track ==> StoresPrefix(states[n].doc, states[n].chain, |states[n].chain|)
    decreases n
  {
    if n > 0 {
      hide WithinLog, Ready, CanHappen, StoresPrefix;
      RawStepOf(states, events, n - 1);
      TrackRecovers(states, events, n - 1);
      StepWithinLog(states[n - 1], events[n - 1]);
    }
  }
}
