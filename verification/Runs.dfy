/** Whole runs of the service: new leaves, outages, restarts and tree updates in any order. */
module Runs {
  import opened Binary
  import opened ChainReplay
  import opened CommitmentTree
  import opened Hashing
  import opened NodeIndex
  import opened ReferenceTree
  import opened Sparse
  import opened Store
  import opened TreeState

  datatype Action = Occur(event: Event) | Recalculate

  // ----- The service without its data structures --------------------------------------------

  /** The chain log, how many of its leaves are stored and how many the saved root accounts for,
      and whether the service listens to new leaves. */
  datatype Ideal = Ideal(chain: seq<Leaf>, stored: nat, recalculated: nat, online: bool)

  /** What never changes: the height of the tree and the documents that exist. */
  datatype Site = Site(treeHeight: nat, documents: set<nat>)

  function SiteOf(d: Doc): Site {
    Site(d.treeHeight, d.buckets.Keys)
  }

  /** Block number of the latest stored leaf, 0 if there is none. */
  function StoredBlock(m: Ideal): nat {
    if 0 < m.stored <= |m.chain| then m.chain[m.stored - 1].blockNumber else 0
  }

  /** The chain can emit this leaf next: it is the next one in order and fits, block numbers do
      not decrease, and the first leaf that an offline service misses opens a new block. */
  predicate CanAppend(site: Site, m: Ideal, leaf: Leaf) {
    && leaf.leafIndex == |m.chain| < Pow2(site.treeHeight) && leaf.leafIndex < LEAF_LIMIT && IsWord(leaf.hash)
    && CalculateBucket(LeafIndexToNodeIndex(site.treeHeight, leaf.leafIndex)) in site.documents
    && (|m.chain| > 0 ==> m.chain[|m.chain| - 1].blockNumber <= leaf.blockNumber)
    && (!m.online && m.stored == |m.chain| && StoredBlock(m) != 0 ==> leaf.blockNumber > StoredBlock(m))
  }

  /** What an action does; a leaf that the chain cannot emit does not occur. */
  function Advance(site: Site, m: Ideal, a: Action): Ideal {
    match a
    case Occur(NewLeaf(leaf)) =>
      if !CanAppend(site, m, leaf) then m
      else m.(chain := m.chain + [leaf], stored := if m.online then |m.chain| + 1 else m.stored)
    case Occur(Stop) => m.(online := false)
    case Occur(Start) => if m.online then m else m.(stored := |m.chain|, online := true)
    case Occur(Track) => if m.online then m else m.(stored := |m.chain|, online := true)
    case Recalculate => if StoredBlock(m) != 0 then m.(recalculated := m.stored) else m
  }

  function AdvanceAll(site: Site, m: Ideal, actions: seq<Action>): Ideal {
    if |actions| == 0 then m
    else Advance(site, AdvanceAll(site, m, actions[..|actions| - 1]), actions[|actions| - 1])
  }

  const START := Ideal([], 0, 0, true)

  // ----- Every leaf of the log is taken --------------------------------------------------------

  /** Whether the service listens after these actions: the last stop, restart or tracking decides. */
  predicate Listening(actions: seq<Action>) {
    if |actions| == 0 then true
    else
      match actions[|actions| - 1]
      case Occur(Stop) => false
      case Occur(Start) => true
      case Occur(Track) => true
      case _ => Listening(actions[..|actions| - 1])
  }

  /** The leaves among the actions. */
  function NewLeaves(actions: seq<Action>): seq<Leaf> {
    if |actions| == 0 then []
    else
      var last := actions[|actions| - 1];
      NewLeaves(actions[..|actions| - 1]) + if last.Occur? && last.event.NewLeaf? then [last.event.leaf] else []
  }

  /** Number of leaves emitted before the service last stopped listening, or so far. */
  function Reached(actions: seq<Action>): nat {
    if Listening(actions) then |NewLeaves(actions)| else Reached(actions[..|actions| - 1])
  }

  /** The chain emits this log in a tree of this height: leaves are numbered in order and fit, and
      block numbers do not decrease; and every leaf finds its document. */
  ghost predicate LogOf(site: Site, log: seq<Leaf>) {
    && |log| <= Pow2(site.treeHeight) && |log| <= 0x7fff_ffff
    && (forall i :: 0 <= i < |log| ==> log[i].leafIndex == i && IsWord(log[i].hash))
    && (forall i, j :: 0 <= i <= j < |log| ==> log[i].blockNumber <= log[j].blockNumber)
    && forall i :: 0 <= i < |log| ==> (Pow2(site.treeHeight) - 1 + log[i].leafIndex) / 25000 in site.documents
  }

  /** The first leaf missed after each stop opens a new block, unless no block is known. */
  ghost predicate StopsAtBoundaries(actions: seq<Action>) {
    forall k :: 0 <= k < |actions| && actions[k].Occur? && actions[k].event.NewLeaf? ==> MissedAtBoundary(actions, k)
  }

  ghost predicate MissedAtBoundary(actions: seq<Action>, k: nat)
    requires k < |actions| && actions[k].Occur? && actions[k].event.NewLeaf?
  {
    var log := NewLeaves(actions[..k]);
    !Listening(actions[..k]) && Reached(actions[..k]) == |log| > 0 && log[|log| - 1].blockNumber != 0 ==>
      actions[k].event.leaf.blockNumber > log[|log| - 1].blockNumber
  }

  /** Whatever stops at block boundaries, restarts and updates there are in between, the simple
      service takes every leaf of the log, and has stored those that it reached. */
  lemma {:induction false} EveryLeafIsTaken(site: Site, actions: seq<Action>)
    requires LogOf(site, NewLeaves(actions)) && StopsAtBoundaries(actions)
    ensures var m := AdvanceAll(site, START, actions);
            && m.chain == NewLeaves(actions) && m.online == Listening(actions) && m.stored == Reached(actions)
            && m.stored <= |m.chain|
  {
    hide LogOf, CanAppend, Advance, NewLeaves, Listening, Reached, MissedAtBoundary, Occurs;
    if |actions| > 0 {
      var n := |actions| - 1;
      PrefixOfLog(site, actions);
      PrefixStops(actions);
      EveryLeafIsTaken(site, actions[..n]);
      LeafOccursNext(site, actions);
      OneMoreAction(site, actions);
    } else {
      NothingYet(actions);
    }
  }

  lemma NothingYet(actions: seq<Action>)
    requires |actions| == 0
    ensures NewLeaves(actions) == [] && Listening(actions) && Reached(actions) == 0
  {
  }

  /** The action is not a leaf that the chain cannot emit. */
  predicate Occurs(site: Site, m: Ideal, a: Action) {
    a.Occur? && a.event.NewLeaf? ==> CanAppend(site, m, a.event.leaf)
  }

  /** A new leaf at the end of the actions can be emitted. */
  lemma LeafOccursNext(site: Site, actions: seq<Action>)
    requires |actions| > 0 && LogOf(site, NewLeaves(actions)) && StopsAtBoundaries(actions)
    requires var before := actions[..|actions| - 1];
             var m := AdvanceAll(site, START, before);
             m.chain == NewLeaves(before) && m.online == Listening(before) && m.stored == Reached(before)
    ensures Occurs(site, AdvanceAll(site, START, actions[..|actions| - 1]), actions[|actions| - 1])
  {
    hide LogOf, CanAppend, AdvanceAll, Listening, Reached;
    var n := |actions| - 1;
    var before, a := actions[..n], actions[n];
    if a.Occur? && a.event.NewLeaf? {
      assert MissedAtBoundary(actions, n);
      LastOfLog(site, NewLeaves(before), a.event.leaf);
      LeafCanFollow(site, AdvanceAll(site, START, before), a.event.leaf);
    }
  }

  lemma OneMoreAction(site: Site, actions: seq<Action>)
    requires |actions| > 0
    requires var before := actions[..|actions| - 1];
             var m := AdvanceAll(site, START, before);
             && m.chain == NewLeaves(before) && m.online == Listening(before) && m.stored == Reached(before) <= |m.chain|
             && Occurs(site, m, actions[|actions| - 1])
    ensures var m := AdvanceAll(site, START, actions);
            && m.chain == NewLeaves(actions) && m.online == Listening(actions) && m.stored == Reached(actions)
            && m.stored <= |m.chain|
  {
    hide CanAppend, StoredBlock;
    if Listening(actions[..|actions| - 1]) { assert Reached(actions[..|actions| - 1]) == |NewLeaves(actions[..|actions| - 1])|; }
  }

  lemma PrefixOfLog(site: Site, actions: seq<Action>)
    requires |actions| > 0 && LogOf(site, NewLeaves(actions))
    ensures LogOf(site, NewLeaves(actions[..|actions| - 1]))
  {
    hide LogOf;
    assert NewLeaves(actions[..|actions| - 1]) <= NewLeaves(actions);
    LogPrefix(site, NewLeaves(actions[..|actions| - 1]), NewLeaves(actions));
  }

  lemma LogPrefix(site: Site, part: seq<Leaf>, log: seq<Leaf>)
    requires part <= log && LogOf(site, log)
    ensures LogOf(site, part)
  {
    hide IsWord, Pow2;
    assert forall i :: 0 <= i < |part| ==> part[i] == log[i];
  }

  lemma PrefixStops(actions: seq<Action>)
    requires |actions| > 0 && StopsAtBoundaries(actions)
    ensures StopsAtBoundaries(actions[..|actions| - 1])
  {
    var before := actions[..|actions| - 1];
    forall k | 0 <= k < |before| && before[k].Occur? && before[k].event.NewLeaf? ensures MissedAtBoundary(before, k) {
      assert before[..k] == actions[..k];
      assert MissedAtBoundary(actions, k);
    }
  }

  lemma LastOfLog(site: Site, log: seq<Leaf>, leaf: Leaf)
    requires LogOf(site, log + [leaf])
    ensures leaf.leafIndex == |log| < Pow2(site.treeHeight) && |log| < 0x7fff_ffff && IsWord(leaf.hash)
    ensures (Pow2(site.treeHeight) - 1 + |log|) / 25000 in site.documents
    ensures |log| > 0 ==> log[|log| - 1].blockNumber <= leaf.blockNumber
  {
    var longer := log + [leaf];
    assert longer[|log|] == leaf;
    if |log| > 0 { assert longer[|log| - 1] == log[|log| - 1]; }
  }

  lemma LeafCanFollow(site: Site, m: Ideal, leaf: Leaf)
    requires leaf.leafIndex == |m.chain| < Pow2(site.treeHeight) && |m.chain| < 0x7fff_ffff && IsWord(leaf.hash)
    requires (Pow2(site.treeHeight) - 1 + |m.chain|) / 25000 in site.documents
    requires |m.chain| > 0 ==> m.chain[|m.chain| - 1].blockNumber <= leaf.blockNumber
    requires !m.online && m.stored == |m.chain| > 0 && m.chain[|m.chain| - 1].blockNumber != 0 ==>
               leaf.blockNumber > m.chain[|m.chain| - 1].blockNumber
    ensures CanAppend(site, m, leaf)
  {
    hide Pow2, IsWord;
  }

  /** The actions of a service that never stops. */
  function Feed(log: seq<Leaf>): seq<Action> {
    seq(|log|, i requires 0 <= i < |log| => Occur(NewLeaf(log[i])))
  }

  /** Fed with a log, the simple service stores all of it. */
  lemma FeedIsTaken(site: Site, log: seq<Leaf>)
    requires LogOf(site, log)
    ensures AdvanceAll(site, START, Feed(log)) == Ideal(log, |log|, 0, true)
  {
    FeedLeaves(log);
    hide LogOf, Advance, CanAppend;
    forall k | 0 <= k < |log| ensures MissedAtBoundary(Feed(log), k) {
      assert Feed(log)[..k] == Feed(log[..k]);
      FeedLeaves(log[..k]);
    }
    EveryLeafIsTaken(site, Feed(log));
    NothingCounted(site, log);
  }

  lemma {:induction false} FeedLeaves(log: seq<Leaf>)
    ensures NewLeaves(Feed(log)) == log && Listening(Feed(log)) && Reached(Feed(log)) == |log|
  {
    if |log| > 0 {
      var n := |log| - 1;
      FeedLeaves(log[..n]);
      assert Feed(log)[..n] == Feed(log[..n]);
    }
  }

  lemma {:induction false} NothingCounted(site: Site, log: seq<Leaf>)
    ensures AdvanceAll(site, START, Feed(log)).recalculated == 0
  {
    hide CanAppend;
    if |log| > 0 {
      var n := |log| - 1;
      NothingCounted(site, log[..n]);
      assert Feed(log)[..n] == Feed(log[..n]);
    }
  }

  // ----- What the document has to be ---------------------------------------------------------

  ghost predicate Represents(c: Config, d: Doc, m: Ideal) {
    && Consistent(c, d)
    && ChainLog(m.chain, d.treeHeight) && AllProvisioned(d, m.chain)
    && LeafCount(d) == m.stored <= |m.chain| && StoredLeaves(d) == m.chain[..m.stored]
    && Recalculated(d) == m.recalculated
    && (m.online ==> m.stored == |m.chain|)
    && (m.stored < |m.chain| && StoredBlock(m) != 0 ==> m.chain[m.stored].blockNumber > StoredBlock(m))
  }

  /** A tree that has just been tracked: documents exist, but hold no leaf and no node. */
  ghost predicate Fresh(c: Config, d: Doc) {
    && c.Valid() && 1 <= d.treeHeight && Provisioned(d.buckets, d.treeHeight, 0)
    && d.latestLeaf == None && d.latestRecalculation == None
    && forall b: nat, p: nat :: b in d.buckets ==> At(d.buckets[b], p) == None
  }

  /** The document that baseline_track creates is fresh, whatever the height of the tree. */
  lemma NewTreeIsFresh(c: Config, h: nat)
    requires c.Valid() && h >= 1
    ensures Fresh(c, Doc(h, map[0 := []], None, None))
  {
  }

  lemma FreshIsConsistent(c: Config, d: Doc)
    requires Fresh(c, d)
    ensures Consistent(c, d)
  {
    var h := d.treeHeight;
    assert StoredLeaves(d) == [] && Hashes(StoredLeaves(d)) == [];
    forall l | 0 <= l <= h ensures SlotMatches(c, [], [], 0, l) {
      CompleteIsOccupied(0, l);
      WidthZero(l);
    }
    forall l, p: nat | 1 <= l <= h && p < Pow2(h - l) ensures NodeMatches(c, d.buckets, h, [], l, p) {
      WidthZero(l);
      var x := Index(h, l, p);
      var local := x % BUCKET_SIZE;
      assert CalculateBucket(x) in d.buckets ==> At(d.buckets[CalculateBucket(x)], local) == None;
    }
  }

  lemma FreshRepresents(c: Config, d: Doc)
    requires Fresh(c, d)
    ensures Represents(c, d, START)
  {
    hide Consistent;
    FreshIsConsistent(c, d);
  }

  lemma RootSaved(c: Config, d: Doc, m: Ideal)
    requires Represents(c, d, m)
    ensures m.recalculated <= m.stored <= |m.chain|
    ensures m.recalculated > 0 ==> SavedRoot(d) == Some(TreeRoot(c, Hashes(m.chain[..m.recalculated]), d.treeHeight))
  {
    hide FrontierMatches, NodesMatch, LeavesConsistent, TreeRoot, Config.Valid;
    assert Hashes(m.chain[..m.stored])[..m.recalculated] == Hashes(m.chain[..m.recalculated]);
  }

  // ----- One step ----------------------------------------------------------------------------

  /** What an action does to the document, as far as the operations promise it: an update of a
      consistent document has its effect, and of any other document nothing is known. */
  ghost predicate DocStep(c: Config, m: Ideal, a: Action, d: Doc, d': Doc) {
    match a
    case Occur(NewLeaf(leaf)) =>
      if m.online && CanAppend(SiteOf(d), m, leaf) then d' == AfterInsert(d, leaf) else d' == d
    case Occur(Stop) => d' == d
    case Occur(Start) => if m.online then d' == d else AllProvisioned(d, m.chain) ==> d' == Restarted(d, m.chain)
    case Occur(Track) =>
      if m.online then d' == d else AllProvisioned(d, m.chain) ==> d' == Replay(d, m.chain, 0, |m.chain|)
    case Recalculate => Consistent(c, d) ==> UpdateEffect(c, d, d')
  }

  lemma LeafOccurs(c: Config, d: Doc, m: Ideal, leaf: Leaf)
    requires Represents(c, d, m) && CanAppend(SiteOf(d), m, leaf)
    ensures ChainLog(m.chain + [leaf], d.treeHeight) && AllProvisioned(d, m.chain + [leaf])
    ensures m.online ==> IsNext(d, leaf)
  {
    hide Consistent, StoredLeaves, IsWord, Pow2, LeafIndexToNodeIndex, CalculateBucket;
  }

  lemma MissedLeaf(c: Config, d: Doc, m: Ideal, leaf: Leaf)
    requires Represents(c, d, m) && CanAppend(SiteOf(d), m, leaf) && !m.online
    ensures Represents(c, d, Advance(SiteOf(d), m, Occur(NewLeaf(leaf))))
  {
    hide Consistent, StoredLeaves, ChainLog, AllProvisioned;
    LeafOccurs(c, d, m, leaf);
    assert (m.chain + [leaf])[..m.stored] == m.chain[..m.stored];
  }

  lemma LiveLeaf(c: Config, d: Doc, m: Ideal, leaf: Leaf)
    requires Represents(c, d, m) && CanAppend(SiteOf(d), m, leaf) && m.online
    ensures HasDocument(d.buckets, d.treeHeight, leaf.leafIndex)
    ensures Represents(c, AfterInsert(d, leaf), Advance(SiteOf(d), m, Occur(NewLeaf(leaf))))
    ensures SiteOf(AfterInsert(d, leaf)) == SiteOf(d)
  {
    hide Consistent, StoredLeaves, ChainLog, WriteLeaf;
    LeafOccurs(c, d, m, leaf);
    InsertNext(c, d, leaf);
    LeafCountIs(AfterInsert(d, leaf));
    var longer := m.chain + [leaf];
    assert longer[..m.stored + 1] == longer && m.chain[..m.stored] == m.chain;
    InsertKeepsDocuments(d, leaf);
  }

  lemma InsertKeepsDocuments(d: Doc, leaf: Leaf)
    requires HasDocument(d.buckets, d.treeHeight, leaf.leafIndex)
    ensures SiteOf(AfterInsert(d, leaf)) == SiteOf(d)
  {
  }

  /** Catching up, from the block after the latest stored leaf or from block 0. */
  lemma CaughtUp(c: Config, d: Doc, m: Ideal, start: nat)
    requires Represents(c, d, m) && !m.online && (start == 0 || start == ReplayStart(LatestBlock(d)))
    ensures Represents(c, Replay(d, m.chain, start, |m.chain|), m.(stored := |m.chain|, online := true))
  {
    hide Consistent, StoredLeaves, ChainLog, AllProvisioned, Replay, LatestBlock, StoredBlock;
    LatestBlockIs(c, d, m);
    ReplayKeepsConsistent(c, d, m.chain, start);
    LeafCountIs(Replay(d, m.chain, start, |m.chain|));
    assert m.chain[..|m.chain|] == m.chain;
    SameDocuments(d, Replay(d, m.chain, start, |m.chain|), m.chain);
  }

  lemma LatestBlockIs(c: Config, d: Doc, m: Ideal)
    requires Represents(c, d, m)
    ensures LatestBlock(d) == StoredBlock(m)
  {
    hide FrontierMatches, NodesMatch, ChainLog, AllProvisioned, LeavesStored, Provisioned, AllWords, Config.Valid, StoredLeaves, TreeRoot;
    LeafCountIs(d);
    if m.stored > 0 { assert StoredLeaves(d)[m.stored - 1] == m.chain[m.stored - 1]; }
  }

  lemma SameDocuments(d: Doc, d': Doc, logs: seq<Leaf>)
    requires SiteOf(d') == SiteOf(d) && AllProvisioned(d, logs)
    ensures AllProvisioned(d', logs)
  {
    hide CalculateBucket, LeafIndexToNodeIndex;
  }

  lemma UpdateRepresents(c: Config, d: Doc, m: Ideal, d': Doc)
    requires Represents(c, d, m) && UpdateEffect(c, d, d')
    ensures Represents(c, d', Advance(SiteOf(d), m, Recalculate)) && SiteOf(d') == SiteOf(d)
  {
    LatestBlockIs(c, d, m);
    hide Consistent, StoredLeaves, ChainLog, AllProvisioned;
    SameDocuments(d, d', m.chain);
    if m.stored > 0 { LatestLeafExists(d); }
  }

  lemma LatestLeafExists(d: Doc)
    requires LeafCount(d) > 0
    ensures d.latestLeaf.Some?
  {
  }

  lemma StepRepresents(c: Config, d: Doc, m: Ideal, a: Action, d': Doc)
    requires Represents(c, d, m) && DocStep(c, m, a, d, d')
    ensures Represents(c, d', Advance(SiteOf(d), m, a)) && SiteOf(d') == SiteOf(d)
  {
    hide Represents, Consistent, CanAppend, AfterInsert, UpdateEffect, AllProvisioned, Replay, StoredBlock;
    PartsOf(c, d, m);
    match a
    case Occur(NewLeaf(leaf)) =>
      if CanAppend(SiteOf(d), m, leaf) {
        if m.online { LiveLeaf(c, d, m, leaf); } else { MissedLeaf(c, d, m, leaf); }
      }
    case Occur(Stop) =>
      StopRepresents(c, d, m);
    case Occur(Start) =>
      if !m.online { CaughtUp(c, d, m, ReplayStart(LatestBlock(d))); }
    case Occur(Track) =>
      if !m.online { CaughtUp(c, d, m, 0); }
    case Recalculate =>
      UpdateRepresents(c, d, m, d');
  }

  lemma PartsOf(c: Config, d: Doc, m: Ideal)
    requires Represents(c, d, m)
    ensures Consistent(c, d) && AllProvisioned(d, m.chain)
  {
  }

  lemma StopRepresents(c: Config, d: Doc, m: Ideal)
    requires Represents(c, d, m)
    ensures Represents(c, d, m.(online := false))
  {
    hide Consistent, ChainLog, AllProvisioned, StoredLeaves;
  }

  // ----- Runs ----------------------------------------------------------------------------------

  ghost predicate Run(c: Config, docs: seq<Doc>, m: Ideal, actions: seq<Action>) {
    && |docs| == |actions| + 1
    && forall k :: 0 <= k < |actions| ==> RunStep(c, docs, m, actions, k)
  }

  ghost predicate RunStep(c: Config, docs: seq<Doc>, m: Ideal, actions: seq<Action>, k: nat)
    requires k < |actions| && |docs| == |actions| + 1
  {
    DocStep(c, AdvanceAll(SiteOf(docs[0]), m, actions[..k]), actions[k], docs[k], docs[k + 1])
  }

  /** Main safety result. Along every run the document stays consistent, stores exactly the leaves
      that the simple service stores, and its root, whenever leaves have been recalculated, is the
      root of the plain tree over the first leaves of the chain log. */
  lemma {:induction false} RunInvariant(c: Config, docs: seq<Doc>, m: Ideal, actions: seq<Action>, k: nat)
    requires Run(c, docs, m, actions) && Represents(c, docs[0], m) && k < |docs|
    ensures var now := AdvanceAll(SiteOf(docs[0]), m, actions[..k]);
            && Represents(c, docs[k], now) && SiteOf(docs[k]) == SiteOf(docs[0])
            && (now.online ==> now.stored == |now.chain|)
            && now.recalculated <= now.stored <= |now.chain|
            && (now.recalculated > 0 ==>
                  SavedRoot(docs[k]) == Some(TreeRoot(c, Hashes(now.chain[..now.recalculated]), docs[0].treeHeight)))
    decreases k
  {
    hide Represents, DocStep, Advance, TreeRoot, SavedRoot;
    if k > 0 {
      RunInvariant(c, docs, m, actions, k - 1);
      assert RunStep(c, docs, m, actions, k - 1);
      AdvanceOne(SiteOf(docs[0]), m, actions, k);
      StepRepresents(c, docs[k - 1], AdvanceAll(SiteOf(docs[0]), m, actions[..k - 1]), actions[k - 1], docs[k]);
    } else {
      NoAction(SiteOf(docs[0]), m, actions);
    }
    var now := AdvanceAll(SiteOf(docs[0]), m, actions[..k]);
    RootSaved(c, docs[k], now);
    OnlineIsComplete(c, docs[k], now);
  }

  lemma NoAction(site: Site, m: Ideal, actions: seq<Action>)
    ensures AdvanceAll(site, m, actions[..0]) == m
  {
  }

  lemma AdvanceOne(site: Site, m: Ideal, actions: seq<Action>, k: nat)
    requires 0 < k <= |actions|
    ensures AdvanceAll(site, m, actions[..k]) == Advance(site, AdvanceAll(site, m, actions[..k - 1]), actions[k - 1])
  {
    assert actions[..k][..k - 1] == actions[..k - 1];
  }

  lemma OnlineIsComplete(c: Config, d: Doc, m: Ideal)
    requires Represents(c, d, m)
    ensures m.online ==> m.stored == |m.chain|
  {
  }

  lemma StepGrows(site: Site, m: Ideal, a: Action)
    requires m.recalculated <= m.stored <= |m.chain|
    ensures var next := Advance(site, m, a);
            && next.recalculated <= next.stored <= |next.chain|
            && m.chain <= next.chain && m.stored <= next.stored && m.recalculated <= next.recalculated
  {
    hide CanAppend, StoredBlock;
  }

  /** Along a run the log, the stored leaves and the recalculated ones only grow. */
  lemma {:induction false} NothingIsForgotten(site: Site, m: Ideal, actions: seq<Action>, j: nat, k: nat)
    requires j <= k <= |actions| && m.recalculated <= m.stored <= |m.chain|
    ensures var before, now := AdvanceAll(site, m, actions[..j]), AdvanceAll(site, m, actions[..k]);
            && now.recalculated <= now.stored <= |now.chain|
            && before.chain <= now.chain && before.stored <= now.stored && before.recalculated <= now.recalculated
    decreases k
  {
    if k == 0 {
      NoAction(site, m, actions);
    } else {
      hide Advance, AdvanceAll;
      NothingIsForgotten(site, m, actions, if j < k then j else k - 1, k - 1);
      AdvanceOne(site, m, actions, k);
      StepGrows(site, AdvanceAll(site, m, actions[..k - 1]), actions[k - 1]);
    }
  }

  // ----- Batches do not matter -----------------------------------------------------------------

  /** An update right after leaves were taken in accounts for all of them. */
  lemma UpdateIsComplete(site: Site, m: Ideal, actions: seq<Action>)
    requires |actions| > 0 && actions[|actions| - 1] == Recalculate
    ensures var now := AdvanceAll(site, m, actions); StoredBlock(now) != 0 ==> now.recalculated == now.stored
  {
    hide CanAppend;
  }

  /** Two consistent trees over the same recalculated leaves agree on root, frontier and nodes. */
  lemma Determined(c: Config, d: Doc, d': Doc)
    requires Consistent(c, d) && Consistent(c, d') && d.treeHeight == d'.treeHeight
    requires DoneValues(d) == DoneValues(d')
    ensures SavedRoot(d) == SavedRoot(d')
    ensures forall l :: 0 <= l <= d.treeHeight ==> At(SavedFrontier(d), l) == At(SavedFrontier(d'), l)
    ensures forall x: nat :: x < Pow2(d.treeHeight) - 1 ==> NodeAt(d.buckets, x) == NodeAt(d'.buckets, x)
  {
    hide LeavesConsistent, TreeRoot, Config.Valid, Config.Truncate, NodeValue, StoredValue, Width, Shift;
    DoneSize(d);
    DoneSize(d');
    var h, done := d.treeHeight, DoneValues(d);
    forall l | 0 <= l <= h ensures At(SavedFrontier(d), l) == At(SavedFrontier(d'), l) {
      assert SlotMatches(c, SavedFrontier(d), done, |done|, l) && SlotMatches(c, SavedFrontier(d'), done, |done|, l);
    }
    forall x: nat | x < Pow2(h) - 1 ensures NodeAt(d.buckets, x) == NodeAt(d'.buckets, x) {
      var l, p := Locate(h, x);
      assert l > 0;
      assert NodeMatches(c, d.buckets, h, done, l, p) && NodeMatches(c, d'.buckets, h, done, l, p);
    }
  }

  /** The leaves that the saved root accounts for. */
  function DoneValues(d: Doc): seq<string> {
    var all := Hashes(StoredLeaves(d));
    if Recalculated(d) <= |all| then all[..Recalculated(d)] else all
  }

  lemma DoneSize(d: Doc)
    ensures Recalculated(d) <= LeafCount(d) ==> |DoneValues(d)| == Recalculated(d)
  {
  }

  /** Saved root, frontier and nodes are equal. */
  ghost predicate SameTree(d: Doc, e: Doc) {
    && d.treeHeight == e.treeHeight && SavedRoot(d) == SavedRoot(e)
    && (forall l :: 0 <= l <= d.treeHeight ==> At(SavedFrontier(d), l) == At(SavedFrontier(e), l))
    && (forall x: nat :: x < Pow2(d.treeHeight) - 1 ==> NodeAt(d.buckets, x) == NodeAt(e.buckets, x))
  }

  /** The actions end with an update, and the service is listening. */
  predicate EndsUpToDate(actions: seq<Action>) {
    |actions| > 0 && actions[|actions| - 1] == Recalculate && Listening(actions)
  }

  /** Two lists of actions with the same leaves, whatever their batches, outages and restarts, end
      in the same tree, and its root is that of the plain tree over these leaves. */
  lemma SplitDoesNotMatter(c: Config, d: Doc, e: Doc, a: seq<Action>, b: seq<Action>)
    requires var site := SiteOf(d);
             && SiteOf(e) == site
             && StopsAtBoundaries(a) && EndsUpToDate(a) && Represents(c, d, AdvanceAll(site, START, a))
             && StopsAtBoundaries(b) && EndsUpToDate(b) && Represents(c, e, AdvanceAll(site, START, b))
    requires NewLeaves(a) == NewLeaves(b) && LogOf(SiteOf(d), NewLeaves(a))
    requires var all := NewLeaves(a); |all| > 0 && all[|all| - 1].blockNumber != 0
    ensures SameTree(d, e)
    ensures |NewLeaves(a)| <= Pow2(d.treeHeight) && SavedRoot(d) == Some(TreeRoot(c, Hashes(NewLeaves(a)), d.treeHeight))
  {
    FinalTree(c, d, a);
    FinalTree(c, e, b);
    hide Represents, Consistent, StopsAtBoundaries, LogOf, EndsUpToDate, AdvanceAll, TreeRoot;
    Determined(c, d, e);
  }

  lemma FinalTree(c: Config, d: Doc, a: seq<Action>)
    requires var site := SiteOf(d);
             StopsAtBoundaries(a) && LogOf(site, NewLeaves(a)) && EndsUpToDate(a) && Represents(c, d, AdvanceAll(site, START, a))
    requires var all := NewLeaves(a); |all| > 0 && all[|all| - 1].blockNumber != 0
    ensures Consistent(c, d) && DoneValues(d) == Hashes(NewLeaves(a))
    ensures |NewLeaves(a)| <= Pow2(d.treeHeight) && SavedRoot(d) == Some(TreeRoot(c, Hashes(NewLeaves(a)), d.treeHeight))
  {
    hide Represents, Consistent, AdvanceAll, TreeRoot, SavedRoot, StopsAtBoundaries, LogOf, StoredLeaves,
      NewLeaves, Listening;
    var now := AdvanceAll(SiteOf(d), START, a);
    EveryLeafIsTaken(SiteOf(d), a);
    UpdateIsComplete(SiteOf(d), START, a);
    OnlineIsComplete(c, d, now);
    LeavesOf(c, d, now);
    RootSaved(c, d, now);
    assert now.chain[..now.stored] == now.chain == NewLeaves(a);
    assert Hashes(NewLeaves(a))[..|NewLeaves(a)|] == Hashes(NewLeaves(a));
  }

  lemma LeavesOf(c: Config, d: Doc, m: Ideal)
    requires Represents(c, d, m)
    ensures Consistent(c, d) && m.recalculated <= m.stored <= |m.chain| <= Pow2(d.treeHeight)
    ensures DoneValues(d) == Hashes(m.chain[..m.stored])[..m.recalculated]
  {
    hide Consistent, StoredLeaves, TreeRoot, AllProvisioned, SavedRoot;
    RootSaved(c, d, m);
    LeafCountIs(d);
  }

  // ----- The class follows the runs ------------------------------------------------------------

  /** Executes any actions on the class. The final document is what the simple service says, and
      the documents passed through form a run. */
  method Operate(tree: MerkleTree, m: Ideal, actions: seq<Action>) returns (final: Ideal, ghost docs: seq<Doc>)
    requires Represents(tree.config, tree.State(), m)
    modifies tree
    ensures SiteOf(tree.State()) == SiteOf(old(tree.State()))
    ensures final == AdvanceAll(SiteOf(old(tree.State())), m, actions)
    ensures Represents(tree.config, tree.State(), final)
    ensures final.recalculated <= |final.chain|
    ensures final.recalculated > 0 ==>
        SavedRoot(tree.State()) == Some(TreeRoot(tree.config, Hashes(final.chain[..final.recalculated]), tree.treeHeight))
    ensures |docs| == |actions| + 1 && docs[0] == old(tree.State()) && docs[|actions|] == tree.State()
    ensures Run(tree.config, docs, m, actions)
    ensures m == START && LogOf(SiteOf(old(tree.State())), NewLeaves(actions)) && StopsAtBoundaries(actions) ==>
        && Reached(actions) <= |NewLeaves(actions)|
        && StoredLeaves(tree.State()) == NewLeaves(actions)[..Reached(actions)]
        && (Listening(actions) ==> Reached(actions) == |NewLeaves(actions)|)
  {
    hide Represents, DocStep, Advance, TreeRoot, SavedRoot, Run, LogOf, StopsAtBoundaries, NewLeaves, Listening, Reached, StoredLeaves;
    ghost var site := SiteOf(tree.State());
    final := m;
    docs := [tree.State()];
    RunOfNothing(tree.config, docs, m, actions);
    NoAction(site, m, actions);
    for k := 0 to |actions|
      invariant SiteOf(tree.State()) == site
      invariant final == AdvanceAll(site, m, actions[..k]) && Represents(tree.config, tree.State(), final)
      invariant |docs| == k + 1 && docs[0] == old(tree.State()) && docs[k] == tree.State()
      invariant Run(tree.config, docs, m, actions[..k])
    {
      ghost var d := tree.State();
      var next := Perform(tree, final, actions[k]);
      ghost var longer := docs + [tree.State()];
      ExtendRun(tree.config, docs, m, actions, k, tree.State());
      AdvanceOne(site, m, actions, k + 1);
      final, docs := next, longer;
    }
    assert actions[..|actions|] == actions;
    RootSaved(tree.config, tree.State(), final);
    if m == START && LogOf(site, NewLeaves(actions)) && StopsAtBoundaries(actions) {
      StoredIsReached(tree.config, tree.State(), actions, final);
    }
  }

  lemma StoredIsReached(c: Config, d: Doc, actions: seq<Action>, final: Ideal)
    requires LogOf(SiteOf(d), NewLeaves(actions)) && StopsAtBoundaries(actions)
    requires final == AdvanceAll(SiteOf(d), START, actions) && Represents(c, d, final)
    ensures Reached(actions) <= |NewLeaves(actions)|
    ensures StoredLeaves(d) == NewLeaves(actions)[..Reached(actions)]
    ensures Listening(actions) ==> Reached(actions) == |NewLeaves(actions)|
  {
    hide Consistent, ChainLog, AllProvisioned, StoredLeaves, LogOf, StopsAtBoundaries, NewLeaves, AdvanceAll;
    EveryLeafIsTaken(SiteOf(d), actions);
  }

  /** One action on the class. */
  method Perform(tree: MerkleTree, m: Ideal, a: Action) returns (next: Ideal)
    requires Represents(tree.config, tree.State(), m)
    modifies tree
    ensures DocStep(tree.config, m, a, old(tree.State()), tree.State())
    ensures next == Advance(SiteOf(old(tree.State())), m, a)
    ensures Represents(tree.config, tree.State(), next) && SiteOf(tree.State()) == SiteOf(old(tree.State()))
  {
    hide Represents, Consistent, CanAppend, AfterInsert, UpdateEffect, AllProvisioned, Replay, StoredBlock, Advance;
    ghost var d := tree.State();
    PartsOf(tree.config, d, m);
    var site := SiteOf(tree.State());
    next := Advance(site, m, a);
    match a {
    case Occur(NewLeaf(leaf)) =>
      if m.online && CanAppend(site, m, leaf) {
        LiveLeaf(tree.config, d, m, leaf);
        var _ := tree.InsertLeaf(leaf);
      }
    case Occur(Stop) =>
    case Occur(Start) =>
      if !m.online { Restart(tree, m.chain); }
    case Occur(Track) =>
      if !m.online { CheckChainLogs(tree, m.chain, 0); }
    case Recalculate =>
      var _ := tree.UpdateTree();
    }
    StepRepresents(tree.config, d, m, a, tree.State());
  }

  lemma RunOfNothing(c: Config, docs: seq<Doc>, m: Ideal, actions: seq<Action>)
    requires |docs| == 1
    ensures Run(c, docs, m, actions[..0])
  {
  }

  lemma ExtendRun(c: Config, docs: seq<Doc>, m: Ideal, actions: seq<Action>, k: nat, d: Doc)
    requires k < |actions| && Run(c, docs, m, actions[..k])
    requires DocStep(c, AdvanceAll(SiteOf(docs[0]), m, actions[..k]), actions[k], docs[k], d)
    ensures Run(c, docs + [d], m, actions[..k + 1])
  {
    hide DocStep;
    var longer, prefix := docs + [d], actions[..k + 1];
    forall j | 0 <= j < k + 1 ensures RunStep(c, longer, m, prefix, j) {
      assert prefix[..j] == actions[..j];
      if j < k {
        assert RunStep(c, docs, m, actions[..k], j);
        assert actions[..k][..j] == actions[..j];
      }
    }
  }

  /** Two services that receive the same leaves agree, however they take them in. */
  method OperateBoth(first: MerkleTree, second: MerkleTree, a: seq<Action>, b: seq<Action>)
    requires first != second && first.config == second.config
    requires Fresh(first.config, first.State()) && Fresh(second.config, second.State())
    requires SiteOf(first.State()) == SiteOf(second.State())
    requires StopsAtBoundaries(a) && EndsUpToDate(a) && StopsAtBoundaries(b) && EndsUpToDate(b)
    requires NewLeaves(a) == NewLeaves(b) && LogOf(SiteOf(first.State()), NewLeaves(a))
    requires var all := NewLeaves(a); |all| > 0 && all[|all| - 1].blockNumber != 0
    modifies first, second
    ensures SameTree(first.State(), second.State())
    ensures && |NewLeaves(a)| <= Pow2(first.treeHeight)
            && SavedRoot(first.State()) == Some(TreeRoot(first.config, Hashes(NewLeaves(a)), first.treeHeight))
  {
    hide Fresh, Represents, SameTree, TreeRoot, StopsAtBoundaries, LogOf, EndsUpToDate, NewLeaves, Listening, Reached, AdvanceAll,
      SavedRoot, StoredLeaves, Run;
    FreshRepresents(first.config, first.State());
    FreshRepresents(second.config, second.State());
    var _, _ := Operate(first, START, a);
    var _, _ := Operate(second, START, b);
    SplitDoesNotMatter(first.config, first.State(), second.State(), a, b);
  }
}
