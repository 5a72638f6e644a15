/** The stored Merkle tree of one Shield contract and the operations of the commitment manager. */
module CommitmentTree {
  import opened Binary
  import opened HashCount
  import opened Hashing
  import opened LeafRange
  import opened Membership
  import opened NodeIndex
  import opened ReferenceTree
  import opened Sparse
  import opened Store
  import opened Text
  import opened TreeState

  class MerkleTree {
    const config: Config
    var treeHeight: nat
    var buckets: Buckets
    var latestLeaf: Option<LatestLeaf>
    var latestRecalculation: Option<Recalculation>

    function State(): Doc
      reads this
    {
      Doc(treeHeight, buckets, latestLeaf, latestRecalculation)
    }

    constructor (c: Config, d: Doc)
      ensures config == c && State() == d
    {
      config := c;
      treeHeight, buckets := d.treeHeight, d.buckets;
      latestLeaf, latestRecalculation := d.latestLeaf, d.latestRecalculation;
    }

    /** newNodes[nodeIndex % BUCKET_SIZE] = node, for the node of level t + 1 on the path of leaf i. */
    method StoreNode(nodeIndex: nat, hash: string, ghost t: nat, ghost i: nat, ghost all: seq<string>, ghost leaves: seq<Leaf>)
      requires i < |all| <= Pow2(treeHeight) && t < treeHeight
      requires nodeIndex == Index(treeHeight, t + 1, Shift(i, t + 1))
      requires hash == StoredValue(config, all, treeHeight, t + 1, Shift(i, t + 1))
      requires Provisioned(buckets, treeHeight, |all|) && LeavesStored(buckets, treeHeight, leaves)
      requires PathStored(config, buckets, treeHeight, all, i, t)
      modifies this`buckets
      ensures buckets.Keys == old(buckets.Keys) && Provisioned(buckets, treeHeight, |all|) && LeavesStored(buckets, treeHeight, leaves)
      ensures PathStored(config, buckets, treeHeight, all, i, t + 1)
      ensures nodeIndex / 25000 in buckets && At(buckets[nodeIndex / 25000], nodeIndex % 25000) == Some(InnerNode(hash))
    {
      InnerIndex(treeHeight, i, t + 1);
      NodeHasDocument(buckets, treeHeight, |all|, nodeIndex);
      PathStep(config, buckets, treeHeight, all, i, t, hash);
      WriteInnerKeepsLeaves(buckets, treeHeight, nodeIndex, hash, leaves);
      WriteInnerKeepsProvisioned(buckets, treeHeight, |all|, nodeIndex, hash);
      var bucketIndex := CalculateBucket(nodeIndex);
      buckets := buckets[bucketIndex := Put(buckets[bucketIndex], nodeIndex % BUCKET_SIZE, InnerNode(hash))];
    }

    /** The inner loop of updateNodes: hash leaf i up to its slot, storing every node passed. */
    method HashToSlot(frontier: Array<string>, i: nat, slot: nat, leafNode: nat, leafFull: string, leafValue: string,
                      ghost all: seq<string>, ghost leaves: seq<Leaf>)
      returns (nodeIndex: nat, full: string, value: string, ghost calls: nat)
      requires config.Valid() && AllWords(all) && i < |all| <= Pow2(treeHeight)
      requires Provisioned(buckets, treeHeight, |all|) && LeavesStored(buckets, treeHeight, leaves)
      requires slot == Slot(i) && leafNode == Index(treeHeight, 0, i)
      requires leafFull == all[i] && leafValue == config.Truncate(all[i])
      requires FrontierMatches(config, frontier, all, i, treeHeight)
      requires PathStored(config, buckets, treeHeight, all, i, 0)
      modifies this`buckets
      ensures buckets.Keys == old(buckets.Keys) && Provisioned(buckets, treeHeight, |all|) && LeavesStored(buckets, treeHeight, leaves)
      ensures slot <= treeHeight && nodeIndex == Index(treeHeight, slot, Shift(i, slot))
      ensures full == NodeValue(config, all, slot, Shift(i, slot)) && value == config.Truncate(full)
      ensures PathStored(config, buckets, treeHeight, all, i, slot)
      ensures calls == slot
    {
      hide LeavesStored, Provisioned, PathStored, FrontierMatches, NodeValue, StoredValue, Shift,
        Config.HashPair, Config.Truncate;
      calls := 0;
      nodeIndex, full, value := leafNode, leafFull, leafValue;
      SlotInTree(i, treeHeight);
      LeafLevel(config, all, i);
      for level := 1 to slot + 1
        invariant buckets.Keys == old(buckets.Keys) && Provisioned(buckets, treeHeight, |all|) && LeavesStored(buckets, treeHeight, leaves)
        invariant nodeIndex == Index(treeHeight, level - 1, Shift(i, level - 1))
        invariant full == NodeValue(config, all, level - 1, Shift(i, level - 1)) && value == config.Truncate(full)
        invariant PathStored(config, buckets, treeHeight, all, i, level - 1)
        invariant calls == level - 1
      {
        OnlyRightChildrenBelowSlot(config, frontier, all, treeHeight, i, level);
        if nodeIndex % 2 == 0 {
          full := config.HashPair(frontier[level - 1].value, value);
        } else {
          full := config.HashPair(value, config.Zero());
        }
        calls := calls + 1;
        value := config.Truncate(full);
        nodeIndex := ParentNodeIndex(nodeIndex);
        StoreNode(nodeIndex, value, level - 1, i, all, leaves);
      }
    }

    /** The last loop of updateNodes: finish the path of the last leaf from its slot to the root. */
    method HashToRoot(frontier: Array<string>, slot: nat, slotNode: nat, slotFull: string, slotValue: string,
                      ghost all: seq<string>, ghost leaves: seq<Leaf>)
      returns (root: string, ghost calls: nat)
      requires config.Valid() && AllWords(all) && 0 < |all| <= Pow2(treeHeight)
      requires Provisioned(buckets, treeHeight, |all|) && LeavesStored(buckets, treeHeight, leaves)
      requires slot == Slot(|all| - 1) <= treeHeight
      requires slotNode == Index(treeHeight, slot, Shift(|all| - 1, slot))
      requires slotFull == NodeValue(config, all, slot, Shift(|all| - 1, slot)) && slotValue == config.Truncate(slotFull)
      requires FrontierMatches(config, frontier, all, |all|, treeHeight)
      requires PathStored(config, buckets, treeHeight, all, |all| - 1, slot)
      modifies this`buckets
      ensures buckets.Keys == old(buckets.Keys) && Provisioned(buckets, treeHeight, |all|) && LeavesStored(buckets, treeHeight, leaves)
      ensures root == NodeValue(config, all, treeHeight, 0)
      ensures calls == treeHeight - slot
      ensures PathStored(config, buckets, treeHeight, all, |all| - 1, treeHeight)
    {
      hide LeavesStored, Provisioned, PathStored, FrontierMatches, NodeValue, StoredValue, Shift,
        Config.HashPair, Config.Truncate;
      var nodeIndex, nodeValueFull, nodeValue := slotNode, slotFull, slotValue;
      calls := 0;
      ghost var last := |all| - 1;
      for level := slot + 1 to treeHeight + 1
        invariant buckets.Keys == old(buckets.Keys) && Provisioned(buckets, treeHeight, |all|) && LeavesStored(buckets, treeHeight, leaves)
        invariant nodeIndex == Index(treeHeight, level - 1, Shift(last, level - 1))
        invariant nodeValueFull == NodeValue(config, all, level - 1, Shift(last, level - 1))
        invariant nodeValue == config.Truncate(nodeValueFull)
        invariant PathStored(config, buckets, treeHeight, all, last, level - 1)
        invariant calls == level - 1 - slot
      {
        PathAboveSlot(config, frontier, all, treeHeight, last, level);
        if nodeIndex % 2 == 0 {
          nodeValueFull := config.HashPair(frontier[level - 1].value, nodeValue);
        } else {
          nodeValueFull := config.HashPair(nodeValue, config.Zero());
        }
        calls := calls + 1;
        nodeValue := config.Truncate(nodeValueFull);
        nodeIndex := ParentNodeIndex(nodeIndex);
        StoreNode(nodeIndex, if nodeIndex == 0 then nodeValueFull else nodeValue, level - 1, last, all, leaves);
      }
      ShiftBound(last, treeHeight, treeHeight);
      root := nodeValueFull;
    }

    /** One round of the first loop of updateNodes. */
    method AbsorbLeaf(frontier: Array<string>, leafIndex: nat, leafFull: string, ghost all: seq<string>, ghost leaves: seq<Leaf>)
      returns (slot: nat, nodeIndex: nat, full: string, value: string, newFrontier: Array<string>, ghost calls: nat)
      requires config.Valid() && AllWords(all) && leafIndex < |all| <= Pow2(treeHeight)
      requires leafIndex < LEAF_LIMIT && leafFull == all[leafIndex]
      requires Provisioned(buckets, treeHeight, |all|) && LeavesStored(buckets, treeHeight, leaves)
      requires FrontierMatches(config, frontier, all, leafIndex, treeHeight)
      requires PathStored(config, buckets, treeHeight, all, leafIndex, 0)
      modifies this`buckets
      ensures buckets.Keys == old(buckets.Keys) && Provisioned(buckets, treeHeight, |all|) && LeavesStored(buckets, treeHeight, leaves)
      ensures slot == Slot(leafIndex) <= treeHeight
      ensures nodeIndex == Index(treeHeight, slot, Shift(leafIndex, slot))
      ensures full == NodeValue(config, all, slot, Shift(leafIndex, slot)) && value == config.Truncate(full)
      ensures FrontierMatches(config, newFrontier, all, leafIndex + 1, treeHeight)
      ensures PathStored(config, buckets, treeHeight, all, leafIndex, slot)
      ensures calls == slot
    {
      hide LeavesStored, Provisioned, PathStored, FrontierMatches, NodeValue, StoredValue, Shift,
        Config.HashPair, Config.Truncate;
      full := leafFull;
      value := config.Truncate(full);
      nodeIndex := LeafIndexToNodeIndex(treeHeight, leafIndex);
      SlotExists(leafIndex);
      SlotInTree(leafIndex, treeHeight);
      LeafLevel(config, all, leafIndex);
      slot := GetFrontierSlot(leafIndex);
      calls := 0;
      if slot != 0 {
        nodeIndex, full, value, calls := HashToSlot(frontier, leafIndex, slot, nodeIndex, full, value, all, leaves);
      }
      FrontierStep(config, frontier, all, treeHeight, leafIndex, value);
      newFrontier := Put(frontier, slot, value);
    }

    /** Adds a batch of leaves behind the `currentLeafCount` leaves already absorbed. Leaves that
        do not fit are ignored; an empty batch leaves no root. */
    method UpdateNodes(frontier: Array<string>, leafValues: seq<string>, currentLeafCount: nat,
                       ghost before: seq<string>, ghost leaves: seq<Leaf>)
      returns (root: Option<string>, ghost hashCalls: int)
      requires config.Valid() && AllWords(before) && AllWords(leafValues)
      requires latestLeaf.Some? && |before| == currentLeafCount <= Pow2(treeHeight)
      requires |Absorbed(before, leafValues, treeHeight)| <= LEAF_LIMIT
      requires Provisioned(buckets, treeHeight, |Absorbed(before, leafValues, treeHeight)|) && LeavesStored(buckets, treeHeight, leaves)
      requires FrontierMatches(config, frontier, before, |before|, treeHeight)
      requires NodesMatch(config, buckets, treeHeight, before)
      modifies this`buckets, this`latestRecalculation
      ensures buckets.Keys == old(buckets.Keys) && LeavesStored(buckets, treeHeight, leaves)
      ensures var all := Absorbed(before, leafValues, treeHeight);
              && NodesMatch(config, buckets, treeHeight, all)
              && latestRecalculation.Some?
              && FrontierMatches(config, latestRecalculation.value.frontier, all, |all|, treeHeight)
              && latestRecalculation.value.blockNumber == latestLeaf.value.blockNumber
              && latestRecalculation.value.leafIndex == latestLeaf.value.leafIndex
              && latestRecalculation.value.root == root
              && (if |all| == |before| then root == None else
                    root == Some(TreeRoot(config, all, treeHeight)) &&
                    hashCalls == HashCalls(|before|, |all| - 1, treeHeight))
    {
      hide LeavesStored, Provisioned, PathStored, FrontierMatches, NodesMatch, AllWords, Absorbed,
        NodeValue, TreeRoot, Shift, Slot, Index, Pow2;
      var newFrontier := frontier;
      if |frontier| != treeHeight + 1 && treeHeight != 32 {
        newFrontier := Resize(frontier, treeHeight + 1);
      }
      var treeWidth := Pow2(treeHeight);
      var numberOfLeavesAvailable := treeWidth - currentLeafCount;
      var numberOfLeaves := if |leafValues| < numberOfLeavesAvailable then |leafValues| else numberOfLeavesAvailable;

      ghost var all := Absorbed(before, leafValues, treeHeight);
      AbsorbedLeaves(before, leafValues, treeHeight);
      FrontierResized(config, frontier, newFrontier, before, treeHeight);
      StartBatch(config, newFrontier, buckets, treeHeight, before, all);
      hashCalls := 0;

      if numberOfLeaves == 0 {
        // No slot was determined, so the last loop does not run and the root stays undefined.
        root := None;
      } else {
        var slot, nodeValueFull, nodeValue, nodeIndex := 0, "", "", 0;
        for leafIndex := currentLeafCount to currentLeafCount + numberOfLeaves
          invariant buckets.Keys == old(buckets.Keys)
          invariant Provisioned(buckets, treeHeight, |all|) && LeavesStored(buckets, treeHeight, leaves)
          invariant FrontierMatches(config, newFrontier, all, leafIndex, treeHeight)
          invariant leafIndex == |before| ==> PathStored(config, buckets, treeHeight, all, leafIndex, 0)
          invariant leafIndex > |before| ==>
              && slot == Slot(leafIndex - 1) <= treeHeight
              && nodeIndex == Index(treeHeight, slot, Shift(leafIndex - 1, slot))
              && nodeValueFull == NodeValue(config, all, slot, Shift(leafIndex - 1, slot))
              && nodeValue == config.Truncate(nodeValueFull)
              && PathStored(config, buckets, treeHeight, all, leafIndex - 1, slot)
          invariant hashCalls == SlotSum(|before|, leafIndex)
        {
          if leafIndex > |before| { PathToNextLeaf(config, buckets, treeHeight, all, leafIndex - 1); }
          nodeValueFull := leafValues[leafIndex - currentLeafCount];
          ghost var calls;
          slot, nodeIndex, nodeValueFull, nodeValue, newFrontier, calls :=
            AbsorbLeaf(newFrontier, leafIndex, nodeValueFull, all, leaves);
          hashCalls := hashCalls + calls;
        }
        var full;
        ghost var calls;
        full, calls := HashToRoot(newFrontier, slot, nodeIndex, nodeValueFull, nodeValue, all, leaves);
        hashCalls := hashCalls + calls;
        root := Some(full);
        PathToRoot(config, buckets, treeHeight, all);
        RootIsTopNode(config, all, treeHeight);
      }
      latestRecalculation :=
        Some(Recalculation(latestLeaf.value.blockNumber, latestLeaf.value.leafIndex, root, newFrontier));
    }

    /** Recalculates the tree up to the latest stored leaf. Without a block number the stored
        leaves are not trusted and the zero word is returned. */
    method UpdateTree() returns (root: Option<string>)
      requires Consistent(config, State())
      modifies this`buckets, this`latestRecalculation
      ensures UpdateEffect(config, old(State()), State())
      ensures root == ReportedRoot(State())
      ensures latestLeaf == None || latestLeaf.value.blockNumber == 0 ==> root == Some("0x" + ZeroText(64))
      ensures latestLeaf.Some? && latestLeaf.value.blockNumber != 0 ==>
          latestRecalculation.Some? && root == latestRecalculation.value.root
    {
      hide Consistent, LeavesConsistent, LeavesStored, Provisioned, FrontierMatches, NodesMatch, AllWords,
        Hashes, StoredLeaves, Between, Absorbed, UpdateEffect, TreeRoot, HashCalls, StoredIn, Dense, LeavesInCells, Within,
        LeafIndexToNodeIndex, CalculateBucket, Config.Valid;
      if latestLeaf == None || latestLeaf.value.blockNumber == 0 {
        UpdateNothing(config, State());
        return Some(ZERO_WORD);
      }
      var latestRecalculationLeafIndex := if latestRecalculation == None then -1 else latestRecalculation.value.leafIndex;
      var fromLeafIndex := latestRecalculationLeafIndex + 1;
      var toLeafIndex := latestLeaf.value.leafIndex;
      ConsistentParts(config, State());
      if latestRecalculationLeafIndex < toLeafIndex {
        var numberOfHashes := GetNumberOfHashes(toLeafIndex, fromLeafIndex, treeHeight);
        var frontier := if latestRecalculation == None then [] else latestRecalculation.value.frontier;
        ghost var before, stored := Hashes(StoredLeaves(State()))[..fromLeafIndex], StoredLeaves(State());
        StoredInCells(buckets, treeHeight, stored);
        GapFreeRange(buckets, treeHeight, stored, fromLeafIndex, toLeafIndex);
        GapFreeIsDense(buckets, treeHeight, stored, fromLeafIndex, toLeafIndex);
        var leaves := GetLeavesByLeafIndexRange(fromLeafIndex, toLeafIndex);
        var leafValues := Hashes(leaves.value);
        BatchIsRest(State(), fromLeafIndex);
        ghost var hashCalls;
        root, hashCalls := UpdateNodes(frontier, leafValues, fromLeafIndex, before, stored);
        assert numberOfHashes == hashCalls;
        UpdateDone(config, old(State()), State());
      } else {
        UpdateNothing(config, State());
        root := latestRecalculation.value.root;
      }
    }

    /** Stores a leaf at its node index and makes it the latest leaf, if its document exists. */
    method InsertLeaf(leaf: Leaf) returns (found: bool)
      modifies this`buckets, this`latestLeaf
      ensures found <==> HasDocument(old(buckets), treeHeight, leaf.leafIndex)
      ensures State() == if found then AfterInsert(old(State()), leaf) else old(State())
      ensures found ==>
          var nodeIndex := Pow2(treeHeight) - 1 + leaf.leafIndex;
          && nodeIndex / 25000 in buckets && At(buckets[nodeIndex / 25000], nodeIndex) == Some(LeafNode(leaf))
          && latestLeaf == Some(LatestLeaf(leaf.blockNumber, leaf.leafIndex))
    {
      var nodeIndex := LeafIndexToNodeIndex(treeHeight, leaf.leafIndex);
      var bucketIndex := CalculateBucket(nodeIndex);
      if bucketIndex !in buckets {
        return false;
      }
      var nodes := Put(buckets[bucketIndex], nodeIndex, LeafNode(leaf));
      buckets := buckets[bucketIndex := nodes];
      latestLeaf := Some(LatestLeaf(leaf.blockNumber, leaf.leafIndex));
      return true;
    }

    /** The stored leaf with this index; the source returns {} when there is none. */
    method GetLeafByLeafIndex(leafIndex: nat) returns (leaf: Read<Option<Leaf>>)
      requires LeavesInCells(buckets, treeHeight)
      ensures leaf == if HasDocument(buckets, treeHeight, leafIndex) then Read(LeafAt(buckets, treeHeight, leafIndex)) else NoDocument
    {
      var bucketIndex := CalculateBucket(LeafIndexToNodeIndex(treeHeight, leafIndex));
      if bucketIndex !in buckets {
        return NoDocument;
      }
      MatchingBucket(buckets, treeHeight, leafIndex, leafIndex);
      OneLeaf(buckets, treeHeight, leafIndex);
      var result := Matching(buckets[bucketIndex], leafIndex, leafIndex);
      leaf := Read(if |result| > 0 then Some(result[0]) else None);
    }

    /** Although each round skips as many indices as it found leaves, every stored leaf of the
        range is returned; and each is returned once, in order, exactly if no missing leaf is
        followed by a stored one of the same bucket. */
    method GetLeavesByLeafIndexRange(minIndex: nat, maxIndex: nat) returns (leaves: Read<seq<Leaf>>)
      requires LeavesInCells(buckets, treeHeight)
      ensures leaves.NoDocument? <==> exists i :: minIndex <= i <= maxIndex && !HasDocument(buckets, treeHeight, i)
      ensures leaves.Read? ==> Within(StoredIn(buckets, treeHeight, minIndex, maxIndex), leaves.value)
      ensures leaves.Read? ==> Within(leaves.value, StoredIn(buckets, treeHeight, minIndex, maxIndex))
      ensures leaves.Read? ==>
          (leaves.value == StoredIn(buckets, treeHeight, minIndex, maxIndex) <==> Dense(buckets, treeHeight, minIndex, maxIndex))
    {
      hide LeavesInCells, StoredIn, Dense, BucketEnd, RangeSoFar, Within, LeafIndexToNodeIndex, CalculateBucket;
      var all: seq<Leaf> := [];
      var leafIndex := minIndex;
      RangeStart(buckets, treeHeight, minIndex, maxIndex);
      while leafIndex <= maxIndex
        invariant minIndex <= leafIndex && (leafIndex <= maxIndex + 1 || leafIndex == minIndex)
        invariant forall i :: minIndex <= i < leafIndex ==> HasDocument(buckets, treeHeight, i)
        invariant RangeSoFar(buckets, treeHeight, minIndex, maxIndex, leafIndex, all)
      {
        var bucketIndex := CalculateBucket(LeafIndexToNodeIndex(treeHeight, leafIndex));
        if bucketIndex !in buckets {
          assert !HasDocument(buckets, treeHeight, leafIndex);
          return NoDocument;
        }
        MatchingBucket(buckets, treeHeight, leafIndex, maxIndex);
        RangeRound(buckets, treeHeight, minIndex, maxIndex, leafIndex, all);
        ghost var x := leafIndex;
        var result := Matching(buckets[bucketIndex], leafIndex, maxIndex);
        all := all + result;
        var incr := if |result| > 0 then |result| - 1 else 0;
        leafIndex := leafIndex + incr;
        leafIndex := leafIndex + 1;
        forall i | x <= i < leafIndex ensures HasDocument(buckets, treeHeight, i) { SameBucket(treeHeight, x, i); }
      }
      RangeEnd(buckets, treeHeight, minIndex, maxIndex, leafIndex, all);
      leaves := Read(all);
    }

    /** The witness path of a leaf: the sibling of the leaf and of each of its ancestors. */
    method GetSiblingPathByLeafIndex(leafIndex: nat) returns (siblingNodes: Read<seq<PathNode>>)
      ensures siblingNodes ==
                if AllDocuments(buckets, SiblingIndices(LeafIndexToNodeIndex(treeHeight, leafIndex)))
                then Read(WitnessPath(config, State(), leafIndex)) else NoDocument
    {
      var siblingPathIndices := GetSiblingPathIndices(LeafIndexToNodeIndex(treeHeight, leafIndex));
      siblingNodes := ReadNodes(siblingPathIndices);
    }

    /** Every parent of a leaf up to the root, after bringing the tree up to date. */
    method GetPathByLeafIndex(leafIndex: nat) returns (pathNodes: Read<seq<PathNode>>)
      requires Consistent(config, State())
      modifies this`buckets, this`latestRecalculation
      ensures UpdateEffect(config, old(State()), State())
      ensures var indices := Ancestors(LeafIndexToNodeIndex(treeHeight, leafIndex));
              pathNodes == if AllDocuments(buckets, indices) then Read(PathOf(config, buckets, indices)) else NoDocument
    {
      var _ := UpdateTree();
      var pathIndices := GetPathIndices(LeafIndexToNodeIndex(treeHeight, leafIndex));
      pathNodes := ReadNodes(pathIndices);
    }

    /** The read loop shared by both paths; a bucket is fetched only when it changes. */
    method ReadNodes(indices: seq<nat>) returns (nodes: Read<seq<PathNode>>)
      ensures nodes == if AllDocuments(buckets, indices) then Read(PathOf(config, buckets, indices)) else NoDocument
    {
      if 0 !in buckets {
        return NoDocument;
      }
      var path: seq<PathNode> := [];
      var prevBucket := 0;
      var merkleSegment := buckets[0];
      for count := 0 to |indices|
        invariant prevBucket in buckets && merkleSegment == buckets[prevBucket]
        invariant |path| == count
        invariant forall k :: 0 <= k < count ==>
            CalculateBucket(indices[k]) in buckets && path[k] == PathNode(indices[k], StoredHash(config, buckets, indices[k]))
      {
        var nodeIndex := indices[count];
        var bucketIndex := CalculateBucket(nodeIndex);
        if bucketIndex != prevBucket {
          if bucketIndex !in buckets {
            return NoDocument;
          }
          merkleSegment := buckets[bucketIndex];
          prevBucket := bucketIndex;
        }
        var localIndex := nodeIndex % BUCKET_SIZE;
        var node := PathNode(nodeIndex, config.Zero());
        if At(merkleSegment, localIndex).Some? {
          node := node.(hash := At(merkleSegment, localIndex).value.Hash());
        }
        path := path + [node];
      }
      assert path == PathOf(config, buckets, indices);
      nodes := Read(path);
    }

    /** baseline_verify: brings the tree up to date, then folds the path from the leaf value. */
    method BaselineVerify(leafValue: string, siblingNodes: seq<PathNode>) returns (result: bool)
      requires Consistent(config, State()) && |siblingNodes| > 0
      modifies this`buckets, this`latestRecalculation
      ensures UpdateEffect(config, old(State()), State())
      ensures result <==> Accepts(config, ReportedRoot(State()), leafValue, siblingNodes)
    {
      var root := siblingNodes[|siblingNodes| - 1].hash;
      var updatedRoot := UpdateTree();
      var currentHash := leafValue;
      for index := 0 to |siblingNodes| - 1
        invariant currentHash == Fold(config, leafValue, siblingNodes, index)
      {
        if siblingNodes[index].nodeIndex % 2 == 0 {
          currentHash := config.HashPair(currentHash, siblingNodes[index].hash);
        } else {
          currentHash := config.HashPair(siblingNodes[index].hash, currentHash);
        }
      }
      result := root == currentHash && Some(root) == updatedRoot;
    }
  }

  /** The odd branch of the inner loop is never taken, and the frontier slot it reads was
      written before; the truncated hash is what the node has to hold. */
  lemma OnlyRightChildrenBelowSlot(c: Config, f: Array<string>, all: seq<string>, h: nat, i: nat, level: nat)
    requires c.Valid() && AllWords(all) && i < |all| <= Pow2(h)
    requires FrontierMatches(c, f, all, i, h)
    requires 1 <= level <= Slot(i)
    ensures level <= h
    ensures var x := Index(h, level - 1, Shift(i, level - 1));
            x % 2 == 0 && x > 0 && ParentNodeIndex(x) == Index(h, level, Shift(i, level))
    ensures At(f, level - 1).Some?
    ensures c.HashPair(At(f, level - 1).value, c.Truncate(NodeValue(c, all, level - 1, Shift(i, level - 1))))
         == NodeValue(c, all, level, Shift(i, level))
    ensures StoredValue(c, all, h, level, Shift(i, level)) == c.Truncate(NodeValue(c, all, level, Shift(i, level)))
  {
    var t := level - 1;
    SlotInTree(i, h);
    SlotParity(i, t);
    PathPositions(all, h, i, t);
    ParentOfIndex(h, t, Shift(i, t));
    HashWithFrontier(c, f, all, h, i, t, Shift(i, t));
  }

  /** Above the slot of the last leaf a right child meets a written frontier slot. */
  lemma HashRightAboveSlot(c: Config, f: Array<string>, all: seq<string>, h: nat, t: nat, p: nat)
    requires c.Valid() && AllWords(all) && 0 < |all| <= Pow2(h)
    requires FrontierMatches(c, f, all, |all|, h)
    requires Slot(|all| - 1) <= t < h
    requires p == Shift(|all| - 1, t) && p % 2 == 1
    ensures At(f, t).Some?
    ensures c.HashPair(At(f, t).value, c.Truncate(NodeValue(c, all, t, p))) == NodeValue(c, all, t + 1, p / 2)
  {
    AboveSlot(|all| - 1, t);
    PathPositions(all, h, |all| - 1, t);
    HashWithFrontier(c, f, all, h, |all|, t, p);
  }

  lemma HashAboveSlot(c: Config, f: Array<string>, all: seq<string>, h: nat, t: nat, p: nat, full: string)
    requires c.Valid() && AllWords(all) && 0 < |all| <= Pow2(h)
    requires FrontierMatches(c, f, all, |all|, h)
    requires Slot(|all| - 1) <= t < h
    requires p == Shift(|all| - 1, t) && full == NodeValue(c, all, t, p)
    ensures p % 2 == 1 ==> At(f, t).Some? && c.HashPair(At(f, t).value, c.Truncate(full)) == NodeValue(c, all, t + 1, p / 2)
    ensures p % 2 == 0 ==> c.HashPair(c.Truncate(full), c.Zero()) == NodeValue(c, all, t + 1, p / 2)
  {
    if p % 2 == 0 {
      HashWithZero(c, all, t);
    } else {
      HashRightAboveSlot(c, f, all, h, t, p);
    }
  }

  lemma LeafLevel(c: Config, all: seq<string>, i: nat)
    requires i < |all|
    ensures Shift(i, 0) == i && NodeValue(c, all, 0, i) == all[i]
  {
  }

  lemma PathAboveSlot(c: Config, f: Array<string>, all: seq<string>, h: nat, i: nat, level: nat)
    requires c.Valid() && AllWords(all) && i + 1 == |all| <= Pow2(h)
    requires FrontierMatches(c, f, all, |all|, h)
    requires Slot(i) < level <= h
    ensures var x := Index(h, level - 1, Shift(i, level - 1));
            x > 0 && ParentNodeIndex(x) == Index(h, level, Shift(i, level)) &&
            var value := c.Truncate(NodeValue(c, all, level - 1, Shift(i, level - 1)));
            if x % 2 == 0
            then At(f, level - 1).Some? && c.HashPair(At(f, level - 1).value, value) == NodeValue(c, all, level, Shift(i, level))
            else c.HashPair(value, c.Zero()) == NodeValue(c, all, level, Shift(i, level))
    ensures var p := Shift(i, level);
            var full := NodeValue(c, all, level, p);
            StoredValue(c, all, h, level, p) == if Index(h, level, p) == 0 then full else c.Truncate(full)
  {
    var t, p := level - 1, Shift(i, level - 1);
    StoredAboveSlot(c, all, h, level);
    ParentOfIndex(h, t, p);
    HashAboveSlot(c, f, all, h, t, p, NodeValue(c, all, t, p));
  }

  lemma AboveSlot(i: nat, t: nat)
    requires Slot(i) <= t && Shift(i, t) % 2 == 1
    ensures Shift(i + 1, t) == Shift(i, t)
  {
    ShiftSucc(i, t);
    if t == Slot(i) { SlotParity(i, t); }
  }

  lemma PowersStart()
    ensures Pow2(0) == 1
  {
  }

  /** Above the slot only node 0 keeps its full value. */
  lemma StoredAboveSlot(c: Config, all: seq<string>, h: nat, level: nat)
    requires 0 < |all| <= Pow2(h) && Slot(|all| - 1) < level <= h
    ensures var p := Shift(|all| - 1, level);
            var full := NodeValue(c, all, level, p);
            StoredValue(c, all, h, level, p) == if Index(h, level, p) == 0 then full else c.Truncate(full)
  {
    hide Shift, NodeValue, Config.Truncate, Slot, Pow2;
    PathPositions(all, h, |all| - 1, level);
    SlotInTree(|all| - 1, h);
    if level < h { Pow2Step(h - level); } else { assert Pow2(0) == 1 by { PowersStart(); } }
  }

  /** The leaves accounted for after a batch: those that still fit are appended. */
  function Absorbed(before: seq<string>, batch: seq<string>, h: nat): seq<string>
    requires |before| <= Pow2(h)
  {
    var room := Pow2(h) - |before|;
    before + if |batch| < room then batch else batch[..room]
  }

  lemma AbsorbedLeaves(before: seq<string>, batch: seq<string>, h: nat)
    requires |before| <= Pow2(h) && AllWords(before) && AllWords(batch)
    ensures var all := Absorbed(before, batch, h);
            && AllWords(all) && before <= all
            && |all| == (if |before| + |batch| < Pow2(h) then |before| + |batch| else Pow2(h))
            && (|all| == |before| ==> all == before)
            && (forall i :: |before| <= i < |all| ==> all[i] == batch[i - |before|])
  {
  }

  lemma FrontierResized(c: Config, f: Array<string>, g: Array<string>, all: seq<string>, h: nat)
    requires FrontierMatches(c, f, all, |all|, h)
    requires g == f || g == Resize(f, h + 1)
    ensures FrontierMatches(c, g, all, |all|, h)
  {
    forall l | 0 <= l <= h ensures SlotMatches(c, g, all, |all|, l) {
      assert SlotMatches(c, f, all, |all|, l);
      AtResize(f, h + 1, l);
    }
  }

  lemma StartBatch(c: Config, f: Array<string>, buckets: Buckets, h: nat, before: seq<string>, all: seq<string>)
    requires before <= all && |all| <= Pow2(h)
    requires FrontierMatches(c, f, before, |before|, h) && NodesMatch(c, buckets, h, before)
    ensures FrontierMatches(c, f, all, |before|, h)
    ensures before < all ==> PathStored(c, buckets, h, all, |before|, 0)
  {
    FrontierOfPrefix(c, f, before, all, h);
    if before < all { NodesOfPrefix(c, buckets, h, before, all); }
  }

  /** Below the limit the loop of getFrontierSlot stops. */
  lemma SlotExists(i: nat)
    requires i < LEAF_LIMIT
    ensures !Divides(Pow2(31), i + 1)
  {
    Pow2Values();
    SlotIsLargestDivisor(i, 31);
    if 31 <= Slot(i) { LargeSlot(i, 31); }
  }

  // ----- What updateTree does to the document ----------------------------------------------

  /** The leaves read for a batch are those behind the recalculated part. */
  lemma BatchIsRest(d: Doc, from: nat)
    requires from < LeafCount(d) <= Pow2(d.treeHeight)
    requires AllWords(Hashes(StoredLeaves(d)))
    ensures var all := Hashes(StoredLeaves(d));
            var batch := Hashes(Between(StoredLeaves(d), from, LeafCount(d) - 1));
            AllWords(all[..from]) && AllWords(batch) && Absorbed(all[..from], batch, d.treeHeight) == all
  {
    var all := Hashes(StoredLeaves(d));
    var batch := Hashes(Between(StoredLeaves(d), from, LeafCount(d) - 1));
    assert batch == all[from..];
  }

  lemma InnerIndex(h: nat, i: nat, l: nat)
    requires i < Pow2(h) && 1 <= l <= h
    ensures Shift(i, l) < Pow2(h - l)
    ensures Index(h, l, Shift(i, l)) < Pow2(h) - 1
  {
    ShiftBound(i, h, l);
    InnerBound(h, l, Shift(i, l));
  }
}
