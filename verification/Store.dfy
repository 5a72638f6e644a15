/** The stored tree: header fields and the node buckets, with their read and write positions. */
module Store {
  import opened Arithmetic
  import opened Binary
  import opened NodeIndex
  import opened Sparse

  const BUCKET_SIZE: nat := 25000

  datatype Leaf = Leaf(hash: string, leafIndex: nat, blockNumber: nat, txHash: string)

  datatype Node = LeafNode(leaf: Leaf) | InnerNode(value: string) {
    function Hash(): string {
      match this
      case LeafNode(leaf) => leaf.hash
      case InnerNode(value) => value
    }
  }

  type Bucket = Array<Node>

  type Buckets = map<nat, Bucket>

  datatype LatestLeaf = LatestLeaf(blockNumber: nat, leafIndex: nat)

  datatype Recalculation =
    Recalculation(blockNumber: nat, leafIndex: nat, root: Option<string>, frontier: Array<string>)

  /** The documents of one merkle id: `nodes` of every bucket, the rest from bucket 0. */
  datatype Doc = Doc(treeHeight: nat,
                     buckets: Buckets,
                     latestLeaf: Option<LatestLeaf>,
                     latestRecalculation: Option<Recalculation>)

  /** What a read yields; the source throws when a document that it needs does not exist. */
  datatype Read<T> = NoDocument | Read(value: T)

  function CalculateBucket(nodeIndex: nat): nat {
    nodeIndex / BUCKET_SIZE
  }

  // ----- Positions ------------------------------------------------------------------------

  /** Readers and the tree update use position nodeIndex % BUCKET_SIZE. */
  function NodeAt(buckets: Buckets, x: nat): Option<Node> {
    var b := CalculateBucket(x);
    if b in buckets then At(buckets[b], x % BUCKET_SIZE) else None
  }

  function WriteInner(buckets: Buckets, x: nat, value: string): Buckets
    requires CalculateBucket(x) in buckets
  {
    var b := CalculateBucket(x);
    buckets[b := Put(buckets[b], x % BUCKET_SIZE, InnerNode(value))]
  }

  /** insertLeaf writes at the node index itself, without the modulus. */
  function LeafCell(buckets: Buckets, x: nat): Option<Node> {
    var b := CalculateBucket(x);
    if b in buckets then At(buckets[b], x) else None
  }

  function WriteLeaf(buckets: Buckets, x: nat, leaf: Leaf): Buckets
    requires CalculateBucket(x) in buckets
  {
    var b := CalculateBucket(x);
    buckets[b := Put(buckets[b], x, LeafNode(leaf))]
  }

  predicate HasLeaf(buckets: Buckets, b: nat, p: nat) {
    b in buckets && At(buckets[b], p).Some? && At(buckets[b], p).value.LeafNode?
  }

  predicate HasInner(buckets: Buckets, b: nat, p: nat) {
    b in buckets && At(buckets[b], p).Some? && At(buckets[b], p).value.InnerNode?
  }

  /** The cell of the inner node at position p of level l. */
  function Cell(buckets: Buckets, h: nat, l: nat, p: nat): Option<Node>
    requires l <= h
  {
    NodeAt(buckets, Index(h, l, p))
  }

  /** The document that leaf i is written to and read from exists. */
  predicate HasDocument(buckets: Buckets, h: nat, i: nat) {
    CalculateBucket(LeafIndexToNodeIndex(h, i)) in buckets
  }

  /** The documents of a tracked tree that has room for n leaves: those of the leaves, and none
      is missing below an existing one. */
  ghost predicate Provisioned(buckets: Buckets, h: nat, n: nat) {
    && 0 in buckets
    && (forall b: nat, b': nat :: b in buckets && b' <= b ==> b' in buckets)
    && (n > 0 ==> HasDocument(buckets, h, n - 1))
  }

  /** Every node before the last leaf has its document. */
  lemma NodeHasDocument(buckets: Buckets, h: nat, n: nat, x: nat)
    requires Provisioned(buckets, h, n) && n > 0 && x <= LeafIndexToNodeIndex(h, n - 1)
    ensures CalculateBucket(x) in buckets
  {
    hide LeafIndexToNodeIndex;
    assert CalculateBucket(x) <= CalculateBucket(LeafIndexToNodeIndex(h, n - 1));
  }

  lemma LeafIsProvisioned(buckets: Buckets, h: nat, n: nat, i: nat)
    requires Provisioned(buckets, h, n) && i < n
    ensures HasDocument(buckets, h, i)
  {
    NodeHasDocument(buckets, h, n, LeafIndexToNodeIndex(h, i));
  }

  /** At height 14 one document has room for 8617 leaves, at height 4 for all 16. */
  lemma RoomInOneDocument(i: nat)
    ensures HasDocument(map[0 := []], 14, i) <==> i < 8617
    ensures i < 16 ==> HasDocument(map[0 := []], 4, i)
  {
    assert Pow2(7) == 128 && Pow2(4) == 16;
    PowSum(7, 7);
  }

  /** insertLeaf finds its document exactly if the node index lies in one of the first |buckets|
      documents. The service itself creates one document, so in its trees there is room for
      BUCKET_SIZE + 1 - 2^h leaves. */
  lemma DocumentsReach(buckets: Buckets, h: nat, i: nat)
    requires Provisioned(buckets, h, 0)
    ensures HasDocument(buckets, h, i) <==> LeafIndexToNodeIndex(h, i) < |buckets| * BUCKET_SIZE
    ensures |buckets| == 1 ==> (HasDocument(buckets, h, i) <==> i < BUCKET_SIZE + 1 - Pow2(h))
  {
    var b := CalculateBucket(LeafIndexToNodeIndex(h, i));
    DocumentsAreFirst(buckets, h, b);
    assert b < |buckets| <==> LeafIndexToNodeIndex(h, i) < |buckets| * BUCKET_SIZE;
  }

  lemma DocumentsAreFirst(buckets: Buckets, h: nat, b: nat)
    requires Provisioned(buckets, h, 0)
    ensures b in buckets <==> b < |buckets|
  {
    if b in buckets {
      assert Range(0, b) <= buckets.Keys;
      SubsetSize(Range(0, b), buckets.Keys);
    } else {
      assert b > 0 && buckets.Keys <= Range(0, b - 1);
      SubsetSize(buckets.Keys, Range(0, b - 1));
    }
  }

  // ----- Stored leaves --------------------------------------------------------------------

  /** The leaf cells hold exactly `leaves`, leaf i at node index 2^h - 1 + i of its bucket, and
      no inner node lies outside the cells of the rows above the leaves. */
  ghost predicate LeavesStored(buckets: Buckets, h: nat, leaves: seq<Leaf>) {
    && (forall i :: 0 <= i < |leaves| ==>
          leaves[i].leafIndex == i &&
          LeafCell(buckets, LeafIndexToNodeIndex(h, i)) == Some(LeafNode(leaves[i])))
    && (forall b: nat, p: nat :: HasLeaf(buckets, b, p) ==>
          p >= Pow2(h) - 1 && p - (Pow2(h) - 1) < |leaves| && CalculateBucket(p) == b)
    && (forall b: nat, p: nat :: HasInner(buckets, b, p) ==> p < BUCKET_SIZE && b * BUCKET_SIZE + p < Pow2(h) - 1)
  }

  /** The leaf stored in the cell of leaf i. */
  function LeafAt(buckets: Buckets, h: nat, i: nat): Option<Leaf> {
    var cell := LeafCell(buckets, LeafIndexToNodeIndex(h, i));
    if cell.Some? && cell.value.LeafNode? then Some(cell.value.leaf) else None
  }

  /** Whatever leaves are there, with gaps or without: each lies in its own cell, and no inner
      node lies outside the cells of the rows above the leaves. */
  ghost predicate LeavesInCells(buckets: Buckets, h: nat) {
    && (forall b: nat, p: nat :: HasLeaf(buckets, b, p) ==>
          p >= Pow2(h) - 1 && CalculateBucket(p) == b && buckets[b][p].value.leaf.leafIndex == p - (Pow2(h) - 1))
    && (forall b: nat, p: nat :: HasInner(buckets, b, p) ==> p < BUCKET_SIZE && b * BUCKET_SIZE + p < Pow2(h) - 1)
  }

  lemma StoredInCells(buckets: Buckets, h: nat, leaves: seq<Leaf>)
    requires LeavesStored(buckets, h, leaves)
    ensures LeavesInCells(buckets, h)
    ensures forall i: nat :: LeafAt(buckets, h, i) == if i < |leaves| then Some(leaves[i]) else None
  {
    forall b: nat, p: nat | HasLeaf(buckets, b, p)
      ensures p >= Pow2(h) - 1 && CalculateBucket(p) == b && buckets[b][p].value.leaf.leafIndex == p - (Pow2(h) - 1)
    {
      var i := p - (Pow2(h) - 1);
      assert LeafCell(buckets, LeafIndexToNodeIndex(h, i)) == Some(LeafNode(leaves[i]));
    }
    forall i: nat ensures LeafAt(buckets, h, i) == if i < |leaves| then Some(leaves[i]) else None {
      var x := LeafIndexToNodeIndex(h, i);
      assert i < |leaves| ==> LeafCell(buckets, x) == Some(LeafNode(leaves[i]));
      assert i >= |leaves| ==> !HasLeaf(buckets, CalculateBucket(x), x);
    }
  }

  function InsertedAt(leaves: seq<Leaf>, leaf: Leaf): seq<Leaf>
    requires leaf.leafIndex <= |leaves|
  {
    if leaf.leafIndex < |leaves| then leaves[leaf.leafIndex := leaf] else leaves + [leaf]
  }

  lemma LeafCellAfterWriteLeaf(buckets: Buckets, x: nat, leaf: Leaf, b: nat, p: nat)
    requires CalculateBucket(x) in buckets
    ensures HasLeaf(WriteLeaf(buckets, x, leaf), b, p) <==> (b == CalculateBucket(x) && p == x) || HasLeaf(buckets, b, p)
  {
    AtPut(buckets[CalculateBucket(x)], x, LeafNode(leaf), p);
  }

  /** Inserting the next leaf, or writing an earlier one again, keeps the leaf cells gap-free. */
  lemma InsertKeepsLeaves(buckets: Buckets, h: nat, leaves: seq<Leaf>, leaf: Leaf)
    requires LeavesStored(buckets, h, leaves) && leaf.leafIndex <= |leaves|
    requires HasDocument(buckets, h, leaf.leafIndex)
    ensures LeavesStored(WriteLeaf(buckets, LeafIndexToNodeIndex(h, leaf.leafIndex), leaf), h, InsertedAt(leaves, leaf))
  {
    var x := LeafIndexToNodeIndex(h, leaf.leafIndex);
    var after, result := WriteLeaf(buckets, x, leaf), InsertedAt(leaves, leaf);
    forall i | 0 <= i < |result|
      ensures result[i].leafIndex == i && LeafCell(after, LeafIndexToNodeIndex(h, i)) == Some(LeafNode(result[i]))
    {
      AtPut(buckets[CalculateBucket(x)], x, LeafNode(leaf), LeafIndexToNodeIndex(h, i));
    }
    forall b: nat, p: nat | HasLeaf(after, b, p)
      ensures p >= Pow2(h) - 1 && p - (Pow2(h) - 1) < |result| && CalculateBucket(p) == b
    {
      LeafCellAfterWriteLeaf(buckets, x, leaf, b, p);
    }
    forall b: nat, p: nat | HasInner(after, b, p) ensures HasInner(buckets, b, p) {
      AtPut(buckets[CalculateBucket(x)], x, LeafNode(leaf), p);
    }
  }

  /** A leaf never lands in a cell that the tree update reads or writes. */
  lemma InsertKeepsCells(buckets: Buckets, h: nat, i: nat, leaf: Leaf, x: nat)
    requires HasDocument(buckets, h, i) && x < Pow2(h) - 1
    ensures NodeAt(WriteLeaf(buckets, LeafIndexToNodeIndex(h, i), leaf), x) == NodeAt(buckets, x)
  {
    var y := LeafIndexToNodeIndex(h, i);
    AtPut(buckets[CalculateBucket(y)], y, LeafNode(leaf), x % BUCKET_SIZE);
  }

  /** The tree update never overwrites a leaf. */
  lemma WriteInnerKeepsLeaves(buckets: Buckets, h: nat, x: nat, value: string, leaves: seq<Leaf>)
    requires CalculateBucket(x) in buckets && x < Pow2(h) - 1
    requires LeavesStored(buckets, h, leaves)
    ensures LeavesStored(WriteInner(buckets, x, value), h, leaves)
  {
    var b0, after := CalculateBucket(x), WriteInner(buckets, x, value);
    forall i | 0 <= i < |leaves|
      ensures LeafCell(after, LeafIndexToNodeIndex(h, i)) == Some(LeafNode(leaves[i]))
    {
      AtPut(buckets[b0], x % BUCKET_SIZE, InnerNode(value), LeafIndexToNodeIndex(h, i));
    }
    forall b: nat, p: nat | HasLeaf(after, b, p) ensures HasLeaf(buckets, b, p) {
      AtPut(buckets[b0], x % BUCKET_SIZE, InnerNode(value), p);
    }
    forall b: nat, p: nat | HasInner(after, b, p)
      ensures HasInner(buckets, b, p) || (b == b0 && p == x % BUCKET_SIZE)
    {
      AtPut(buckets[b0], x % BUCKET_SIZE, InnerNode(value), p);
    }
  }

  lemma WriteInnerKeepsProvisioned(buckets: Buckets, h: nat, n: nat, x: nat, value: string)
    requires CalculateBucket(x) in buckets && Provisioned(buckets, h, n)
    ensures Provisioned(WriteInner(buckets, x, value), h, n)
    ensures WriteInner(buckets, x, value).Keys == buckets.Keys
  {
  }

  /** Inner cells are independent of each other. */
  lemma CellAfterWrite(buckets: Buckets, h: nat, l: nat, p: nat, value: string, l': nat, p': nat)
    requires l <= h && p < Pow2(h - l) && l' <= h && p' < Pow2(h - l')
    requires CalculateBucket(Index(h, l, p)) in buckets
    ensures Cell(WriteInner(buckets, Index(h, l, p), value), h, l', p')
         == if l == l' && p == p' then Some(InnerNode(value)) else Cell(buckets, h, l', p')
  {
    var x, y := Index(h, l, p), Index(h, l', p');
    if CalculateBucket(x) == CalculateBucket(y) {
      AtPut(buckets[CalculateBucket(x)], x % BUCKET_SIZE, InnerNode(value), y % BUCKET_SIZE);
      if x % BUCKET_SIZE == y % BUCKET_SIZE {
        assert x == y;
        IndexInjective(h, l, p, l', p');
      }
    }
  }

  /** Reading a leaf by position finds it only in the first bucket. */
  lemma LeafReadByPosition(buckets: Buckets, h: nat, leaves: seq<Leaf>, i: nat)
    requires LeavesStored(buckets, h, leaves)
    ensures NodeAt(buckets, LeafIndexToNodeIndex(h, i))
         == if i < |leaves| && LeafIndexToNodeIndex(h, i) < BUCKET_SIZE then Some(LeafNode(leaves[i])) else None
  {
    var x := LeafIndexToNodeIndex(h, i);
    var b, p := CalculateBucket(x), x % BUCKET_SIZE;
    if x < BUCKET_SIZE && i < |leaves| {
      assert LeafCell(buckets, x) == Some(LeafNode(leaves[i]));
    } else {
      assert !HasLeaf(buckets, b, p);
      assert !HasInner(buckets, b, p);
    }
  }
}
