/** Witness paths: reading them from the store and folding them back to the root. */
module Membership {
  import opened Binary
  import opened Hashing
  import opened NodeIndex
  import opened ReferenceTree
  import opened Sparse
  import opened Store
  import opened TreeState

  datatype PathNode = PathNode(nodeIndex: nat, hash: string)

  /** The hash read at a node; a node that is not stored counts as ZERO. */
  function StoredHash(c: Config, buckets: Buckets, x: nat): string {
    var cell := NodeAt(buckets, x);
    if cell.Some? then cell.value.Hash() else c.Zero()
  }

  function PathOf(c: Config, buckets: Buckets, indices: seq<nat>): seq<PathNode> {
    seq(|indices|, k requires 0 <= k < |indices| => PathNode(indices[k], StoredHash(c, buckets, indices[k])))
  }

  /** The documents of all these nodes exist. */
  predicate AllDocuments(buckets: Buckets, indices: seq<nat>) {
    0 in buckets && forall k :: 0 <= k < |indices| ==> CalculateBucket(indices[k]) in buckets
  }

  /** The path that getSiblingPathByLeafIndex reads for leaf i. */
  function WitnessPath(c: Config, d: Doc, i: nat): seq<PathNode> {
    PathOf(c, d.buckets, SiblingIndices(LeafIndexToNodeIndex(d.treeHeight, i)))
  }

  lemma WitnessNodes(c: Config, d: Doc, i: nat)
    requires i < Pow2(d.treeHeight)
    ensures |WitnessPath(c, d, i)| == d.treeHeight + 1
    ensures forall k :: 0 <= k <= d.treeHeight ==>
              var x := WitnessIndex(d.treeHeight, i, k); WitnessPath(c, d, i)[k] == PathNode(x, StoredHash(c, d.buckets, x))
  {
    SiblingPathOfLeaf(d.treeHeight, i);
  }

  /** The hash reached after the first k nodes of a path. */
  function Fold(c: Config, value: string, path: seq<PathNode>, k: nat): string
    requires k <= |path|
    decreases k
  {
    if k == 0 then value
    else if path[k - 1].nodeIndex % 2 == 0 then c.HashPair(Fold(c, value, path, k - 1), path[k - 1].hash)
    else c.HashPair(path[k - 1].hash, Fold(c, value, path, k - 1))
  }

  /** The test of baseline_verify, given the root that updateTree returned. */
  predicate Accepts(c: Config, updatedRoot: Option<string>, value: string, path: seq<PathNode>)
    requires |path| > 0
  {
    var root := path[|path| - 1].hash;
    root == Fold(c, value, path, |path| - 1) && Some(root) == updatedRoot
  }

  /** Equal for every further hash: the same bytes enter it. */
  predicate SameBytes(c: Config, a: string, b: string) {
    c.Bytes(a) == c.Bytes(b)
  }

  /** The siblings of a path that starts at position i of level `base` are those of the tree. */
  predicate PathAgrees(c: Config, all: seq<string>, base: nat, i: nat, path: seq<PathNode>, k: nat)
    requires k <= |path|
  {
    forall j :: 0 <= j < k ==> SiblingAgrees(c, all, base, i, path, j)
  }

  predicate SiblingAgrees(c: Config, all: seq<string>, base: nat, i: nat, path: seq<PathNode>, j: nat)
    requires j < |path|
  {
    SameBytes(c, path[j].hash, NodeValue(c, all, base + j, Flip(Shift(i, j))))
  }

  // ----- Reading a path from an up-to-date tree ---------------------------------------------

  /** The saved root accounts for every stored leaf. */
  ghost predicate UpToDate(c: Config, d: Doc) {
    Consistent(c, d) && HasBlock(d) && Recalculated(d) == LeafCount(d)
  }

  function Values(d: Doc): seq<string> {
    Hashes(StoredLeaves(d))
  }

  lemma UpToDateParts(c: Config, d: Doc)
    requires UpToDate(c, d)
    ensures var all := Values(d);
            && c.Valid() && AllWords(all)
            && 0 < |all| == LeafCount(d) <= Pow2(d.treeHeight) && 1 <= d.treeHeight
            && Provisioned(d.buckets, d.treeHeight, |all|)
            && LeavesStored(d.buckets, d.treeHeight, StoredLeaves(d))
            && NodesMatch(c, d.buckets, d.treeHeight, all)
            && ReportedRoot(d) == Some(NodeValue(c, all, d.treeHeight, 0))
  {
    assert Values(d)[..LeafCount(d)] == Values(d);
    RootIsTopNode(c, Values(d), d.treeHeight);
  }

  /** The sibling leaf of leaf i can be read by position: it is absent, lies in the first
      bucket, or enters a hash as ZERO does. */
  predicate SiblingReadable(c: Config, d: Doc, i: nat) {
    || Flip(i) >= LeafCount(d)
    || LeafIndexToNodeIndex(d.treeHeight, Flip(i)) < BUCKET_SIZE
    || SameBytes(c, Values(d)[Flip(i)], c.Zero())
  }

  /** The root survived being stored: the tree is not full, or values are not shortened. */
  predicate RootKept(c: Config, d: Doc) {
    LeafCount(d) < Pow2(d.treeHeight) || c.hashLength == 32
  }

  /** The documents of the path of a stored leaf exist if and only if that of its sibling does. */
  lemma OwnPathReadable(d: Doc, i: nat)
    requires Provisioned(d.buckets, d.treeHeight, LeafCount(d)) && i < LeafCount(d) <= Pow2(d.treeHeight)
    requires d.treeHeight >= 1
    ensures AllDocuments(d.buckets, SiblingIndices(LeafIndexToNodeIndex(d.treeHeight, i)))
        <==> HasDocument(d.buckets, d.treeHeight, Flip(i))
  {
    var h, n := d.treeHeight, LeafCount(d);
    SiblingPathOfLeaf(h, i);
    assert WitnessIndex(h, i, 0) == LeafIndexToNodeIndex(h, Flip(i));
    forall k | 1 <= k <= h ensures CalculateBucket(WitnessIndex(h, i, k)) in d.buckets {
      if k < h { WitnessInside(h, i, k); }
      NodeHasDocument(d.buckets, h, n, WitnessIndex(h, i, k));
    }
  }

  lemma WitnessInside(h: nat, i: nat, k: nat)
    requires i < Pow2(h) && 1 <= k < h
    ensures Flip(Shift(i, k)) < Pow2(h - k) && WitnessIndex(h, i, k) < Pow2(h) - 1
  {
    ShiftBound(i, h, k);
    SiblingOfIndex(h, k, Shift(i, k));
    InnerBound(h, k, Flip(Shift(i, k)));
  }

  lemma RootRead(c: Config, d: Doc)
    requires UpToDate(c, d)
    ensures Some(StoredHash(c, d.buckets, 0)) == ReportedRoot(d) <==> RootKept(c, d)
  {
    hide UpToDate, ReportedRoot, Config.Truncate, NodeValue, LeavesStored, Provisioned, Shift, Width;
    UpToDateParts(c, d);
    var h, all := d.treeHeight, Values(d);
    OccupiedRoot(|all|, h);
    assert Index(h, h, 0) == 0;
    assert NodeMatches(c, d.buckets, h, all, h, 0);
    NodeValueSized(c, all, h, 0);
    c.TruncateWord(NodeValue(c, all, h, 0));
  }

  /** What is read at a node above the leaves of an up-to-date tree. */
  lemma InnerRead(c: Config, d: Doc, l: nat, p: nat)
    requires UpToDate(c, d) && 1 <= l <= d.treeHeight && p < Pow2(d.treeHeight - l)
    ensures StoredHash(c, d.buckets, Index(d.treeHeight, l, p))
         == if p < Width(LeafCount(d), l) then StoredValue(c, Values(d), d.treeHeight, l, p) else c.Zero()
  {
    hide UpToDate, ReportedRoot, StoredValue, LeavesStored, Provisioned, Shift, Width, AllWords, Config.Valid, Config.Zero, Pow2;
    UpToDateParts(c, d);
    assert NodeMatches(c, d.buckets, d.treeHeight, Values(d), l, p);
  }

  /** Above the leaves every sibling read agrees with the tree. */
  lemma SiblingRead(c: Config, d: Doc, i: nat, k: nat)
    requires UpToDate(c, d) && i < LeafCount(d) && 1 <= k < d.treeHeight
    ensures SameBytes(c, StoredHash(c, d.buckets, WitnessIndex(d.treeHeight, i, k)), NodeValue(c, Values(d), k, Flip(Shift(i, k))))
  {
    hide UpToDate, StoredHash, Config.Truncate, Config.Bytes, Config.Sized, Config.Valid, LeavesStored, Provisioned,
      NodesMatch, Shift, Width, AllWords, Values;
    UpToDateParts(c, d);
    var q := Flip(Shift(i, k));
    WitnessInside(d.treeHeight, i, k);
    InnerRead(c, d, k, q);
    NodeValueSized(c, Values(d), k, q);
    c.TailOfTruncate(NodeValue(c, Values(d), k, q));
  }

  /** The nodes that getPathByLeafIndex returns for an up-to-date tree: reference values, ZERO
      above leaves that are not there yet. */
  lemma PathRead(c: Config, d: Doc, i: nat, l: nat)
    requires UpToDate(c, d) && i < Pow2(d.treeHeight) && 1 <= l <= d.treeHeight
    ensures StoredHash(c, d.buckets, Index(d.treeHeight, l, Shift(i, l)))
         == if Shift(i, l) < Width(LeafCount(d), l) then StoredValue(c, Values(d), d.treeHeight, l, Shift(i, l)) else c.Zero()
  {
    hide UpToDate, StoredHash, StoredValue, Width, Config.Zero;
    ShiftBound(i, d.treeHeight, l);
    InnerRead(c, d, l, Shift(i, l));
  }

  lemma LeafSiblingRead(c: Config, d: Doc, i: nat)
    requires UpToDate(c, d) && i < LeafCount(d)
    ensures SameBytes(c, StoredHash(c, d.buckets, WitnessIndex(d.treeHeight, i, 0)), NodeValue(c, Values(d), 0, Flip(i)))
        <==> SiblingReadable(c, d, i)
  {
    hide UpToDate, ReportedRoot, Config.Bytes, LeavesStored, Provisioned, AllWords, NodesMatch;
    UpToDateParts(c, d);
    LeafReadByPosition(d.buckets, d.treeHeight, StoredLeaves(d), Flip(i));
    assert WitnessIndex(d.treeHeight, i, 0) == LeafIndexToNodeIndex(d.treeHeight, Flip(i));
  }

  // ----- Sides ------------------------------------------------------------------------------

  /** nodeIndex parities along a path of n steps are those of position i. */
  predicate SidesOf(path: seq<PathNode>, i: nat, n: nat) {
    |path| == n + 1 &&
    forall k :: 0 <= k < n ==> (path[k].nodeIndex % 2 == 0 <==> Shift(i, k) % 2 == 0)
  }

  lemma SidesLength(path: seq<PathNode>, i: nat, n: nat)
    requires SidesOf(path, i, n)
    ensures |path| == n + 1
  {
  }

  /** The position that the sides of the steps of a path spell out, lowest bit first. */
  function Position(steps: seq<PathNode>): nat {
    if |steps| == 0 then 0 else steps[0].nodeIndex % 2 + 2 * Position(steps[1..])
  }

  lemma {:induction false} PositionBits(steps: seq<PathNode>)
    ensures Position(steps) < Pow2(|steps|)
    ensures forall k :: 0 <= k < |steps| ==> Shift(Position(steps), k) % 2 == steps[k].nodeIndex % 2
  {
    if |steps| > 0 {
      PositionBits(steps[1..]);
      forall k | 0 <= k < |steps| ensures Shift(Position(steps), k) % 2 == steps[k].nodeIndex % 2 {
        if k > 0 {
          ShiftFromFront(Position(steps), k);
          assert steps[k] == steps[1..][k - 1];
        }
      }
    }
  }

  lemma WitnessSides(c: Config, d: Doc, i: nat)
    requires i < Pow2(d.treeHeight)
    ensures SidesOf(WitnessPath(c, d, i), i, d.treeHeight)
  {
    hide StoredHash, WitnessPath, SiblingIndices, LeafIndexToNodeIndex, Pow2;
    var h, path := d.treeHeight, WitnessPath(c, d, i);
    WitnessNodes(c, d, i);
    forall k | 0 <= k < h ensures path[k].nodeIndex % 2 == 0 <==> Shift(i, k) % 2 == 0 {
      ParentOfIndex(h, k, Flip(Shift(i, k)));
    }
  }

  /** A node from the point of view of one of its children. */
  lemma NodeFromChild(c: Config, all: seq<string>, base: nat, i: nat, k: nat)
    requires k > 0 && Shift(i, k) < Width(|all|, base + k)
    ensures var q := Shift(i, k - 1);
            var child, other := NodeValue(c, all, base + k - 1, q), NodeValue(c, all, base + k - 1, Flip(q));
            NodeValue(c, all, base + k, Shift(i, k)) == if q % 2 == 0 then c.HashPair(child, other) else c.HashPair(other, child)
  {
    hide Config.HashPair;
    var q := Shift(i, k - 1);
    assert q == 2 * (q / 2) + q % 2;
  }

  lemma LeafOfTree(c: Config, all: seq<string>, i: nat)
    ensures Shift(i, 0) == i && NodeValue(c, all, 0, i) == if i < |all| then all[i] else c.Zero()
  {
  }

  lemma HashOfSame(c: Config, a: string, b: string, b': string)
    requires SameBytes(c, b, b')
    ensures c.HashPair(a, b) == c.HashPair(a, b') && c.HashPair(b, a) == c.HashPair(b', a)
  {
  }

  /** Siblings that agree with the tree fold the leaf to its ancestors. */
  lemma {:induction false} FoldsToAncestor(c: Config, all: seq<string>, i: nat, h: nat, path: seq<PathNode>, k: nat)
    requires i < |all| && k <= h && SidesOf(path, i, h)
    requires PathAgrees(c, all, 0, i, path, k)
    ensures Fold(c, all[i], path, k) == NodeValue(c, all, k, Shift(i, k))
    decreases k
  {
    hide SameBytes, Config.HashPair, NodeValue, Shift, Width;
    SidesLength(path, i, h);
    if k > 0 {
      FoldsToAncestor(c, all, i, h, path, k - 1);
      WidthOfLast(|all|, k);
      ShiftMonotone(i, |all| - 1, k);
      NodeFromChild(c, all, 0, i, k);
      assert SiblingAgrees(c, all, 0, i, path, k - 1);
      HashOfSame(c, NodeValue(c, all, k - 1, Shift(i, k - 1)), path[k - 1].hash, NodeValue(c, all, k - 1, Flip(Shift(i, k - 1))));
    } else {
      LeafOfTree(c, all, i);
    }
  }

  // ----- What an accepted path proves ------------------------------------------------------

  /** Evidence that the hash function itself failed, in the bytes that it works on: two inputs
      with the same truncated hash, or an input whose hash truncates to ZERO. */
  datatype Breach =
    | NoBreach
    | Collision(first: seq<nat>, second: seq<nat>)
    | ZeroPreimage(input: seq<nat>)

  predicate IsBreach(c: Config, b: Breach) {
    match b
    case NoBreach => false
    case Collision(x, y) => x != y && SameBytes(c, c.digest(x), c.digest(y))
    case ZeroPreimage(x) => SameBytes(c, c.digest(x), c.Zero())
  }

  /** The bytes hashed in step k of the fold, and in the tree k levels above `base`. */
  function FoldInput(c: Config, value: string, path: seq<PathNode>, k: nat): seq<nat>
    requires 0 < k <= |path|
  {
    var current, sibling := c.Bytes(Fold(c, value, path, k - 1)), c.Bytes(path[k - 1].hash);
    if path[k - 1].nodeIndex % 2 == 0 then current + sibling else sibling + current
  }

  function TreeInput(c: Config, all: seq<string>, base: nat, i: nat, k: nat): seq<nat>
    requires k > 0
  {
    var q := Shift(i, k - 1);
    var child, other := c.Bytes(NodeValue(c, all, base + k - 1, q)), c.Bytes(NodeValue(c, all, base + k - 1, Flip(q)));
    if q % 2 == 0 then child + other else other + child
  }

  /** Walks an accepted path down from step k and reports where it leaves the tree. */
  function FindBreach(c: Config, all: seq<string>, base: nat, i: nat, value: string, path: seq<PathNode>, k: nat): Breach
    requires k <= |path|
    decreases k
  {
    if k == 0 then NoBreach
    else
      var mine, theirs := FoldInput(c, value, path, k), TreeInput(c, all, base, i, k);
      if Shift(i, k) >= Width(|all|, base + k) then ZeroPreimage(mine)
      else if mine != theirs then Collision(mine, theirs)
      else FindBreach(c, all, base, i, value, path, k - 1)
  }

  /** A path that agrees with the tree at step k agrees with it below, or a breach is found. */
  lemma {:induction false} Descend(c: Config, all: seq<string>, base: nat, i: nat, n: nat, value: string, path: seq<PathNode>, k: nat)
    requires c.Valid() && AllWords(all)
    requires SidesOf(path, i, n) && k <= n
    requires SameBytes(c, Fold(c, value, path, k), NodeValue(c, all, base + k, Shift(i, k)))
    ensures var b := FindBreach(c, all, base, i, value, path, k); !b.NoBreach? ==> IsBreach(c, b)
    ensures FindBreach(c, all, base, i, value, path, k).NoBreach? ==>
              SameBytes(c, value, NodeValue(c, all, base, i)) && PathAgrees(c, all, base, i, path, k)
    decreases k
  {
    hide SameBytes, NodeValue, Shift, Fold, PathAgrees, SiblingAgrees, SidesOf, FindBreach, IsBreach, AllWords, Config.Valid;
    SidesLength(path, i, n);
    if k > 0 {
      var down := DescendStep(c, all, base, i, n, value, path, k);
      if down {
        Descend(c, all, base, i, n, value, path, k - 1);
        PathAgreesUp(c, all, base, i, path, k);
      }
    } else {
      PathStart(c, all, base, value, path, i);
      assert base + k == base;
    }
  }

  lemma PathAgreesUp(c: Config, all: seq<string>, base: nat, i: nat, path: seq<PathNode>, k: nat)
    requires 0 < k <= |path|
    ensures PathAgrees(c, all, base, i, path, k - 1) && SiblingAgrees(c, all, base, i, path, k - 1) ==>
              PathAgrees(c, all, base, i, path, k)
  {
    hide SiblingAgrees;
  }

  /** At one step: a breach, or agreement of the sibling and of the hash one step below. */
  lemma DescendStep(c: Config, all: seq<string>, base: nat, i: nat, n: nat, value: string, path: seq<PathNode>, k: nat)
    returns (down: bool)
    requires c.Valid() && AllWords(all)
    requires SidesOf(path, i, n) && 0 < k <= n
    requires SameBytes(c, Fold(c, value, path, k), NodeValue(c, all, base + k, Shift(i, k)))
    ensures var b := FindBreach(c, all, base, i, value, path, k);
            if down then
              && b == FindBreach(c, all, base, i, value, path, k - 1)
              && SameBytes(c, Fold(c, value, path, k - 1), NodeValue(c, all, base + (k - 1), Shift(i, k - 1)))
              && SiblingAgrees(c, all, base, i, path, k - 1)
            else !b.NoBreach? && IsBreach(c, b)
  {
    hide Config.Bytes, Config.Zero, Config.Valid, Width, NodeValue, Shift, Fold, FoldInput, TreeInput,
      SiblingAgrees, SidesOf, FindBreach, AllWords;
    SidesLength(path, i, n);
    StepInputs(c, all, base, i, n, value, path, k);
    BreachStep(c, all, base, i, value, path, k);
    down := Shift(i, k) < Width(|all|, base + k) && FoldInput(c, value, path, k) == TreeInput(c, all, base, i, k);
    if down { EqualInputs(c, all, base, i, n, value, path, k); }
  }

  lemma BreachStep(c: Config, all: seq<string>, base: nat, i: nat, value: string, path: seq<PathNode>, k: nat)
    requires 0 < k <= |path|
    ensures var mine, theirs := FoldInput(c, value, path, k), TreeInput(c, all, base, i, k);
            FindBreach(c, all, base, i, value, path, k)
              == if Shift(i, k) >= Width(|all|, base + k) then ZeroPreimage(mine)
                 else if mine != theirs then Collision(mine, theirs)
                 else FindBreach(c, all, base, i, value, path, k - 1)
  {
    hide Config.Bytes, Width, Shift, FoldInput, TreeInput;
  }

  lemma PathStart(c: Config, all: seq<string>, base: nat, value: string, path: seq<PathNode>, i: nat)
    ensures Fold(c, value, path, 0) == value && Shift(i, 0) == i
    ensures FindBreach(c, all, base, i, value, path, 0).NoBreach? && PathAgrees(c, all, base, i, path, 0)
  {
  }

  lemma StepInputs(c: Config, all: seq<string>, base: nat, i: nat, n: nat, value: string, path: seq<PathNode>, k: nat)
    requires SidesOf(path, i, n) && 0 < k <= n
    ensures Fold(c, value, path, k) == c.digest(FoldInput(c, value, path, k))
    ensures NodeValue(c, all, base + k, Shift(i, k))
         == if Shift(i, k) < Width(|all|, base + k) then c.digest(TreeInput(c, all, base, i, k)) else c.Zero()
  {
    hide Config.Bytes, Width, Shift;
    if Shift(i, k) < Width(|all|, base + k) { NodeFromChild(c, all, base, i, k); }
  }

  /** Equal inputs have equal halves, because the halves of a tree input have full length. */
  lemma EqualInputs(c: Config, all: seq<string>, base: nat, i: nat, n: nat, value: string, path: seq<PathNode>, k: nat)
    requires c.Valid() && AllWords(all)
    requires SidesOf(path, i, n) && 0 < k <= n
    requires FoldInput(c, value, path, k) == TreeInput(c, all, base, i, k)
    ensures SameBytes(c, Fold(c, value, path, k - 1), NodeValue(c, all, base + (k - 1), Shift(i, k - 1)))
    ensures SiblingAgrees(c, all, base, i, path, k - 1)
  {
    hide Config.Bytes, Config.Sized, Config.Tail, Width, Shift, NodeValue, Fold, AllWords;
    var q, l := Shift(i, k - 1), base + (k - 1);
    assert l == base + k - 1;
    NodeValueSized(c, all, l, q);
    NodeValueSized(c, all, l, Flip(q));
    c.BytesLength(NodeValue(c, all, l, q));
    c.BytesLength(NodeValue(c, all, l, Flip(q)));
    c.BytesLength(Fold(c, value, path, k - 1));
    c.BytesLength(path[k - 1].hash);
    var current, sibling := c.Bytes(Fold(c, value, path, k - 1)), c.Bytes(path[k - 1].hash);
    var child, other := c.Bytes(NodeValue(c, all, l, q)), c.Bytes(NodeValue(c, all, l, Flip(q)));
    assert path[k - 1].nodeIndex % 2 == 0 <==> q % 2 == 0;
    if q % 2 == 0 {
      EqualHalves(current, sibling, child, other, c.hashLength);
    } else {
      EqualHalves(sibling, current, other, child, c.hashLength);
    }
  }

  lemma EqualHalves(a: seq<nat>, b: seq<nat>, a': seq<nat>, b': seq<nat>, n: nat)
    requires |a| <= n && |b| <= n && |a'| == n && |b'| == n && a + b == a' + b'
    ensures a == a' && b == b'
  {
    assert |a + b| == |a' + b'|;
    assert a == (a + b)[..n] && a' == (a' + b')[..n];
    assert b == (a + b)[n..] && b' == (a' + b')[n..];
  }

  /** Binding at any level: a value accepted with n = h - base steps on the sides of position i
      is node i of level `base` (ZERO where no leaf lies beneath), and every sibling is the
      tree's, for all bytes that enter a hash; otherwise FindBreach exhibits a collision or a
      preimage of ZERO. */
  lemma AcceptedValueIsNode(c: Config, d: Doc, base: nat, i: nat, value: string, path: seq<PathNode>)
    requires UpToDate(c, d) && base <= d.treeHeight && i < Pow2(d.treeHeight - base)
    requires SidesOf(path, i, d.treeHeight - base)
    requires Accepts(c, ReportedRoot(d), value, path)
    ensures var b := FindBreach(c, Values(d), base, i, value, path, d.treeHeight - base);
            !b.NoBreach? ==> IsBreach(c, b)
    ensures FindBreach(c, Values(d), base, i, value, path, d.treeHeight - base).NoBreach? ==>
              && SameBytes(c, value, NodeValue(c, Values(d), base, i))
              && PathAgrees(c, Values(d), base, i, path, d.treeHeight - base)
  {
    hide UpToDate, ReportedRoot, Config.Bytes, Config.Valid, NodeValue, FindBreach, IsBreach, PathAgrees, SidesOf, Shift,
      Fold, AllWords, Provisioned, LeavesStored, NodesMatch, Values;
    UpToDateParts(c, d);
    SidesLength(path, i, d.treeHeight - base);
    var n := d.treeHeight - base;
    ShiftBound(i, n, n);
    assert Pow2(0) == 1;
    Descend(c, Values(d), base, i, n, value, path, n);
  }

  /** The case of a leaf: an accepted value with h steps on the sides of leaf i is that leaf. */
  lemma AcceptedValueIsLeaf(c: Config, d: Doc, i: nat, value: string, path: seq<PathNode>)
    requires UpToDate(c, d) && i < Pow2(d.treeHeight)
    requires SidesOf(path, i, d.treeHeight)
    requires Accepts(c, ReportedRoot(d), value, path)
    ensures var b := FindBreach(c, Values(d), 0, i, value, path, d.treeHeight);
            !b.NoBreach? ==> IsBreach(c, b)
    ensures FindBreach(c, Values(d), 0, i, value, path, d.treeHeight).NoBreach? ==>
              && SameBytes(c, value, if i < LeafCount(d) then Values(d)[i] else c.Zero())
              && PathAgrees(c, Values(d), 0, i, path, d.treeHeight)
  {
    hide UpToDate, ReportedRoot, Config.Bytes, FindBreach, IsBreach, PathAgrees, Shift, Fold, SidesOf;
    AcceptedValueIsNode(c, d, 0, i, value, path);
    LeafOfTree(c, Values(d), i);
    assert |Values(d)| == LeafCount(d);
  }

  lemma {:induction false} FoldFrom(c: Config, value: string, path: seq<PathNode>, s: nat, t: nat)
    requires s + t <= |path|
    ensures Fold(c, Fold(c, value, path, s), path[s..], t) == Fold(c, value, path, s + t)
    decreases t
  {
    hide Config.HashPair;
    if t > 0 {
      FoldFrom(c, value, path, s, t - 1);
      assert path[s..][t - 1] == path[s + t - 1];
    }
  }

  /** Number of steps of a path before it reaches the leaves of a tree of height h. */
  function StepsBelow(path: seq<PathNode>, h: nat): nat
    requires |path| > 0
  {
    if |path| - 1 > h then |path| - 1 - h else 0
  }

  /** Level at which what is left of the path starts. */
  function BaseLevel(path: seq<PathNode>, h: nat): nat
    requires |path| > 0
  {
    if |path| - 1 < h then h - (|path| - 1) else 0
  }

  /** Binding for every accepted path of any length and sides, since baseline_verify checks
      neither: the fold of the steps below the leaves, if there are any, is the node of the tree
      that the remaining sides lead to. */
  lemma AcceptedPathBinds(c: Config, d: Doc, value: string, path: seq<PathNode>)
    requires UpToDate(c, d) && |path| > 0
    requires Accepts(c, ReportedRoot(d), value, path)
    ensures var s, base := StepsBelow(path, d.treeHeight), BaseLevel(path, d.treeHeight);
            var i := Position(path[s..|path| - 1]);
            var start := Fold(c, value, path, s);
            var b := FindBreach(c, Values(d), base, i, start, path[s..], d.treeHeight - base);
            && i < Pow2(d.treeHeight - base)
            && (!b.NoBreach? ==> IsBreach(c, b))
            && (b.NoBreach? ==>
                  && SameBytes(c, start, NodeValue(c, Values(d), base, i))
                  && PathAgrees(c, Values(d), base, i, path[s..], d.treeHeight - base))
  {
    hide UpToDate, ReportedRoot, Config.Bytes, NodeValue, FindBreach, IsBreach, PathAgrees, Shift, Fold, Values, Position, Pow2;
    var h := d.treeHeight;
    var s, base := StepsBelow(path, h), BaseLevel(path, h);
    var steps := path[s..|path| - 1];
    PositionBits(steps);
    forall k | 0 <= k < |steps|
      ensures path[s..][k].nodeIndex % 2 == 0 <==> Shift(Position(steps), k) % 2 == 0
    {
      assert steps[k] == path[s..][k];
    }
    FoldFrom(c, value, path, s, h - base);
    AcceptedValueIsNode(c, d, base, Position(steps), Fold(c, value, path, s), path[s..]);
  }

  /** Proof completeness, with its exact condition: the tree's own path for a stored leaf is
      accepted when the sibling leaf is readable and the stored root is whole, and, unless the
      hash function is broken, only then. */
  lemma OwnPathAccepted(c: Config, d: Doc, i: nat)
    requires UpToDate(c, d) && i < LeafCount(d)
    ensures var path := WitnessPath(c, d, i);
            && |path| == d.treeHeight + 1 && path[d.treeHeight].nodeIndex == 0
            && (SiblingReadable(c, d, i) && RootKept(c, d) ==> Accepts(c, ReportedRoot(d), Values(d)[i], path))
            && (Accepts(c, ReportedRoot(d), Values(d)[i], path) ==>
                  && RootKept(c, d)
                  && (SiblingReadable(c, d, i)
                      || IsBreach(c, FindBreach(c, Values(d), 0, i, Values(d)[i], path, d.treeHeight))))
  {
    hide UpToDate, ReportedRoot, Values, Config.Valid, Config.HashPair, Config.Bytes, Provisioned, LeavesStored, NodesMatch, AllWords,
      SidesOf, StoredHash, SiblingReadable, SameBytes, RootKept, FindBreach, IsBreach, NodeValue, Shift, WitnessPath;
    var path, h := WitnessPath(c, d, i), d.treeHeight;
    UpToDateParts(c, d);
    WitnessNodes(c, d, i);
    WitnessSides(c, d, i);
    RootRead(c, d);
    LeafSiblingRead(c, d, i);
    LeafOfTree(c, Values(d), i);
    assert path[h] == PathNode(0, StoredHash(c, d.buckets, 0));
    if SiblingReadable(c, d, i) {
      forall j | 0 <= j < h ensures SiblingAgrees(c, Values(d), 0, i, path, j) {
        if j > 0 { SiblingRead(c, d, i, j); }
      }
      FoldsToAncestor(c, Values(d), i, h, path, h);
      ShiftBound(i, h, h);
    } else if Accepts(c, ReportedRoot(d), Values(d)[i], path) {
      AcceptedValueIsLeaf(c, d, i, Values(d)[i], path);
      assert SiblingAgrees(c, Values(d), 0, i, path, 0) ==> SiblingReadable(c, d, i);
    }
  }
}
