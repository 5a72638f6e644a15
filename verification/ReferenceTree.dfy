/** The plain Merkle tree that the frontier algorithm has to agree with. */
module ReferenceTree {
  import opened Binary
  import opened Hashing

  /** The root by plain recursion on the leaves: an empty subtree is ZERO at every height,
      a node is the hash of its truncated children, and the result is not truncated. */
  function TreeRoot(c: Config, leaves: seq<string>, h: nat): string
    requires |leaves| <= Pow2(h)
    decreases h
  {
    if |leaves| == 0 then c.Zero()
    else if h == 0 then leaves[0]
    else
      var half := Pow2(h - 1);
      if |leaves| <= half then c.HashPair(TreeRoot(c, leaves, h - 1), c.Zero())
      else c.HashPair(TreeRoot(c, leaves[..half], h - 1), TreeRoot(c, leaves[half..], h - 1))
  }

  /** Number of nodes of level `l` that have at least one of the first n leaves beneath. */
  function Width(n: nat, l: nat): nat {
    if l == 0 then n else (Width(n, l - 1) + 1) / 2
  }

  /** Value of the node at position p of level l, addressed from the leaves upwards. */
  function NodeValue(c: Config, leaves: seq<string>, l: nat, p: nat): string
    decreases l
  {
    if p >= Width(|leaves|, l) then c.Zero()
    else if l == 0 then leaves[p]
    else c.HashPair(NodeValue(c, leaves, l - 1, 2 * p), NodeValue(c, leaves, l - 1, 2 * p + 1))
  }

  predicate AllWords(leaves: seq<string>) {
    forall i :: 0 <= i < |leaves| ==> IsWord(leaves[i])
  }

  // ----- Widths --------------------------------------------------------------------------

  lemma {:induction false} WidthOfLast(n: nat, l: nat)
    requires n > 0
    ensures Width(n, l) == Shift(n - 1, l) + 1
  {
    if l > 0 { WidthOfLast(n, l - 1); }
  }

  lemma {:induction false} WidthMonotone(a: nat, b: nat, l: nat)
    requires a <= b
    ensures Width(a, l) <= Width(b, l)
  {
    if l > 0 { WidthMonotone(a, b, l - 1); }
  }

  lemma {:induction false} WidthZero(l: nat)
    ensures Width(0, l) == 0
  {
    if l > 0 { WidthZero(l - 1); }
  }

  lemma {:induction false} CompleteIsOccupied(n: nat, l: nat)
    ensures Shift(n, l) <= Width(n, l) <= Shift(n, l) + 1
  {
    if l > 0 { CompleteIsOccupied(n, l - 1); }
  }

  lemma {:induction false} WidthInTree(n: nat, h: nat, l: nat)
    requires n <= Pow2(h) && l <= h
    ensures Width(n, l) <= Pow2(h - l)
  {
    if l > 0 { WidthInTree(n, h, l - 1); }
  }

  /** Number of leaves under q whole subtrees of height l. */
  function Span(q: nat, l: nat): nat
    decreases l
  {
    if l == 0 then q else Span(2 * q, l - 1)
  }

  lemma SpanOfLeaves(q: nat)
    ensures Span(q, 0) == q
  {
  }

  lemma SpanDown(q: nat, l: nat)
    requires l > 0
    ensures Span(q, l) == Span(2 * q, l - 1)
  {
  }

  lemma {:induction false} SpanDoubles(q: nat, l: nat)
    ensures Span(2 * q, l) == 2 * Span(q, l)
    decreases l
  {
    if l > 0 { SpanDoubles(2 * q, l - 1); }
  }

  lemma {:induction false} SpanOfOne(l: nat)
    ensures Span(1, l) == Pow2(l)
  {
    if l > 0 {
      SpanOfOne(l - 1);
      SpanDoubles(1, l - 1);
    }
  }

  lemma {:induction false} WidthAfterFullNodes(q: nat, m: nat, l: nat)
    ensures Width(Span(q, l) + m, l) == q + Width(m, l)
    decreases l
  {
    if l > 0 { WidthAfterFullNodes(2 * q, m, l - 1); }
  }

  // ----- Values --------------------------------------------------------------------------

  /** Below the root every value keeps its truncation through later hashing. */
  lemma {:induction false} NodeValueSized(c: Config, leaves: seq<string>, l: nat, p: nat)
    requires c.Valid() && AllWords(leaves)
    ensures c.Sized(NodeValue(c, leaves, l, p))
    ensures p < Width(|leaves|, l) ==> IsWord(NodeValue(c, leaves, l, p))
    decreases l
  {
    if p >= Width(|leaves|, l) {
      c.ZeroIsSized();
    } else {
      if l > 0 {
        var a, b := NodeValue(c, leaves, l - 1, 2 * p), NodeValue(c, leaves, l - 1, 2 * p + 1);
        assert c.DigestIsWord(c.Bytes(a) + c.Bytes(b));
      }
      c.WordIsSized(NodeValue(c, leaves, l, p));
    }
  }

  /** A node all of whose leaves are present does not change when leaves are appended. */
  lemma {:induction false} CompleteNodeStable(c: Config, a: seq<string>, b: seq<string>, l: nat, p: nat)
    requires a <= b && p < Shift(|a|, l)
    ensures NodeValue(c, a, l, p) == NodeValue(c, b, l, p)
    decreases l
  {
    hide Config.HashPair, Config.Zero;
    CompleteIsOccupied(|a|, l);
    WidthMonotone(|a|, |b|, l);
    if l > 0 {
      CompleteNodeStable(c, a, b, l - 1, 2 * p);
      CompleteNodeStable(c, a, b, l - 1, 2 * p + 1);
    }
  }

  lemma ShiftedLeaf(c: Config, a: seq<string>, b: seq<string>, r: nat)
    ensures NodeValue(c, a + b, 0, |a| + r) == NodeValue(c, b, 0, r)
  {
  }

  lemma NodeFromChildren(c: Config, leaves: seq<string>, l: nat, p: nat)
    requires l > 0
    ensures NodeValue(c, leaves, l, p)
         == if p >= Width(|leaves|, l) then c.Zero()
            else c.HashPair(NodeValue(c, leaves, l - 1, 2 * p), NodeValue(c, leaves, l - 1, 2 * p + 1))
  {
  }

  /** Dropping q whole subtrees of height l from the left moves positions by q. */
  lemma {:induction false} NodeValueShifted(c: Config, a: seq<string>, b: seq<string>, q: nat, l: nat, r: nat)
    requires |a| == Span(q, l)
    ensures NodeValue(c, a + b, l, q + r) == NodeValue(c, b, l, r)
    decreases l
  {
    hide Config.HashPair, Width, Span, NodeValue;
    WidthAfterFullNodes(q, |b|, l);
    assert |a + b| == |a| + |b|;
    if l == 0 {
      SpanOfLeaves(q);
      ShiftedLeaf(c, a, b, r);
    } else {
      SpanDown(q, l);
      NodeValueShifted(c, a, b, 2 * q, l - 1, 2 * r);
      NodeValueShifted(c, a, b, 2 * q, l - 1, 2 * r + 1);
      SameNode(c, a + b, b, l, q, r);
    }
  }

  lemma SameNode(c: Config, whole: seq<string>, part: seq<string>, l: nat, q: nat, r: nat)
    requires l > 0 && Width(|whole|, l) == q + Width(|part|, l)
    requires NodeValue(c, whole, l - 1, 2 * q + 2 * r) == NodeValue(c, part, l - 1, 2 * r)
    requires NodeValue(c, whole, l - 1, 2 * q + (2 * r + 1)) == NodeValue(c, part, l - 1, 2 * r + 1)
    ensures NodeValue(c, whole, l, q + r) == NodeValue(c, part, l, r)
  {
    hide Config.HashPair, Width, NodeValue;
    NodeFromChildren(c, whole, l, q + r);
    NodeFromChildren(c, part, l, r);
    assert 2 * (q + r) == 2 * q + 2 * r && 2 * (q + r) + 1 == 2 * q + (2 * r + 1);
  }

  lemma {:induction false} ShiftOfFull(l: nat)
    ensures Shift(Pow2(l), l) == 1
  {
    if l > 0 {
      ShiftFromFront(Pow2(l), l);
      assert Pow2(l) / 2 == Pow2(l - 1);
      ShiftOfFull(l - 1);
    }
  }

  /** The two subtrees below the root, when both hold leaves. */
  lemma HalvesOfTree(c: Config, a: seq<string>, b: seq<string>, l: nat)
    requires |a| == Pow2(l)
    ensures NodeValue(c, a + b, l, 0) == NodeValue(c, a, l, 0)
    ensures NodeValue(c, a + b, l, 1) == NodeValue(c, b, l, 0)
  {
    ShiftOfFull(l);
    SpanOfOne(l);
    CompleteNodeStable(c, a, a + b, l, 0);
    NodeValueShifted(c, a, b, 1, l, 0);
  }

  /** The bottom-up node values are those of the plain recursion. */
  lemma {:induction false} RootIsTopNode(c: Config, leaves: seq<string>, h: nat)
    requires |leaves| <= Pow2(h)
    ensures NodeValue(c, leaves, h, 0) == TreeRoot(c, leaves, h)
    decreases h
  {
    hide Config.HashPair, Config.Zero;
    if |leaves| == 0 {
      WidthZero(h);
    } else if h > 0 {
      hide Width;
      OccupiedRoot(|leaves|, h);
      var half := Pow2(h - 1);
      if |leaves| <= half {
        WidthInTree(|leaves|, h - 1, h - 1);
        RootIsTopNode(c, leaves, h - 1);
      } else {
        RootIsTopNode(c, leaves[..half], h - 1);
        RootIsTopNode(c, leaves[half..], h - 1);
        assert leaves == leaves[..half] + leaves[half..];
        HalvesOfTree(c, leaves[..half], leaves[half..], h - 1);
      }
    }
  }

  lemma OccupiedRoot(n: nat, h: nat)
    requires n > 0
    ensures Width(n, h) > 0
  {
    WidthOfLast(n, h);
  }

  /** A left child whose right sibling is empty is hashed with ZERO. */
  lemma NoRightSibling(c: Config, leaves: seq<string>, l: nat)
    requires |leaves| > 0 && Shift(|leaves| - 1, l) % 2 == 0
    ensures NodeValue(c, leaves, l, Shift(|leaves| - 1, l) + 1) == c.Zero()
  {
    WidthOfLast(|leaves|, l);
  }

  // ----- The frontier ---------------------------------------------------------------------

  /** Position of the most recently completed left subtree of level l among the first n leaves. */
  function LatestLeft(n: nat, l: nat): nat
    requires Shift(n, l) >= 1
  {
    2 * ((Shift(n, l) - 1) / 2)
  }

  /** LatestLeft is the last even position whose subtree is complete. */
  lemma LatestLeftIsLast(n: nat, l: nat)
    requires Shift(n, l) >= 1
    ensures LatestLeft(n, l) % 2 == 0 && LatestLeft(n, l) < Shift(n, l) <= LatestLeft(n, l) + 2
  {
  }

  /** Adding leaf n moves the latest completed left subtree at the slot level only. */
  lemma LatestLeftAfterLeaf(n: nat, l: nat)
    requires Shift(n + 1, l) >= 1
    ensures l == Slot(n) ==> LatestLeft(n + 1, l) == Shift(n, l)
    ensures l != Slot(n) ==> Shift(n, l) >= 1 && LatestLeft(n + 1, l) == LatestLeft(n, l)
  {
    ShiftSucc(n, l);
    if l <= Slot(n) { SlotParity(n, l); }
  }

  // ----- The root in bytes ------------------------------------------------------------------

  /** The last n entries, or all if there are fewer. */
  function LastBytes(s: seq<nat>, n: nat): seq<nat> {
    if |s| <= n then s else s[|s| - n..]
  }

  /** The root over 32-byte leaves, computed on bytes alone: an empty subtree is n zero bytes, and
      a node is the hash of the last n bytes of its left and its right child, one after the other. */
  function ByteRoot(hash: seq<nat> -> seq<nat>, n: nat, leaves: seq<seq<nat>>, h: nat): seq<nat>
    requires |leaves| <= Pow2(h)
    decreases h
  {
    if |leaves| == 0 then seq(n, _ => 0)
    else if h == 0 then leaves[0]
    else
      var half := Pow2(h - 1);
      var left := if |leaves| <= half then leaves else leaves[..half];
      var right := if |leaves| <= half then [] else leaves[half..];
      hash(LastBytes(ByteRoot(hash, n, left, h - 1), n) + LastBytes(ByteRoot(hash, n, right, h - 1), n))
  }

  function Decoded(c: Config, leaves: seq<string>): seq<seq<nat>> {
    seq(|leaves|, i requires 0 <= i < |leaves| => c.WordBytes(leaves[i]))
  }

  lemma {:induction false} RootIsWord(c: Config, leaves: seq<string>, h: nat)
    requires c.Valid() && AllWords(leaves) && |leaves| <= Pow2(h)
    ensures TreeRoot(c, leaves, h) == c.Zero() || IsWord(TreeRoot(c, leaves, h))
  {
    RootIsTopNode(c, leaves, h);
    NodeValueSized(c, leaves, h, 0);
    if |leaves| == 0 { WidthZero(h); } else { OccupiedRoot(|leaves|, h); }
  }

  /** What enters a hash are the last bytes of the value. */
  lemma BytesAreLast(c: Config, v: string)
    requires c.Valid() && (v == c.Zero() || IsWord(v))
    ensures c.Bytes(v) == LastBytes(c.WordBytes(v), c.hashLength)
  {
    if IsWord(v) { c.BytesOfWord(v); } else { c.ZeroMeans(); }
  }

  lemma HashInBytes(c: Config, a: string, b: string)
    requires c.Valid() && (a == c.Zero() || IsWord(a)) && (b == c.Zero() || IsWord(b))
    ensures c.HashPair(a, b) == c.digest(LastBytes(c.WordBytes(a), c.hashLength) + LastBytes(c.WordBytes(b), c.hashLength))
  {
    BytesAreLast(c, a);
    BytesAreLast(c, b);
  }

  /** One step of the recursion; an empty half has the root ZERO. */
  lemma RootStep(c: Config, leaves: seq<string>, h: nat)
    requires |leaves| <= Pow2(h)
    ensures |leaves| == 0 ==> TreeRoot(c, leaves, h) == c.Zero()
    ensures |leaves| > 0 && h == 0 ==> TreeRoot(c, leaves, h) == leaves[0]
    ensures |leaves| > 0 && h > 0 ==>
              var half := Pow2(h - 1);
              var left := if |leaves| <= half then leaves else leaves[..half];
              var right := if |leaves| <= half then [] else leaves[half..];
              && |left| <= half && |right| <= half
              && TreeRoot(c, leaves, h) == c.HashPair(TreeRoot(c, left, h - 1), TreeRoot(c, right, h - 1))
  {
    hide Config.HashPair, Config.Zero;
  }

  lemma ByteStep(hash: seq<nat> -> seq<nat>, n: nat, leaves: seq<seq<nat>>, h: nat)
    requires |leaves| <= Pow2(h)
    ensures |leaves| == 0 ==> ByteRoot(hash, n, leaves, h) == seq(n, _ => 0)
    ensures |leaves| > 0 && h == 0 ==> ByteRoot(hash, n, leaves, h) == leaves[0]
    ensures |leaves| > 0 && h > 0 ==>
              var half := Pow2(h - 1);
              var left := if |leaves| <= half then leaves else leaves[..half];
              var right := if |leaves| <= half then [] else leaves[half..];
              && |left| <= half && |right| <= half
              && ByteRoot(hash, n, leaves, h)
                   == hash(LastBytes(ByteRoot(hash, n, left, h - 1), n) + LastBytes(ByteRoot(hash, n, right, h - 1), n))
  {
    hide LastBytes;
  }

  /** The root of the plain tree, decoded, is the root computed on bytes. */
  lemma {:induction false} RootInBytes(c: Config, hash: seq<nat> -> seq<nat>, leaves: seq<string>, h: nat)
    requires c.Valid() && AllWords(leaves) && |leaves| <= Pow2(h)
    requires forall b :: hash(b) == c.WordBytes(c.digest(b))
    ensures c.WordBytes(TreeRoot(c, leaves, h)) == ByteRoot(hash, c.hashLength, Decoded(c, leaves), h)
    decreases h
  {
    hide Config.Valid, Config.WordBytes, Config.HashPair, Config.Zero, LastBytes, IsWord, Pow2, TreeRoot, ByteRoot;
    RootStep(c, leaves, h);
    ByteStep(hash, c.hashLength, Decoded(c, leaves), h);
    c.ZeroMeans();
    if |leaves| > 0 && h > 0 {
      var half := Pow2(h - 1);
      Pow2Step(h);
      var left := if |leaves| <= half then leaves else leaves[..half];
      var right := if |leaves| <= half then [] else leaves[half..];
      assert AllWords(left) && AllWords(right);
      RootInBytes(c, hash, left, h - 1);
      RootInBytes(c, hash, right, h - 1);
      RootIsWord(c, left, h - 1);
      RootIsWord(c, right, h - 1);
      HashInBytes(c, TreeRoot(c, left, h - 1), TreeRoot(c, right, h - 1));
      assert |leaves| > half ==> Decoded(c, left) == Decoded(c, leaves)[..half] && Decoded(c, right) == Decoded(c, leaves)[half..];
    }
  }

  /** A tree of height 1 with one leaf: its last bytes and zero bytes are hashed. */
  lemma OneLeafRoot(c: Config, leaf: string)
    requires c.Valid() && IsWord(leaf)
    ensures |c.WordBytes(leaf)| == 32 && 0 < c.hashLength <= 32
    ensures TreeRoot(c, [leaf], 1) == c.digest(c.WordBytes(leaf)[32 - c.hashLength..] + seq(c.hashLength, _ => 0))
  {
    c.BytesOfWord(leaf);
    c.ZeroMeans();
    assert Pow2(0) == 1;
  }
}
