/** Numbering of the nodes of a tree of height h: row by row from the root, which is node 0. */
module NodeIndex {
  import opened Arithmetic
  import opened Binary

  function LeafIndexToNodeIndex(treeHeight: nat, leafIndex: nat): nat {
    leafIndex + Pow2(treeHeight) - 1
  }

  function SiblingNodeIndex(nodeIndex: nat): nat {
    var sibling := if nodeIndex % 2 == 1 then nodeIndex + 1 else nodeIndex - 1;
    if sibling < 0 then 0 else sibling
  }

  /** The division floors, so node 0 has the parent -1, as in the source. */
  function ParentNodeIndex(nodeIndex: nat): int {
    if nodeIndex % 2 == 1 then nodeIndex / 2 else (nodeIndex - 1) / 2
  }

  /** Node index of position p in level l, counting levels from the leaves. */
  function Index(h: nat, l: nat, p: nat): nat
    requires l <= h
  {
    Pow2(h - l) - 1 + p
  }

  /** Position of the other child of the same parent. */
  function Flip(p: nat): nat {
    if p % 2 == 0 then p + 1 else p - 1
  }

  lemma ParentOfIndex(h: nat, l: nat, p: nat)
    requires l < h
    ensures ParentNodeIndex(Index(h, l, p)) == Index(h, l + 1, p / 2)
    ensures Index(h, l, p) % 2 == 1 <==> p % 2 == 0
    ensures Index(h, l, p) > 0
  {
    assert Pow2(h - l) == 2 * Pow2(h - l - 1);
  }

  lemma SiblingOfIndex(h: nat, l: nat, p: nat)
    requires l <= h && p < Pow2(h - l)
    ensures l < h ==> Flip(p) < Pow2(h - l) && SiblingNodeIndex(Index(h, l, p)) == Index(h, l, Flip(p))
    ensures l == h ==> SiblingNodeIndex(Index(h, l, p)) == 0
  {
    if l < h {
      ParentOfIndex(h, l, p);
      Pow2Step(h - l);
      hide Pow2;
    }
  }

  lemma LevelsApart(h: nat, l: nat, p: nat, l': nat)
    requires l' < l <= h && p < Pow2(h - l)
    ensures Index(h, l, p) < Index(h, l', 0)
  {
    PowMonotone(h - l + 1, h - l');
    assert Pow2(h - l + 1) == 2 * Pow2(h - l);
  }

  /** Level and position are determined by the node index. */
  lemma IndexInjective(h: nat, l: nat, p: nat, l': nat, p': nat)
    requires l <= h && p < Pow2(h - l) && l' <= h && p' < Pow2(h - l')
    requires Index(h, l, p) == Index(h, l', p')
    ensures l == l' && p == p'
  {
    if l' < l { LevelsApart(h, l, p, l'); }
    if l < l' { LevelsApart(h, l', p', l); }
  }

  /** Every node of the tree has a level and a position. */
  lemma {:induction false} Locate(h: nat, x: nat) returns (l: nat, p: nat)
    requires x < 2 * Pow2(h) - 1
    ensures l <= h && p < Pow2(h - l) && Index(h, l, p) == x
    decreases x
  {
    if x == 0 {
      l, p := h, 0;
    } else {
      var up, q := Locate(h, (x - 1) / 2);
      assert up > 0;
      l, p := up - 1, (x - 1) % 2 + 2 * q;
    }
  }

  // ----- Paths to the root ----------------------------------------------------------------

  function Ancestors(x: nat): seq<nat> {
    if x == 0 then [] else [ParentNodeIndex(x)] + Ancestors(ParentNodeIndex(x))
  }

  method GetPathIndices(start: nat) returns (indices: seq<nat>)
    ensures indices == Ancestors(start)
  {
    var nodeIndex: nat := start;
    indices := [];
    while nodeIndex > 0
      invariant indices + Ancestors(nodeIndex) == Ancestors(start)
    {
      var parentIndex := ParentNodeIndex(nodeIndex);
      indices := indices + [parentIndex];
      nodeIndex := parentIndex;
    }
  }

  /** The sibling of a node, then the sibling of each of its ancestors. */
  function SiblingIndices(x: nat): seq<nat> {
    [SiblingNodeIndex(x)] + seq(|Ancestors(x)|, k requires 0 <= k < |Ancestors(x)| => SiblingNodeIndex(Ancestors(x)[k]))
  }

  method GetSiblingPathIndices(nodeIndex: nat) returns (siblings: seq<nat>)
    ensures siblings == SiblingIndices(nodeIndex)
  {
    var indices := GetPathIndices(nodeIndex);
    siblings := [SiblingNodeIndex(nodeIndex)];
    for index := 0 to |indices|
      invariant |siblings| == index + 1
      invariant siblings[0] == SiblingNodeIndex(nodeIndex)
      invariant forall k :: 0 <= k < index ==> siblings[k + 1] == SiblingNodeIndex(indices[k])
    {
      siblings := siblings + [SiblingNodeIndex(indices[index])];
    }
  }

  /** The path of a node visits its ancestors level by level and ends in node 0. */
  lemma {:induction false} AncestorsOf(h: nat, l: nat, p: nat)
    requires l <= h && p < Pow2(h - l)
    ensures |Ancestors(Index(h, l, p))| == h - l
    ensures forall k :: 0 <= k < h - l ==> Ancestors(Index(h, l, p))[k] == Index(h, l + 1 + k, Shift(p, k + 1))
    decreases h - l
  {
    if l < h {
      ParentOfIndex(h, l, p);
      AncestorsOf(h, l + 1, p / 2);
      var up := Ancestors(Index(h, l + 1, p / 2));
      assert Ancestors(Index(h, l, p)) == [Index(h, l + 1, p / 2)] + up;
      forall k | 0 <= k < h - l
        ensures Ancestors(Index(h, l, p))[k] == Index(h, l + 1 + k, Shift(p, k + 1))
      {
        ShiftFromFront(p, k + 1);
        if k > 0 { assert up[k - 1] == Index(h, l + 1 + k, Shift(p / 2, k)); }
      }
    }
  }

  /** The siblings along the path of leaf i: the other child at each level, then node 0. */
  function WitnessIndex(h: nat, i: nat, k: nat): nat
    requires k <= h
  {
    if k == h then 0 else Index(h, k, Flip(Shift(i, k)))
  }

  lemma SiblingPathOfLeaf(h: nat, i: nat)
    requires i < Pow2(h)
    ensures |SiblingIndices(LeafIndexToNodeIndex(h, i))| == h + 1
    ensures forall k :: 0 <= k <= h ==> SiblingIndices(LeafIndexToNodeIndex(h, i))[k] == WitnessIndex(h, i, k)
  {
    var x := LeafIndexToNodeIndex(h, i);
    var siblings := SiblingIndices(x);
    assert x == Index(h, 0, i);
    AncestorsOf(h, 0, i);
    forall k | 0 <= k <= h ensures siblings[k] == WitnessIndex(h, i, k) {
      ShiftBound(i, h, k);
      SiblingOfIndex(h, k, Shift(i, k));
      if k > 0 { assert Ancestors(x)[k - 1] == Index(h, k, Shift(i, k)); }
    }
  }
}
