/** The exact number of hash calls needed to add a batch of consecutive leaves. */
module HashCount {
  import opened Arithmetic
  import opened Binary
  import opened NodeIndex

  /** Hash calls made while the leaves lo..hi-1 are each hashed up to their slot. */
  function SlotSum(lo: nat, hi: nat): nat
    decreases hi - lo
  {
    if lo >= hi then 0 else SlotSum(lo, hi - 1) + Slot(hi - 1)
  }

  /** Hash calls of a batch lo..hi: each leaf to its slot, then the last one to the root. */
  function HashCalls(lo: nat, hi: nat, h: nat): int {
    SlotSum(lo, hi + 1) + h - Slot(hi)
  }

  /** Sum over the first `levels` levels above the leaves of the distance of the two paths. */
  function Spread(hi: nat, lo: nat, from: nat, levels: nat): int {
    if levels == 0 then 0
    else Spread(hi, lo, from, levels - 1) + Shift(hi, from + levels - 1) - Shift(lo, from + levels - 1)
  }

  /** Length of JavaScript's n.toString(2). */
  function BitLength(n: nat): nat {
    if n < 2 then 1 else 1 + BitLength(n / 2)
  }

  lemma {:induction false} BitLengthBounds(n: nat)
    ensures n < Pow2(BitLength(n))
  {
    if n >= 2 { BitLengthBounds(n / 2); }
  }

  method GetNumberOfHashes(maxLeafIndex: nat, minLeafIndex: nat, height: nat) returns (count: int)
    requires minLeafIndex <= maxLeafIndex
    ensures count == HashCalls(minLeafIndex, maxLeafIndex, height)
  {
    hide RightShift, Pow2, Spread, HashCalls;
    var hashCount: int := 0;
    SpreadStart(maxLeafIndex, minLeafIndex);
    var hi, lo := maxLeafIndex, minLeafIndex;
    var batchSize := hi - lo + 1;
    var bitLength := BitLength(hi);
    for level := 0 to bitLength
      invariant hi >= lo && hi == Shift(maxLeafIndex, level) && lo == Shift(minLeafIndex, level)
      invariant hashCount == Spread(maxLeafIndex, minLeafIndex, 0, level)
    {
      ShiftByOne(hi);
      ShiftByOne(lo);
      SpreadNext(maxLeafIndex, minLeafIndex, level);
      var increment: int := hi - lo;
      hashCount := hashCount + increment;
      hi := RightShift(hi, 1);
      lo := RightShift(lo, 1);
    }
    BitLengthBounds(maxLeafIndex);
    SpreadIsSlotSum(maxLeafIndex, minLeafIndex, bitLength);
    SpreadFromLevelOne(maxLeafIndex, minLeafIndex, bitLength);
    CallsOfBatch(minLeafIndex, maxLeafIndex, height);
    return hashCount + height - (batchSize - 1);
  }

  lemma SpreadStart(hi: nat, lo: nat)
    ensures Spread(hi, lo, 0, 0) == 0 && Shift(hi, 0) == hi && Shift(lo, 0) == lo
  {
  }

  lemma SpreadNext(hi: nat, lo: nat, level: nat)
    ensures Spread(hi, lo, 0, level + 1) == Spread(hi, lo, 0, level) + Shift(hi, level) - Shift(lo, level)
  {
  }

  lemma CallsOfBatch(lo: nat, hi: nat, h: nat)
    ensures HashCalls(lo, hi, h) == SlotSum(lo, hi + 1) + h - Slot(hi)
  {
  }

  lemma {:induction false} SpreadFromLevelOne(hi: nat, lo: nat, n: nat)
    requires n > 0
    ensures Spread(hi, lo, 0, n) == hi - lo + Spread(hi, lo, 1, n - 1)
  {
    if n > 1 { SpreadFromLevelOne(hi, lo, n - 1); }
  }

  /** Moving the upper end by one leaf adds the slot of the leaf passed: the 2-adic valuation
      of hi!/lo! counted by levels and counted by factors. */
  lemma {:induction false} SpreadStep(i: nat, lo: nat, n: nat)
    requires i + 1 < Pow2(n + 1)
    ensures Spread(i + 1, lo, 1, n) == Spread(i, lo, 1, n) + Slot(i)
  {
    SlotInTree(i, n + 1);
    SpreadStepUpTo(i, lo, n);
  }

  lemma {:induction false} SpreadStepUpTo(i: nat, lo: nat, n: nat)
    ensures Spread(i + 1, lo, 1, n) == Spread(i, lo, 1, n) + if Slot(i) <= n then Slot(i) else n
  {
    if n > 0 {
      SpreadStepUpTo(i, lo, n - 1);
      ShiftSucc(i, n);
    }
  }

  lemma {:induction false} SpreadOfNothing(i: nat, n: nat)
    ensures Spread(i, i, 1, n) == 0
  {
    if n > 0 { SpreadOfNothing(i, n - 1); }
  }

  /** Legendre's argument: the levels above the leaves count exactly the slots passed. */
  lemma {:induction false} SpreadIsSlotSum(hi: nat, lo: nat, bits: nat)
    requires lo <= hi < Pow2(bits) && bits > 0
    ensures Spread(hi, lo, 1, bits - 1) == SlotSum(lo, hi)
    decreases hi - lo
  {
    if hi == lo {
      SpreadOfNothing(lo, bits - 1);
    } else {
      SpreadIsSlotSum(hi - 1, lo, bits);
      SpreadStep(hi - 1, lo, bits - 1);
    }
  }

  // ----- The same number as a count of distinct ancestors ----------------------------------

  /** Positions of the ancestors of leaves lo..hi in level l. */
  ghost function AncestorRow(lo: nat, hi: nat, l: nat): set<nat> {
    set i | lo <= i <= hi :: Shift(i, l)
  }

  lemma {:induction false} ShiftOfShifted(p: nat, l: nat)
    ensures Shift(p * Pow2(l), l) == p
    decreases l
  {
    if l > 0 {
      var q := p * Pow2(l - 1);
      assert p * Pow2(l) == 2 * q by {
        assert p * (2 * Pow2(l - 1)) == 2 * (p * Pow2(l - 1));
      }
      ShiftFromFront(p * Pow2(l), l);
      ShiftOfShifted(p, l - 1);
    }
  }

  /** Level l of the batch's ancestors is an interval without holes. */
  lemma AncestorRowIsRange(lo: nat, hi: nat, l: nat)
    requires lo <= hi
    ensures AncestorRow(lo, hi, l) == Range(Shift(lo, l), Shift(hi, l))
  {
    forall i | lo <= i <= hi ensures Shift(lo, l) <= Shift(i, l) <= Shift(hi, l) {
      ShiftMonotone(lo, i, l);
      ShiftMonotone(i, hi, l);
    }
    forall p | Shift(lo, l) <= p <= Shift(hi, l) ensures p in AncestorRow(lo, hi, l) {
      if p == Shift(lo, l) {
      } else {
        var i := p * Pow2(l);
        ShiftOfShifted(p, l);
        if i < lo { ShiftMonotone(i, lo, l); }
        if i > hi {
          ShiftMonotone(hi, i, l);
          assert p == Shift(hi, l);
        }
      }
    }
  }

  /** Node indices of the ancestors of leaves lo..hi in levels 1 to `top`. */
  ghost function AncestorNodes(lo: nat, hi: nat, h: nat, top: nat): set<nat>
    requires top <= h
  {
    set l: nat, i: nat | 1 <= l <= top && lo <= i <= hi :: Index(h, l, Shift(i, l))
  }

  ghost function RowNodes(lo: nat, hi: nat, h: nat, l: nat): set<nat>
    requires l <= h
  {
    set p | p in AncestorRow(lo, hi, l) :: Index(h, l, p)
  }

  lemma RowNodesAreRange(lo: nat, hi: nat, h: nat, l: nat)
    requires lo <= hi && l <= h
    ensures RowNodes(lo, hi, h, l) == Range(Index(h, l, Shift(lo, l)), Index(h, l, Shift(hi, l)))
  {
    AncestorRowIsRange(lo, hi, l);
    var first := Index(h, l, 0);
    forall x | Index(h, l, Shift(lo, l)) <= x <= Index(h, l, Shift(hi, l)) ensures x in RowNodes(lo, hi, h, l) {
      assert x - first in AncestorRow(lo, hi, l) && x == Index(h, l, x - first);
    }
  }

  lemma {:induction false} AncestorNodesSize(lo: nat, hi: nat, h: nat, top: nat)
    requires lo <= hi < Pow2(h) && top <= h
    ensures |AncestorNodes(lo, hi, h, top)| == Spread(hi, lo, 1, top) + top
  {
    if top == 0 {
      assert AncestorNodes(lo, hi, h, 0) == {};
    } else {
      hide AncestorNodes, RowNodes, Range, Shift, Index;
      AncestorNodesSize(lo, hi, h, top - 1);
      RowSize(lo, hi, h, top);
      RowsDisjoint(lo, hi, h, top);
      RowAdded(lo, hi, h, top);
    }
  }

  lemma RowSize(lo: nat, hi: nat, h: nat, l: nat)
    requires lo <= hi && l <= h
    ensures |RowNodes(lo, hi, h, l)| == Shift(hi, l) - Shift(lo, l) + 1
  {
    RowNodesAreRange(lo, hi, h, l);
    ShiftMonotone(lo, hi, l);
  }

  lemma RowAdded(lo: nat, hi: nat, h: nat, top: nat)
    requires lo <= hi && 1 <= top <= h
    ensures AncestorNodes(lo, hi, h, top) == AncestorNodes(lo, hi, h, top - 1) + RowNodes(lo, hi, h, top)
  {
    forall x | x in AncestorNodes(lo, hi, h, top)
      ensures x in AncestorNodes(lo, hi, h, top - 1) + RowNodes(lo, hi, h, top)
    {
      var l: nat, i: nat :| 1 <= l <= top && lo <= i <= hi && x == Index(h, l, Shift(i, l));
      if l == top { assert Shift(i, l) in AncestorRow(lo, hi, top); }
    }
    forall x | x in RowNodes(lo, hi, h, top) ensures x in AncestorNodes(lo, hi, h, top) {
      var p :| p in AncestorRow(lo, hi, top) && x == Index(h, top, p);
      var i :| lo <= i <= hi && p == Shift(i, top);
    }
  }

  lemma RowsDisjoint(lo: nat, hi: nat, h: nat, top: nat)
    requires lo <= hi < Pow2(h) && 1 <= top <= h
    ensures AncestorNodes(lo, hi, h, top - 1) !! RowNodes(lo, hi, h, top)
  {
    forall x | x in AncestorNodes(lo, hi, h, top - 1) && x in RowNodes(lo, hi, h, top) ensures false {
      var l: nat, i: nat :| 1 <= l <= top - 1 && lo <= i <= hi && x == Index(h, l, Shift(i, l));
      var p :| p in AncestorRow(lo, hi, top) && x == Index(h, top, p);
      var j :| lo <= j <= hi && p == Shift(j, top);
      ShiftBound(i, h, l);
      ShiftBound(j, h, top);
      IndexInjective(h, l, Shift(i, l), top, p);
    }
  }

  /** The hash calls of a batch are one per distinct ancestor of its leaves. */
  lemma HashCallsCountAncestors(lo: nat, hi: nat, h: nat)
    requires lo <= hi < Pow2(h)
    ensures HashCalls(lo, hi, h) == |AncestorNodes(lo, hi, h, h)|
  {
    AncestorNodesSize(lo, hi, h, h);
    if h == 0 {
      assert lo == hi == 0;
      assert SlotSum(0, 1) == 0;
    } else {
      SpreadIsSlotSum(hi, lo, h);
      ShiftBound(hi, h, h);
      ShiftBound(lo, h, h);
    }
  }
}
