/** Powers of two, level shifts and the frontier slot of a leaf. */
module Binary {
  import opened Arithmetic

  function Pow2(k: nat): (p: nat)
    ensures p >= 1
  {
    PowPositive(2, k);
    Pow(2, k)
  }

  /** Position, at level `l`, of the ancestor of the node at position `n` of level 0. */
  function Shift(n: nat, l: nat): nat {
    if l == 0 then n else Shift(n, l - 1) / 2
  }

  /** Math.floor(integer / 2 ** shift), as the source writes it. */
  function RightShift(integer: nat, shift: nat): nat {
    DivNonNegative(integer, Pow2(shift));
    integer / Pow2(shift)
  }

  lemma DivNonNegative(n: nat, d: nat)
    requires d > 0
    ensures n / d >= 0
  {
  }

  lemma ShiftByOne(n: nat)
    ensures RightShift(n, 1) == n / 2
  {
  }

  /** The source's division and the repeated halving used in the proofs agree. */
  lemma {:induction false} RightShiftIsShift(n: nat, l: nat)
    ensures RightShift(n, l) == Shift(n, l)
  {
    if l > 0 {
      RightShiftIsShift(n, l - 1);
      DivDiv(n, Pow2(l - 1));
    }
  }

  lemma DivDiv(n: nat, d: nat)
    requires d > 0
    ensures n / (2 * d) == (n / d) / 2
  {
    var q, r := n / d, n % d;
    assert n == d * q + r;
    var k, b := q / 2, q % 2;
    assert n == (2 * d) * k + (d * b + r) by {
      assert q == 2 * k + b;
      assert d * q == d * (2 * k) + d * b;
      assert d * (2 * k) == (2 * d) * k;
    }
    assert 0 <= d * b + r < 2 * d by {
      assert b == 0 || b == 1;
    }
    DivUnique(n, 2 * d, k, d * b + r);
  }

  lemma Pow2Step(k: nat)
    requires k > 0
    ensures Pow2(k) == 2 * Pow2(k - 1)
  {
  }

  lemma {:induction false} ShiftFromFront(n: nat, l: nat)
    requires l > 0
    ensures Shift(n, l) == Shift(n / 2, l - 1)
  {
    if l > 1 { ShiftFromFront(n, l - 1); }
  }

  lemma {:induction false} ShiftMonotone(a: nat, b: nat, l: nat)
    requires a <= b
    ensures Shift(a, l) <= Shift(b, l)
  {
    if l > 0 { ShiftMonotone(a, b, l - 1); }
  }

  lemma {:induction false} ShiftBound(n: nat, h: nat, l: nat)
    requires n < Pow2(h) && l <= h
    ensures Shift(n, l) < Pow2(h - l)
  {
    if l > 0 { ShiftBound(n, h, l - 1); }
  }

  // ----- The frontier slot ---------------------------------------------------------------

  /** The number of trailing one bits of `leafIndex`. */
  function Slot(leafIndex: nat): nat {
    if leafIndex % 2 == 0 then 0 else 1 + Slot(leafIndex / 2)
  }

  /** Below its slot a leaf's path turns left at every step (the node is a right child),
      and at the slot it is a left child. */
  lemma {:induction false} SlotParity(i: nat, l: nat)
    requires l <= Slot(i)
    ensures Shift(i, l) % 2 == if l < Slot(i) then 1 else 0
    decreases l
  {
    if l > 0 {
      SlotParity(i / 2, l - 1);
      ShiftFromFront(i, l);
    }
  }

  /** Adding one leaf completes exactly the ancestors up to the slot. */
  lemma {:induction false} ShiftSucc(i: nat, l: nat)
    ensures Shift(i + 1, l) == if l <= Slot(i) then Shift(i, l) + 1 else Shift(i, l)
  {
    if l > 0 {
      ShiftSucc(i, l - 1);
      if l - 1 <= Slot(i) { SlotParity(i, l - 1); }
    }
  }

  lemma {:induction false} SlotFactor(i: nat, l: nat)
    requires l <= Slot(i)
    ensures i + 1 == Pow2(l) * (Shift(i, l) + 1)
  {
    if l > 0 {
      SlotFactor(i, l - 1);
      SlotParity(i, l - 1);
      assert Shift(i, l - 1) + 1 == 2 * (Shift(i, l) + 1);
    }
  }

  ghost predicate Divides(d: nat, n: nat) {
    exists q: nat :: d * q == n
  }

  /** The slot is the largest k for which 2^k divides leafIndex + 1. */
  lemma {:induction false} SlotIsLargestDivisor(i: nat, k: nat)
    ensures Divides(Pow2(k), i + 1) <==> k <= Slot(i)
  {
    if k == 0 {
      assert Pow2(0) * (i + 1) == i + 1;
    } else {
      if i % 2 == 1 { SlotIsLargestDivisor(i / 2, k - 1); }
      DividesHalf(Pow2(k - 1), i);
    }
  }

  lemma DividesHalf(p: nat, i: nat)
    ensures Divides(2 * p, i + 1) <==> i % 2 == 1 && Divides(p, i / 2 + 1)
  {
    forall q: nat ensures (2 * p) * q == 2 * (p * q) {}
    if Divides(2 * p, i + 1) {
      var q: nat :| (2 * p) * q == i + 1;
      assert p * q == i / 2 + 1;
    }
    if i % 2 == 1 && Divides(p, i / 2 + 1) {
      var q: nat :| p * q == i / 2 + 1;
      assert (2 * p) * q == i + 1;
    }
  }

  lemma LargeSlot(i: nat, k: nat)
    requires k <= Slot(i)
    ensures i + 1 >= Pow2(k)
  {
    SlotFactor(i, k);
    MulMonotone(Pow2(k), 1, Shift(i, k) + 1);
  }

  /** In a tree of height h the slot never exceeds h, and equals h only for the last leaf. */
  lemma {:induction false} SlotInTree(i: nat, h: nat)
    requires i < Pow2(h)
    ensures Slot(i) <= h
    ensures Slot(i) == h <==> i + 1 == Pow2(h)
  {
    if Slot(i) > h { LargeSlot(i, h + 1); }
    if Slot(i) == h {
      SlotFactor(i, h);
      ShiftBound(i, h, h);
      assert Shift(i, h) == 0;
    }
    if i + 1 == Pow2(h) {
      assert Pow2(h) * 1 == i + 1;
      SlotIsLargestDivisor(i, h);
    }
  }

  // ----- getFrontierSlot with its 32-bit shifts -------------------------------------------

  /** JavaScript's `a % b === 0`; the remainder by zero is NaN, which equals nothing. */
  predicate RemainderIsZero(a: int, b: int) {
    b != 0 && a % b == 0
  }

  /** The pair (pow1, pow2) before the test number k of the loop, counting from 0. */
  function LoopPowers(k: nat): (int, int) {
    if k == 0 then (2, ShiftLeft(2)) else
      var (p1, p2) := LoopPowers(k - 1);
      (p2, ShiftLeft(p2))
  }

  predicate LoopTest(leafIndex: nat, k: nat) {
    var (p1, p2) := LoopPowers(k);
    RemainderIsZero(leafIndex + 1 - p1, p2)
  }

  lemma ShiftLeftValues(x: int)
    ensures 0 <= x < 0x4000_0000 ==> ShiftLeft(x) == 2 * x
    ensures x == 0x4000_0000 ==> ShiftLeft(x) == -0x8000_0000
    ensures x == -0x8000_0000 || x == 0 ==> ShiftLeft(x) == 0
  {
  }

  lemma Pow2Below31(k: nat)
    requires k <= 29
    ensures Pow2(k) < 0x4000_0000
  {
    PowMonotone(k, 29);
    Pow2Values();
  }

  /** The powers are exact up to 2^30 ... */
  lemma {:induction false} LoopPowersExact(k: nat)
    requires k <= 28
    ensures LoopPowers(k) == (Pow2(k + 1), Pow2(k + 2))
  {
    if k > 0 {
      LoopPowersExact(k - 1);
      Pow2Below31(k + 1);
      ShiftLeftValues(Pow2(k + 1));
    }
  }

  /** ... then pow2 is negative, and from there on it is zero. */
  lemma {:induction false} LoopPowersOverflow(k: nat)
    requires k >= 29
    ensures k == 29 ==> LoopPowers(k) == (0x4000_0000, -0x8000_0000)
    ensures k > 29 ==> LoopPowers(k).1 == 0
  {
    hide ShiftLeft;
    if k == 29 {
      LoopPowersExact(28);
      Pow2Values();
    } else {
      LoopPowersOverflow(k - 1);
    }
    ShiftLeftValues(LoopPowers(k - 1).1);
  }

  lemma Pow2Values()
    ensures Pow2(29) == 0x2000_0000 && Pow2(30) == 0x4000_0000 && Pow2(31) == 0x8000_0000
  {
    assert Pow2(10) == 1024;
    PowSum(10, 10);
    PowSum(20, 10);
  }

  lemma {:induction false} EvenMultiple(a: int, b: int, p: int, s: int)
    requires p > 0 && a == p * s && (b == 2 * p || b == -2 * p)
    ensures RemainderIsZero(a, b) <==> s % 2 == 0
  {
    var k, r := s / 2, s % 2;
    assert p * (2 * k + r) == (2 * p) * k + p * r;
    assert r == 0 || r == 1;
    if b == 2 * p {
      DivUnique(a, 2 * p, k, p * r);
    } else {
      assert b * (-k) == (2 * p) * k;
      RemainderByNegative(a, b, -k, p * r);
    }
  }

  lemma RemainderByNegative(a: int, b: int, q: int, r: int)
    requires 0 <= r < -b && a == b * q + r
    ensures a % b == r
  {
    var q', r' := a / b, a % b;
    assert a == b * q' + r';
    assert (-b) * (q' - q) == b * q - b * q';
    NoSmallMultiple(-b, q' - q);
  }

  lemma PlusOne(p: int, s: int)
    ensures p * (s + 1) == p * s + p
  {
  }

  lemma SlotTest(i: nat, k: nat, p: nat, b: int)
    requires k <= Slot(i) && p == Pow2(k) && (b == 2 * p || b == -2 * p)
    ensures RemainderIsZero(i + 1 - p, b) <==> k == Slot(i)
  {
    hide RemainderIsZero;
    SlotFactor(i, k);
    SlotParity(i, k);
    PlusOne(p, Shift(i, k));
    EvenMultiple(i + 1 - p, b, p, Shift(i, k));
  }

  /** Test number k succeeds exactly at the slot, and no test after the 30th can succeed. */
  lemma LoopTestMeaning(i: nat, k: nat)
    requires k <= 29 && k + 1 <= Slot(i)
    ensures LoopTest(i, k) <==> k + 1 == Slot(i)
  {
    hide RemainderIsZero, LoopPowers, Slot;
    if k <= 28 {
      LoopPowersExact(k);
      SlotTest(i, k + 1, Pow2(k + 1), Pow2(k + 2));
    } else {
      LoopPowersOverflow(29);
      Pow2Values();
      SlotTest(i, 30, 0x4000_0000, -0x8000_0000);
    }
  }

  /** getFrontierSlot stops exactly on the leaves whose index plus one is not a multiple of
      2^31; on the others every test of its loop fails. */
  lemma SlotLoopStops(i: nat)
    requires i % 2 == 1
    ensures (exists k :: LoopTest(i, k)) <==> !Divides(Pow2(31), i + 1)
  {
    SlotIsLargestDivisor(i, 31);
    if Slot(i) <= 30 {
      LoopTestMeaning(i, Slot(i) - 1);
    } else {
      forall k: nat ensures !LoopTest(i, k) {
        if k <= 29 { LoopTestMeaning(i, k); } else { LoopPowersOverflow(k); }
      }
    }
  }

  /** The JavaScript loop that finds the level at which the next node value is stored. */
  method GetFrontierSlot(leafIndex: nat) returns (slot: nat)
    requires !Divides(Pow2(31), leafIndex + 1)
    ensures slot == Slot(leafIndex)
  {
    hide ShiftLeft, RemainderIsZero;
    SlotIsLargestDivisor(leafIndex, 31);
    ShiftLeftValues(2);
    slot := 0;
    if leafIndex % 2 == 1 {
      var exp1 := 1;
      var pow1 := 2;
      var pow2 := ShiftLeft(pow1);
      while slot == 0
        invariant 1 <= exp1 <= Slot(leafIndex) <= 30
        invariant (pow1, pow2) == LoopPowers(exp1 - 1)
        invariant slot == 0 || slot == Slot(leafIndex)
        decreases Slot(leafIndex) - exp1, if slot == 0 then 1 else 0
      {
        LoopTestMeaning(leafIndex, exp1 - 1);
        if RemainderIsZero(leafIndex + 1 - pow1, pow2) {
          slot := exp1;
        } else {
          pow1 := pow2;
          pow2 := ShiftLeft(pow2);
          exp1 := exp1 + 1;
        }
      }
    }
  }
}
