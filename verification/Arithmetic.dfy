/** Facts about products, powers and set sizes, and JavaScript's 32-bit integers. */
module Arithmetic {

  lemma MulMonotone(d: int, x: int, y: int)
    requires 0 <= d && x <= y
    ensures d * x <= d * y
  {
  }

  lemma NoSmallMultiple(d: int, x: int)
    requires -d < d * x < d
    ensures x == 0
  {
    if x > 0 { MulMonotone(d, 1, x); }
    if x < 0 { MulMonotone(d, x, -1); }
  }

  lemma DivUnique(n: int, d: int, q: int, r: int)
    requires 0 <= r < d && n == d * q + r
    ensures n / d == q && n % d == r
  {
    var q', r' := n / d, n % d;
    assert n == d * q' + r';
    assert d * (q - q') == d * q - d * q';
    NoSmallMultiple(d, q - q');
  }

  lemma SubsetSize<T>(a: set<T>, b: set<T>)
    requires a <= b
    ensures |a| <= |b|
    ensures |a| == |b| ==> a == b
  {
    assert b == a + (b - a);
  }

  /** The numbers from a to b. */
  ghost function Range(a: nat, b: nat): (s: set<nat>)
    ensures forall p :: p in s <==> a <= p <= b
    ensures a <= b ==> |s| == b - a + 1
    decreases b
  {
    if b < a then {} else if a == b then {b} else Range(a, b - 1) + {b}
  }

  // ----- Powers ------------------------------------------------------------------------------

  function Pow(base: nat, e: nat): nat {
    if e == 0 then 1 else base * Pow(base, e - 1)
  }

  lemma {:induction false} PowPositive(base: nat, e: nat)
    requires base > 0
    ensures Pow(base, e) > 0
  {
    if e > 0 { PowPositive(base, e - 1); }
  }

  lemma {:induction false} PowMonotone(a: nat, b: nat)
    requires a <= b
    ensures Pow(2, a) <= Pow(2, b)
    decreases b
  {
    if a < b { PowMonotone(a, b - 1); }
  }

  lemma TwiceProduct(x: nat, p: nat)
    ensures 2 * (x * p) == x * (2 * p)
  {
  }

  lemma {:induction false} PowSum(a: nat, b: nat)
    ensures Pow(2, a + b) == Pow(2, a) * Pow(2, b)
    decreases b
  {
    if b > 0 {
      PowSum(a, b - 1);
      TwiceProduct(Pow(2, a), Pow(2, b - 1));
    }
  }

  // ----- 32-bit integers ---------------------------------------------------------------------

  /** The signed 32-bit integer that the bit operators of JavaScript work on. */
  function ToInt32(x: int): int {
    var w := x % 0x1_0000_0000;
    if w >= 0x8000_0000 then w - 0x1_0000_0000 else w
  }

  /** It is the number in the range of 32 bits that differs from x by a multiple of 2^32. */
  lemma ToInt32Means(x: int, r: int)
    ensures ToInt32(x) == r <==> -0x8000_0000 <= r < 0x8000_0000 && (x - r) % 0x1_0000_0000 == 0
  {
  }

  /** `x << 1` */
  function ShiftLeft(x: int): int {
    ToInt32(2 * x)
  }

  /** `x >> 1` keeps the sign. */
  function ShiftRight(x: int): int {
    ToInt32(x) / 2
  }

  /** `x & 1` */
  function LowBit(x: int): int {
    ToInt32(x) % 2
  }
}
