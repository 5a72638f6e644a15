/** Digit arrays, least significant digit first, and the schoolbook operations on them. */
module Digits {
  import opened Arithmetic
  import opened Sparse

  function Value(x: seq<nat>, base: nat): nat {
    if |x| == 0 then 0 else x[0] + base * Value(x[1..], base)
  }

  predicate Valid(x: seq<nat>, base: nat) {
    forall i :: 0 <= i < |x| ==> x[i] < base
  }

  /** No leading zero; zero itself is the empty array. */
  predicate Canonical(x: seq<nat>) {
    |x| > 0 ==> x[|x| - 1] != 0
  }

  /** The canonical digits of a number. */
  function Numeral(base: nat, n: nat): seq<nat>
    requires base >= 2
  {
    if n == 0 then [] else
      QuotientSmaller(n, base);
      [n % base] + Numeral(base, n / base)
  }

  lemma QuotientSmaller(n: nat, base: nat)
    requires base >= 2 && n > 0
    ensures 0 <= n / base < n
  {
    var q, r := n / base, n % base;
    assert n == base * q + r;
    if q >= n {
      MulMonotone(base, n, q);
      MulMonotone(n, 2, base);
    }
  }

  /** Valid canonical digit arrays are determined by their value. */
  lemma {:induction false} NumeralUnique(x: seq<nat>, base: nat)
    requires base >= 2 && Valid(x, base) && Canonical(x)
    ensures Numeral(base, Value(x, base)) == x
  {
    if |x| > 0 {
      var rest := x[1..];
      var v := Value(rest, base);
      assert Valid(rest, base) && Canonical(rest);
      NumeralUnique(rest, base);
      NonZero(x, base);
      SplitDigit(x[0], v, base);
      hide Valid, Canonical;
      assert x == [x[0]] + rest;
    }
  }

  lemma SplitDigit(d: nat, v: nat, base: nat)
    requires d < base
    ensures (d + base * v) % base == d && (d + base * v) / base == v
  {
    var n := d + base * v;
    var q, r := n / base, n % base;
    assert n == base * q + r;
    assert base * (q - v) == d - r by { assert base * (q - v) == base * q - base * v; }
    if q > v { MulMonotone(base, 1, q - v); }
    if q < v { MulMonotone(base, q - v, -1); }
  }

  lemma {:induction false} NonZero(x: seq<nat>, base: nat)
    requires base >= 2 && Canonical(x) && |x| > 0
    ensures Value(x, base) > 0
  {
    var rest := x[1..];
    if |x| > 1 {
      NonZero(rest, base);
      MulMonotone(base, 1, Value(rest, base));
    }
  }

  lemma {:induction false} NumeralProperties(base: nat, n: nat)
    requires base >= 2
    ensures Valid(Numeral(base, n), base) && Canonical(Numeral(base, n)) && Value(Numeral(base, n), base) == n
    decreases n
  {
    if n > 0 {
      DivMod(n, base);
      var q, r := n / base, n % base;
      NumeralProperties(base, q);
      hide Value;
      NumeralStep(Numeral(base, q), r, base, q);
    }
  }

  lemma NumeralStep(rest: seq<nat>, r: nat, base: nat, q: nat)
    requires Valid(rest, base) && Canonical(rest) && Value(rest, base) == q && r < base
    requires |rest| == 0 ==> r > 0
    ensures Valid([r] + rest, base) && Canonical([r] + rest) && Value([r] + rest, base) == base * q + r
  {
    assert ([r] + rest)[1..] == rest;
  }

  /** One more digit on the most significant side. */
  lemma {:induction false} ValueSnoc(x: seq<nat>, d: nat, base: nat)
    ensures Value(x + [d], base) == Value(x, base) + d * Pow(base, |x|)
  {
    if |x| == 0 {
      assert x + [d] == [d] && [d][1..] == [];
    } else {
      assert (x + [d])[1..] == x[1..] + [d];
      ValueSnoc(x[1..], d, base);
      Distribute(base, Value(x[1..], base), d, Pow(base, |x| - 1));
    }
  }

  lemma Distribute(b: nat, v: nat, d: nat, p: nat)
    ensures b * (v + d * p) == b * v + d * (b * p)
  {
    assert b * (d * p) == d * (b * p);
  }

  // ----- add --------------------------------------------------------------------------------

  function DigitAt(x: seq<nat>, i: nat): nat {
    if i < |x| then x[i] else 0
  }

  /** What is left of x above position i. */
  function Rest(x: seq<nat>, i: nat): seq<nat> {
    if i < |x| then x[i..] else []
  }

  lemma RestStep(x: seq<nat>, i: nat, base: nat)
    ensures Value(Rest(x, i), base) == DigitAt(x, i) + base * Value(Rest(x, i + 1), base)
  {
    if i < |x| { assert x[i..][1..] == Rest(x, i + 1); }
  }

  /** The sum that is represented while adding: digits produced, carry, and what is left. */
  function Pending(z: seq<nat>, carry: nat, restX: nat, restY: nat, base: nat): nat {
    Value(z, base) + Pow(base, |z|) * (carry + restX + restY)
  }

  lemma AddStep(z: seq<nat>, zi: nat, q: nat, r: nat, base: nat, restX: nat, restY: nat)
    requires zi == base * q + r
    ensures Pending(z + [r], q, restX, restY, base) == Value(z, base) + Pow(base, |z|) * (zi + base * restX + base * restY)
  {
    ValueSnoc(z, r, base);
    AddAlgebra(Pow(base, |z|), base, q, r, restX, restY);
  }

  /** One round of the loop keeps the pending sum. */
  lemma AddRound(x: seq<nat>, y: seq<nat>, z: seq<nat>, carry: nat, base: nat)
    requires base >= 2
    ensures var i, zi := |z|, carry + DigitAt(x, |z|) + DigitAt(y, |z|);
            && zi % base < base && zi / base >= 0
            && (zi > 0 ==> zi / base < zi)
            && Pending(z + [zi % base], zi / base, Value(Rest(x, i + 1), base), Value(Rest(y, i + 1), base), base)
                 == Pending(z, carry, Value(Rest(x, i), base), Value(Rest(y, i), base), base)
  {
    var i, zi := |z|, carry + DigitAt(x, |z|) + DigitAt(y, |z|);
    var rx, ry := Value(Rest(x, i + 1), base), Value(Rest(y, i + 1), base);
    RestStep(x, i, base);
    RestStep(y, i, base);
    DivMod(zi, base);
    hide Value, Pow, Rest, DigitAt;
    AddStep(z, zi, zi / base, zi % base, base, rx, ry);
  }

  lemma DivMod(n: nat, base: nat)
    requires base >= 2
    ensures 0 <= n % base < base && n / base >= 0 && n == base * (n / base) + n % base
    ensures n > 0 ==> n / base < n
  {
    if n > 0 { QuotientSmaller(n, base); }
  }

  lemma AddAlgebra(p: nat, b: nat, q: nat, r: nat, x: nat, y: nat)
    ensures r * p + (b * p) * (q + x + y) == p * (b * q + r + b * x + b * y)
  {
    assert (b * p) * (q + x + y) == p * (b * (q + x + y));
    assert b * (q + x + y) == b * q + b * x + b * y;
  }

  /** add: exact for any digits; the result has digits below the base, and no leading zero
      unless an operand has one. */
  method Add(x: seq<nat>, y: seq<nat>, base: nat) returns (z: seq<nat>)
    requires base >= 2
    ensures Value(z, base) == Value(x, base) + Value(y, base)
    ensures Valid(z, base)
    ensures Canonical(x) && Canonical(y) ==> Canonical(z)
  {
    hide Value, Pow, Rest, Pending, DigitAt;
    z := [];
    var n := if |x| > |y| then |x| else |y|;
    var carry: nat := 0;
    var i := 0;
    AddStart(x, y, base);
    while i < n || carry != 0
      invariant |z| == i && Valid(z, base)
      invariant Pending(z, carry, Value(Rest(x, i), base), Value(Rest(y, i), base), base) == Value(x, base) + Value(y, base)
      invariant Canonical(x) && Canonical(y) && i >= n && carry == 0 ==> Canonical(z)
      decreases if i < n then n - i else 0, carry
    {
      AddRound(x, y, z, carry, base);
      TopDigit(x, y, i, carry, base);
      DigitIs(x, i);
      DigitIs(y, i);
      var xi := if i < |x| then x[i] else 0;
      var yi := if i < |y| then y[i] else 0;
      var zi := carry + xi + yi;
      z := z + [zi % base];
      carry := zi / base;
      i := i + 1;
    }
    AddEnd(x, y, z, base);
  }

  lemma DigitIs(x: seq<nat>, i: nat)
    ensures DigitAt(x, i) == if i < |x| then x[i] else 0
  {
  }

  lemma AddStart(x: seq<nat>, y: seq<nat>, base: nat)
    ensures Pending([], 0, Value(Rest(x, 0), base), Value(Rest(y, 0), base), base) == Value(x, base) + Value(y, base)
  {
    assert Rest(x, 0) == x && Rest(y, 0) == y;
    PendingStart(Value(x, base), Value(y, base), base);
    hide Value, Pending, Rest;
  }

  lemma PendingStart(a: nat, b: nat, base: nat)
    ensures Pending([], 0, a, b, base) == a + b
  {
  }

  lemma AddEnd(x: seq<nat>, y: seq<nat>, z: seq<nat>, base: nat)
    requires |z| >= |x| && |z| >= |y|
    ensures Pending(z, 0, Value(Rest(x, |z|), base), Value(Rest(y, |z|), base), base) == Value(z, base)
  {
  }

  lemma TopDigit(x: seq<nat>, y: seq<nat>, i: nat, carry: nat, base: nat)
    requires base >= 2 && (i < |x| || i < |y| || carry != 0)
    ensures var zi := carry + DigitAt(x, i) + DigitAt(y, i);
            Canonical(x) && Canonical(y) && i + 1 >= |x| && i + 1 >= |y| && zi / base == 0 ==> zi % base != 0
  {
    DivMod(carry + DigitAt(x, i) + DigitAt(y, i), base);
  }

  // ----- multiplyByNumber -------------------------------------------------------------------

  lemma HalfProduct(num: nat, p: nat)
    ensures p * num == (if num % 2 == 1 then p else 0) + (p + p) * (num / 2)
  {
    var q, r := num / 2, num % 2;
    assert num == 2 * q + r;
    assert p * (2 * q + r) == (p + p) * q + p * r;
    assert r == 0 || r == 1;
  }

  /** Below 2^31 the bit operators see the number itself; in general they see its signed 32-bit
      integer, whose low bit is that of the number. */
  lemma ThirtyTwoBits(num: int)
    ensures 0 <= num < 0x8000_0000 ==> ToInt32(num) == num
    ensures LowBit(num) == ToInt32(num) % 2
    ensures ShiftRight(num) == ToInt32(num) / 2 == ToInt32(ShiftRight(num))
  {
  }

  /** What is left of the factor after k rounds of the loop. */
  function FactorAfter(num: int, k: nat): int {
    if k == 0 then num else ShiftRight(FactorAfter(num, k - 1))
  }

  /** The loop of multiplyByNumber stops exactly if the factor, read as a signed 32-bit integer,
      is not negative: a negative one stays negative under the shift that keeps the sign. */
  lemma MultiplicationStops(num: int)
    ensures (exists k :: k > 0 && FactorAfter(num, k) == 0) <==> ToInt32(num) >= 0
  {
    if ToInt32(num) >= 0 {
      var k := RoundsToZero(num);
    } else {
      forall k: nat | k > 0 ensures FactorAfter(num, k) != 0 { StaysNegative(num, k); }
    }
  }

  lemma {:induction false} StaysNegative(num: int, k: nat)
    requires ToInt32(num) < 0
    ensures ToInt32(FactorAfter(num, k)) < 0
  {
    hide ToInt32, ShiftRight;
    if k > 0 {
      StaysNegative(num, k - 1);
      ThirtyTwoBits(FactorAfter(num, k - 1));
    }
  }

  lemma {:induction false} RoundsToZero(num: int) returns (k: nat)
    requires ToInt32(num) >= 0
    ensures k > 0 && FactorAfter(num, k) == 0
    decreases ToInt32(num)
  {
    ThirtyTwoBits(num);
    if ToInt32(num) < 2 {
      k := 1;
      assert FactorAfter(num, 1) == ShiftRight(FactorAfter(num, 0));
    } else {
      var rest := RoundsToZero(ShiftRight(num));
      FactorFromFront(num, rest);
      k := rest + 1;
    }
  }

  lemma {:induction false} FactorFromFront(num: int, k: nat)
    ensures FactorAfter(num, k + 1) == FactorAfter(ShiftRight(num), k)
  {
    if k > 0 { FactorFromFront(num, k - 1); }
  }

  /** multiplyByNumber: doubling and adding. The loop works on the signed 32-bit integer of the
      factor, so that is what the product is taken with; for factors below 2^31 it is the factor. */
  method MultiplyByNumber(num: int, x: seq<nat>, base: nat) returns (product: Option<seq<nat>>)
    requires base >= 2
    requires num > 0 ==> ToInt32(num) >= 0
    ensures product == None <==> num < 0
    ensures num >= 0 ==> Value(product.value, base) == ToInt32(num) * Value(x, base)
    ensures num >= 0 ==> Valid(product.value, base)
    ensures num >= 0 && Canonical(x) ==> Canonical(product.value)
    ensures 0 <= num < 0x8000_0000 ==> ToInt32(num) == num
  {
    hide Valid, Value, ToInt32, ShiftRight, LowBit;
    ThirtyTwoBits(num);
    NoDigits(base);
    if num < 0 {
      return None;
    }
    if num == 0 {
      return Some([]);
    }
    var factor := num;
    var result: seq<nat> := [];
    var power := x;
    while true
      invariant ToInt32(factor) >= 0
      invariant Value(result, base) + Value(power, base) * ToInt32(factor) == ToInt32(num) * Value(x, base)
      invariant Valid(result, base)
      invariant Canonical(x) ==> Canonical(power) && Canonical(result)
      decreases ToInt32(factor), factor
    {
      ThirtyTwoBits(factor);
      HalfProduct(ToInt32(factor), Value(power, base));
      if LowBit(factor) == 1 {
        result := Add(result, power, base);
      }
      factor := ShiftRight(factor);
      if factor == 0 {
        break;
      }
      power := Add(power, power, base);
    }
    return Some(result);
  }

  lemma NoDigits(base: nat)
    ensures Value([], base) == 0 && Valid([], base) && ToInt32(0) == 0
  {
  }
}
