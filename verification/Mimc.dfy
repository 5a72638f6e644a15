/** Modular exponentiation, the MiMC cipher and sponge, and the recursive Merkle fold. */
module Mimc {
  import opened Arithmetic

  // ----- Arithmetic modulo m -----------------------------------------------------------------

  /** a and b differ by a multiple of m. */
  ghost predicate Same(a: int, b: int, m: int) {
    exists k: int :: a - b == m * k
  }

  lemma ReducedIsSame(n: int, m: int)
    requires m > 0
    ensures 0 <= n % m < m && Same(n % m, n, m)
  {
    assert n == m * (n / m) + n % m;
    assert n % m - n == m * (-(n / m));
  }

  /** The remainder is the only representative in 0..m-1. */
  lemma SameReduced(a: int, b: int, m: int)
    requires m > 0 && Same(a, b, m) && 0 <= a < m
    ensures a == b % m
  {
    var k :| a - b == m * k;
    assert b == m * (-k) + a;
    DivUnique(b, m, -k, a);
  }

  lemma SameTrans(a: int, b: int, c: int, m: int)
    requires Same(a, b, m) && Same(b, c, m)
    ensures Same(a, c, m)
  {
    var k, l :| a - b == m * k && b - c == m * l;
    assert a - c == m * (k + l);
  }

  lemma SameAdd(a: int, a': int, b: int, b': int, m: int)
    requires Same(a, a', m) && Same(b, b', m)
    ensures Same(a + b, a' + b', m)
  {
    var k, l :| a - a' == m * k && b - b' == m * l;
    assert (a + b) - (a' + b') == m * (k + l);
  }

  lemma SameRefl(a: int, m: int)
    ensures Same(a, a, m)
  {
    assert a - a == m * 0;
  }

  lemma SameMul(a: int, a': int, b: int, b': int, m: int)
    requires Same(a, a', m) && Same(b, b', m)
    ensures Same(a * b, a' * b', m)
  {
    var k, l :| a - a' == m * k && b - b' == m * l;
    Cross(a, a', b, b', k, l, m);
  }

  lemma Cross(a: int, a': int, b: int, b': int, k: int, l: int, m: int)
    requires a - a' == m * k && b - b' == m * l
    ensures Same(a * b, a' * b', m)
  {
    assert a * b - a' * b' == (a - a') * b + a' * (b - b');
    assert (m * k) * b == m * (k * b);
    assert a' * (m * l) == m * (a' * l);
    assert a * b - a' * b' == m * (k * b + a' * l);
  }

  lemma {:induction false} SamePow(a: nat, b: nat, e: nat, m: int)
    requires Same(a, b, m)
    ensures Same(Pow(a, e), Pow(b, e), m)
  {
    if e == 0 {
      SameRefl(1, m);
    } else {
      SamePow(a, b, e - 1, m);
      SameMul(a, b, Pow(a, e - 1), Pow(b, e - 1), m);
    }
  }

  // ----- powerMod and addMod -----------------------------------------------------------------

  lemma {:induction false} PowOfSquare(b: nat, e: nat)
    ensures Pow(b, 2 * e) == Pow(b * b, e)
  {
    if e > 0 {
      PowOfSquare(b, e - 1);
      assert Pow(b, 2 * e) == b * (b * Pow(b, 2 * e - 2));
      Associate(b, b, Pow(b * b, e - 1));
    }
  }

  lemma Associate(a: nat, b: nat, c: nat)
    ensures (a * b) * c == a * (b * c)
  {
  }

  /** One round of square and multiply keeps result * b^e. */
  lemma SquareStep(result: nat, b: nat, e: nat)
    requires e > 0
    ensures result * Pow(b, e) == (if e % 2 == 1 then result * b else result) * Pow(b * b, e / 2)
  {
    PowOfSquare(b, e / 2);
    if e % 2 == 1 { Associate(result, b, Pow(b, e - 1)); }
  }

  lemma PowerRound(result: nat, b: nat, e: nat, result': nat, b': nat, goal: nat, m: nat)
    requires m > 0 && e > 0 && Same(result * Pow(b, e), goal, m)
    requires Same(result', if e % 2 == 1 then result * b else result, m) && Same(b', b * b, m)
    ensures Same(result' * Pow(b', e / 2), goal, m)
  {
    var r := if e % 2 == 1 then result * b else result;
    SquareStep(result, b, e);
    SamePow(b', b * b, e / 2, m);
    SameMul(result', r, Pow(b', e / 2), Pow(b * b, e / 2), m);
    SameTrans(result' * Pow(b', e / 2), r * Pow(b * b, e / 2), goal, m);
  }

  method PowerMod(base: nat, exponent: nat, m: nat) returns (power: nat)
    requires m >= 1
    ensures power == Pow(base, exponent) % m
  {
    hide Same, Pow;
    ghost var goal := Pow(base, exponent);
    if m == 1 {
      return 0;
    }
    var result: nat := 1;
    ReducedIsSame(base, m);
    var b: nat := base % m;
    var e := exponent;
    PowerStart(base, b, exponent, m);
    while e > 0
      invariant result < m
      invariant Same(result * Pow(b, e), goal, m)
    {
      ReducedIsSame(result * b, m);
      ReducedIsSame(b * b, m);
      SameRefl(result, m);
      ghost var r0, b0 := result, b;
      if e % 2 == 1 {
        result := (result * b) % m;
      }
      b := (b * b) % m;
      PowerRound(r0, b0, e, result, b, goal, m);
      e := e / 2;
    }
    PowerEnd(result, b, goal, m);
    return result;
  }

  lemma PowerStart(base: nat, b: nat, e: nat, m: nat)
    requires Same(b, base, m)
    ensures Same(1 * Pow(b, e), Pow(base, e), m)
  {
    SamePow(b, base, e, m);
  }

  lemma PowerEnd(result: nat, b: nat, goal: nat, m: nat)
    requires m > 0 && result < m && Same(result * Pow(b, 0), goal, m)
    ensures result == goal % m
  {
    SameReduced(result, goal, m);
  }

  function Sum(xs: seq<nat>): nat {
    if |xs| == 0 then 0 else Sum(xs[..|xs| - 1]) + xs[|xs| - 1]
  }

  /** addMod: reducing after every addition gives the remainder of the sum. */
  method AddMod(addMe: seq<nat>, m: nat) returns (e: nat)
    requires m >= 1
    ensures e == Sum(addMe) % m
  {
    hide Same;
    e := 0;
    SameRefl(0, m);
    for i := 0 to |addMe|
      invariant e < m && Same(e, Sum(addMe[..i]), m)
    {
      assert addMe[..i + 1][..i] == addMe[..i];
      ReducedIsSame(e + addMe[i], m);
      SameRefl(addMe[i], m);
      SameAdd(e, Sum(addMe[..i]), addMe[i], addMe[i], m);
      SameTrans((e + addMe[i]) % m, e + addMe[i], Sum(addMe[..i + 1]), m);
      e := (e + addMe[i]) % m;
    }
    assert addMe[..|addMe|] == addMe;
    SameReduced(e, Sum(addMe), m);
  }

  // ----- mimcpe7 and mimcpe7mp ---------------------------------------------------------------

  /** The round constant number i: the seed hashed i times. */
  function RoundConstant(keccak: nat -> nat, seed: nat, i: nat): nat {
    if i == 0 then seed else keccak(RoundConstant(keccak, seed, i - 1))
  }

  /** The cipher over the natural numbers, without any reduction. */
  function PlainRounds(keccak: nat -> nat, x: nat, k: nat, seed: nat, rounds: nat): nat {
    if rounds == 0 then x
    else Pow(PlainRounds(keccak, x, k, seed, rounds - 1) + RoundConstant(keccak, seed, rounds) + k, 7)
  }

  function PlainCipher(keccak: nat -> nat, x: nat, k: nat, seed: nat, rounds: nat): nat {
    PlainRounds(keccak, x, k, seed, rounds) + k
  }

  /** The cipher written from its first round on: the seed is hashed before it is used, the round
      adds it and the key and takes the seventh power, and the rest goes on with the hashed seed.
      After the last round the key is added once more. */
  lemma {:induction false} CipherFromFront(keccak: nat -> nat, x: nat, k: nat, seed: nat, n: nat)
    ensures PlainCipher(keccak, x, k, seed, 0) == x + k
    ensures var t := x + keccak(seed) + k;
            PlainCipher(keccak, x, k, seed, n + 1) == PlainCipher(keccak, t * t * t * t * t * t * t, k, keccak(seed), n)
  {
    var t := x + keccak(seed) + k;
    SeventhPower(t);
    RoundsFromFront(keccak, x, k, seed, n);
  }

  lemma SeventhPower(t: nat)
    ensures Pow(t, 7) == t * t * t * t * t * t * t
  {
    var two, four := t * t, t * t * t * t;
    assert Pow(t, 0) == 1 && Pow(t, 1) == t * Pow(t, 0) == t;
    NextPower(t, 1, t);
    NextPower(t, 2, two);
    NextPower(t, 3, two * t);
    NextPower(t, 4, four);
    NextPower(t, 5, four * t);
    NextPower(t, 6, four * t * t);
  }

  lemma NextPower(t: nat, e: nat, p: nat)
    requires Pow(t, e) == p
    ensures Pow(t, e + 1) == p * t
  {
  }

  lemma {:induction false} RoundsFromFront(keccak: nat -> nat, x: nat, k: nat, seed: nat, n: nat)
    ensures PlainRounds(keccak, x, k, seed, n + 1)
         == PlainRounds(keccak, Pow(x + keccak(seed) + k, 7), k, keccak(seed), n)
  {
    hide Pow;
    ConstantFromFront(keccak, seed, n);
    if n > 0 { RoundsFromFront(keccak, x, k, seed, n - 1); } else { ConstantFromFront(keccak, seed, 0); }
  }

  lemma {:induction false} ConstantFromFront(keccak: nat -> nat, seed: nat, i: nat)
    ensures RoundConstant(keccak, seed, i + 1) == RoundConstant(keccak, keccak(seed), i)
  {
    if i > 0 { ConstantFromFront(keccak, seed, i - 1); }
  }

  lemma Sum2(a: nat, b: nat)
    ensures Sum([a, b]) == a + b
  {
    assert [a][..0] == [] && Sum([a]) == a;
    assert [a, b][..1] == [a];
  }

  lemma Sum3(a: nat, b: nat, c: nat)
    ensures Sum([a, b, c]) == a + b + c
  {
    assert [a, b, c][..2] == [a, b];
    Sum2(a, b);
  }

  /** One reduced round represents one plain round. */
  lemma CipherRound(xx: nat, plain: nat, c: nat, k: nat, t: nat, next: nat, m: nat)
    requires m > 0 && Same(xx, plain, m)
    requires t == (xx + c + k) % m && next == Pow(t, 7) % m
    ensures Same(next, Pow(plain + c + k, 7), m)
  {
    hide Same, Pow;
    ReducedIsSame(xx + c + k, m);
    SameRefl(c + k, m);
    SameAdd(xx, plain, c + k, c + k, m);
    SameTrans(t, xx + c + k, plain + c + k, m);
    SamePow(t, plain + c + k, 7, m);
    ReducedIsSame(Pow(t, 7), m);
    SameTrans(next, Pow(t, 7), Pow(plain + c + k, 7), m);
  }

  /** mimcpe7: reducing in every round gives the remainder of the unreduced cipher. */
  method Mimcpe7(keccak: nat -> nat, x: nat, k: nat, seed: nat, roundCount: nat, m: nat) returns (r: nat)
    requires m >= 1
    ensures r == PlainCipher(keccak, x, k, seed, roundCount) % m
  {
    hide Same, Pow, Sum;
    var xx := x;
    var c := seed;
    SameRefl(x, m);
    for i := 0 to roundCount
      invariant c == RoundConstant(keccak, seed, i)
      invariant Same(xx, PlainRounds(keccak, x, k, seed, i), m)
    {
      c := keccak(c);
      Sum3(xx, c, k);
      var t := AddMod([xx, c, k], m);
      var next := PowerMod(t, 7, m);
      CipherRound(xx, PlainRounds(keccak, x, k, seed, i), c, k, t, next, m);
      xx := next;
    }
    Sum2(xx, k);
    r := AddMod([xx, k], m);
    LastAddition(xx, PlainRounds(keccak, x, k, seed, roundCount), k, m);
  }

  lemma LastAddition(xx: nat, plain: nat, k: nat, m: nat)
    requires m > 0 && Same(xx, plain, m)
    ensures (xx + k) % m == (plain + k) % m
  {
    SameRefl(k, m);
    SameAdd(xx, plain, k, k, m);
    ReducedIsSame(xx + k, m);
    SameTrans((xx + k) % m, xx + k, plain + k, m);
    SameReduced((xx + k) % m, plain + k, m);
  }

  /** The sponge over the natural numbers. */
  function PlainSponge(keccak: nat -> nat, x: seq<nat>, k: nat, seed: nat, rounds: nat): nat {
    if |x| == 0 then k
    else
      var r := PlainSponge(keccak, x[..|x| - 1], k, seed, rounds);
      r + x[|x| - 1] + PlainCipher(keccak, x[|x| - 1], r, seed, rounds)
  }

  /** The sponge written from its first input on: without inputs it is the key, and an input makes
      the key of the rest, the old key plus the input plus its cipher under the old key. */
  lemma {:induction false} SpongeFromFront(keccak: nat -> nat, x: nat, rest: seq<nat>, k: nat, seed: nat, n: nat)
    ensures PlainSponge(keccak, [], k, seed, n) == k
    ensures PlainSponge(keccak, [x] + rest, k, seed, n)
         == PlainSponge(keccak, rest, k + x + PlainCipher(keccak, x, k, seed, n), seed, n)
    decreases |rest|
  {
    hide PlainCipher;
    if |rest| == 0 {
      assert [x] + rest == [x] && [x][..0] == [];
    } else {
      var n' := |rest| - 1;
      assert ([x] + rest)[..|rest|] == [x] + rest[..n'];
      SpongeFromFront(keccak, x, rest[..n'], k, seed, n);
    }
  }

  /** The cipher depends on its key only modulo m. */
  lemma {:induction false} CipherKey(keccak: nat -> nat, x: nat, k: nat, k': nat, seed: nat, rounds: nat, m: int)
    requires Same(k, k', m)
    ensures Same(PlainRounds(keccak, x, k, seed, rounds), PlainRounds(keccak, x, k', seed, rounds), m)
  {
    hide Same, Pow;
    if rounds == 0 {
      SameRefl(x, m);
    } else {
      CipherKey(keccak, x, k, k', seed, rounds - 1, m);
      var a, a' := PlainRounds(keccak, x, k, seed, rounds - 1), PlainRounds(keccak, x, k', seed, rounds - 1);
      var c := RoundConstant(keccak, seed, rounds);
      SameRefl(c, m);
      SameAdd(a, a', c, c, m);
      SameAdd(a + c, a' + c, k, k', m);
      SamePow(a + c + k, a' + c + k', 7, m);
    }
  }

  lemma SpongeStep(keccak: nat -> nat, r: nat, plain: nat, xi: nat, seed: nat, rounds: nat, m: nat)
    requires m > 0 && Same(r, plain, m)
    ensures Same((r + xi % m + PlainCipher(keccak, xi, r, seed, rounds) % m) % m,
                 plain + xi + PlainCipher(keccak, xi, plain, seed, rounds), m)
  {
    hide Same;
    var y, y' := PlainCipher(keccak, xi, r, seed, rounds), PlainCipher(keccak, xi, plain, seed, rounds);
    CipherKey(keccak, xi, r, plain, seed, rounds, m);
    SameAdd(PlainRounds(keccak, xi, r, seed, rounds), PlainRounds(keccak, xi, plain, seed, rounds), r, plain, m);
    hide PlainCipher;
    ReducedIsSame(y, m);
    SameTrans(y % m, y, y', m);
    ReducedIsSame(xi, m);
    SameAdd(r, plain, xi % m, xi, m);
    SameAdd(r + xi % m, plain + xi, y % m, y', m);
    ReducedIsSame(r + xi % m + y % m, m);
    SameTrans((r + xi % m + y % m) % m, r + xi % m + y % m, plain + xi + y', m);
  }

  /** mimcpe7mp: the remainder of the unreduced sponge. */
  method Mimcpe7mp(keccak: nat -> nat, x: seq<nat>, k: nat, seed: nat, roundCount: nat, m: nat) returns (r: nat)
    requires m >= 1
    ensures |x| == 0 ==> r == k
    ensures |x| > 0 ==> r == PlainSponge(keccak, x, k, seed, roundCount) % m
  {
    hide Same, PlainCipher;
    r := k;
    SameRefl(k, m);
    for i := 0 to |x|
      invariant i == 0 ==> r == k
      invariant i > 0 ==> r < m
      invariant Same(r, PlainSponge(keccak, x[..i], k, seed, roundCount), m)
    {
      assert x[..i + 1][..i] == x[..i];
      SpongeStep(keccak, r, PlainSponge(keccak, x[..i], k, seed, roundCount), x[i], seed, roundCount, m);
      var y := Mimcpe7(keccak, x[i], r, seed, roundCount, m);
      ReducedIsSame(x[i], m);
      ReducedIsSame(r + x[i] % m + y, m);
      r := (r + x[i] % m + y) % m;
    }
    assert x[..|x|] == x;
    if |x| > 0 { SameReduced(r, PlainSponge(keccak, x, k, seed, roundCount), m); }
  }

  // ----- merkleHash --------------------------------------------------------------------------

  /** Whether the recursion of merkleHash on n leaves ends within depth d. */
  predicate Ends(n: nat, d: nat) {
    n == 2 || (d > 0 && Ends(n / 2, d - 1) && Ends(n - n / 2, d - 1))
  }

  ghost predicate Halts(n: nat) {
    exists d: nat :: Ends(n, d)
  }

  predicate IsPowerOfTwo(n: nat) {
    n == 1 || (n > 1 && n % 2 == 0 && IsPowerOfTwo(n / 2))
  }

  lemma {:induction false} EndsOnlyOnPowers(n: nat, d: nat)
    requires Ends(n, d)
    ensures n >= 2 && IsPowerOfTwo(n)
  {
    if n != 2 {
      var half, rest := n / 2, n - n / 2;
      EndsOnlyOnPowers(half, d - 1);
      EndsOnlyOnPowers(rest, d - 1);
      assert half % 2 == 0 && rest % 2 == 0;
      assert n == 2 * half;
    }
  }

  lemma {:induction false} PowersEnd(n: nat)
    requires n >= 2 && IsPowerOfTwo(n)
    ensures Ends(n, n)
  {
    if n != 2 {
      PowersEnd(n / 2);
      EndsLater(n / 2, n / 2, n - 1);
    }
  }

  lemma {:induction false} EndsLater(n: nat, d: nat, e: nat)
    requires Ends(n, d) && d <= e
    ensures Ends(n, e)
    decreases d
  {
    if n != 2 {
      EndsLater(n / 2, d - 1, e - 1);
      EndsLater(n - n / 2, d - 1, e - 1);
    }
  }

  /** merkleHash terminates exactly on 2, 4, 8, ... leaves. */
  lemma MerkleHashTerminates(n: nat)
    ensures Halts(n) <==> n >= 2 && IsPowerOfTwo(n)
  {
    if Halts(n) {
      var d: nat :| Ends(n, d);
      EndsOnlyOnPowers(n, d);
    }
    if n >= 2 && IsPowerOfTwo(n) { PowersEnd(n); }
  }

  /** merkleHash, with mimcHash of two values as a parameter. */
  function MerkleHash(mimcHash: (string, string) -> string, leaves: seq<string>): string
    requires |leaves| >= 2 && IsPowerOfTwo(|leaves|)
    decreases |leaves|
  {
    if |leaves| == 2 then mimcHash(leaves[0], leaves[1])
    else
      mimcHash(MerkleHash(mimcHash, leaves[..|leaves| / 2]), MerkleHash(mimcHash, leaves[|leaves| / 2..]))
  }

  /** One level of pairing neighbours. */
  function PairUp(mimcHash: (string, string) -> string, row: seq<string>): seq<string> {
    if |row| < 2 then [] else [mimcHash(row[0], row[1])] + PairUp(mimcHash, row[2..])
  }

  lemma {:induction false} PairUpLength(mimcHash: (string, string) -> string, row: seq<string>)
    ensures |PairUp(mimcHash, row)| == |row| / 2
  {
    if |row| >= 2 { PairUpLength(mimcHash, row[2..]); }
  }

  /** The k-th pair of neighbours becomes the k-th node, the left one hashed first. */
  lemma {:induction false} PairUpAt(mimcHash: (string, string) -> string, row: seq<string>, k: nat)
    requires 2 * k + 1 < |row|
    ensures k < |PairUp(mimcHash, row)| && PairUp(mimcHash, row)[k] == mimcHash(row[2 * k], row[2 * k + 1])
  {
    if k > 0 { PairUpAt(mimcHash, row[2..], k - 1); }
  }

  /** The root of the tree built level by level. */
  function BottomUp(mimcHash: (string, string) -> string, row: seq<string>): string
    requires |row| >= 1 && IsPowerOfTwo(|row|)
    decreases |row|
  {
    if |row| == 1 then row[0] else
      PairUpLength(mimcHash, row);
      BottomUp(mimcHash, PairUp(mimcHash, row))
  }

  lemma {:induction false} PairUpConcat(mimcHash: (string, string) -> string, a: seq<string>, b: seq<string>)
    requires |a| % 2 == 0
    ensures PairUp(mimcHash, a + b) == PairUp(mimcHash, a) + PairUp(mimcHash, b)
  {
    if |a| == 0 {
      assert a + b == b;
    } else {
      assert (a + b)[2..] == a[2..] + b;
      PairUpConcat(mimcHash, a[2..], b);
    }
  }

  /** The root of two equal halves is the hash of their roots. */
  lemma {:induction false} BottomUpHalves(mimcHash: (string, string) -> string, a: seq<string>, b: seq<string>)
    requires |a| == |b| >= 1 && IsPowerOfTwo(|a|)
    ensures IsPowerOfTwo(|a + b|)
    ensures BottomUp(mimcHash, a + b) == mimcHash(BottomUp(mimcHash, a), BottomUp(mimcHash, b))
    decreases |a|
  {
    PairUpLength(mimcHash, a + b);
    if |a| == 1 {
      assert (a + b)[2..] == [];
      assert PairUp(mimcHash, a + b) == [mimcHash(a[0], b[0])];
    } else {
      PairUpConcat(mimcHash, a, b);
      PairUpLength(mimcHash, a);
      PairUpLength(mimcHash, b);
      BottomUpHalves(mimcHash, PairUp(mimcHash, a), PairUp(mimcHash, b));
    }
  }

  /** The top-down recursion computes the level-by-level root. */
  lemma {:induction false} MerkleHashIsBottomUp(mimcHash: (string, string) -> string, leaves: seq<string>)
    requires |leaves| >= 2 && IsPowerOfTwo(|leaves|)
    ensures MerkleHash(mimcHash, leaves) == BottomUp(mimcHash, leaves)
    decreases |leaves|
  {
    var a, b := leaves[..|leaves| / 2], leaves[|leaves| / 2..];
    assert leaves == a + b;
    BottomUpHalves(mimcHash, a, b);
    if |leaves| > 2 {
      MerkleHashIsBottomUp(mimcHash, a);
      MerkleHashIsBottomUp(mimcHash, b);
    }
  }
}
