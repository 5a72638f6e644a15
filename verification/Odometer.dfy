/** Combining lists: an odometer counts through the Cartesian product. */
module Odometer {
  import opened Arithmetic
  import opened Sparse

  function Zeros(n: nat): seq<nat> {
    seq(n, _ => 0)
  }

  function Sizes<T>(lists: seq<seq<T>>): seq<nat> {
    seq(|lists|, i requires 0 <= i < |lists| => |lists[i]|)
  }

  /** Every digit is below the size of its list. */
  predicate Within(o: seq<nat>, sizes: seq<nat>) {
    |o| == |sizes| && forall i :: 0 <= i < |o| ==> o[i] < sizes[i]
  }

  /** The number shown by the odometer, the last digit being the fastest. */
  function Rank(o: seq<nat>, sizes: seq<nat>): nat
    requires |o| == |sizes|
  {
    var n := |o|;
    if n == 0 then 0 else Rank(o[..n - 1], sizes[..n - 1]) * sizes[n - 1] + o[n - 1]
  }

  function Product(sizes: seq<nat>): nat {
    var n := |sizes|;
    if n == 0 then 1 else Product(sizes[..n - 1]) * sizes[n - 1]
  }

  /** The next setting, if the odometer is not at its maximum. */
  function Successor(o: seq<nat>, sizes: seq<nat>): Option<seq<nat>>
    requires |o| == |sizes|
  {
    var n := |o|;
    if n == 0 then None
    else if o[n - 1] + 1 < sizes[n - 1] then Some(o[n - 1 := o[n - 1] + 1])
    else
      var higher := Successor(o[..n - 1], sizes[..n - 1]);
      if higher == None then None else Some(higher.value + [0])
  }

  /** Counting in one radix more. */
  lemma RadixStep(r: nat, p: nat, d: nat, x: nat)
    requires r < p && x < d
    ensures r * d + x < p * d
    ensures r * d + x + 1 < p * d <==> x + 1 < d || r + 1 < p
    ensures x + 1 == d ==> r * d + x + 1 == (r + 1) * d
  {
    assert (r + 1) * d == r * d + d;
    MulMonotone(d, r + 1, p);
    if r + 1 < p {
      assert (r + 2) * d == (r + 1) * d + d;
      MulMonotone(d, r + 2, p);
    }
  }

  lemma RankSplit(higher: seq<nat>, x: nat, sizes: seq<nat>)
    requires |higher| + 1 == |sizes|
    ensures Rank(higher + [x], sizes) == Rank(higher, sizes[..|higher|]) * sizes[|higher|] + x
  {
    assert (higher + [x])[..|higher|] == higher;
  }

  lemma {:induction false} RankBelowProduct(o: seq<nat>, sizes: seq<nat>)
    requires Within(o, sizes)
    ensures Rank(o, sizes) < Product(sizes)
  {
    var n := |o|;
    if n > 0 {
      RankBelowProduct(o[..n - 1], sizes[..n - 1]);
      RadixStep(Rank(o[..n - 1], sizes[..n - 1]), Product(sizes[..n - 1]), sizes[n - 1], o[n - 1]);
    }
  }

  /** The successor raises the rank by exactly one and exists unless the rank is the largest. */
  lemma {:induction false} SuccessorRank(o: seq<nat>, sizes: seq<nat>)
    requires Within(o, sizes)
    ensures Successor(o, sizes).Some? <==> Rank(o, sizes) + 1 < Product(sizes)
    ensures Successor(o, sizes).Some? ==>
              Within(Successor(o, sizes).value, sizes) && Rank(Successor(o, sizes).value, sizes) == Rank(o, sizes) + 1
  {
    var n := |o|;
    if n > 0 {
      var o', s', x := o[..n - 1], sizes[..n - 1], o[n - 1];
      RankBelowProduct(o', s');
      RadixStep(Rank(o', s'), Product(s'), sizes[n - 1], x);
      ProductSplit(sizes);
      assert o == o' + [x];
      RankSplit(o', x, sizes);
      hide Rank, Product;
      if x + 1 < sizes[n - 1] {
        assert o[n - 1 := x + 1] == o' + [x + 1];
        RankSplit(o', x + 1, sizes);
      } else {
        SuccessorRank(o', s');
        if Successor(o', s').Some? { RankSplit(Successor(o', s').value, 0, sizes); }
      }
    }
  }

  lemma ProductSplit(sizes: seq<nat>)
    requires |sizes| > 0
    ensures Product(sizes) == Product(sizes[..|sizes| - 1]) * sizes[|sizes| - 1]
  {
  }

  /** odometer_increment: in place; at the maximum it reports false, having cleared every digit
      but the first. */
  method OdometerIncrement(odometer: array<nat>, sizes: seq<nat>) returns (more: bool)
    requires Within(odometer[..], sizes)
    modifies odometer
    ensures more <==> Successor(old(odometer[..]), sizes).Some?
    ensures more ==> odometer[..] == Successor(old(odometer[..]), sizes).value
    ensures !more && odometer.Length > 0 ==> odometer[..] == [old(odometer[0])] + Zeros(odometer.Length - 1)
  {
    hide Successor, WithZeros;
    ghost var was := odometer[..];
    var n := odometer.Length;
    var i := n - 1;
    Untouched(was, sizes);
    while i >= 0
      invariant -1 <= i < n && (n > 0 ==> i >= 0)
      invariant forall j :: 0 <= j <= i ==> odometer[j] == was[j]
      invariant forall j :: i < j < n ==> odometer[j] == 0
      invariant Successor(was, sizes) == WithZeros(Successor(was[..i + 1], sizes[..i + 1]), n - 1 - i)
    {
      var maxee := sizes[i] - 1;
      LastDigit(was, sizes, i, n - 1 - i);
      if odometer[i] + 1 <= maxee {
        odometer[i] := odometer[i] + 1;
        Setting(odometer[..], was, i, was[i] + 1);
        return true;
      } else if i - 1 < 0 {
        Setting(odometer[..], was, 0, was[0]);
        return false;
      } else {
        odometer[i] := 0;
      }
      i := i - 1;
    }
    return false;
  }

  lemma Setting(s: seq<nat>, was: seq<nat>, i: nat, x: nat)
    requires |s| == |was| && i < |s| && s[i] == x
    requires forall j :: 0 <= j < i ==> s[j] == was[j]
    requires forall j :: i < j < |s| ==> s[j] == 0
    ensures s == was[..i + 1][i := x] + Zeros(|s| - 1 - i)
    ensures i == 0 ==> s == [x] + Zeros(|s| - 1)
  {
  }

  function WithZeros(s: Option<seq<nat>>, k: nat): Option<seq<nat>> {
    if s == None then None else Some(s.value + Zeros(k))
  }

  lemma Untouched(o: seq<nat>, sizes: seq<nat>)
    requires |o| == |sizes|
    ensures o[..|o|] + Zeros(0) == o
    ensures Successor(o, sizes) == WithZeros(Successor(o[..|o|], sizes[..|o|]), 0)
    ensures |o| == 0 ==> Successor(o, sizes) == None
  {
    assert o[..|o|] == o && sizes[..|o|] == sizes;
    var s := Successor(o, sizes);
    if s.Some? { assert s.value + Zeros(0) == s.value; }
  }

  /** What the digit at position i, with k zeros behind it, says about the successor. */
  lemma LastDigit(was: seq<nat>, sizes: seq<nat>, i: nat, k: nat)
    requires |was| == |sizes| && i < |was|
    ensures var s := WithZeros(Successor(was[..i + 1], sizes[..i + 1]), k);
            if was[i] + 1 < sizes[i] then s == Some(was[..i + 1][i := was[i] + 1] + Zeros(k))
            else if i == 0 then s == None
            else s == WithZeros(Successor(was[..i], sizes[..i]), k + 1)
  {
    var o, z := was[..i + 1], sizes[..i + 1];
    assert o[..i] == was[..i] && z[..i] == sizes[..i];
    if was[i] + 1 >= sizes[i] && i > 0 {
      var higher := Successor(was[..i], sizes[..i]);
      if higher.Some? { assert (higher.value + [0]) + Zeros(k) == higher.value + Zeros(k + 1); }
    }
  }

  // ----- The Cartesian product ---------------------------------------------------------------

  /** The combination that an odometer setting selects. */
  function FormCombination<T>(o: seq<nat>, lists: seq<seq<T>>): seq<T>
    requires Within(o, Sizes(lists))
  {
    seq(|o|, i requires 0 <= i < |o| => lists[i][o[i]])
  }

  /** Every combination of `ps` extended by every element of `xs`. */
  function Extend<T>(ps: seq<seq<T>>, xs: seq<T>): seq<seq<T>> {
    if |ps| == 0 then []
    else Extend(ps[..|ps| - 1], xs) + seq(|xs|, j requires 0 <= j < |xs| => ps[|ps| - 1] + [xs[j]])
  }

  /** The Cartesian product in lexicographic order. */
  function Cartesian<T>(lists: seq<seq<T>>): seq<seq<T>> {
    if |lists| == 0 then [[]] else Extend(Cartesian(lists[..|lists| - 1]), lists[|lists| - 1])
  }

  lemma {:induction false} ExtendAt<T>(ps: seq<seq<T>>, xs: seq<T>, a: nat, b: nat)
    requires a < |ps| && b < |xs|
    ensures |Extend(ps, xs)| == |ps| * |xs|
    ensures a * |xs| + b < |ps| * |xs| && Extend(ps, xs)[a * |xs| + b] == ps[a] + [xs[b]]
  {
    ExtendLength(ps, xs);
    var n, d := |ps| - 1, |xs|;
    ExtendLength(ps[..n], xs);
    MulMonotone(d, a + 1, |ps|);
    assert (a + 1) * d == a * d + d;
    if a < n {
      MulMonotone(d, a + 1, n);
      ExtendAt(ps[..n], xs, a, b);
    }
  }

  lemma {:induction false} ExtendLength<T>(ps: seq<seq<T>>, xs: seq<T>)
    ensures |Extend(ps, xs)| == |ps| * |xs|
  {
    if |ps| > 0 {
      ExtendLength(ps[..|ps| - 1], xs);
      assert |ps| * |xs| == (|ps| - 1) * |xs| + |xs|;
    }
  }

  /** The product has one entry per odometer setting: the one at its rank. */
  lemma {:induction false} CartesianAtRank<T>(lists: seq<seq<T>>, o: seq<nat>)
    requires Within(o, Sizes(lists))
    ensures |Cartesian(lists)| == Product(Sizes(lists))
    ensures Rank(o, Sizes(lists)) < |Cartesian(lists)|
    ensures Cartesian(lists)[Rank(o, Sizes(lists))] == FormCombination(o, lists)
    ensures var entry := Cartesian(lists)[Rank(o, Sizes(lists))];
            |entry| == |lists| && forall i :: 0 <= i < |lists| ==> entry[i] == lists[i][o[i]]
  {
    var n := |lists|;
    RankBelowProduct(o, Sizes(lists));
    if n > 0 {
      var l', o' := lists[..n - 1], o[..n - 1];
      assert Sizes(lists)[..n - 1] == Sizes(l');
      CartesianAtRank(l', o');
      ExtendAt(Cartesian(l'), lists[n - 1], Rank(o', Sizes(l')), o[n - 1]);
      assert FormCombination(o, lists) == FormCombination(o', l') + [lists[n - 1][o[n - 1]]];
    }
  }

  lemma {:induction false} CartesianSize<T>(lists: seq<seq<T>>)
    ensures |Cartesian(lists)| == Product(Sizes(lists))
  {
    var n := |lists|;
    if n > 0 {
      CartesianSize(lists[..n - 1]);
      assert Sizes(lists)[..n - 1] == Sizes(lists[..n - 1]);
      ExtendLength(Cartesian(lists[..n - 1]), lists[n - 1]);
    }
  }

  /** Different settings have different ranks, so each setting occurs once; and a setting that is
      smaller at the first difference comes earlier. */
  lemma {:induction false} RankIsLexicographic(o: seq<nat>, q: seq<nat>, sizes: seq<nat>, k: nat)
    requires Within(o, sizes) && Within(q, sizes) && k < |sizes|
    requires o[..k] == q[..k] && o[k] < q[k]
    ensures Rank(o, sizes) < Rank(q, sizes)
  {
    var n := |o|;
    if k < n - 1 {
      var o', q', s' := o[..n - 1], q[..n - 1], sizes[..n - 1];
      assert o'[..k] == o[..k] && q'[..k] == q[..k];
      RankIsLexicographic(o', q', s', k);
      LaterRow(Rank(o', s'), Rank(q', s'), sizes[n - 1], o[n - 1], q[n - 1]);
    }
  }

  lemma LaterRow(r: nat, s: nat, d: nat, x: nat, y: nat)
    requires r < s && x < d
    ensures r * d + x < s * d + y
  {
    MulMonotone(d, r + 1, s);
    assert (r + 1) * d == r * d + d;
  }

  lemma DivideRank(r: nat, p: nat, d: nat)
    requires r < p * d
    ensures d > 0 && 0 <= r / d < p && 0 <= r % d < d && (r / d) * d + r % d == r
  {
    var q := r / d;
    assert r == d * q + r % d;
    if q >= p { MulMonotone(d, p, q); }
  }

  /** Every rank below the product is the rank of a setting. */
  lemma {:induction false} SettingOfRank(r: nat, sizes: seq<nat>) returns (o: seq<nat>)
    requires r < Product(sizes)
    ensures Within(o, sizes) && Rank(o, sizes) == r
    decreases |sizes|
  {
    var n := |sizes|;
    if n == 0 {
      o := [];
    } else {
      DivideRank(r, Product(sizes[..n - 1]), sizes[n - 1]);
      var higher := SettingOfRank(r / sizes[n - 1], sizes[..n - 1]);
      o := higher + [r % sizes[n - 1]];
      RankSplit(higher, r % sizes[n - 1], sizes);
    }
  }

  lemma {:induction false} ZerosRank(sizes: seq<nat>)
    ensures Rank(Zeros(|sizes|), sizes) == 0
  {
    if |sizes| > 0 {
      assert Zeros(|sizes|)[..|sizes| - 1] == Zeros(|sizes| - 1);
      ZerosRank(sizes[..|sizes| - 1]);
    }
  }

  lemma {:induction false} NothingToCombine<T>(lists: seq<seq<T>>, i: nat)
    requires i < |lists| && |lists[i]| == 0
    ensures Cartesian(lists) == []
  {
    var n := |lists|;
    ExtendLength(Cartesian(lists[..n - 1]), lists[n - 1]);
    if i < n - 1 { NothingToCombine(lists[..n - 1], i); }
  }

  /** combineArrays: the Cartesian product, or [] when there is no list at all. */
  method CombineArrays<T>(lists: seq<seq<T>>) returns (output: seq<seq<T>>)
    ensures output == if |lists| == 0 then [] else Cartesian(lists)
  {
    if |lists| == 0 {
      return [];
    }
    for i := 0 to |lists|
      invariant forall k :: 0 <= k < i ==> |lists[k]| > 0
    {
      if |lists[i]| == 0 {
        NothingToCombine(lists, i);
        return [];
      }
    }
    var odometer := new nat[|lists|](_ => 0);
    ghost var sizes := Sizes(lists);
    assert odometer[..] == Zeros(|sizes|);
    ZerosRank(sizes);
    output := [FormCombination(odometer[..], lists)];
    CartesianAtRank(lists, odometer[..]);
    hide Rank, Product, Cartesian, Successor, FormCombination, Sizes, Within;
    var more := true;
    while more
      invariant more ==> Within(odometer[..], sizes) && |output| == Rank(odometer[..], sizes) + 1
      invariant |output| <= |Cartesian(lists)| == Product(sizes)
      invariant output == Cartesian(lists)[..|output|]
      invariant !more ==> |output| == |Cartesian(lists)|
      decreases Product(sizes) - |output|, more
    {
      SuccessorRank(odometer[..], sizes);
      RankBelowProduct(odometer[..], sizes);
      more := OdometerIncrement(odometer, Sizes(lists));
      if more {
        CartesianAtRank(lists, odometer[..]);
        output := output + [FormCombination(odometer[..], lists)];
      }
    }
  }
}
