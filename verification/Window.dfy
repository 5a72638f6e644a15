/** Days on which a supplier can start a task of a given length inside a time window. */
module Window {
  import opened Overlap
  import opened Sparse

  const CALENDAR: nat := 30

  function ZeroDays(): seq<nat> {
    seq(CALENDAR, _ => 0)
  }

  /** `keys[i] += 1`; an entry that is undefined or NaN, here None, never becomes a number. */
  function Bump(keys: Array<nat>, i: nat): Array<nat> {
    match At(keys, i)
    case Some(v) => Put(keys, i, v + 1)
    case None => if i < |keys| then keys else Resize(keys, i + 1)
  }

  lemma AtBump(keys: Array<nat>, i: nat, q: nat)
    ensures At(Bump(keys, i), q) == if q == i && At(keys, i).Some? then Some(At(keys, i).value + 1) else At(keys, q)
  {
    match At(keys, i)
    case Some(v) => AtPut(keys, i, v + 1, q);
    case None => if i >= |keys| { AtResize(keys, i + 1, q); }
  }

  /** The window of the task starting at day index a is inside the calendar and the time window.
      The last day of either is never used. */
  predicate InBounds(info: seq<int>, timeWindow: (int, int), taskLength: nat, a: nat) {
    a >= timeWindow.0 - 1 && a + taskLength < |info| && a + taskLength < timeWindow.1
  }

  /** Day index a is a possible start: every day of the task is available. */
  predicate CanStart(info: seq<int>, timeWindow: (int, int), taskLength: nat, a: nat) {
    InBounds(info, timeWindow, taskLength, a) && forall d :: a <= d < a + taskLength ==> info[d] != 0
  }

  /** Available days in a row from day index a on, at most `limit`. */
  function Streak(info: seq<int>, a: nat, limit: nat): nat
    requires a + limit <= |info|
    decreases limit
  {
    if limit == 0 || info[a] == 0 then 0 else 1 + Streak(info, a + 1, limit - 1)
  }

  lemma {:induction false} FullStreak(info: seq<int>, a: nat, limit: nat)
    requires a + limit <= |info|
    ensures Streak(info, a, limit) <= limit
    ensures Streak(info, a, limit) == limit <==> forall d :: a <= d < a + limit ==> info[d] != 0
    decreases limit
  {
    if limit > 0 && info[a] != 0 { FullStreak(info, a + 1, limit - 1); }
  }

  /** The count that the first loop leaves for day index a. */
  function CountFor(info: seq<int>, timeWindow: (int, int), taskLength: nat, a: nat): nat {
    if InBounds(info, timeWindow, taskLength, a) then Streak(info, a, taskLength) else 0
  }

  /** The count reaches the task length exactly for possible starts, and always for a task of
      length zero. */
  lemma CountMeansStart(info: seq<int>, timeWindow: (int, int), taskLength: nat, a: nat)
    ensures CountFor(info, timeWindow, taskLength, a) == taskLength <==>
              taskLength == 0 || CanStart(info, timeWindow, taskLength, a)
  {
    if InBounds(info, timeWindow, taskLength, a) { FullStreak(info, a, taskLength); }
  }

  /** Entry q after n increments of entry i. */
  function Raised(keys: Array<nat>, i: nat, n: nat, q: nat): Option<nat> {
    if q == i && At(keys, q).Some? then Some(At(keys, q).value + n) else At(keys, q)
  }

  /** Entry q of the counts once the days before `index` are done. */
  function CountedBefore(info: seq<int>, timeWindow: (int, int), taskLength: nat, index: nat, q: nat): Option<nat> {
    if q >= CALENDAR then None else Some(if q < index then CountFor(info, timeWindow, taskLength, q) else 0)
  }

  /** The inner loop: count available days from `index` on. */
  method CountDays(info: seq<int>, timeWindow: (int, int), taskLength: nat, index: nat, keys: Array<nat>)
    returns (counted: Array<nat>)
    requires index < |info| && index >= timeWindow.0 - 1 && info[index] != 0
    ensures forall q: nat :: At(counted, q) == Raised(keys, index, CountFor(info, timeWindow, taskLength, index), q)
  {
    counted := keys;
    ghost var n := 0;
    var ci := index;
    while ci != index + taskLength
      invariant index <= ci <= index + taskLength && n == ci - index
      invariant n > 0 ==> InBounds(info, timeWindow, taskLength, index)
      invariant InBounds(info, timeWindow, taskLength, index) ==>
          Streak(info, index, taskLength) == n + Streak(info, ci, taskLength - n)
      invariant forall q: nat :: At(counted, q) == Raised(keys, index, n, q)
      decreases index + taskLength - ci
    {
      if index + taskLength >= |info| || index + taskLength >= timeWindow.1 {
        break;
      }
      if info[ci] == 0 {
        break;
      }
      ghost var n' := n + 1;
      forall q: nat ensures At(Bump(counted, index), q) == Raised(keys, index, n', q) {
        AtBump(counted, index, q);
      }
      counted := Bump(counted, index);
      n := n + 1;
      ci := ci + 1;
    }
  }

  predicate MarksStarts(final: seq<nat>, info: seq<int>, timeWindow: (int, int), taskLength: nat) {
    |final| == CALENDAR &&
    forall a :: 0 <= a < CALENDAR ==>
      final[a] == if taskLength == 0 || CanStart(info, timeWindow, taskLength, a) then a + 1 else 0
  }

  /** suitabilityFinder: of the first 30 days exactly the possible starts are marked, day index a
      with the day number a + 1; a task of length zero marks every day. */
  method SuitabilityFinder(suppInfo: Option<seq<int>>, timeWindow: (int, int), taskLength: nat) returns (final: seq<nat>)
    ensures suppInfo == None ==> final == ZeroDays()
    ensures suppInfo.Some? ==> MarksStarts(final, suppInfo.value, timeWindow, taskLength)
    ensures |final| == 30
    ensures suppInfo == None ==> forall a :: 0 <= a < 30 ==> final[a] == 0
    ensures suppInfo.Some? && taskLength == 0 ==> forall a :: 0 <= a < 30 ==> final[a] == a + 1
    ensures suppInfo.Some? && taskLength > 0 ==>
        forall a :: 0 <= a < 30 ==>
          final[a] ==
            if && timeWindow.0 <= a + 1 && a + taskLength < timeWindow.1 && a + taskLength < |suppInfo.value|
               && (forall d :: a <= d < a + taskLength ==> suppInfo.value[d] != 0)
            then a + 1 else 0
  {
    if suppInfo == None {
      return ZeroDays();
    }
    var info := suppInfo.value;
    var keys: Array<nat> := seq(CALENDAR, _ => Some(0));
    for index := 0 to |info|
      invariant forall q: nat :: At(keys, q) == CountedBefore(info, timeWindow, taskLength, index, q)
    {
      ghost var before, next := keys, index + 1;
      var day := info[index];
      NoStart(info, timeWindow, taskLength, index);
      if index >= timeWindow.0 - 1 {
        if day != 0 {
          keys := CountDays(info, timeWindow, taskLength, index, keys);
        }
      }
      forall q: nat ensures At(keys, q) == CountedBefore(info, timeWindow, taskLength, next, q) {
        assert At(before, q) == CountedBefore(info, timeWindow, taskLength, index, q);
      }
    }
    forall q: nat | q < CALENDAR ensures At(keys, q) == Some(CountFor(info, timeWindow, taskLength, q)) {
      NoDay(info, timeWindow, taskLength, q);
    }

    var indicesAvailable: seq<nat> := [];
    for i := 0 to |keys|
      invariant forall a :: a in indicesAvailable <==> 0 <= a < i && At(keys, a) == Some(taskLength)
    {
      if keys[i] == Some(taskLength) {
        indicesAvailable := indicesAvailable + [i];
      }
    }

    final := ZeroDays();
    for j := 0 to |indicesAvailable|
      invariant |final| == CALENDAR
      invariant forall a :: 0 <= a < CALENDAR ==> final[a] == if a in indicesAvailable[..j] then a + 1 else 0
    {
      var a := indicesAvailable[j];
      assert a in indicesAvailable;
      final := final[a := a + 1];
    }
    assert indicesAvailable[..|indicesAvailable|] == indicesAvailable;
    forall a: nat | a < CALENDAR
      ensures a in indicesAvailable <==> taskLength == 0 || CanStart(info, timeWindow, taskLength, a)
    {
      CountMeansStart(info, timeWindow, taskLength, a);
      assert At(keys, a) == Some(CountFor(info, timeWindow, taskLength, a));
    }
  }

  lemma NoStart(info: seq<int>, timeWindow: (int, int), taskLength: nat, a: nat)
    requires a < |info|
    ensures info[a] == 0 || a < timeWindow.0 - 1 ==> CountFor(info, timeWindow, taskLength, a) == 0
  {
  }

  lemma NoDay(info: seq<int>, timeWindow: (int, int), taskLength: nat, a: nat)
    ensures a >= |info| ==> CountFor(info, timeWindow, taskLength, a) == 0
  {
  }
}
