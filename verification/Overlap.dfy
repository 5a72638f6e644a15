/** Finding the earliest day on which every supplier category is available. */
module Overlap {
  import opened Arithmetic
  import opened Odometer
  import opened Sparse

  /** `Other` stands for a type tag outside the enumeration. */
  datatype SupplierType = Port | Spare | Technician | Vessel | Other

  datatype Supplier = Supplier(kind: SupplierType, id: string, availability: seq<nat>, cost: int, reputation: int)

  /** What the preference data record of one supplier id. */
  datatype Preference = Preference(cost: int, reputation: int, kind: SupplierType)

  /** The folders Ports, Spares, Technicians and Vessels, numbered 0 to 3 in that order. */
  type Structure = s: seq<seq<Supplier>> | |s| == 4 witness [[], [], [], []]

  /** For each day the suppliers listed under each category present on that day. */
  type Container = map<nat, map<nat, seq<string>>>

  function Folder(kind: SupplierType): Option<nat> {
    match kind
    case Port => Some(0)
    case Spare => Some(1)
    case Technician => Some(2)
    case Vessel => Some(3)
    case Other => None
  }

  /** The types in the order of their folders. */
  const TYPES := [Port, Spare, Technician, Vessel]

  lemma FolderMeans(kind: SupplierType, c: nat)
    ensures Folder(kind) == Some(c) <==> c < 4 && TYPES[c] == kind
    ensures Folder(kind) == None <==> kind == Other
  {
  }

  /** The suppliers of one type, in their order. */
  function OfType(suppliers: seq<Supplier>, kind: SupplierType): seq<Supplier> {
    if |suppliers| == 0 then []
    else
      var last := suppliers[|suppliers| - 1];
      OfType(suppliers[..|suppliers| - 1], kind) + if last.kind == kind then [last] else []
  }

  lemma OfTypeOne(s: Supplier, kind: SupplierType)
    ensures OfType([s], kind) == if s.kind == kind then [s] else []
  {
    assert [s][..0] == [];
  }

  /** The order is kept: the suppliers handed in first come first. */
  lemma {:induction false} OfTypeKeepsOrder(a: seq<Supplier>, b: seq<Supplier>, kind: SupplierType)
    ensures OfType(a + b, kind) == OfType(a, kind) + OfType(b, kind)
  {
    if |b| == 0 {
      assert a + b == a;
    } else {
      var n := |b| - 1;
      assert (a + b)[..|a + b| - 1] == a + b[..n];
      OfTypeKeepsOrder(a, b[..n], kind);
    }
  }

  lemma OfTypeSnoc(suppliers: seq<Supplier>, i: nat, kind: SupplierType)
    requires i < |suppliers|
    ensures OfType(suppliers[..i + 1], kind)
         == OfType(suppliers[..i], kind) + if suppliers[i].kind == kind then [suppliers[i]] else []
  {
    assert suppliers[..i + 1][..i] == suppliers[..i];
  }

  /** partitionSuppliers; an unknown type throws, here None. */
  method PartitionSuppliers(suppliers: seq<Supplier>) returns (result: Option<Structure>)
    ensures result == None <==> exists i :: 0 <= i < |suppliers| && suppliers[i].kind == Other
    ensures result.Some? ==>
        result.value == [OfType(suppliers, Port), OfType(suppliers, Spare), OfType(suppliers, Technician), OfType(suppliers, Vessel)]
  {
    hide OfType, Folder;
    NobodyOfType(suppliers);
    var folders: Structure := [[], [], [], []];
    for i := 0 to |suppliers|
      invariant forall k :: 0 <= k < i ==> suppliers[k].kind != Other
      invariant forall c :: 0 <= c < 4 ==> folders[c] == OfType(suppliers[..i], TYPES[c])
    {
      var c := Folder(suppliers[i].kind);
      FolderMeans(suppliers[i].kind, 0);
      if c == None {
        return None;
      }
      forall e | 0 <= e < 4
        ensures c == Some(e) <==> TYPES[e] == suppliers[i].kind
        ensures OfType(suppliers[..i + 1], TYPES[e])
             == OfType(suppliers[..i], TYPES[e]) + if TYPES[e] == suppliers[i].kind then [suppliers[i]] else []
      {
        FolderMeans(suppliers[i].kind, e);
        OfTypeSnoc(suppliers, i, TYPES[e]);
      }
      FolderMeans(suppliers[i].kind, c.value);
      folders := folders[c.value := folders[c.value] + [suppliers[i]]];
    }
    assert suppliers[..|suppliers|] == suppliers;
    assert folders == [folders[0], folders[1], folders[2], folders[3]];
    return Some(folders);
  }

  lemma NobodyOfType(suppliers: seq<Supplier>)
    ensures forall c :: 0 <= c < 4 ==> OfType(suppliers[..0], TYPES[c]) == []
  {
  }

  /** A folder holds exactly the suppliers of its type. */
  lemma {:induction false} FolderMembers(suppliers: seq<Supplier>, kind: SupplierType, s: Supplier)
    ensures s in OfType(suppliers, kind) <==> s in suppliers && s.kind == kind
  {
    if |suppliers| > 0 {
      var n := |suppliers| - 1;
      FolderMembers(suppliers[..n], kind, s);
      assert suppliers == suppliers[..n] + [suppliers[n]];
    }
  }

  // ----- Availability ------------------------------------------------------------------------

  /** Entry a of an availability array is 0 or the day a + 1. */
  predicate DayNumbers(s: Supplier) {
    forall a :: 0 <= a < |s.availability| ==> s.availability[a] == 0 || s.availability[a] == a + 1
  }

  ghost predicate WellFiled(folders: Structure) {
    forall c, i :: 0 <= c < 4 && 0 <= i < |folders[c]| ==>
      Folder(folders[c][i].kind) == Some(c) && DayNumbers(folders[c][i])
  }

  /** What partitionSuppliers files is well filed. */
  lemma PartitionIsWellFiled(suppliers: seq<Supplier>, folders: Structure)
    requires forall c :: 0 <= c < 4 ==> folders[c] == OfType(suppliers, TYPES[c])
    requires forall s :: s in suppliers ==> DayNumbers(s)
    ensures WellFiled(folders)
  {
    forall c, i | 0 <= c < 4 && 0 <= i < |folders[c]|
      ensures Folder(folders[c][i].kind) == Some(c) && DayNumbers(folders[c][i])
    {
      FolderMembers(suppliers, TYPES[c], folders[c][i]);
      FolderMeans(TYPES[c], c);
    }
  }

  predicate Available(s: Supplier, day: nat) {
    1 <= day <= |s.availability| && s.availability[day - 1] != 0
  }

  /** The ids of the suppliers available on a day, in their order. */
  function IdsOn(suppliers: seq<Supplier>, day: nat): seq<string> {
    if |suppliers| == 0 then []
    else
      var last := suppliers[|suppliers| - 1];
      IdsOn(suppliers[..|suppliers| - 1], day) + if Available(last, day) then [last.id] else []
  }

  lemma IdsOnOne(s: Supplier, day: nat)
    ensures IdsOn([s], day) == if Available(s, day) then [s.id] else []
  {
    assert [s][..0] == [];
  }

  /** The ids are listed in the order of the suppliers. */
  lemma {:induction false} IdsKeepOrder(a: seq<Supplier>, b: seq<Supplier>, day: nat)
    ensures IdsOn(a + b, day) == IdsOn(a, day) + IdsOn(b, day)
  {
    hide Available;
    if |b| == 0 {
      assert a + b == a;
    } else {
      var n := |b| - 1;
      assert (a + b)[..|a + b| - 1] == a + b[..n];
      IdsKeepOrder(a, b[..n], day);
    }
  }

  predicate AnyOn(suppliers: seq<Supplier>, day: nat) {
    exists i :: 0 <= i < |suppliers| && Available(suppliers[i], day)
  }

  /** A supplier with this id is available on the day. */
  predicate Offers(suppliers: seq<Supplier>, day: nat, id: string) {
    exists i :: 0 <= i < |suppliers| && Available(suppliers[i], day) && suppliers[i].id == id
  }

  /** Exactly the available suppliers are listed. */
  lemma {:induction false} IdsOnMeans(suppliers: seq<Supplier>, day: nat, id: string)
    ensures id in IdsOn(suppliers, day) <==> Offers(suppliers, day, id)
  {
    hide Available;
    if |suppliers| > 0 {
      var n := |suppliers| - 1;
      IdsOnMeans(suppliers[..n], day, id);
      if Offers(suppliers[..n], day, id) {
        var i :| 0 <= i < n && Available(suppliers[..n][i], day) && suppliers[..n][i].id == id;
        assert suppliers[i] == suppliers[..n][i];
      }
      if Offers(suppliers, day, id) {
        var i :| 0 <= i <= n && Available(suppliers[i], day) && suppliers[i].id == id;
        if i < n { assert suppliers[i] == suppliers[..n][i]; }
      }
    }
  }

  /** Some category is not empty, and every category that is not empty has a supplier that day. */
  predicate Viable(folders: Structure, day: nat) {
    && (exists c :: 0 <= c < 4 && |folders[c]| > 0)
    && forall c :: 0 <= c < 4 && |folders[c]| > 0 ==> AnyOn(folders[c], day)
  }

  function Present(folders: Structure, day: nat): set<nat> {
    set c | 0 <= c < 4 && AnyOn(folders[c], day)
  }

  function NonEmpty(folders: Structure): set<nat> {
    set c | 0 <= c < 4 && |folders[c]| > 0
  }

  /** What a day lists once the suppliers have been filled in. */
  function Listing(folders: Structure, day: nat): map<nat, seq<string>> {
    map c | c in Present(folders, day) :: IdsOn(folders[c], day)
  }

  lemma ViableByCount(folders: Structure, day: nat)
    ensures Present(folders, day) <= NonEmpty(folders)
    ensures Present(folders, day) != {} && |Present(folders, day)| == |NonEmpty(folders)| <==> Viable(folders, day)
  {
    hide Available;
    var p, n := Present(folders, day), NonEmpty(folders);
    assert p <= n;
    if |p| == |n| && p != {} {
      SubsetSize(p, n);
      var c :| c in p;
      assert 0 <= c < 4 && |folders[c]| > 0;
      forall e | 0 <= e < 4 && |folders[e]| > 0 ensures AnyOn(folders[e], day) {
        assert e in n;
      }
      assert Viable(folders, day);
    }
    if Viable(folders, day) {
      forall e | e in n ensures e in p {}
      assert n == p;
      var c :| 0 <= c < 4 && |folders[c]| > 0;
      assert c in p;
    }
  }

  // ----- Preference data ---------------------------------------------------------------------

  type Preferences = map<string, Preference>

  function PreferenceOf(s: Supplier): Preference {
    Preference(s.cost, s.reputation, s.kind)
  }

  /** Every available supplier of a category is recorded under its id, a later one replacing an
      earlier one with the same id. */
  function RecordFolder(before: Preferences, suppliers: seq<Supplier>, day: nat): Preferences {
    if |suppliers| == 0 then before
    else
      var last := suppliers[|suppliers| - 1];
      var prefs := RecordFolder(before, suppliers[..|suppliers| - 1], day);
      if Available(last, day) then prefs[last.id := PreferenceOf(last)] else prefs
  }

  function RecordDay(before: Preferences, folders: Structure, day: nat, c: nat): Preferences
    requires c <= 4
  {
    if c == 0 then before else RecordFolder(RecordDay(before, folders, day, c - 1), folders[c - 1], day)
  }

  /** The preference data after the days 1 to n. */
  function RecordUpTo(folders: Structure, n: nat): Preferences {
    if n == 0 then map[] else RecordDay(RecordUpTo(folders, n - 1), folders, n, 4)
  }

  /** Some supplier of the category with this id and this preference is available on the day. */
  predicate Names(suppliers: seq<Supplier>, day: nat, id: string, p: Preference) {
    exists i :: 0 <= i < |suppliers| && Available(suppliers[i], day) && suppliers[i].id == id && PreferenceOf(suppliers[i]) == p
  }

  lemma {:induction false} RecordFolderMeans(before: Preferences, suppliers: seq<Supplier>, day: nat, id: string)
    ensures var after := RecordFolder(before, suppliers, day);
            && (id in after <==> id in before || Offers(suppliers, day, id))
            && (id in after ==> (id in before && after[id] == before[id]) || Names(suppliers, day, id, after[id]))
  {
    hide Available;
    if |suppliers| > 0 {
      var n := |suppliers| - 1;
      var part, prefs := suppliers[..n], RecordFolder(before, suppliers[..n], day);
      RecordFolderMeans(before, part, day, id);
      OffersSnoc(suppliers, day, id);
      if id in prefs && Names(part, day, id, prefs[id]) {
        var i :| 0 <= i < n && Available(part[i], day) && part[i].id == id && PreferenceOf(part[i]) == prefs[id];
        assert suppliers[i] == part[i];
      }
    }
  }

  lemma OffersSnoc(suppliers: seq<Supplier>, day: nat, id: string)
    requires |suppliers| > 0
    ensures var n := |suppliers| - 1;
            Offers(suppliers, day, id) <==> Offers(suppliers[..n], day, id) || (Available(suppliers[n], day) && suppliers[n].id == id)
  {
    hide Available;
    var n := |suppliers| - 1;
    if Offers(suppliers[..n], day, id) {
      var i :| 0 <= i < n && Available(suppliers[..n][i], day) && suppliers[..n][i].id == id;
      assert suppliers[i] == suppliers[..n][i];
    }
    if Offers(suppliers, day, id) {
      var i :| 0 <= i <= n && Available(suppliers[i], day) && suppliers[i].id == id;
      if i < n { assert suppliers[i] == suppliers[..n][i]; }
    }
  }

  ghost predicate OfferedBy(folders: Structure, day: nat, c: nat, id: string) {
    exists e :: 0 <= e < c && e < 4 && Offers(folders[e], day, id)
  }

  ghost predicate NamedBy(folders: Structure, day: nat, c: nat, id: string, p: Preference) {
    exists e :: 0 <= e < c && e < 4 && Names(folders[e], day, id, p)
  }

  lemma {:induction false} RecordDayMeans(before: Preferences, folders: Structure, day: nat, c: nat, id: string)
    requires c <= 4
    ensures var after := RecordDay(before, folders, day, c);
            && (id in after <==> id in before || OfferedBy(folders, day, c, id))
            && (id in after ==> (id in before && after[id] == before[id]) || NamedBy(folders, day, c, id, after[id]))
    decreases c
  {
    hide Offers, Names, RecordFolder;
    if c > 0 {
      RecordDayMeans(before, folders, day, c - 1, id);
      RecordFolderMeans(RecordDay(before, folders, day, c - 1), folders[c - 1], day, id);
    }
  }

  /** The preference data know exactly the ids available on some day, and what they say about an
      id is true of a supplier with this id. */
  lemma {:induction false} PreferencesMean(folders: Structure, n: nat, id: string)
    ensures id in RecordUpTo(folders, n) <==> exists day :: 1 <= day <= n && OfferedBy(folders, day, 4, id)
    ensures id in RecordUpTo(folders, n) ==>
              exists day :: 1 <= day <= n && NamedBy(folders, day, 4, id, RecordUpTo(folders, n)[id])
  {
    hide OfferedBy, NamedBy, RecordDay;
    if n > 0 {
      PreferencesMean(folders, n - 1, id);
      RecordDayMeans(RecordUpTo(folders, n - 1), folders, n, 4, id);
    }
  }

  /** Supplier i of category c is available on the day under this id. */
  predicate Entry(folders: Structure, day: nat, c: nat, i: nat, id: string) {
    c < 4 && i < |folders[c]| && Available(folders[c][i], day) && folders[c][i].id == id
  }

  /** No available supplier with this id comes later: by day, then by category, then in its folder. */
  ghost predicate LatestEntry(folders: Structure, n: nat, day: nat, c: nat, i: nat, id: string) {
    && 1 <= day <= n && Entry(folders, day, c, i, id)
    && forall d: nat, e: nat, j: nat :: d <= n && Entry(folders, d, e, j, id) ==>
         d < day || (d == day && (e < c || (e == c && j <= i)))
  }

  /** Of several entries with the same id the latest one stands. */
  lemma {:induction false} LatestStands(folders: Structure, n: nat, day: nat, c: nat, i: nat, id: string)
    requires LatestEntry(folders, n, day, c, i, id)
    ensures id in RecordUpTo(folders, n) && RecordUpTo(folders, n)[id] == PreferenceOf(folders[c][i])
  {
    hide Available, RecordDay;
    RecordNext(folders, n);
    if day < n {
      LatestStands(folders, n - 1, day, c, i, id);
      forall e: nat, j: nat ensures !Entry(folders, n, e, j, id) {}
      DayWithout(RecordUpTo(folders, n - 1), folders, n, 4, id);
    } else {
      LatestOfDay(RecordUpTo(folders, n - 1), folders, n, 4, c, i, id);
    }
  }

  lemma {:induction false} LatestOfDay(before: Preferences, folders: Structure, day: nat, m: nat, c: nat, i: nat, id: string)
    requires c < m <= 4 && Entry(folders, day, c, i, id)
    requires forall e: nat, j: nat :: Entry(folders, day, e, j, id) ==> e < c || (e == c && j <= i)
    ensures var after := RecordDay(before, folders, day, m); id in after && after[id] == PreferenceOf(folders[c][i])
    decreases m
  {
    hide Available, RecordFolder;
    var so := RecordDay(before, folders, day, m - 1);
    if c < m - 1 {
      LatestOfDay(before, folders, day, m - 1, c, i, id);
      var last, folder := m - 1, folders[m - 1];
      forall j | 0 <= j < |folder| ensures !(Available(folder[j], day) && folder[j].id == id) {
        assert !Entry(folders, day, last, j, id);
      }
      FolderWithout(so, folder, day, id);
    } else {
      forall j | i < j < |folders[c]| ensures !(Available(folders[c][j], day) && folders[c][j].id == id) {
        assert !Entry(folders, day, c, j, id);
      }
      LatestOfFolder(so, folders[c], day, i, id);
    }
  }

  lemma {:induction false} LatestOfFolder(before: Preferences, suppliers: seq<Supplier>, day: nat, i: nat, id: string)
    requires i < |suppliers| && Available(suppliers[i], day) && suppliers[i].id == id
    requires forall j :: i < j < |suppliers| ==> !(Available(suppliers[j], day) && suppliers[j].id == id)
    ensures var after := RecordFolder(before, suppliers, day); id in after && after[id] == PreferenceOf(suppliers[i])
  {
    hide Available;
    if i < |suppliers| - 1 { LatestOfFolder(before, suppliers[..|suppliers| - 1], day, i, id); }
  }

  lemma {:induction false} DayWithout(before: Preferences, folders: Structure, day: nat, m: nat, id: string)
    requires m <= 4 && forall e: nat, j: nat :: !Entry(folders, day, e, j, id)
    ensures var after := RecordDay(before, folders, day, m);
            (id in after <==> id in before) && (id in after ==> after[id] == before[id])
    decreases m
  {
    hide Available, RecordFolder;
    if m > 0 {
      DayWithout(before, folders, day, m - 1, id);
      var last, folder := m - 1, folders[m - 1];
      forall j | 0 <= j < |folder| ensures !(Available(folder[j], day) && folder[j].id == id) {
        assert !Entry(folders, day, last, j, id);
      }
      FolderWithout(RecordDay(before, folders, day, m - 1), folder, day, id);
    }
  }

  lemma {:induction false} FolderWithout(before: Preferences, suppliers: seq<Supplier>, day: nat, id: string)
    requires forall j :: 0 <= j < |suppliers| ==> !(Available(suppliers[j], day) && suppliers[j].id == id)
    ensures var after := RecordFolder(before, suppliers, day);
            (id in after <==> id in before) && (id in after ==> after[id] == before[id])
  {
    hide Available;
    if |suppliers| > 0 { FolderWithout(before, suppliers[..|suppliers| - 1], day, id); }
  }

  /** Length of the longest availability array. */
  function Horizon(suppliers: seq<Supplier>): nat {
    if |suppliers| == 0 then 0
    else
      var rest, last := Horizon(suppliers[..|suppliers| - 1]), |suppliers[|suppliers| - 1].availability|;
      if rest < last then last else rest
  }

  /** The last day on which anyone can be available. */
  function LastDay(folders: Structure): nat {
    Horizon(folders[0] + folders[1] + folders[2] + folders[3])
  }

  lemma {:induction false} HorizonBounds(suppliers: seq<Supplier>, i: nat)
    requires i < |suppliers|
    ensures |suppliers[i].availability| <= Horizon(suppliers)
  {
    if i < |suppliers| - 1 { HorizonBounds(suppliers[..|suppliers| - 1], i); }
  }

  lemma NobodyAfter(folders: Structure, day: nat)
    requires day > LastDay(folders)
    ensures Present(folders, day) == {}
  {
    var all := folders[0] + folders[1] + folders[2] + folders[3];
    forall c | 0 <= c < 4 ensures !AnyOn(folders[c], day) {
      if AnyOn(folders[c], day) {
        var i :| 0 <= i < |folders[c]| && Available(folders[c][i], day);
        var at := i + (if c > 0 then |folders[0]| else 0) + (if c > 1 then |folders[1]| else 0) + if c > 2 then |folders[2]| else 0;
        assert all[at] == folders[c][i];
        HorizonBounds(all, at);
      }
    }
  }

  lemma {:induction false} QuietFolder(before: Preferences, suppliers: seq<Supplier>, day: nat)
    requires !AnyOn(suppliers, day)
    ensures RecordFolder(before, suppliers, day) == before
  {
    if |suppliers| > 0 {
      var n := |suppliers| - 1;
      AnyOnSnoc(suppliers, n, day);
      assert suppliers[..n + 1] == suppliers;
      QuietFolder(before, suppliers[..n], day);
    }
  }

  lemma {:induction false} QuietDay(before: Preferences, folders: Structure, day: nat, c: nat)
    requires Present(folders, day) == {} && c <= 4
    ensures RecordDay(before, folders, day, c) == before
    decreases c
  {
    if c > 0 {
      QuietDay(before, folders, day, c - 1);
      assert c - 1 !in Present(folders, day);
      QuietFolder(before, folders[c - 1], day);
    }
  }

  /** Days on which nobody is available leave the preference data as they are. */
  lemma {:induction false} QuietDays(folders: Structure, a: nat, b: nat)
    requires a <= b && forall d :: a < d <= b ==> Present(folders, d) == {}
    ensures RecordUpTo(folders, b) == RecordUpTo(folders, a)
    decreases b
  {
    if a < b {
      QuietDays(folders, a, b - 1);
      QuietDay(RecordUpTo(folders, b - 1), folders, b, 4);
    }
  }

  // ----- findOverlappingDay ------------------------------------------------------------------

  /** What is listed for a day; nothing for a day that does not occur. */
  function Row(sets: Container, day: nat): map<nat, seq<string>> {
    if day in sets then sets[day] else map[]
  }

  /** The days of one supplier are marked under its category. */
  method MarkSupplier(sets: Container, c: nat, supplier: Supplier) returns (marked: Container)
    requires DayNumbers(supplier)
    requires forall d: nat :: d in sets <==> Row(sets, d) != map[]
    ensures forall d: nat :: d in marked <==> Row(marked, d) != map[]
    ensures forall d: nat :: Row(marked, d) == if Available(supplier, d) then Row(sets, d)[c := []] else Row(sets, d)
  {
    marked := sets;
    var days := supplier.availability;
    for a := 0 to |days|
      invariant forall d: nat :: d in marked <==> Row(marked, d) != map[]
      invariant forall d: nat :: Row(marked, d) == if Available(supplier, d) && d <= a then Row(sets, d)[c := []] else Row(sets, d)
    {
      var day := days[a];
      if day > 0 {
        assert c in Row(marked, day)[c := []];
        marked := marked[day := Row(marked, day)[c := []]];
      }
    }
  }

  /** All suppliers of one category are marked. */
  method MarkFolder(sets: Container, c: nat, suppliers: seq<Supplier>) returns (marked: Container)
    requires forall i :: 0 <= i < |suppliers| ==> DayNumbers(suppliers[i])
    requires forall d: nat :: d in sets <==> Row(sets, d) != map[]
    ensures forall d: nat :: d in marked <==> Row(marked, d) != map[]
    ensures forall d: nat :: Row(marked, d) == if AnyOn(suppliers, d) then Row(sets, d)[c := []] else Row(sets, d)
  {
    hide AnyOn, Available, DayNumbers;
    marked := sets;
    forall d: nat ensures !AnyOn(suppliers[..0], d) { NobodyOn(suppliers, d); }
    for i := 0 to |suppliers|
      invariant forall d: nat :: d in marked <==> Row(marked, d) != map[]
      invariant forall d: nat :: Row(marked, d) == if AnyOn(suppliers[..i], d) then Row(sets, d)[c := []] else Row(sets, d)
    {
      forall d: nat ensures AnyOn(suppliers[..i + 1], d) <==> AnyOn(suppliers[..i], d) || Available(suppliers[i], d) {
        AnyOnSnoc(suppliers, i, d);
      }
      marked := MarkSupplier(marked, c, suppliers[i]);
    }
    assert suppliers[..|suppliers|] == suppliers;
  }

  function Blank(cs: set<nat>): map<nat, seq<string>> {
    map c | c in cs :: []
  }

  /** First loop: for every day that occurs, the categories available that day, still empty. */
  method MarkDays(folders: Structure) returns (sets: Container)
    requires WellFiled(folders)
    ensures forall d: nat :: d in sets <==> Present(folders, d) != {}
    ensures forall d: nat :: Row(sets, d) == Blank(Present(folders, d))
  {
    hide AnyOn, Available, DayNumbers;
    sets := map[];
    NoneYet(folders);
    for c := 0 to 4
      invariant forall d: nat :: d in sets <==> Row(sets, d) != map[]
      invariant forall d: nat :: Row(sets, d) == Blank(PresentBelow(folders, d, c))
    {
      sets := MarkFolder(sets, c, folders[c]);
      forall d: nat
        ensures Blank(PresentBelow(folders, d, c + 1))
             == if AnyOn(folders[c], d) then Blank(PresentBelow(folders, d, c))[c := []] else Blank(PresentBelow(folders, d, c))
      {
        OneMoreCategory(folders, d, c);
      }
    }
    forall d: nat ensures PresentBelow(folders, d, 4) == Present(folders, d) {}
    forall d: nat ensures Blank(Present(folders, d)) == map[] <==> Present(folders, d) == {} {
      BlankEmpty(Present(folders, d));
    }
  }

  function PresentBelow(folders: Structure, day: nat, c: nat): set<nat>
    requires c <= 4
  {
    set e | 0 <= e < c && AnyOn(folders[e], day)
  }

  lemma NoneYet(folders: Structure)
    ensures forall d: nat :: Blank(PresentBelow(folders, d, 0)) == map[]
  {
  }

  lemma NobodyOn(suppliers: seq<Supplier>, day: nat)
    ensures !AnyOn(suppliers[..0], day)
  {
  }

  lemma OneMoreCategory(folders: Structure, d: nat, c: nat)
    requires c < 4
    ensures Blank(PresentBelow(folders, d, c + 1))
         == if AnyOn(folders[c], d) then Blank(PresentBelow(folders, d, c))[c := []] else Blank(PresentBelow(folders, d, c))
  {
    assert PresentBelow(folders, d, c + 1)
        == if AnyOn(folders[c], d) then PresentBelow(folders, d, c) + {c} else PresentBelow(folders, d, c);
  }

  lemma AnyOnSnoc(suppliers: seq<Supplier>, i: nat, day: nat)
    requires i < |suppliers|
    ensures AnyOn(suppliers[..i + 1], day) <==> AnyOn(suppliers[..i], day) || Available(suppliers[i], day)
  {
    if AnyOn(suppliers[..i], day) {
      var k :| 0 <= k < i && Available(suppliers[..i][k], day);
      assert suppliers[..i + 1][k] == suppliers[..i][k];
    }
    if Available(suppliers[i], day) { assert suppliers[..i + 1][i] == suppliers[i]; }
    if AnyOn(suppliers[..i + 1], day) {
      var k :| 0 <= k < i + 1 && Available(suppliers[..i + 1][k], day);
      if k < i { assert suppliers[..i][k] == suppliers[..i + 1][k]; }
    }
  }

  lemma BlankEmpty(cs: set<nat>)
    ensures Blank(cs) == map[] <==> cs == {}
  {
    if cs != {} {
      var c :| c in cs;
      assert c in Blank(cs);
    }
  }

  /** The available suppliers of one category are listed under their own type. */
  method FillFolder(folders: Structure, day: nat, c: nat, row: map<nat, seq<string>>, prefs: Preferences)
    returns (filled: map<nat, seq<string>>, recorded: Preferences)
    requires WellFiled(folders) && c < 4
    requires row.Keys == Present(folders, day) && (c in row ==> row[c] == [])
    ensures filled.Keys == row.Keys
    ensures forall e :: e in row ==> filled[e] == if e == c then IdsOn(folders[c], day) else row[e]
    ensures recorded == RecordFolder(prefs, folders[c], day)
  {
    hide AnyOn, Available, IdsOn, Present, DayNumbers, RecordFolder;
    filled, recorded := row, prefs;
    IdsOnNone(folders[c], day);
    RecordNone(prefs, folders[c], day);
    for i := 0 to |folders[c]|
      invariant filled.Keys == row.Keys
      invariant forall e :: e in row ==> filled[e] == if e == c then IdsOn(folders[c][..i], day) else row[e]
      invariant recorded == RecordFolder(prefs, folders[c][..i], day)
    {
      IdsOnSnoc(folders, c, i, day);
      RecordSnoc(prefs, folders[c], i, day);
      var supplier := folders[c][i];
      if 1 <= day <= |supplier.availability| && supplier.availability[day - 1] != 0 {
        recorded := recorded[supplier.id := Preference(supplier.cost, supplier.reputation, supplier.kind)];
        var own := Folder(supplier.kind).value;
        filled := filled[own := filled[own] + [supplier.id]];
      }
    }
    assert folders[c][..|folders[c]|] == folders[c];
  }

  /** Second loop, for one day. */
  method FillDay(folders: Structure, day: nat, row: map<nat, seq<string>>, prefs: Preferences)
    returns (filled: map<nat, seq<string>>, recorded: Preferences)
    requires WellFiled(folders) && row == Blank(Present(folders, day))
    ensures filled == Listing(folders, day) && recorded == RecordDay(prefs, folders, day, 4)
  {
    hide IdsOn, Present, WellFiled, RecordFolder;
    filled, recorded := row, prefs;
    for c := 0 to 4
      invariant recorded == RecordDay(prefs, folders, day, c)
      invariant filled.Keys == Present(folders, day)
      invariant forall e :: e in filled ==> filled[e] == if e < c then IdsOn(folders[e], day) else []
    {
      filled, recorded := FillFolder(folders, day, c, filled, recorded);
    }
    InFour(folders, day);
  }

  lemma InFour(folders: Structure, day: nat)
    ensures forall c :: c in Present(folders, day) ==> c < 4
  {
  }

  lemma RecordNone(prefs: Preferences, suppliers: seq<Supplier>, day: nat)
    ensures RecordFolder(prefs, suppliers[..0], day) == prefs
  {
  }

  lemma RecordSnoc(prefs: Preferences, suppliers: seq<Supplier>, i: nat, day: nat)
    requires i < |suppliers|
    ensures var s := suppliers[i];
            var available := 1 <= day <= |s.availability| && s.availability[day - 1] != 0;
            var before := RecordFolder(prefs, suppliers[..i], day);
            RecordFolder(prefs, suppliers[..i + 1], day) == if available then before[s.id := PreferenceOf(s)] else before
  {
    assert suppliers[..i + 1][..i] == suppliers[..i];
  }

  lemma IdsOnNone(suppliers: seq<Supplier>, day: nat)
    ensures IdsOn(suppliers[..0], day) == []
  {
  }

  lemma IdsOnSnoc(folders: Structure, c: nat, i: nat, day: nat)
    requires c < 4 && i < |folders[c]|
    ensures var s := folders[c][i];
            var available := 1 <= day <= |s.availability| && s.availability[day - 1] != 0;
            && (available ==> c in Present(folders, day))
            && IdsOn(folders[c][..i + 1], day) == if available then IdsOn(folders[c][..i], day) + [s.id] else IdsOn(folders[c][..i], day)
  {
    assert folders[c][..i + 1][..i] == folders[c][..i];
    if Available(folders[c][i], day) { assert AnyOn(folders[c], day); }
  }

  /** dayReducer: the days that list `min` categories. */
  method DayReducer(total: Container, min: nat) returns (reduced: Container)
    ensures reduced == map d | d in total && |total[d]| == min :: total[d]
  {
    reduced := map[];
    var rest := total.Keys;
    while rest != {}
      invariant rest <= total.Keys
      invariant reduced == map d | d in total && d !in rest && |total[d]| == min :: total[d]
    {
      var day :| day in rest;
      if |total[day]| == min {
        reduced := reduced[day := total[day]];
      }
      rest := rest - {day};
    }
  }

  /** The first key of an object with integer keys: the smallest. */
  method FirstKey(sets: Container) returns (key: nat)
    requires sets != map[]
    ensures key in sets && forall d: nat :: d in sets ==> key <= d
  {
    ghost var some :| some in sets;
    key := 0;
    while key !in sets
      invariant key <= some
      invariant forall d: nat :: d in sets ==> key <= d
      decreases some - key
    {
      key := key + 1;
    }
  }

  /** Second loop, over all days in ascending order. */
  method FillDays(folders: Structure, sets: Container) returns (filled: Container, prefs: Preferences)
    requires WellFiled(folders)
    requires forall d: nat :: d in sets <==> Present(folders, d) != {}
    requires forall d: nat :: Row(sets, d) == Blank(Present(folders, d))
    ensures filled.Keys == sets.Keys && forall d: nat :: d in filled ==> filled[d] == Listing(folders, d)
    ensures prefs == RecordUpTo(folders, LastDay(folders))
  {
    hide Listing, Present, WellFiled, RecordDay, RecordUpTo, LastDay;
    var rest := sets;
    filled, prefs := map[], map[];
    ghost var done: nat := 0;
    NothingRecorded(folders);
    NobodyBeforeDayOne(folders);
    while rest != map[]
      invariant rest.Keys <= sets.Keys && forall d: nat :: d in rest ==> rest[d] == sets[d]
      invariant forall d: nat :: d in sets && d !in rest <==> d in sets && d <= done
      invariant filled.Keys == sets.Keys - rest.Keys
      invariant forall d: nat :: d in filled ==> filled[d] == Listing(folders, d)
      invariant prefs == RecordUpTo(folders, done)
      invariant done == 0 || done in sets
      decreases rest.Keys
    {
      var key := FirstKey(rest);
      assert Row(sets, key) == rest[key];
      QuietDays(folders, done, key - 1);
      RecordNext(folders, key);
      var row;
      row, prefs := FillDay(folders, key, rest[key], prefs);
      filled := filled[key := row];
      rest := rest - {key};
      done := key;
    }
    LastDayReached(folders, done);
    QuietDays(folders, done, LastDay(folders));
  }

  lemma NothingRecorded(folders: Structure)
    ensures RecordUpTo(folders, 0) == map[]
  {
  }

  lemma NobodyBeforeDayOne(folders: Structure)
    ensures Present(folders, 0) == {}
  {
  }

  lemma RecordNext(folders: Structure, n: nat)
    requires n > 0
    ensures RecordUpTo(folders, n) == RecordDay(RecordUpTo(folders, n - 1), folders, n, 4)
  {
  }

  lemma LastDayReached(folders: Structure, day: nat)
    requires day == 0 || Present(folders, day) != {}
    ensures day <= LastDay(folders)
  {
    if day > LastDay(folders) { NobodyAfter(folders, day); }
  }

  /** The smallest viable day with everyone available on it, or nothing if there is none; and the
      preference data of everyone available on any day. */
  method FindOverlappingDay(folders: Structure) returns (found: Container, prefs: Preferences)
    requires WellFiled(folders)
    ensures found == map[] <==> forall d: nat :: !Viable(folders, d)
    ensures forall d: nat :: d in found ==>
              && found == map[d := Listing(folders, d)]
              && Viable(folders, d) && forall e: nat :: Viable(folders, e) ==> d <= e
    ensures prefs == RecordUpTo(folders, LastDay(folders))
  {
    hide Viable, Listing, Present, WellFiled, RecordUpTo, LastDay;
    var minNum := CountNonEmpty(folders);
    var sets := MarkDays(folders);
    var filled: Container;
    filled, prefs := FillDays(folders, sets);
    var viable := DayReducer(filled, minNum);
    forall d: nat ensures d in viable <==> Viable(folders, d) {
      ViableByCount(folders, d);
      ListingSize(folders, d);
    }
    if viable == map[] {
      found := map[];
      forall d: nat ensures !Viable(folders, d) { assert d !in viable; }
    } else {
      var first := FirstKey(viable);
      assert Viable(folders, first);
      found := map[first := viable[first]];
      assert first in found;
    }
  }

  /** minNum: the number of categories that have a supplier at all. */
  method CountNonEmpty(folders: Structure) returns (minNum: nat)
    ensures minNum == |NonEmpty(folders)|
  {
    minNum := 0;
    ghost var seen: set<nat> := {};
    for c := 0 to 4
      invariant minNum == |seen|
      invariant forall e :: e in seen <==> 0 <= e < c && |folders[e]| > 0
    {
      if |folders[c]| > 0 {
        minNum := minNum + 1;
        seen := seen + {c};
      }
    }
    assert seen == NonEmpty(folders);
  }

  lemma ListingSize(folders: Structure, day: nat)
    ensures |Listing(folders, day)| == |Present(folders, day)|
  {
    assert Listing(folders, day).Keys == Present(folders, day);
  }

  // ----- createUniqueSets ---------------------------------------------------------------------

  /** The lists of one day in category order, skipping absent categories. */
  function ListsOf(row: map<nat, seq<string>>, c: nat): seq<seq<string>>
    requires c <= 4
  {
    if c == 0 then [] else ListsOf(row, c - 1) + if c - 1 in row then [row[c - 1]] else []
  }

  /** createUniqueSets: all combinations for a container of one day, nothing otherwise. */
  method CreateUniqueSets(coreSet: Container) returns (uniqueSets: seq<seq<string>>)
    ensures |coreSet| != 1 ==> uniqueSets == []
    ensures forall d: nat :: d in coreSet && |coreSet| == 1 ==>
              uniqueSets == if ListsOf(coreSet[d], 4) == [] then [] else Cartesian(ListsOf(coreSet[d], 4))
  {
    if |coreSet| != 1 {
      return [];
    }
    OnlyKey(coreSet);
    var currentDay := FirstKey(coreSet);
    var row := coreSet[currentDay];
    var tempContainer: seq<seq<string>> := [];
    for c := 0 to 4
      invariant tempContainer == ListsOf(row, c)
    {
      if c in row {
        tempContainer := tempContainer + [row[c]];
      }
    }
    uniqueSets := CombineArrays(tempContainer);
  }

  lemma OnlyKey(sets: Container)
    requires |sets| == 1
    ensures sets != map[]
    ensures forall d: nat, e: nat :: d in sets && e in sets ==> d == e
  {
    forall d: nat, e: nat | d in sets && e in sets ensures d == e {
      if d != e {
        assert {d, e} <= sets.Keys;
        SubsetSize({d, e}, sets.Keys);
      }
    }
  }

  /** Number of non-empty categories before category c. */
  function CountBelow(folders: Structure, c: nat): nat
    requires c <= 4
  {
    if c == 0 then 0 else CountBelow(folders, c - 1) + if |folders[c - 1]| > 0 then 1 else 0
  }

  lemma {:induction false} ListsOfCategory(folders: Structure, day: nat, c: nat, e: nat)
    requires e <= c <= 4 && Viable(folders, day)
    ensures |ListsOf(Listing(folders, day), c)| == CountBelow(folders, c)
    ensures e < c && |folders[e]| > 0 ==>
              CountBelow(folders, e) < CountBelow(folders, c) &&
              ListsOf(Listing(folders, day), c)[CountBelow(folders, e)] == IdsOn(folders[e], day)
  {
    if c > 0 {
      ListsOfCategory(folders, day, c - 1, if e < c then e else c - 1);
      assert c - 1 in Listing(folders, day) <==> |folders[c - 1]| > 0 by { PresentIsNonEmpty(folders, day, c - 1); }
    }
  }

  lemma PresentIsNonEmpty(folders: Structure, day: nat, c: nat)
    requires c < 4 && Viable(folders, day)
    ensures c in Listing(folders, day) <==> |folders[c]| > 0
  {
  }

  /** The position of a list belongs to a non-empty category. */
  lemma {:induction false} CategoryOfList(folders: Structure, c: nat, k: nat) returns (e: nat)
    requires c <= 4 && k < CountBelow(folders, c)
    ensures e < c && |folders[e]| > 0 && CountBelow(folders, e) == k
    decreases c
  {
    if k < CountBelow(folders, c - 1) {
      e := CategoryOfList(folders, c - 1, k);
    } else {
      e := c - 1;
    }
  }

  /** The set names, for each non-empty category, a supplier of that category who is available on
      the day, and nobody else. */
  predicate OnePerCategory(folders: Structure, day: nat, uniqueSet: seq<string>) {
    && |uniqueSet| == CountBelow(folders, 4)
    && forall e :: 0 <= e < 4 && |folders[e]| > 0 ==>
         CountBelow(folders, e) < |uniqueSet| && Offers(folders[e], day, uniqueSet[CountBelow(folders, e)])
  }

  /** The sets built for a viable day are exactly the choices of one available supplier for each
      non-empty category. */
  lemma UniqueSetsAreChoices(folders: Structure, day: nat, uniqueSet: seq<string>)
    requires Viable(folders, day)
    ensures uniqueSet in Cartesian(ListsOf(Listing(folders, day), 4)) <==> OnePerCategory(folders, day, uniqueSet)
  {
    hide Viable, Listing, Offers, CountBelow, IdsOn, ListsOf;
    var lists := ListsOf(Listing(folders, day), 4);
    ListsOfCategory(folders, day, 4, 0);
    if uniqueSet in Cartesian(lists) {
      var r :| 0 <= r < |Cartesian(lists)| && Cartesian(lists)[r] == uniqueSet;
      EntrySize(lists, r);
      forall e | 0 <= e < 4 && |folders[e]| > 0
        ensures CountBelow(folders, e) < |uniqueSet| && Offers(folders[e], day, uniqueSet[CountBelow(folders, e)])
      {
        ListsOfCategory(folders, day, 4, e);
        EntryOfCartesian(lists, r, CountBelow(folders, e));
        IdsOnMeans(folders[e], day, uniqueSet[CountBelow(folders, e)]);
      }
    }
    if OnePerCategory(folders, day, uniqueSet) {
      forall k | 0 <= k < |lists| ensures uniqueSet[k] in lists[k] {
        var e := CategoryOfList(folders, 4, k);
        ListsOfCategory(folders, day, 4, e);
        IdsOnMeans(folders[e], day, uniqueSet[k]);
      }
      ChoiceIsEntry(lists, uniqueSet);
    }
  }

  lemma EntrySize(lists: seq<seq<string>>, r: nat)
    requires r < |Cartesian(lists)|
    ensures |Cartesian(lists)[r]| == |lists|
  {
    CartesianSize(lists);
    var o := SettingOfRank(r, Sizes(lists));
    CartesianAtRank(lists, o);
  }

  lemma EntryOfCartesian(lists: seq<seq<string>>, r: nat, k: nat)
    requires r < |Cartesian(lists)| && k < |lists|
    ensures |Cartesian(lists)[r]| == |lists| && Cartesian(lists)[r][k] in lists[k]
  {
    CartesianSize(lists);
    var o := SettingOfRank(r, Sizes(lists));
    CartesianAtRank(lists, o);
  }

  lemma ChoiceIsEntry(lists: seq<seq<string>>, choice: seq<string>)
    requires |choice| == |lists| && forall k :: 0 <= k < |lists| ==> choice[k] in lists[k]
    ensures choice in Cartesian(lists)
  {
    var o := DigitsOf(lists, choice);
    CartesianAtRank(lists, o);
    assert FormCombination(o, lists) == choice;
  }

  /** A combination takes one entry of each list, and every such choice is a combination. */
  lemma InCartesian(lists: seq<seq<string>>, choice: seq<string>)
    ensures choice in Cartesian(lists) <==> |choice| == |lists| && forall k :: 0 <= k < |lists| ==> choice[k] in lists[k]
  {
    hide Cartesian;
    if choice in Cartesian(lists) {
      var r :| 0 <= r < |Cartesian(lists)| && Cartesian(lists)[r] == choice;
      EntrySize(lists, r);
      forall k | 0 <= k < |lists| ensures choice[k] in lists[k] { EntryOfCartesian(lists, r, k); }
    }
    if |choice| == |lists| && forall k :: 0 <= k < |lists| ==> choice[k] in lists[k] { ChoiceIsEntry(lists, choice); }
  }

  lemma {:induction false} DigitsOf(lists: seq<seq<string>>, choice: seq<string>) returns (o: seq<nat>)
    requires |choice| == |lists| && forall k :: 0 <= k < |lists| ==> choice[k] in lists[k]
    ensures Within(o, Sizes(lists)) && forall k :: 0 <= k < |lists| ==> lists[k][o[k]] == choice[k]
  {
    var n := |lists|;
    if n == 0 {
      o := [];
    } else {
      var higher := DigitsOf(lists[..n - 1], choice[..n - 1]);
      var d: nat :| d < |lists[n - 1]| && lists[n - 1][d] == choice[n - 1];
      o := higher + [d];
      assert forall k :: 0 <= k < n - 1 ==> Sizes(lists[..n - 1])[k] == |lists[k]|;
    }
  }
}
