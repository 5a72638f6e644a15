/** The selection of suppliers from end to end: calendars in, sets of suppliers out. */
module Selection {
  import opened Odometer
  import opened Overlap
  import opened Sparse
  import opened Window

  /** What a supplier hands in. */
  datatype Offer = Offer(kind: SupplierType, id: string, cost: int, reputation: int, calendar: seq<int>)

  /** The task: its time window and its length in days. */
  datatype Task = Task(timeWindow: (int, int), length: nat)

  // ----- What is asked for, in terms of the offers alone --------------------------------------

  /** The supplier can do the whole task from this day on. */
  predicate CanTake(o: Offer, task: Task, day: nat) {
    1 <= day <= CALENDAR && (task.length == 0 || CanStart(o.calendar, task.timeWindow, task.length, day - 1))
  }

  predicate Offered(offers: seq<Offer>, kind: SupplierType) {
    exists i :: 0 <= i < |offers| && offers[i].kind == kind
  }

  predicate Taken(offers: seq<Offer>, task: Task, kind: SupplierType, day: nat) {
    exists i :: 0 <= i < |offers| && offers[i].kind == kind && CanTake(offers[i], task, day)
  }

  predicate TakenBy(offers: seq<Offer>, task: Task, kind: SupplierType, day: nat, id: string) {
    exists i :: 0 <= i < |offers| && offers[i].kind == kind && CanTake(offers[i], task, day) && offers[i].id == id
  }

  /** Of every type offered some supplier can start the task on this day. */
  ghost predicate CommonStart(offers: seq<Offer>, task: Task, day: nat) {
    && (exists kind :: kind != Other && Offered(offers, kind))
    && forall kind :: kind != Other && Offered(offers, kind) ==> Taken(offers, task, kind, day)
  }

  function IfOffered(offers: seq<Offer>, kind: SupplierType): seq<SupplierType> {
    if Offered(offers, kind) then [kind] else []
  }

  /** The types offered, ports first, then spares, technicians and vessels. */
  function TypesOffered(offers: seq<Offer>): seq<SupplierType> {
    IfOffered(offers, Port) + IfOffered(offers, Spare) + IfOffered(offers, Technician) + IfOffered(offers, Vessel)
  }

  /** One supplier of each type offered, in the order of the types, who can start on the day. */
  predicate Team(offers: seq<Offer>, task: Task, day: nat, ids: seq<string>) {
    && |ids| == |TypesOffered(offers)|
    && forall k :: 0 <= k < |ids| ==> TakenBy(offers, task, TypesOffered(offers)[k], day, ids[k])
  }

  /** The ids of the suppliers of a type who can start on the day, in the order of the offers. */
  function TakerIds(offers: seq<Offer>, task: Task, kind: SupplierType, day: nat): seq<string> {
    if |offers| == 0 then []
    else
      var last := offers[|offers| - 1];
      TakerIds(offers[..|offers| - 1], task, kind, day) + if last.kind == kind && CanTake(last, task, day) then [last.id] else []
  }

  lemma TakerIdsOne(o: Offer, task: Task, kind: SupplierType, day: nat)
    ensures TakerIds([o], task, kind, day) == if o.kind == kind && CanTake(o, task, day) then [o.id] else []
  {
    assert [o][..0] == [];
  }

  lemma {:induction false} TakerIdsKeepOrder(a: seq<Offer>, b: seq<Offer>, task: Task, kind: SupplierType, day: nat)
    ensures TakerIds(a + b, task, kind, day) == TakerIds(a, task, kind, day) + TakerIds(b, task, kind, day)
  {
    hide CanTake;
    if |b| == 0 {
      assert a + b == a;
    } else {
      var n := |b| - 1;
      assert (a + b)[..|a + b| - 1] == a + b[..n];
      TakerIdsKeepOrder(a, b[..n], task, kind, day);
    }
  }

  lemma {:induction false} TakerIdsMean(offers: seq<Offer>, task: Task, kind: SupplierType, day: nat, id: string)
    ensures id in TakerIds(offers, task, kind, day) <==> TakenBy(offers, task, kind, day, id)
  {
    hide CanTake;
    if |offers| > 0 {
      var n := |offers| - 1;
      TakerIdsMean(offers[..n], task, kind, day, id);
      if TakenBy(offers[..n], task, kind, day, id) {
        var i :| 0 <= i < n && offers[..n][i].kind == kind && CanTake(offers[..n][i], task, day) && offers[..n][i].id == id;
        assert offers[i] == offers[..n][i];
      }
      if TakenBy(offers, task, kind, day, id) {
        var i :| 0 <= i <= n && offers[i].kind == kind && CanTake(offers[i], task, day) && offers[i].id == id;
        if i < n { assert offers[i] == offers[..n][i]; }
      }
    }
  }

  function ListFor(offers: seq<Offer>, task: Task, kind: SupplierType, day: nat): seq<seq<string>> {
    if Offered(offers, kind) then [TakerIds(offers, task, kind, day)] else []
  }

  /** For each type offered the ids of those who can start. */
  function TeamLists(offers: seq<Offer>, task: Task, day: nat): seq<seq<string>> {
    ListFor(offers, task, Port, day) + ListFor(offers, task, Spare, day) +
    ListFor(offers, task, Technician, day) + ListFor(offers, task, Vessel, day)
  }

  lemma TeamListsMean(offers: seq<Offer>, task: Task, day: nat)
    ensures |TeamLists(offers, task, day)| == |TypesOffered(offers)|
    ensures forall k :: 0 <= k < |TypesOffered(offers)| ==>
              TeamLists(offers, task, day)[k] == TakerIds(offers, task, TypesOffered(offers)[k], day)
  {
    hide Offered, TakerIds;
  }

  /** The combinations of these lists are the teams. */
  lemma CombinationsAreTeams(offers: seq<Offer>, task: Task, day: nat, ids: seq<string>)
    ensures ids in Cartesian(TeamLists(offers, task, day)) <==> Team(offers, task, day, ids)
  {
    TeamListsMean(offers, task, day);
    hide TeamLists, TypesOffered, TakerIds, TakenBy;
    var lists, types := TeamLists(offers, task, day), TypesOffered(offers);
    InCartesian(lists, ids);
    if |ids| == |types| {
      forall k | 0 <= k < |ids| ensures ids[k] in lists[k] <==> TakenBy(offers, task, types[k], day, ids[k]) {
        TakerIdsMean(offers, task, types[k], day, ids[k]);
      }
    }
  }

  /** A technician and a vessel, free every day: the only team has both, the technician first. */
  lemma TechnicianAndVessel(ids: seq<string>)
    ensures var free := seq(30, _ => 1);
            var offers := [Offer(Technician, "t", 0, 0, free), Offer(Vessel, "v", 0, 0, free)];
            Team(offers, Task((1, 31), 2), 1, ids) <==> ids == ["t", "v"]
  {
    var free := seq(30, _ => 1);
    var offers := [Offer(Technician, "t", 0, 0, free), Offer(Vessel, "v", 0, 0, free)];
    var task := Task((1, 31), 2);
    assert offers[0].kind == Technician && offers[1].kind == Vessel;
    assert TypesOffered(offers) == [Technician, Vessel];
    assert CanTake(offers[0], task, 1) && CanTake(offers[1], task, 1);
    forall id
      ensures TakenBy(offers, task, Technician, 1, id) <==> id == "t"
      ensures TakenBy(offers, task, Vessel, 1, id) <==> id == "v"
    {
      hide CanTake;
      assert offers[0].id == "t" && offers[1].id == "v";
    }
    hide TypesOffered, TakenBy;
  }

  // ----- The suppliers that answer -------------------------------------------------------------

  ghost predicate Answers(s: Supplier, o: Offer, task: Task) {
    && s.kind == o.kind && s.id == o.id && s.cost == o.cost && s.reputation == o.reputation
    && MarksStarts(s.availability, o.calendar, task.timeWindow, task.length)
  }

  ghost predicate AllAnswer(suppliers: seq<Supplier>, offers: seq<Offer>, task: Task) {
    |suppliers| == |offers| && forall i :: 0 <= i < |offers| ==> Answers(suppliers[i], offers[i], task)
  }

  /** requestAvailability, from the point where the files are parsed. */
  method RequestAvailability(offers: seq<Offer>, task: Task) returns (suppliers: seq<Supplier>)
    ensures AllAnswer(suppliers, offers, task)
  {
    hide MarksStarts;
    suppliers := [];
    for i := 0 to |offers|
      invariant |suppliers| == i
      invariant forall k :: 0 <= k < i ==> Answers(suppliers[k], offers[k], task)
    {
      var o := offers[i];
      var availability := SuitabilityFinder(Some(o.calendar), task.timeWindow, task.length);
      suppliers := suppliers + [Supplier(o.kind, o.id, availability, o.cost, o.reputation)];
    }
  }

  lemma AnswerMeans(s: Supplier, o: Offer, task: Task, day: nat)
    requires Answers(s, o, task)
    ensures DayNumbers(s)
    ensures Available(s, day) <==> CanTake(o, task, day)
  {
  }

  lemma AnswersAreDays(suppliers: seq<Supplier>, offers: seq<Offer>, task: Task)
    requires AllAnswer(suppliers, offers, task)
    ensures forall s :: s in suppliers ==> DayNumbers(s)
  {
    hide Answers, DayNumbers;
    forall s | s in suppliers ensures DayNumbers(s) {
      var i :| 0 <= i < |suppliers| && suppliers[i] == s;
      AnswerMeans(s, offers[i], task, 0);
    }
  }

  /** The folder of a type lists, for a day, the ids of the offers of that type that can be taken. */
  lemma {:induction false} FolderListsTakers(suppliers: seq<Supplier>, offers: seq<Offer>, task: Task, kind: SupplierType, day: nat)
    requires AllAnswer(suppliers, offers, task)
    ensures IdsOn(OfType(suppliers, kind), day) == TakerIds(offers, task, kind, day)
    ensures |OfType(suppliers, kind)| > 0 <==> Offered(offers, kind)
    ensures AnyOn(OfType(suppliers, kind), day) <==> Taken(offers, task, kind, day)
    decreases |suppliers|
  {
    hide Answers, Available, CanTake, OfType, IdsOn, AnyOn, Taken, Offered, TakerIds;
    if |suppliers| > 0 {
      var n := |suppliers| - 1;
      FolderListsTakers(suppliers[..n], offers[..n], task, kind, day);
      SameKind(suppliers, offers, task, n);
      AnswerMeans(suppliers[n], offers[n], task, day);
      OfferedSnoc(offers, task, kind, day);
      TakerIdsSnoc(offers, task, kind, day);
      FolderSnoc(suppliers, kind, day);
    } else {
      NothingOffered(suppliers, offers, task, kind, day);
    }
  }

  lemma NothingOffered(suppliers: seq<Supplier>, offers: seq<Offer>, task: Task, kind: SupplierType, day: nat)
    requires |suppliers| == |offers| == 0
    ensures OfType(suppliers, kind) == [] && IdsOn(OfType(suppliers, kind), day) == [] == TakerIds(offers, task, kind, day)
    ensures !Offered(offers, kind) && !AnyOn(OfType(suppliers, kind), day) && !Taken(offers, task, kind, day)
  {
  }

  lemma TakerIdsSnoc(offers: seq<Offer>, task: Task, kind: SupplierType, day: nat)
    requires |offers| > 0
    ensures var n := |offers| - 1;
            TakerIds(offers, task, kind, day)
              == TakerIds(offers[..n], task, kind, day) + if offers[n].kind == kind && CanTake(offers[n], task, day) then [offers[n].id] else []
  {
    hide CanTake;
  }

  /** What one more supplier adds to the folder of a type. */
  lemma FolderSnoc(suppliers: seq<Supplier>, kind: SupplierType, day: nat)
    requires |suppliers| > 0
    ensures var n := |suppliers| - 1;
            var before, after, s := OfType(suppliers[..n], kind), OfType(suppliers, kind), suppliers[n];
            && (|after| > 0 <==> |before| > 0 || s.kind == kind)
            && IdsOn(after, day) == IdsOn(before, day) + (if s.kind == kind && Available(s, day) then [s.id] else [])
            && (AnyOn(after, day) <==> AnyOn(before, day) || (s.kind == kind && Available(s, day)))
  {
    hide Available, IdsOn, AnyOn;
    var n := |suppliers| - 1;
    var folder := OfType(suppliers[..n], kind);
    if suppliers[n].kind == kind {
      var longer := folder + [suppliers[n]];
      IdsKeepOrder(folder, [suppliers[n]], day);
      IdsOnOne(suppliers[n], day);
      AnyOnSnoc(longer, |folder|, day);
      assert longer[..|folder|] == folder && longer[..|folder| + 1] == longer;
      assert longer[|folder|] == suppliers[n] && OfType(suppliers, kind) == longer;
    } else {
      assert OfType(suppliers, kind) == folder;
    }
  }

  lemma OfferedSnoc(offers: seq<Offer>, task: Task, kind: SupplierType, day: nat)
    requires |offers| > 0
    ensures var n := |offers| - 1;
            && (Offered(offers, kind) <==> Offered(offers[..n], kind) || offers[n].kind == kind)
            && (Taken(offers, task, kind, day) <==>
                  Taken(offers[..n], task, kind, day) || (offers[n].kind == kind && CanTake(offers[n], task, day)))
  {
    hide CanTake;
    var n := |offers| - 1;
    if Offered(offers[..n], kind) {
      var i :| 0 <= i < n && offers[..n][i].kind == kind;
      assert offers[i].kind == kind;
    }
    if Offered(offers, kind) {
      var i :| 0 <= i <= n && offers[i].kind == kind;
      if i < n { assert offers[..n][i].kind == kind; }
    }
    if Taken(offers[..n], task, kind, day) {
      var i :| 0 <= i < n && offers[..n][i].kind == kind && CanTake(offers[..n][i], task, day);
      assert offers[i] == offers[..n][i];
    }
    if Taken(offers, task, kind, day) {
      var i :| 0 <= i <= n && offers[i].kind == kind && CanTake(offers[i], task, day);
      if i < n { assert offers[..n][i] == offers[i]; }
    }
  }

  lemma SameKind(suppliers: seq<Supplier>, offers: seq<Offer>, task: Task, i: nat)
    requires AllAnswer(suppliers, offers, task) && i < |offers|
    ensures suppliers[i].kind == offers[i].kind && suppliers[i].id == offers[i].id && Answers(suppliers[i], offers[i], task)
    ensures PreferenceOf(suppliers[i]) == Preference(offers[i].cost, offers[i].reputation, offers[i].kind)
  {
  }

  // ----- From folders back to offers -----------------------------------------------------------

  ghost predicate Filed(folders: Structure, suppliers: seq<Supplier>) {
    forall c :: 0 <= c < 4 ==> folders[c] == OfType(suppliers, TYPES[c])
  }

  lemma ViableIsCommonStart(folders: Structure, suppliers: seq<Supplier>, offers: seq<Offer>, task: Task, day: nat)
    requires AllAnswer(suppliers, offers, task) && Filed(folders, suppliers)
    ensures Viable(folders, day) <==> CommonStart(offers, task, day)
  {
    hide AllAnswer, AnyOn, Taken, Offered, OfType, IdsOn, TakerIds;
    forall c | 0 <= c < 4
      ensures TYPES[c] != Other
      ensures |folders[c]| > 0 <==> Offered(offers, TYPES[c])
      ensures AnyOn(folders[c], day) <==> Taken(offers, task, TYPES[c], day)
    {
      FolderListsTakers(suppliers, offers, task, TYPES[c], day);
    }
    if Viable(folders, day) {
      var c :| 0 <= c < 4 && |folders[c]| > 0;
      assert Offered(offers, TYPES[c]);
      forall kind | kind != Other && Offered(offers, kind) ensures Taken(offers, task, kind, day) {
        var e := FolderOf(kind);
        assert |folders[e]| > 0;
      }
    }
    if CommonStart(offers, task, day) {
      var kind :| kind != Other && Offered(offers, kind);
      var e := FolderOf(kind);
      assert |folders[e]| > 0;
    }
  }

  lemma FolderOf(kind: SupplierType) returns (c: nat)
    requires kind != Other
    ensures c < 4 && TYPES[c] == kind
  {
    c := Folder(kind).value;
  }

  /** The lists of a viable day are those of the teams. */
  lemma ListsAreTeamLists(folders: Structure, suppliers: seq<Supplier>, offers: seq<Offer>, task: Task, day: nat)
    requires AllAnswer(suppliers, offers, task) && Filed(folders, suppliers) && Viable(folders, day)
    ensures ListsOf(Listing(folders, day), 4) == TeamLists(offers, task, day)
  {
    hide Viable, Listing, AllAnswer, Filed, ListFor, ListsOf;
    ListOfType(folders, suppliers, offers, task, day, 0);
    ListOfType(folders, suppliers, offers, task, day, 1);
    ListOfType(folders, suppliers, offers, task, day, 2);
    ListOfType(folders, suppliers, offers, task, day, 3);
    FourLists(Listing(folders, day));
  }

  function ListAt(row: map<nat, seq<string>>, c: nat): seq<seq<string>> {
    if c in row then [row[c]] else []
  }

  lemma FourLists(row: map<nat, seq<string>>)
    ensures ListsOf(row, 4) == ListAt(row, 0) + ListAt(row, 1) + ListAt(row, 2) + ListAt(row, 3)
  {
    assert ListsOf(row, 1) == ListAt(row, 0);
    assert ListsOf(row, 2) == ListsOf(row, 1) + ListAt(row, 1);
    assert ListsOf(row, 3) == ListsOf(row, 2) + ListAt(row, 2);
  }

  lemma ListOfType(folders: Structure, suppliers: seq<Supplier>, offers: seq<Offer>, task: Task, day: nat, c: nat)
    requires AllAnswer(suppliers, offers, task) && Filed(folders, suppliers) && Viable(folders, day) && c < 4
    ensures ListAt(Listing(folders, day), c) == ListFor(offers, task, TYPES[c], day)
  {
    hide AllAnswer, OfType, TakerIds, Offered, IdsOn, Taken, AnyOn;
    FolderListsTakers(suppliers, offers, task, TYPES[c], day);
    PresentIsNonEmpty(folders, day, c);
  }

  // ----- The whole pipeline ---------------------------------------------------------------------

  datatype Outcome = Outcome(day: Option<nat>, teams: seq<seq<string>>, prefs: Preferences)

  /** An id that can take a part of the task on some day. */
  ghost predicate EverTaken(offers: seq<Offer>, task: Task, id: string) {
    exists day: nat, kind: SupplierType :: kind != Other && TakenBy(offers, task, kind, day, id)
  }

  /** What is recorded is what some offer with this id says. */
  ghost predicate FromOffer(offers: seq<Offer>, id: string, p: Preference) {
    exists i :: 0 <= i < |offers| && offers[i].id == id && p == Preference(offers[i].cost, offers[i].reputation, offers[i].kind)
  }

  /** The day returned is the earliest common start of all types offered, and none exactly if there
      is no such day. The sets returned are the combinations of those who can start that day, which
      are exactly the teams. Preference data are kept for exactly the ids that can take part on some
      day, and come from the offers. An offer of unknown type is an error. */
  method SelectSuppliers(offers: seq<Offer>, task: Task) returns (result: Option<Outcome>)
    ensures result == None <==> exists i :: 0 <= i < |offers| && offers[i].kind == Other
    ensures result.Some? && result.value.day == None ==> result.value.teams == [] && forall d: nat :: !CommonStart(offers, task, d)
    ensures result.Some? && result.value.day.Some? ==>
        var day := result.value.day.value;
        && CommonStart(offers, task, day)
        && (forall d: nat :: CommonStart(offers, task, d) ==> day <= d)
        && result.value.teams == Cartesian(TeamLists(offers, task, day))
        && forall ids :: ids in result.value.teams <==> Team(offers, task, day, ids)
    ensures result.Some? ==> forall id :: id in result.value.prefs <==> EverTaken(offers, task, id)
    ensures result.Some? ==> forall id :: id in result.value.prefs ==> FromOffer(offers, id, result.value.prefs[id])
  {
    hide AllAnswer, Filed, WellFiled, Viable, CommonStart, Listing, Cartesian, ListsOf, TeamLists, Team, OfType, RecordUpTo,
      LastDay, EverTaken, FromOffer;
    var suppliers := RequestAvailability(offers, task);
    AnswersAreDays(suppliers, offers, task);
    UnknownKinds(suppliers, offers, task);
    var filed := PartitionSuppliers(suppliers);
    if filed == None {
      return None;
    }
    var folders := filed.value;
    IsFiled(folders, suppliers);
    PartitionIsWellFiled(suppliers, folders);
    forall d: nat ensures Viable(folders, d) <==> CommonStart(offers, task, d) {
      ViableIsCommonStart(folders, suppliers, offers, task, d);
    }
    var found, prefs := FindOverlappingDay(folders);
    forall id
      ensures id in prefs <==> EverTaken(offers, task, id)
      ensures id in prefs ==> FromOffer(offers, id, prefs[id])
    {
      PreferencesCover(folders, suppliers, offers, task, id);
    }
    var teams := CreateUniqueSets(found);
    if found == map[] {
      return Some(Outcome(None, teams, prefs));
    }
    var day := FirstKey(found);
    OneDay(found, day, Listing(folders, day));
    ViableHasLists(folders, day);
    ListsAreTeamLists(folders, suppliers, offers, task, day);
    forall ids ensures ids in teams <==> Team(offers, task, day, ids) {
      CombinationsAreTeams(offers, task, day, ids);
    }
    return Some(Outcome(Some(day), teams, prefs));
  }

  lemma UnknownKinds(suppliers: seq<Supplier>, offers: seq<Offer>, task: Task)
    requires AllAnswer(suppliers, offers, task)
    ensures (exists i :: 0 <= i < |suppliers| && suppliers[i].kind == Other) <==>
            (exists i :: 0 <= i < |offers| && offers[i].kind == Other)
  {
    hide Answers;
    forall i | 0 <= i < |offers| ensures suppliers[i].kind == offers[i].kind { SameKind(suppliers, offers, task, i); }
  }

  lemma IsFiled(folders: Structure, suppliers: seq<Supplier>)
    requires folders == [OfType(suppliers, Port), OfType(suppliers, Spare), OfType(suppliers, Technician), OfType(suppliers, Vessel)]
    ensures Filed(folders, suppliers) && forall c :: 0 <= c < 4 ==> folders[c] == OfType(suppliers, TYPES[c])
  {
    hide OfType;
  }

  lemma OneDay(found: Container, day: nat, row: map<nat, seq<string>>)
    requires found == map[day := row]
    ensures |found| == 1 && day in found && found[day] == row
  {
  }

  lemma ViableHasLists(folders: Structure, day: nat)
    requires Viable(folders, day)
    ensures ListsOf(Listing(folders, day), 4) != []
  {
    var e :| 0 <= e < 4 && |folders[e]| > 0;
    hide Viable, Listing, ListsOf;
    ListsOfCategory(folders, day, 4, e);
  }

  lemma PreferencesCover(folders: Structure, suppliers: seq<Supplier>, offers: seq<Offer>, task: Task, id: string)
    requires AllAnswer(suppliers, offers, task) && Filed(folders, suppliers)
    ensures id in RecordUpTo(folders, LastDay(folders)) <==> EverTaken(offers, task, id)
    ensures var prefs := RecordUpTo(folders, LastDay(folders)); id in prefs ==> FromOffer(offers, id, prefs[id])
  {
    hide AllAnswer, OfType, LastDay, RecordUpTo, TakenBy, Offers, FromOffer, Names;
    PreferencesMean(folders, LastDay(folders), id);
    if id in RecordUpTo(folders, LastDay(folders)) {
      var p := RecordUpTo(folders, LastDay(folders))[id];
      var d :| 1 <= d <= LastDay(folders) && NamedBy(folders, d, 4, id, p);
      var e :| 0 <= e < 4 && Names(folders[e], d, id, p);
      NamesOffer(suppliers, offers, task, TYPES[e], d, id, p);
      var day :| 1 <= day <= LastDay(folders) && OfferedBy(folders, day, 4, id);
      var c :| 0 <= c < 4 && Offers(folders[c], day, id);
      IdsMean(suppliers, offers, task, TYPES[c], day, id);
      assert TYPES[c] != Other;
    }
    if EverTaken(offers, task, id) {
      var day: nat, kind :| kind != Other && TakenBy(offers, task, kind, day, id);
      var c := FolderOf(kind);
      IdsMean(suppliers, offers, task, kind, day, id);
      OfferedDay(folders, c, day, id);
      assert OfferedBy(folders, day, 4, id);
    }
  }

  lemma IdsMean(suppliers: seq<Supplier>, offers: seq<Offer>, task: Task, kind: SupplierType, day: nat, id: string)
    requires AllAnswer(suppliers, offers, task)
    ensures Offers(OfType(suppliers, kind), day, id) <==> TakenBy(offers, task, kind, day, id)
  {
    hide AllAnswer, OfType, Offers, TakenBy, IdsOn, TakerIds;
    FolderListsTakers(suppliers, offers, task, kind, day);
    IdsOnMeans(OfType(suppliers, kind), day, id);
    TakerIdsMean(offers, task, kind, day, id);
  }

  lemma NamesOffer(suppliers: seq<Supplier>, offers: seq<Offer>, task: Task, kind: SupplierType, day: nat, id: string, p: Preference)
    requires AllAnswer(suppliers, offers, task) && Names(OfType(suppliers, kind), day, id, p)
    ensures FromOffer(offers, id, p)
  {
    hide OfType, Available, Answers, MarksStarts;
    var folder := OfType(suppliers, kind);
    var k :| 0 <= k < |folder| && Available(folder[k], day) && folder[k].id == id && PreferenceOf(folder[k]) == p;
    FolderMembers(suppliers, kind, folder[k]);
    var i :| 0 <= i < |suppliers| && suppliers[i] == folder[k];
    SameKind(suppliers, offers, task, i);
  }

  lemma OfferedDay(folders: Structure, c: nat, day: nat, id: string)
    requires c < 4 && Offers(folders[c], day, id)
    ensures 1 <= day <= LastDay(folders)
  {
    assert c in Present(folders, day);
    if day > LastDay(folders) { NobodyAfter(folders, day); }
  }
}
