/** The section_offerings table and SectionOfferingController's index, store,
    update and destroy on it. */
module SectionOfferings {
  import opened Wrappers
  import opened Text
  import opened Schedules
  import opened Records

  // ---------------------------------------------------------------------
  // store (lines 74-121)

  datatype OfferingRequest = OfferingRequest(programId: Option<nat>, academicYear: Option<string>,
                                             semester: Option<string>, yearLevel: Option<string>,
                                             parentSection: Option<string>, subjectId: Option<nat>,
                                             slots: Option<int>, lec: Option<int>, lab: Option<int>)

  /** Every required key is present. */
  predicate Complete(req: OfferingRequest) {
    req.programId.Some? && req.academicYear.Some? && req.semester.Some? && req.yearLevel.Some?
    && req.parentSection.Some? && req.subjectId.Some?
  }

  /** The rules of lines 76-86. */
  predicate ValidOfferingRequest(req: OfferingRequest, catalog: Catalog) {
    req.programId.Some? && req.programId.value in catalog.programs
    && Filled(req.academicYear) && Filled(req.semester) && Filled(req.yearLevel) && Filled(req.parentSection)
    && req.subjectId.Some? && req.subjectId.value in catalog.subjects
    && NonNegative(req.slots) && NonNegative(req.lec) && NonNegative(req.lab)
  }

  /** The six columns that identify an offering (lines 97-104). */
  datatype OfferingKey = OfferingKey(programId: nat, academicYear: string, semester: string,
                                     yearLevel: string, parentSection: string, subjectId: nat)

  function KeyOf(o: Offering): OfferingKey {
    OfferingKey(o.programId, o.academicYear, o.semester, o.yearLevel, o.parentSection, o.subjectId)
  }

  function RequestKey(req: OfferingRequest): OfferingKey
    requires Complete(req)
  {
    OfferingKey(req.programId.value, req.academicYear.value, req.semester.value, req.yearLevel.value,
                req.parentSection.value, req.subjectId.value)
  }

  /** The row `SectionOffering::create($request->all())` writes: the fillable
      columns, and no schedule rows yet. */
  function NewOffering(req: OfferingRequest): (o: Offering)
    requires Complete(req)
    ensures KeyOf(o) == RequestKey(req) && o.schedules == []
    ensures o.slots == req.slots && o.lec == req.lec && o.lab == req.lab
  {
    Offering(req.programId.value, req.academicYear.value, req.semester.value, req.yearLevel.value,
             req.parentSection.value, req.subjectId.value, req.slots, req.lec, req.lab, [])
  }

  /** No two offerings share the six identifying columns. */
  predicate UniqueKeys(offerings: map<nat, Offering>) {
    forall i, j | i in offerings && j in offerings && i != j :: KeyOf(offerings[i]) != KeyOf(offerings[j])
  }

  predicate KeyTaken(offerings: map<nat, Offering>, key: OfferingKey) {
    exists id | id in offerings :: KeyOf(offerings[id]) == key
  }

  /** The status store answers: 422, 409 or 201. */
  function OfferingStoreStatus(req: OfferingRequest, offerings: map<nat, Offering>, catalog: Catalog): (status: int)
    ensures status == 422 <==> !ValidOfferingRequest(req, catalog)
    ensures status == 409 <==> ValidOfferingRequest(req, catalog) && KeyTaken(offerings, RequestKey(req))
    ensures status == 201 <==> ValidOfferingRequest(req, catalog) && !KeyTaken(offerings, RequestKey(req))
  {
    if !ValidOfferingRequest(req, catalog) then 422
    else if KeyTaken(offerings, RequestKey(req)) then 409
    else 201
  }

  /** A store that creates keeps the identifying columns unique. */
  lemma StoreKeepsKeysUnique(req: OfferingRequest, offerings: map<nat, Offering>, catalog: Catalog, newId: nat)
    requires UniqueKeys(offerings) && newId !in offerings
    requires OfferingStoreStatus(req, offerings, catalog) == 201
    ensures UniqueKeys(offerings[newId := NewOffering(req)])
  {
    var o := NewOffering(req);
    var m := offerings[newId := o];
    forall i, j | i in m && j in m && i != j ensures KeyOf(m[i]) != KeyOf(m[j]) {
      if i == newId {
        assert m[j] == offerings[j];
      } else if j == newId {
        assert m[i] == offerings[i];
      } else {
        assert m[i] == offerings[i] && m[j] == offerings[j];
      }
    }
  }

  // ---------------------------------------------------------------------
  // update (lines 146-214)

  /** One element of the `schedules` array of the request. */
  datatype ScheduleInput = ScheduleInput(day: Option<string>, startTime: Option<string>,
                                         endTime: Option<string>, room: Option<string>)

  /** The `schedules` key: left out, given as null, or given as a list. */
  datatype SchedulesField = NoSchedules | NullSchedules | ScheduleList(items: seq<ScheduleInput>)

  /** `schedules.*.day` required, `schedules.*.start_time` and `end_time`
      required with `date_format:H:i` (lines 168-170). */
  predicate ValidEntry(e: ScheduleInput) {
    Filled(e.day)
    && Filled(e.startTime) && ParseHHMM(e.startTime.value).Some?
    && Filled(e.endTime) && ParseHHMM(e.endTime.value).Some?
  }

  datatype OfferingPatch = OfferingPatch(programId: Field<nat>, academicYear: Field<string>, semester: Field<string>,
                                         yearLevel: Field<string>, parentSection: Field<string>, subjectId: Field<nat>,
                                         slots: Field<int>, lec: Field<int>, lab: Field<int>,
                                         schedules: SchedulesField)

  /** `sometimes|required|string`: when given, filled. */
  predicate GivenFilled(f: Field<string>) { f.Absent? || Filled(f.value) }

  /** `sometimes|required|exists`: when given, an existing id. */
  predicate GivenExisting<T>(f: Field<nat>, m: map<nat, T>) { f.Absent? || (f.value.Some? && f.value.value in m) }

  predicate GivenNonNegative(f: Field<int>) { f.Absent? || NonNegative(f.value) }

  /** The rules of lines 157-171. */
  predicate ValidPatch(p: OfferingPatch, catalog: Catalog) {
    GivenExisting(p.programId, catalog.programs) && GivenExisting(p.subjectId, catalog.subjects)
    && GivenFilled(p.academicYear) && GivenFilled(p.semester) && GivenFilled(p.yearLevel) && GivenFilled(p.parentSection)
    && GivenNonNegative(p.slots) && GivenNonNegative(p.lec) && GivenNonNegative(p.lab)
    && (p.schedules.ScheduleList? ==> forall i | 0 <= i < |p.schedules.items| :: ValidEntry(p.schedules.items[i]))
  }

  function AssignRequired<T>(f: Field<T>, current: T): T {
    if f.Given? && f.value.Some? then f.value.value else current
  }

  /** `$sectionOffering->update($request->except('schedules'))`. */
  function PatchOffering(o: Offering, p: OfferingPatch): Offering {
    o.(programId := AssignRequired(p.programId, o.programId),
       academicYear := AssignRequired(p.academicYear, o.academicYear),
       semester := AssignRequired(p.semester, o.semester),
       yearLevel := AssignRequired(p.yearLevel, o.yearLevel),
       parentSection := AssignRequired(p.parentSection, o.parentSection),
       subjectId := AssignRequired(p.subjectId, o.subjectId),
       slots := Assign(p.slots, o.slots), lec := Assign(p.lec, o.lec), lab := Assign(p.lab, o.lab))
  }

  /** The schedule row that `schedules()->create($schedule)` writes as the code
      stands: `room` is not fillable, so it is dropped. */
  function CreatedEntryAsWritten(e: ScheduleInput): (r: ScheduleEntry)
    ensures r.room.None?
  {
    CreatedEntry(e).(room := None)
  }

  /** A room given with a schedule never reaches its rendering. */
  lemma RoomDroppedExample()
    ensures var e := ScheduleInput(Some("Mon"), Some("08:00"), Some("09:30"), Some("R101"));
            ValidEntry(e) && RoomPart(e.room) == " (R101)" && RoomPart(CreatedEntryAsWritten(e).room) == ""
  {
    var e := ScheduleInput(Some("Mon"), Some("08:00"), Some("09:30"), Some("R101"));
    FilledFirst("Mon");
    FilledFirst("08:00");
    FilledFirst("09:30");
    assert DigitsValue("08") == 8 by { assert "08"[..1] == "0"; assert "0"[..0] == ""; }
    assert DigitsValue("09") == 9 by { assert "09"[..1] == "0"; assert "0"[..0] == ""; }
    assert DigitsValue("00") == 0 by { assert "00"[..1] == "0"; assert "0"[..0] == ""; }
    assert DigitsValue("30") == 30 by { assert "30"[..1] == "3"; assert "3"[..0] == ""; }
    assert "08:00"[..2] == "08" && "08:00"[3..] == "00";
    assert "09:30"[..2] == "09" && "09:30"[3..] == "30";
  }

  /** The schedule row the update evidently means to write: the given day, the
      parsed times and the given room. */
  function CreatedEntry(e: ScheduleInput): (r: ScheduleEntry)
    ensures r.room == e.room && r.day == e.day.GetOr("")
  {
    // Only a validated entry is created; the defaults are never used.
    ScheduleEntry(e.day.GetOr(""), ParseHHMM(e.startTime.GetOr("")).GetOr(Time(0, 0)),
                  ParseHHMM(e.endTime.GetOr("")).GetOr(Time(0, 0)), e.room)
  }

  /** The stored times format back to the given H:i strings. */
  lemma CreatedEntryTimes(e: ScheduleInput)
    requires ValidEntry(e)
    ensures FormatHHMM(CreatedEntry(e).start) == e.startTime.value
    ensures FormatHHMM(CreatedEntry(e).end) == e.endTime.value
  {
    HHMMRoundTrip(CreatedEntry(e).start, e.startTime.value);
    HHMMRoundTrip(CreatedEntry(e).end, e.endTime.value);
  }

  /** The rows the foreach of lines 192-194 creates, in order. */
  function CreatedEntries(items: seq<ScheduleInput>): (r: seq<ScheduleEntry>)
    ensures |r| == |items|
    ensures forall i | 0 <= i < |items| :: r[i] == CreatedEntry(items[i])
  {
    if items == [] then []
    else
      var n := |items| - 1;
      var prev := CreatedEntries(items[..n]);
      var r := prev + [CreatedEntry(items[n])];
      assert forall i | 0 <= i < n :: r[i] == prev[i];
      r
  }

  lemma CreatedEntriesStep(items: seq<ScheduleInput>, i: nat)
    requires i < |items|
    ensures CreatedEntries(items[..i + 1]) == CreatedEntries(items[..i]) + [CreatedEntry(items[i])]
  {
    assert items[..i + 1][..i] == items[..i];
  }

  /** How many writes the transaction makes: the field update, then (when
      `schedules` is given) the deletion and one create per entry. A null list
      is deleted and then fails in the foreach. */
  function WriteCount(s: SchedulesField): nat {
    match s
    case NoSchedules => 1
    case NullSchedules => 2
    case ScheduleList(items) => 2 + |items|
  }

  /** The transaction fails: the write numbered `fault` raises, or the
      foreach is handed null. */
  predicate Fails(s: SchedulesField, fault: Option<nat>) {
    s.NullSchedules? || (fault.Some? && fault.value < WriteCount(s))
  }

  /** The offering after a committed update. */
  function UpdatedOffering(o: Offering, p: OfferingPatch): Offering
  {
    var patched := PatchOffering(o, p);
    if p.schedules.ScheduleList? then patched.(schedules := CreatedEntries(p.schedules.items)) else patched
  }

  datatype OfferingUpdate = UpdatedTo(offering: Offering) | OfferingNotFound | UpdateRejected | RolledBack

  function OfferingUpdateOf(id: nat, p: OfferingPatch, offerings: map<nat, Offering>, catalog: Catalog,
                            fault: Option<nat>): OfferingUpdate {
    if id !in offerings then OfferingNotFound
    else if !ValidPatch(p, catalog) then UpdateRejected
    else if Fails(p.schedules, fault) then RolledBack
    else UpdatedTo(UpdatedOffering(offerings[id], p))
  }

  /** Given schedules replace the old ones, exactly and in order; without the
      key the schedules are kept. The other columns follow the patch. */
  lemma UpdateSchedules(o: Offering, p: OfferingPatch)
    requires p.schedules.ScheduleList? ==> forall i | 0 <= i < |p.schedules.items| :: ValidEntry(p.schedules.items[i])
    ensures var r := UpdatedOffering(o, p);
            (p.schedules.NoSchedules? ==> r.schedules == o.schedules)
            && (p.schedules.ScheduleList? ==>
                  |r.schedules| == |p.schedules.items|
                  && forall i | 0 <= i < |p.schedules.items| ::
                       p.schedules.items[i].day == Some(r.schedules[i].day)
                       && p.schedules.items[i].startTime == Some(FormatHHMM(r.schedules[i].start))
                       && p.schedules.items[i].endTime == Some(FormatHHMM(r.schedules[i].end))
                       && r.schedules[i].room == p.schedules.items[i].room)
            && r.slots == Assign(p.slots, o.slots)
            && (p.academicYear.Absent? ==> r.academicYear == o.academicYear)
  {
    if p.schedules.ScheduleList? {
      var items := p.schedules.items;
      forall i | 0 <= i < |items|
        ensures FormatHHMM(CreatedEntry(items[i]).start) == items[i].startTime.value
        ensures FormatHHMM(CreatedEntry(items[i]).end) == items[i].endTime.value
      {
        CreatedEntryTimes(items[i]);
      }
    }
  }

  /** update runs no duplicate check: it can give two offerings the same key. */
  lemma UpdateCanDuplicateKey()
    ensures var a := Offering(1, "2024", "First", "1", "A", 5, None, None, None, []);
            var b := a.(parentSection := "B");
            var offerings := map[1 := a, 2 := b];
            var p := OfferingPatch(Absent, Absent, Absent, Absent, Given(Some("A")), Absent, Absent, Absent, Absent, NoSchedules);
            var catalog := Catalog({}, map[], map[], map[]);
            UniqueKeys(offerings)
            && OfferingUpdateOf(2, p, offerings, catalog, None).UpdatedTo?
            && !UniqueKeys(offerings[2 := OfferingUpdateOf(2, p, offerings, catalog, None).offering])
  {
    var a := Offering(1, "2024", "First", "1", "A", 5, None, None, None, []);
    var b := a.(parentSection := "B");
    var offerings := map[1 := a, 2 := b];
    var p := OfferingPatch(Absent, Absent, Absent, Absent, Given(Some("A")), Absent, Absent, Absent, Absent, NoSchedules);
    var catalog := Catalog({}, map[], map[], map[]);
    assert "A" != "B";
    assert !IsTrimChar('A');
    var m := offerings[2 := OfferingUpdateOf(2, p, offerings, catalog, None).offering];
    assert KeyOf(m[1]) == KeyOf(m[2]);
  }

  // ---------------------------------------------------------------------
  // index (lines 16-69)

  /** The query keys of index; each given key adds an equality filter. */
  datatype IndexQuery = IndexQuery(programId: Field<nat>, academicYear: Field<string>, semester: Field<string>,
                                   yearLevel: Field<string>, parentSection: Field<string>, subjectId: Field<nat>,
                                   excludeAssigned: Field<string>)

  /** `where(col, v)` on a non-null column; `where(col, null)` matches nothing. */
  predicate FieldMatches<T(==)>(f: Field<T>, v: T) { f.Absent? || f.value == Some(v) }

  /** The same filter on a nullable column, where null matches null. */
  predicate FieldMatchesNullable<T(==)>(f: Field<T>, v: Option<T>) { f.Absent? || f.value == v }

  predicate MatchesFilters(o: Offering, q: IndexQuery) {
    FieldMatches(q.programId, o.programId) && FieldMatches(q.academicYear, o.academicYear)
    && FieldMatches(q.semester, o.semester) && FieldMatches(q.yearLevel, o.yearLevel)
    && FieldMatches(q.parentSection, o.parentSection) && FieldMatches(q.subjectId, o.subjectId)
  }

  predicate ExcludeRequested(q: IndexQuery) { q.excludeAssigned == Given(Some("true")) }

  /** The offering has a faculty load, in the given year and semester when those are given. */
  predicate AssignedInPeriod(id: nat, loads: map<nat, StoredLoad>, q: IndexQuery) {
    exists k | k in loads :: loads[k].offeringId == Some(id)
                             && FieldMatchesNullable(q.academicYear, loads[k].academicYear)
                             && FieldMatchesNullable(q.semester, loads[k].semester)
  }

  /** index as the code stands: SectionOffering defines no `facultyLoads`
      relation, so `whereDoesntHave('facultyLoads', …)` raises and the request
      fails (None); otherwise the filtered offerings. */
  function IndexAsWritten(offerings: map<nat, Offering>, q: IndexQuery): (r: Option<set<nat>>)
    ensures ExcludeRequested(q) <==> r.None?
  {
    if ExcludeRequested(q) then None
    else Some(set id | id in offerings && MatchesFilters(offerings[id], q))
  }

  /** index as evidently intended: with exclude_assigned=true the offerings
      that have a load in the period are dropped. */
  function Index(offerings: map<nat, Offering>, loads: map<nat, StoredLoad>, q: IndexQuery): set<nat> {
    set id | id in offerings && MatchesFilters(offerings[id], q) && !(ExcludeRequested(q) && AssignedInPeriod(id, loads, q))
  }

  /** index returns exactly the offerings that equal every given filter and,
      when exclusion is requested, have no load in the period. */
  lemma IndexMembers(offerings: map<nat, Offering>, loads: map<nat, StoredLoad>, q: IndexQuery, id: nat)
    ensures id in Index(offerings, loads, q) <==>
              id in offerings
              && (q.programId.Given? ==> q.programId.value == Some(offerings[id].programId))
              && (q.academicYear.Given? ==> q.academicYear.value == Some(offerings[id].academicYear))
              && (q.semester.Given? ==> q.semester.value == Some(offerings[id].semester))
              && (q.yearLevel.Given? ==> q.yearLevel.value == Some(offerings[id].yearLevel))
              && (q.parentSection.Given? ==> q.parentSection.value == Some(offerings[id].parentSection))
              && (q.subjectId.Given? ==> q.subjectId.value == Some(offerings[id].subjectId))
              && (ExcludeRequested(q) ==> forall k | k in loads && loads[k].offeringId == Some(id) ::
                                            !FieldMatchesNullable(q.academicYear, loads[k].academicYear)
                                            || !FieldMatchesNullable(q.semester, loads[k].semester))
  {
  }

  /** Without exclusion the intended index and the written one agree; with it
      the written one fails where the intended one answers. */
  lemma IndexAgreesWithoutExclusion(offerings: map<nat, Offering>, loads: map<nat, StoredLoad>, q: IndexQuery)
    ensures !ExcludeRequested(q) ==> IndexAsWritten(offerings, q) == Some(Index(offerings, loads, q))
    ensures ExcludeRequested(q) ==> IndexAsWritten(offerings, q).None?
  {
    if !ExcludeRequested(q) {
      var a := IndexAsWritten(offerings, q).value;
      var b := Index(offerings, loads, q);
      assert forall id :: id in a <==> id in b;
      assert a == b;
    }
  }

  /** Without filters index lists every offering. */
  lemma IndexUnfiltered(offerings: map<nat, Offering>, loads: map<nat, StoredLoad>)
    ensures Index(offerings, loads, IndexQuery(Absent, Absent, Absent, Absent, Absent, Absent, Absent)) == offerings.Keys
  {
  }

  // ---------------------------------------------------------------------
  // The table

  class OfferingTable {
    var offerings: map<nat, Offering>
    var nextId: nat

    ghost predicate Valid()
      reads this
    {
      nextId >= 1 && (forall id | id in offerings :: id < nextId)
    }

    constructor()
      ensures Valid() && offerings == map[] && nextId == 1
    {
      offerings := map[];
      nextId := 1;
    }

    /** store: 422 without change, 409 without change, or 201 with the new row. */
    method Store(req: OfferingRequest, catalog: Catalog) returns (status: int, id: nat)
      requires Valid()
      modifies this
      ensures Valid()
      ensures status == OfferingStoreStatus(req, old(offerings), catalog)
      ensures status == 201 ==> id == old(nextId) && nextId == old(nextId) + 1
                                && offerings == old(offerings)[id := NewOffering(req)]
      ensures status != 201 ==> offerings == old(offerings) && nextId == old(nextId)
      ensures old(UniqueKeys(offerings)) ==> UniqueKeys(offerings)
    {
      status := OfferingStoreStatus(req, offerings, catalog);
      id := 0;
      if status == 201 {
        if UniqueKeys(offerings) {
          StoreKeepsKeysUnique(req, offerings, catalog, nextId);
        }
        id := nextId;
        offerings := offerings[id := NewOffering(req)];
        nextId := nextId + 1;
      }
    }

    /** update inside a transaction: the write numbered `fault` (if any) raises
        and everything is rolled back. */
    method Update(id: nat, p: OfferingPatch, catalog: Catalog, fault: Option<nat>) returns (outcome: OfferingUpdate)
      requires Valid()
      modifies this
      ensures Valid() && nextId == old(nextId)
      ensures outcome == OfferingUpdateOf(id, p, old(offerings), catalog, fault)
      ensures outcome.UpdatedTo? ==> offerings == old(offerings)[id := outcome.offering]
      ensures !outcome.UpdatedTo? ==> offerings == old(offerings)
    {
      if id !in offerings {
        return OfferingNotFound;
      }
      if !ValidPatch(p, catalog) {
        return UpdateRejected;
      }
      var saved := offerings;
      if fault == Some(0) {
        offerings := saved;
        return RolledBack;
      }
      var patched := PatchOffering(offerings[id], p);
      offerings := offerings[id := patched];
      if !p.schedules.NoSchedules? {
        if fault == Some(1) {
          offerings := saved;
          return RolledBack;
        }
        offerings := offerings[id := patched.(schedules := [])];
        if p.schedules.NullSchedules? {
          offerings := saved;
          return RolledBack;
        }
        var items := p.schedules.items;
        var ok := CreateSchedules(id, patched, items, fault, saved);
        if !ok {
          offerings := saved;
          return RolledBack;
        }
      }
      outcome := UpdatedTo(offerings[id]);
    }

    /** The foreach of lines 192-194: one create per entry, in order, until the
        write numbered `fault` raises (the deletion was write 1). */
    method CreateSchedules(id: nat, patched: Offering, items: seq<ScheduleInput>, fault: Option<nat>,
                           ghost saved: map<nat, Offering>) returns (ok: bool)
      requires Valid() && id in saved && offerings == saved[id := patched.(schedules := [])]
      modifies this
      ensures Valid() && nextId == old(nextId)
      ensures ok <==> !(fault.Some? && 2 <= fault.value < 2 + |items|)
      ensures ok ==> offerings == saved[id := patched.(schedules := CreatedEntries(items))]
    {
      var created: seq<ScheduleEntry> := [];
      for i := 0 to |items|
        invariant created == CreatedEntries(items[..i])
        invariant offerings == saved[id := patched.(schedules := created)]
        invariant offerings.Keys == old(offerings).Keys
        invariant Valid() && nextId == old(nextId)
        invariant fault.Some? && 2 <= fault.value ==> fault.value >= 2 + i
      {
        if fault == Some(2 + i) {
          return false;
        }
        CreatedEntriesStep(items, i);
        created := created + [CreatedEntry(items[i])];
        offerings := offerings[id := patched.(schedules := created)];
      }
      assert items[..|items|] == items;
      ok := true;
    }

    /** destroy: 404 without change, or the row removed (its schedule rows go with it). */
    method Destroy(id: nat) returns (status: int)
      requires Valid()
      modifies this
      ensures Valid() && nextId == old(nextId)
      ensures id !in old(offerings) ==> status == 404 && offerings == old(offerings)
      ensures id in old(offerings) ==> status == 200 && offerings == old(offerings) - {id}
      ensures old(UniqueKeys(offerings)) ==> UniqueKeys(offerings)
    {
      if id !in offerings {
        return 404;
      }
      offerings := offerings - {id};
      status := 200;
    }
  }
}
