/** The faculty_loads table and FacultyLoadController's store, update and
    getFacultySections on it. */
module FacultyLoads {
  import opened Wrappers
  import opened Text
  import opened Schedules
  import opened Records
  import opened Enrichment
  import opened Sorting
  import opened DirectionalSuffix

  // ---------------------------------------------------------------------
  // store (lines 53-148)


  const LoadTypes: set<string> := {"Full-time", "Part-time"}

  /** The validation rules of store (lines 55-70). The validated input has the
      fields of a row, so a row value stands for it; a key left out of the
      request reads as null. */
  predicate ValidStore(req: StoredLoad, catalog: Catalog) {
    req.facultyId in catalog.users
    && IdExists(req.offeringId, catalog.offerings) && IdExists(req.subjectId, catalog.subjects)
    && FitsIn(req.code, 20) && FitsIn(req.description, 255)
    && NonNegative(req.lec) && NonNegative(req.lab) && NonNegative(req.units)
    && FitsIn(req.section, 50) && FitsIn(req.schedule, 100) && FitsIn(req.room, 50)
    && req.kind in LoadTypes
    && FitsIn(req.academicYear, 10) && FitsIn(req.semester, 20)
  }

  /** Lines 84-107: the offering's values override the request's; the request
      fills in only where the offering and its subject have nothing. */
  function DeriveFromOffering(req: StoredLoad, off: Offering, subject: Option<Subject>): StoredLoad {
    req.(subjectId := Some(off.subjectId),
         code := Coalesce(SubjectCode(subject), req.code),
         description := Coalesce(SubjectName(subject), req.description),
         lec := Some(Coalesce(off.lec, Coalesce(SubjectLec(subject), req.lec)).GetOr(0)),
         lab := Some(Coalesce(off.lab, Coalesce(SubjectLab(subject), req.lab)).GetOr(0)),
         units := Some(Coalesce(SubjectUnits(subject), req.units).GetOr(0)),
         // parent_section, academic_year and semester are non-null columns.
         section := Some(off.parentSection),
         academicYear := Some(off.academicYear),
         semester := Some(off.semester),
         schedule := if |off.schedules| > 0 then Some(RenderSchedule(off.schedules)) else req.schedule)
  }

  /** What store answers: insert a row, or reject with a status and message. */
  datatype Decision = Insert(row: StoredLoad) | Reject(status: int, message: string) | Invalid

  const MsgOfferingNotFound := "Section offering not found"
  const MsgCodeRequired := "Subject code is required when not linking to a section offering"
  const MsgDescriptionRequired := "Subject description is required when not linking to a section offering"
  const MsgDuplicate := "This subject is already assigned to this faculty for the selected academic period."

  /** The row store would write before the duplicate check (lines 73-120). */
  function Candidate(req: StoredLoad, catalog: Catalog): Decision {
    if IdFilled(req.offeringId) then
      if req.offeringId.value !in catalog.offerings then Reject(404, MsgOfferingNotFound)
      else
        var off := catalog.offerings[req.offeringId.value];
        Insert(DeriveFromOffering(req, off, Lookup(catalog.subjects, off.subjectId)))
    else if IsEmptyValue(req.code) then Reject(422, MsgCodeRequired)
    else if IsEmptyValue(req.description) then Reject(422, MsgDescriptionRequired)
    else Insert(req)
  }

  /** The duplicate query of lines 123-135: the same faculty and, for a linked
      load, the same offering, otherwise the same subject code, year and
      semester (`where(col, null)` matches null). */
  predicate SameAssignment(existing: StoredLoad, row: StoredLoad) {
    existing.facultyId == row.facultyId
    && if IdFilled(row.offeringId) then existing.offeringId == row.offeringId
       else existing.code == row.code && existing.academicYear == row.academicYear
            && existing.semester == row.semester
  }

  function StoreDecision(req: StoredLoad, rows: map<nat, StoredLoad>, catalog: Catalog): Decision {
    if !ValidStore(req, catalog) then Invalid
    else
      match Candidate(req, catalog)
      case Insert(row) =>
        if exists id | id in rows :: SameAssignment(rows[id], row) then Reject(422, MsgDuplicate)
        else Insert(row)
      case other => other
  }

  /** The validator checks that the offering exists, so the 404 of lines 76-80
      is never reached: every rejection of store is a 422. */
  lemma StoreRejectsWith422(req: StoredLoad, rows: map<nat, StoredLoad>, catalog: Catalog)
    ensures StoreDecision(req, rows, catalog).Reject? ==> StoreDecision(req, rows, catalog).status == 422
  {
  }

  /** The outcomes of store, case by case. */
  lemma StoreCases(req: StoredLoad, rows: map<nat, StoredLoad>, catalog: Catalog)
    ensures var d := StoreDecision(req, rows, catalog);
            (!ValidStore(req, catalog) <==> d.Invalid?)
            && (ValidStore(req, catalog) && !IdFilled(req.offeringId) && IsEmptyValue(req.code) ==> d == Reject(422, MsgCodeRequired))
            && (ValidStore(req, catalog) && !IdFilled(req.offeringId) && !IsEmptyValue(req.code)
                    && IsEmptyValue(req.description)
                ==> d == Reject(422, MsgDescriptionRequired))
            && (d.Insert? ==> (forall id | id in rows :: !SameAssignment(rows[id], d.row)) && d.row.facultyId == req.facultyId)
            && (d.Insert? && !IdFilled(req.offeringId) ==> d.row == req && !IsEmptyValue(req.code) && !IsEmptyValue(req.description))
            && (d == Reject(422, MsgDuplicate) ==> exists id | id in rows :: SameAssignment(rows[id], Candidate(req, catalog).row))
  {
  }

  /** A load created from an offering carries the offering's values: its
      section, year, semester, subject and, where the offering or subject has
      them, hours and schedule, whatever the request said. */
  lemma StoreLinkedOverrides(req: StoredLoad, rows: map<nat, StoredLoad>, catalog: Catalog)
    requires StoreDecision(req, rows, catalog).Insert? && IdFilled(req.offeringId)
    ensures var row := StoreDecision(req, rows, catalog).row;
            var off := catalog.offerings[req.offeringId.value];
            var subject := Lookup(catalog.subjects, off.subjectId);
            row.offeringId == req.offeringId && row.subjectId == Some(off.subjectId)
            && row.section == Some(off.parentSection)
            && row.academicYear == Some(off.academicYear) && row.semester == Some(off.semester)
            && (off.lec.Some? ==> row.lec == off.lec)
            && (off.lab.Some? ==> row.lab == off.lab)
            && (SubjectCode(subject).Some? ==> row.code == SubjectCode(subject))
            && (|off.schedules| > 0 ==> row.schedule == Some(RenderSchedule(off.schedules)))
            && (|off.schedules| == 0 ==> row.schedule == req.schedule)
            && row.lec.Some? && row.lab.Some? && row.units.Some?
  {
  }

  /** No row duplicates an earlier one (in id order). */
  predicate NoDuplicateAssignments(rows: map<nat, StoredLoad>) {
    forall i, j | i in rows && j in rows && i < j :: !SameAssignment(rows[i], rows[j])
  }

  /** Inserting what store decides, under a newId id, keeps the rows free of
      duplicates: a sequence of stores alone never creates one. */
  lemma StorePreservesNoDuplicates(req: StoredLoad, rows: map<nat, StoredLoad>, catalog: Catalog, newId: nat)
    requires NoDuplicateAssignments(rows)
    requires forall id | id in rows :: id < newId
    requires StoreDecision(req, rows, catalog).Insert?
    ensures NoDuplicateAssignments(rows[newId := StoreDecision(req, rows, catalog).row])
  {
    var row := StoreDecision(req, rows, catalog).row;
    var rows' := rows[newId := row];
    forall i, j | i in rows' && j in rows' && i < j ensures !SameAssignment(rows'[i], rows'[j]) {
      if j == newId {
        assert rows'[i] == rows[i];
      } else {
        assert i != newId && rows'[i] == rows[i] && rows'[j] == rows[j];
      }
    }
  }

  // ---------------------------------------------------------------------
  // update (lines 151-215)


  datatype UpdateRequest = UpdateRequest(offeringId: Field<nat>, code: Field<string>, description: Field<string>,
                                         lec: Field<int>, lab: Field<int>, units: Field<int>,
                                         section: Field<string>, schedule: Field<string>, room: Field<string>,
                                         kind: Field<string>, academicYear: Field<string>, semester: Field<string>)

  predicate FieldFits(f: Field<string>, n: nat) { f.Absent? || FitsIn(f.value, n) }
  predicate FieldNonNegative(f: Field<int>) { f.Absent? || NonNegative(f.value) }

  /** The validation rules of update (lines 159-172); `type` is `sometimes|required`. */
  predicate ValidUpdate(req: UpdateRequest, catalog: Catalog) {
    (req.offeringId.Absent? || IdExists(req.offeringId.value, catalog.offerings))
    && FieldFits(req.code, 20) && FieldFits(req.description, 255)
    && FieldNonNegative(req.lec) && FieldNonNegative(req.lab) && FieldNonNegative(req.units)
    && FieldFits(req.section, 50) && FieldFits(req.schedule, 100) && FieldFits(req.room, 50)
    && (req.kind.Absent? || (req.kind.value.Some? && req.kind.value.value in LoadTypes))
    && FieldFits(req.academicYear, 10) && FieldFits(req.semester, 20)
  }

  /** The row after `$facultyLoad->update($validated)` with the request as given. */
  function Patch(row: StoredLoad, req: UpdateRequest): StoredLoad {
    row.(offeringId := Assign(req.offeringId, row.offeringId),
         code := Assign(req.code, row.code), description := Assign(req.description, row.description),
         lec := Assign(req.lec, row.lec), lab := Assign(req.lab, row.lab), units := Assign(req.units, row.units),
         section := Assign(req.section, row.section), schedule := Assign(req.schedule, row.schedule),
         room := Assign(req.room, row.room),
         kind := if req.kind.Given? && req.kind.value.Some? then req.kind.value.value else row.kind,
         academicYear := Assign(req.academicYear, row.academicYear), semester := Assign(req.semester, row.semester))
  }

  /** The row after update. With a linked offering every derived field is
      written: the offering's value, else the request's, else the current one
      (lines 178-202), the reverse of enrichment's order. */
  function UpdatedRow(row: StoredLoad, req: UpdateRequest, catalog: Catalog): StoredLoad {
    var id := ValueOf(req.offeringId);
    var patched := Patch(row, req);
    if IdFilled(id) && id.value in catalog.offerings then
      var off := catalog.offerings[id.value];
      var subject := Lookup(catalog.subjects, off.subjectId);
      patched.(subjectId := Some(off.subjectId),
               code := Coalesce(SubjectCode(subject), Coalesce(ValueOf(req.code), row.code)),
               description := Coalesce(SubjectName(subject), Coalesce(ValueOf(req.description), row.description)),
               lec := Coalesce(off.lec, Coalesce(SubjectLec(subject), Coalesce(ValueOf(req.lec), row.lec))),
               lab := Coalesce(off.lab, Coalesce(SubjectLab(subject), Coalesce(ValueOf(req.lab), row.lab))),
               units := Coalesce(SubjectUnits(subject), Coalesce(ValueOf(req.units), row.units)),
               section := Some(off.parentSection),
               academicYear := Some(off.academicYear),
               semester := Some(off.semester),
               schedule := if |off.schedules| > 0 then Some(RenderSchedule(off.schedules))
                           else Coalesce(ValueOf(req.schedule), row.schedule))
    else patched
  }

  datatype UpdateDecision = Updated(row: StoredLoad) | NotFound | UpdateInvalid

  function UpdateDecisionOf(id: nat, req: UpdateRequest, rows: map<nat, StoredLoad>, catalog: Catalog): UpdateDecision {
    if id !in rows then NotFound
    else if !ValidUpdate(req, catalog) then UpdateInvalid
    else Updated(UpdatedRow(rows[id], req, catalog))
  }

  /** An empty update request changes nothing. */
  lemma EmptyUpdateKeepsRow(row: StoredLoad, catalog: Catalog)
    ensures UpdatedRow(row, UpdateRequest(Absent, Absent, Absent, Absent, Absent, Absent,
                                          Absent, Absent, Absent, Absent, Absent, Absent), catalog) == row
  {
  }

  /** Without an offering, the given keys are written as given (a null too)
      and the others are kept. */
  lemma UpdateManualWritesGiven(row: StoredLoad, req: UpdateRequest, catalog: Catalog)
    requires !IdFilled(ValueOf(req.offeringId))
    ensures var r := UpdatedRow(row, req, catalog);
            (req.code.Given? ==> r.code == req.code.value) && (req.code.Absent? ==> r.code == row.code)
            && (req.section.Given? ==> r.section == req.section.value) && (req.section.Absent? ==> r.section == row.section)
            && (req.lec.Given? ==> r.lec == req.lec.value) && (req.lec.Absent? ==> r.lec == row.lec)
            && (req.offeringId.Given? ==> r.offeringId == req.offeringId.value)
            && r.facultyId == row.facultyId && r.subjectId == row.subjectId
  {
  }

  /** With an offering the offering wins over the request, and the request over
      the current row. */
  lemma UpdateLinkedPrecedence(row: StoredLoad, req: UpdateRequest, catalog: Catalog)
    requires IdFilled(ValueOf(req.offeringId)) && ValueOf(req.offeringId).value in catalog.offerings
    ensures var off := catalog.offerings[ValueOf(req.offeringId).value];
            var r := UpdatedRow(row, req, catalog);
            (off.lec.Some? ==> r.lec == off.lec)
            && (off.lec.None? && SubjectLec(Lookup(catalog.subjects, off.subjectId)).None? && ValueOf(req.lec).Some? ==> r.lec == ValueOf(req.lec))
            && (off.lec.None? && SubjectLec(Lookup(catalog.subjects, off.subjectId)).None? && ValueOf(req.lec).None? ==> r.lec == row.lec)
            && r.section == Some(off.parentSection) && r.subjectId == Some(off.subjectId)
            && r.room == Assign(req.room, row.room)
  {
  }

  /** update runs no duplicate check: two loads that store kept apart can be
      made duplicates by an update. */
  lemma UpdateCanCreateDuplicate()
    ensures var a := StoredLoad(7, None, None, Some("IT101"), Some("Intro"), None, None, None,
                                None, None, None, "Part-time", Some("2024"), Some("First"));
            var b := a.(code := Some("IT102"));
            var rows := map[1 := a, 2 := b];
            var req := UpdateRequest(Absent, Given(Some("IT101")), Absent, Absent, Absent, Absent,
                                     Absent, Absent, Absent, Absent, Absent, Absent);
            var catalog := Catalog({7}, map[], map[], map[]);
            NoDuplicateAssignments(rows)
            && UpdateDecisionOf(2, req, rows, catalog).Updated?
            && !NoDuplicateAssignments(rows[2 := UpdateDecisionOf(2, req, rows, catalog).row])
  {
    var a := StoredLoad(7, None, None, Some("IT101"), Some("Intro"), None, None, None,
                        None, None, None, "Part-time", Some("2024"), Some("First"));
    var b := a.(code := Some("IT102"));
    var rows := map[1 := a, 2 := b];
    var req := UpdateRequest(Absent, Given(Some("IT101")), Absent, Absent, Absent, Absent,
                             Absent, Absent, Absent, Absent, Absent, Absent);
    var catalog := Catalog({7}, map[], map[], map[]);
    assert "IT101" != "IT102";
    var rows' := rows[2 := UpdateDecisionOf(2, req, rows, catalog).row];
    assert rows'[2] == a;
    assert SameAssignment(rows'[1], rows'[2]);
  }

  // ---------------------------------------------------------------------
  // getFacultySections (lines 281-312)

  /** What one load adds to the list: its label when it is not empty, else its
      stored section when that is not empty (lines 296-303). */
  function SectionOfLoad(load: StoredLoad, catalog: Catalog): (r: seq<string>)
    ensures |r| <= 1
  {
    var e := Enrich(load, LinkOf(load, catalog));
    if Truthy(e.formattedSection) then [e.formattedSection]
    else if !IsEmptyValue(load.section) then [load.section.value]
    else []
  }

  predicate InPeriod(load: StoredLoad, facultyId: nat, academicYear: string, semester: string) {
    load.facultyId == facultyId && load.academicYear == Some(academicYear) && load.semester == Some(semester)
  }

  /** What a loop over the ids below n pushes: the contribution of every
      selected row, in id order. */
  function Collect(rows: map<nat, StoredLoad>, n: nat, selected: StoredLoad -> bool,
                   contribution: StoredLoad -> seq<string>): seq<string>
  {
    if n == 0 then []
    else
      var prev := Collect(rows, n - 1, selected, contribution);
      if n - 1 in rows && selected(rows[n - 1]) then prev + contribution(rows[n - 1]) else prev
  }

  /** Every collected value comes from a selected row. */
  lemma {:induction false} CollectedFrom(rows: map<nat, StoredLoad>, n: nat, selected: StoredLoad -> bool,
                                         contribution: StoredLoad -> seq<string>, x: string) returns (id: nat)
    requires x in Collect(rows, n, selected, contribution)
    ensures id < n && id in rows && selected(rows[id]) && x in contribution(rows[id])
  {
    var prev := Collect(rows, n - 1, selected, contribution);
    if x in prev {
      id := CollectedFrom(rows, n - 1, selected, contribution, x);
    } else {
      id := n - 1;
    }
  }

  /** Every selected row below n has its contribution collected. */
  lemma {:induction false} CollectedIncludes(rows: map<nat, StoredLoad>, n: nat, selected: StoredLoad -> bool,
                                             contribution: StoredLoad -> seq<string>, id: nat, x: string)
    requires id < n && id in rows && selected(rows[id]) && x in contribution(rows[id])
    ensures x in Collect(rows, n, selected, contribution)
  {
    if id < n - 1 {
      CollectedIncludes(rows, n - 1, selected, contribution, id, x);
    }
  }

  /** The sections getFacultySections collects before its list pipeline. */
  function CollectSections(rows: map<nat, StoredLoad>, n: nat, facultyId: nat, academicYear: string,
                           semester: string, catalog: Catalog): seq<string>
  {
    Collect(rows, n, load => InPeriod(load, facultyId, academicYear, semester), load => SectionOfLoad(load, catalog))
  }

  /** One step of the loop of getFacultySections. */
  lemma CollectSectionsStep(rows: map<nat, StoredLoad>, n: nat, facultyId: nat, academicYear: string,
                            semester: string, catalog: Catalog)
    ensures CollectSections(rows, n + 1, facultyId, academicYear, semester, catalog)
            == if n in rows && InPeriod(rows[n], facultyId, academicYear, semester)
               then CollectSections(rows, n, facultyId, academicYear, semester, catalog) + SectionOfLoad(rows[n], catalog)
               else CollectSections(rows, n, facultyId, academicYear, semester, catalog)
  {
  }

  function StripAll(xs: seq<string>): (r: seq<string>)
    ensures |r| == |xs| && forall i | 0 <= i < |xs| :: r[i] == StripDirectionalSuffix(xs[i])
  {
    seq(|xs|, i requires 0 <= i < |xs| => StripDirectionalSuffix(xs[i]))
  }

  /** Collection::filter() without a callback: drops "" and "0". */
  function KeepTruthy(xs: seq<string>): (r: seq<string>)
    ensures forall x :: x in r <==> x in xs && Truthy(x)
  {
    if xs == [] then []
    else
      var rest := KeepTruthy(xs[1..]);
      assert forall x :: x in xs <==> x == xs[0] || x in xs[1..];
      if Truthy(xs[0]) then [xs[0]] + rest else rest
  }

  /** unique, sort, strip each, filter, unique, sort (lines 306-309). */
  function SectionList(collected: seq<string>): seq<string> {
    Sort(Distinct(KeepTruthy(StripAll(Sort(Distinct(collected))))))
  }

  lemma NoDuplicatesCount(s: seq<string>, x: string)
    requires NoDuplicates(s)
    ensures multiset(s)[x] <= 1
  {
    if s != [] {
      var n := |s| - 1;
      assert s == s[..n] + [s[n]];
      assert NoDuplicates(s[..n]) by {
        forall a, b | 0 <= a < b < n ensures s[..n][a] != s[..n][b] { assert s[..n][a] == s[a] && s[..n][b] == s[b]; }
      }
      NoDuplicatesCount(s[..n], x);
      if x == s[n] {
        assert x !in s[..n] by {
          forall a | 0 <= a < n ensures s[..n][a] != x { assert s[..n][a] == s[a]; }
        }
      }
    }
  }

  lemma RepeatedCount(t: seq<string>, a: nat, b: nat)
    requires a < b < |t| && t[a] == t[b]
    ensures multiset(t)[t[a]] >= 2
  {
    assert t == t[..b] + t[b..];
    assert t[a] in t[..b] by { assert t[..b][a] == t[a]; }
    assert t[b] in t[b..] by { assert t[b..][0] == t[b]; }
    assert multiset(t)[t[a]] == multiset(t[..b])[t[a]] + multiset(t[b..])[t[a]];
  }

  lemma NoDuplicatesPermutation(s: seq<string>, t: seq<string>)
    requires NoDuplicates(s) && multiset(s) == multiset(t)
    ensures NoDuplicates(t)
  {
    forall a, b | 0 <= a < b < |t| ensures t[a] != t[b] {
      if t[a] == t[b] {
        NoDuplicatesCount(s, t[a]);
        RepeatedCount(t, a, b);
        assert false;
      }
    }
  }

  lemma SortKeepsElements(s: seq<string>, x: string)
    ensures x in Sort(s) <==> x in s
  {
    assert x in Sort(s) <==> x in multiset(Sort(s));
    assert x in s <==> x in multiset(s);
  }

  /** x is the stripped form of some element of xs. */
  predicate StrippedFrom(x: string, xs: seq<string>) {
    exists y | y in xs :: x == StripDirectionalSuffix(y)
  }

  lemma StripAllMember(xs: seq<string>, x: string)
    ensures x in StripAll(xs) <==> StrippedFrom(x, xs)
  {
    var st := StripAll(xs);
    if x in st {
      var i :| 0 <= i < |st| && st[i] == x;
      assert xs[i] in xs;
    }
    if StrippedFrom(x, xs) {
      var y :| y in xs && x == StripDirectionalSuffix(y);
      var i :| 0 <= i < |xs| && xs[i] == y;
      assert st[i] == x;
    }
  }

  lemma StrippedFromSort(xs: seq<string>, x: string)
    ensures StrippedFrom(x, Sort(Distinct(xs))) <==> StrippedFrom(x, xs)
  {
    if StrippedFrom(x, xs) {
      var y :| y in xs && x == StripDirectionalSuffix(y);
      SortKeepsElements(Distinct(xs), y);
    }
    if StrippedFrom(x, Sort(Distinct(xs))) {
      var y :| y in Sort(Distinct(xs)) && x == StripDirectionalSuffix(y);
      SortKeepsElements(Distinct(xs), y);
    }
  }

  /** The answer of getFacultySections is sorted, holds no duplicates, and holds
      exactly the non-empty stripped forms of the collected sections. */
  lemma SectionListSpec(collected: seq<string>)
    ensures var r := SectionList(collected);
            Sorted(r) && NoDuplicates(r)
            && forall x :: x in r <==> Truthy(x) && StrippedFrom(x, collected)
  {
    var s1 := Sort(Distinct(collected));
    var d2 := Distinct(KeepTruthy(StripAll(s1)));
    NoDuplicatesPermutation(d2, Sort(d2));
    forall x ensures x in SectionList(collected) <==> Truthy(x) && StrippedFrom(x, collected) {
      SortKeepsElements(d2, x);
      StripAllMember(s1, x);
      StrippedFromSort(collected, x);
    }
  }

  /** The table of faculty loads, under ever-increasing ids. */
  class FacultyLoadTable {
    var rows: map<nat, StoredLoad>
    var nextId: nat

    ghost predicate Valid()
      reads this
    {
      nextId >= 1 && forall id | id in rows :: id < nextId
    }

    constructor()
      ensures Valid() && rows == map[] && nextId == 1
    {
      rows := map[];
      nextId := 1;
    }

    /** store: the decision of StoreDecision; an insert takes the next id. */
    method Store(req: StoredLoad, catalog: Catalog) returns (d: Decision, id: nat)
      requires Valid()
      modifies this
      ensures Valid()
      ensures d == StoreDecision(req, old(rows), catalog)
      ensures d.Insert? ==> id == old(nextId) && rows == old(rows)[id := d.row] && nextId == old(nextId) + 1
      ensures !d.Insert? ==> rows == old(rows) && nextId == old(nextId)
      ensures old(NoDuplicateAssignments(rows)) ==> NoDuplicateAssignments(rows)
    {
      d := StoreDecision(req, rows, catalog);
      id := 0;
      if d.Insert? {
        if NoDuplicateAssignments(rows) {
          StorePreservesNoDuplicates(req, rows, catalog, nextId);
        }
        id := nextId;
        rows := rows[id := d.row];
        nextId := nextId + 1;
      }
    }

    /** update: 404 for an unknown id, 422 for a request the rules reject,
        otherwise the row rewritten as UpdatedRow says. */
    method Update(id: nat, req: UpdateRequest, catalog: Catalog) returns (d: UpdateDecision)
      requires Valid()
      modifies this
      ensures Valid()
      ensures d == UpdateDecisionOf(id, req, old(rows), catalog)
      ensures d.Updated? ==> rows == old(rows)[id := d.row]
      ensures !d.Updated? ==> rows == old(rows)
      ensures nextId == old(nextId)
    {
      d := UpdateDecisionOf(id, req, rows, catalog);
      if d.Updated? {
        rows := rows[id := d.row];
      }
    }

    /** getFacultySections: a loop over the loads of the faculty in the period
        (default year "2024", semester "First"), then the list pipeline. */
    method FacultySections(facultyId: nat, academicYear: Option<string>, semester: Option<string>, catalog: Catalog)
      returns (result: seq<string>)
      requires Valid()
      ensures result == SectionList(CollectSections(rows, nextId, facultyId, academicYear.GetOr("2024"),
                                                    semester.GetOr("First"), catalog))
    {
      var year := academicYear.GetOr("2024");
      var sem := semester.GetOr("First");
      var sections: seq<string> := [];
      var id := 0;
      while id < nextId
        invariant 0 <= id <= nextId
        invariant sections == CollectSections(rows, id, facultyId, year, sem, catalog)
      {
        CollectSectionsStep(rows, id, facultyId, year, sem, catalog);
        if id in rows && InPeriod(rows[id], facultyId, year, sem) {
          var load := rows[id];
          var formatted := Enrich(load, LinkOf(load, catalog)).formattedSection;
          if Truthy(formatted) {
            sections := sections + [formatted];
          } else if !IsEmptyValue(load.section) {
            sections := sections + [load.section.value];
          }
        }
        id := id + 1;
      }
      assert sections == CollectSections(rows, nextId, facultyId, year, sem, catalog);
      result := SectionList(sections);
    }
  }
}
