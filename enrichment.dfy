/** FacultyLoadController::enrichFacultyLoadData: the computed_* fields and
    formatted_section a faculty load shows, taken from its stored row and, for a
    load linked to a section offering, from the offering, the offering's subject,
    schedules and program. */
module Enrichment {
  import opened Wrappers
  import opened Text
  import opened Schedules
  import opened Records
  import opened SectionLabels

  /** The offering a load is linked to, with the relations enrichment reads. */
  datatype Link = Link(offering: Offering, subject: Option<Subject>, program: Option<Program>)

  /** The `sectionOffering` relation of a load and the relations of that
      offering; a dangling id resolves to nothing. */
  function LinkOf(load: StoredLoad, catalog: Catalog): (r: Option<Link>)
    ensures r.Some? <==> load.offeringId.Some? && load.offeringId.value in catalog.offerings
    ensures r.Some? ==> r.value.offering == catalog.offerings[load.offeringId.value]
  {
    if load.offeringId.Some? && load.offeringId.value in catalog.offerings then
      var off := catalog.offerings[load.offeringId.value];
      Some(Link(off, Lookup(catalog.subjects, off.subjectId), Lookup(catalog.programs, off.programId)))
    else None
  }

  /** The computed values enrichment sets on a load. */
  datatype Enriched = Enriched(code: Option<string>, description: Option<string>,
                               lec: int, lab: int, units: int,
                               section: Option<string>, academicYear: Option<string>, semester: Option<string>,
                               schedule: string, room: string, formattedSection: string)

  // `$sectionOffering->subject->x ?? …`: a missing subject reads as null.
  function SubjectCode(s: Option<Subject>): Option<string> { if s.Some? then s.value.code else None }
  function SubjectName(s: Option<Subject>): Option<string> { if s.Some? then s.value.name else None }
  function SubjectLec(s: Option<Subject>): Option<int> { if s.Some? then s.value.lec else None }
  function SubjectLab(s: Option<Subject>): Option<int> { if s.Some? then s.value.lab else None }
  function SubjectUnits(s: Option<Subject>): Option<int> { if s.Some? then s.value.units else None }

  /** computed_schedule of a linked load (lines 354-366). */
  function ComputedSchedule(stored: Option<string>, entries: seq<ScheduleEntry>): string {
    if |entries| > 0 then RenderSchedule(entries) else stored.GetOr("")
  }

  /** computed_room of a linked load (lines 369-378). */
  function ComputedRoom(stored: Option<string>, entries: seq<ScheduleEntry>): string {
    if IsEmptyValue(stored) && |entries| > 0 then
      var rooms := Distinct(TruthyRooms(entries));
      if |rooms| > 0 then Join(rooms, ", ") else stored.GetOr("TBA")
    else stored.GetOr("TBA")
  }

  /** The program's code, else its name, else "" (lines 386-389). */
  function ProgramName(p: Option<Program>): string {
    match p
    case None => ""
    case Some(q) => Coalesce(q.code, q.name).GetOr("")
  }

  /** The values enrichment computes for a load: field by field, the stored value
      if it is not null, else the offering's, else the subject's, else a default,
      for a linked load; the stored values with defaults for a manual one. */
  function Enrich(load: StoredLoad, link: Option<Link>): Enriched {
    match link
    case Some(l) =>
      var off := l.offering;
      var section := Coalesce(load.section, Some(off.parentSection));
      Enriched(Coalesce(load.code, SubjectCode(l.subject)),
               Coalesce(load.description, SubjectName(l.subject)),
               Coalesce(load.lec, Coalesce(off.lec, SubjectLec(l.subject))).GetOr(0),
               Coalesce(load.lab, Coalesce(off.lab, SubjectLab(l.subject))).GetOr(0),
               Coalesce(load.units, SubjectUnits(l.subject)).GetOr(0),
               section,
               Coalesce(load.academicYear, Some(off.academicYear)),
               Coalesce(load.semester, Some(off.semester)),
               ComputedSchedule(load.schedule, off.schedules),
               ComputedRoom(load.room, off.schedules),
               OfferingLabel(ProgramName(l.program), off.yearLevel, off.parentSection, section.value))
    case None =>
      Enriched(load.code, load.description,
               load.lec.GetOr(0), load.lab.GetOr(0), load.units.GetOr(0),
               load.section, load.academicYear, load.semester,
               load.schedule.GetOr(""), load.room.GetOr("TBA"),
               ManualLabel(load.section))
  }

  /** A stored value that is not null is always the one shown, linked or not. */
  lemma StoredValueWins(load: StoredLoad, link: Option<Link>)
    ensures var r := Enrich(load, link);
            (load.code.Some? ==> r.code == load.code)
            && (load.description.Some? ==> r.description == load.description)
            && (load.lec.Some? ==> r.lec == load.lec.value)
            && (load.lab.Some? ==> r.lab == load.lab.value)
            && (load.units.Some? ==> r.units == load.units.value)
            && (load.section.Some? ==> r.section == load.section)
            && (load.academicYear.Some? ==> r.academicYear == load.academicYear)
            && (load.semester.Some? ==> r.semester == load.semester)
  {
  }

  /** For a linked load with a null stored value, the offering's value is shown,
      and failing that the subject's, and failing that 0; the section, year and
      semester of a linked load are never null. */
  lemma LinkedFallbacks(load: StoredLoad, l: Link)
    ensures var r := Enrich(load, Some(l));
            var off := l.offering;
            (load.lec.None? && off.lec.Some? ==> r.lec == off.lec.value)
            && (load.lec.None? && off.lec.None? && SubjectLec(l.subject).Some? ==> r.lec == SubjectLec(l.subject).value)
            && (load.lec.None? && off.lec.None? && SubjectLec(l.subject).None? ==> r.lec == 0)
            && (load.lab.None? && off.lab.Some? ==> r.lab == off.lab.value)
            && (load.lab.None? && off.lab.None? && SubjectLab(l.subject).Some? ==> r.lab == SubjectLab(l.subject).value)
            && (load.lab.None? && off.lab.None? && SubjectLab(l.subject).None? ==> r.lab == 0)
            && (load.units.None? ==> r.units == SubjectUnits(l.subject).GetOr(0))
            && (load.code.None? ==> r.code == SubjectCode(l.subject))
            && (load.description.None? ==> r.description == SubjectName(l.subject))
            && (load.section.None? ==> r.section == Some(off.parentSection))
            && (load.academicYear.None? ==> r.academicYear == Some(off.academicYear))
            && (load.semester.None? ==> r.semester == Some(off.semester))
            && r.section.Some? && r.academicYear.Some? && r.semester.Some?
  {
  }

  /** A manual load shows its stored values, with 0 for missing hours and units,
      "" for a missing schedule and "TBA" for a missing room. */
  lemma ManualDefaults(load: StoredLoad)
    ensures var r := Enrich(load, None);
            r.code == load.code && r.description == load.description
            && r.section == load.section && r.academicYear == load.academicYear && r.semester == load.semester
            && (load.lec.None? ==> r.lec == 0) && (load.lab.None? ==> r.lab == 0) && (load.units.None? ==> r.units == 0)
            && (load.schedule.None? ==> r.schedule == "") && (load.schedule.Some? ==> r.schedule == load.schedule.value)
            && (load.room.None? ==> r.room == "TBA") && (load.room.Some? ==> r.room == load.room.value)
  {
  }

  /** The offering's schedule entries are the source of truth: when there is at
      least one, the stored schedule makes no difference. Without entries the
      stored schedule is shown, or "" for null. */
  lemma ScheduleAuthority(a: Option<string>, b: Option<string>, entries: seq<ScheduleEntry>)
    ensures |entries| > 0 ==> ComputedSchedule(a, entries) == ComputedSchedule(b, entries) == RenderSchedule(entries)
    ensures |entries| == 0 ==> ComputedSchedule(a, entries) == a.GetOr("")
  {
  }

  lemma JoinTruthy(parts: seq<string>, sep: string)
    requires |parts| > 0 && forall i | 0 <= i < |parts| :: Truthy(parts[i])
    requires |sep| > 0
    ensures Truthy(Join(parts, sep))
  {
    if |parts| > 1 {
      assert |Join(parts, sep)| >= |sep| + |parts[|parts| - 1]| >= 2;
    }
  }

  /** Room resolution: a truthy stored room always wins; otherwise, if the
      entries name any truthy room, the distinct rooms in first-seen order joined
      by ", "; otherwise the stored room, or "TBA" for null. The result is falsy
      only when the stored room is "" or "0" and there is no entry room. */
  lemma RoomResolution(stored: Option<string>, entries: seq<ScheduleEntry>)
    ensures stored.Some? && Truthy(stored.value) ==> ComputedRoom(stored, entries) == stored.value
    ensures var rooms := Distinct(TruthyRooms(entries));
            IsEmptyValue(stored) && |rooms| > 0 ==> ComputedRoom(stored, entries) == Join(rooms, ", ")
    ensures Distinct(TruthyRooms(entries)) == [] ==> ComputedRoom(stored, entries) == stored.GetOr("TBA")
    ensures !Truthy(ComputedRoom(stored, entries)) ==>
              stored.Some? && !Truthy(stored.value) && Distinct(TruthyRooms(entries)) == []
  {
    var truthy := TruthyRooms(entries);
    var rooms := Distinct(truthy);
    if |rooms| > 0 {
      forall i | 0 <= i < |rooms| ensures Truthy(rooms[i]) {
        assert rooms[i] in truthy;
      }
      JoinTruthy(rooms, ", ");
    }
    if |entries| == 0 {
      assert truthy == [];
    }
  }

  /** Writes the computed values back into the stored columns. */
  function StoreBack(load: StoredLoad, r: Enriched): StoredLoad {
    load.(code := r.code, description := r.description,
          lec := Some(r.lec), lab := Some(r.lab), units := Some(r.units),
          section := r.section, academicYear := r.academicYear, semester := r.semester,
          schedule := Some(r.schedule), room := Some(r.room))
  }

  /** Enrichment is stable: storing the computed values and enriching again
      gives the same values. */
  lemma EnrichIdempotent(load: StoredLoad, link: Option<Link>)
    ensures Enrich(StoreBack(load, Enrich(load, link)), link) == Enrich(load, link)
  {
    var r := Enrich(load, link);
    match link
    case None =>
    case Some(l) =>
      var entries := l.offering.schedules;
      RoomResolution(load.room, entries);
      RoomResolution(Some(r.room), entries);
  }

  /** The imperative form of enrichment: a load object on which the computed
      fields are set one at a time, as the controller does. */
  class LoadObject {
    const stored: StoredLoad
    var computedCode: Option<string>
    var computedDescription: Option<string>
    var computedLec: int
    var computedLab: int
    var computedUnits: int
    var computedSection: Option<string>
    var computedAcademicYear: Option<string>
    var computedSemester: Option<string>
    var computedSchedule: string
    var computedRoom: string
    var formattedSection: string

    constructor(load: StoredLoad)
      ensures stored == load
    {
      stored := load;
      computedCode, computedDescription := None, None;
      computedLec, computedLab, computedUnits := 0, 0, 0;
      computedSection, computedAcademicYear, computedSemester := None, None, None;
      computedSchedule, computedRoom, formattedSection := "", "", "";
    }

    function Computed(): Enriched
      reads this
    {
      Enriched(computedCode, computedDescription, computedLec, computedLab, computedUnits,
               computedSection, computedAcademicYear, computedSemester,
               computedSchedule, computedRoom, formattedSection)
    }

    /** enrichFacultyLoadData: sets every computed field from the stored row and
        the link, and leaves the stored row alone. */
    method EnrichFields(link: Option<Link>)
      modifies this
      ensures Computed() == Enrich(stored, link)
    {
      if link.Some? {
        EnrichLinked(link.value);
      } else {
        EnrichManual();
      }
    }

    method EnrichLinked(l: Link)
      modifies this
      ensures Computed() == Enrich(stored, Some(l))
    {
      SetLinkedValues(l);
      SetScheduleAndRoom(l.offering.schedules);
      SetOfferingLabel(ProgramName(l.program), l.offering.yearLevel, l.offering.parentSection);
    }

    /** Lines 330-351: the code, description, hours, section, year and semester
        of a linked load, each the stored value if not null, else the
        offering's or the subject's. */
    method SetLinkedValues(l: Link)
      modifies this`computedCode, this`computedDescription, this`computedLec, this`computedLab, this`computedUnits
      modifies this`computedSection, this`computedAcademicYear, this`computedSemester
      ensures computedCode == Coalesce(stored.code, SubjectCode(l.subject))
      ensures computedDescription == Coalesce(stored.description, SubjectName(l.subject))
      ensures computedLec == Coalesce(stored.lec, Coalesce(l.offering.lec, SubjectLec(l.subject))).GetOr(0)
      ensures computedLab == Coalesce(stored.lab, Coalesce(l.offering.lab, SubjectLab(l.subject))).GetOr(0)
      ensures computedUnits == Coalesce(stored.units, SubjectUnits(l.subject)).GetOr(0)
      ensures computedSection == Coalesce(stored.section, Some(l.offering.parentSection))
      ensures computedAcademicYear == Coalesce(stored.academicYear, Some(l.offering.academicYear))
      ensures computedSemester == Coalesce(stored.semester, Some(l.offering.semester))
    {
      var load := stored;
      var off := l.offering;
      computedCode := Coalesce(load.code, SubjectCode(l.subject));
      computedDescription := Coalesce(load.description, SubjectName(l.subject));
      computedLec := Coalesce(load.lec, Coalesce(off.lec, SubjectLec(l.subject))).GetOr(0);
      computedLab := Coalesce(load.lab, Coalesce(off.lab, SubjectLab(l.subject))).GetOr(0);
      computedUnits := Coalesce(load.units, SubjectUnits(l.subject)).GetOr(0);
      computedSection := Coalesce(load.section, Some(off.parentSection));
      computedAcademicYear := Coalesce(load.academicYear, Some(off.academicYear));
      computedSemester := Coalesce(load.semester, Some(off.semester));
    }

    /** Lines 354-378: computed_schedule and computed_room from the offering's
        entries; nothing else changes. */
    method SetScheduleAndRoom(entries: seq<ScheduleEntry>)
      modifies this`computedSchedule, this`computedRoom
      ensures computedSchedule == ComputedSchedule(stored.schedule, entries)
      ensures computedRoom == ComputedRoom(stored.room, entries)
    {
      if |entries| > 0 {
        computedSchedule := RenderSchedule(entries);
      } else {
        computedSchedule := stored.schedule.GetOr("");
      }
      if IsEmptyValue(stored.room) && |entries| > 0 {
        var rooms := Distinct(TruthyRooms(entries));
        if |rooms| > 0 {
          computedRoom := Join(rooms, ", ");
        } else {
          computedRoom := stored.room.GetOr("TBA");
        }
      } else {
        computedRoom := stored.room.GetOr("TBA");
      }
    }

    /** Lines 381-452: formatted_section from the program name, year level and
        parent section, falling back on computed_section; nothing else changes. */
    method SetOfferingLabel(programName: string, yearLevel: string, section: string)
      requires computedSection.Some?
      modifies this`formattedSection
      ensures formattedSection == OfferingLabel(programName, yearLevel, section, computedSection.value)
    {
      var yearLevelNum := YearLevels.YearLevelNumber(yearLevel);
      if Truthy(programName) && Truthy(yearLevelNum) && Truthy(section) {
        formattedSection := Upper(programName + " " + yearLevelNum + DirectionalSuffix.StripDirectionalSuffix(section));
      } else if Truthy(programName) && Truthy(section) {
        formattedSection := Upper(programName + " " + DirectionalSuffix.StripDirectionalSuffix(section));
      } else {
        formattedSection := DirectionalSuffix.StripDirectionalSuffix(computedSection.value);
      }
      if !Truthy(formattedSection) {
        formattedSection := DirectionalSuffix.StripDirectionalSuffix(computedSection.value);
      } else {
        formattedSection := DirectionalSuffix.StripDirectionalSuffix(formattedSection);
      }
    }

    method EnrichManual()
      modifies this
      ensures Computed() == Enrich(stored, None)
    {
      SetManualValues();
      SetManualLabel();
    }

    /** Lines 455-466: a manual load shows its stored values, with defaults for
        the missing hours, schedule and room. */
    method SetManualValues()
      modifies this`computedCode, this`computedDescription, this`computedLec, this`computedLab, this`computedUnits
      modifies this`computedSection, this`computedAcademicYear, this`computedSemester
      modifies this`computedSchedule, this`computedRoom
      ensures computedCode == stored.code && computedDescription == stored.description
      ensures computedLec == stored.lec.GetOr(0) && computedLab == stored.lab.GetOr(0)
      ensures computedUnits == stored.units.GetOr(0)
      ensures computedSection == stored.section && computedAcademicYear == stored.academicYear
      ensures computedSemester == stored.semester
      ensures computedSchedule == stored.schedule.GetOr("") && computedRoom == stored.room.GetOr("TBA")
    {
      var load := stored;
      computedCode := load.code;
      computedDescription := load.description;
      computedLec := load.lec.GetOr(0);
      computedLab := load.lab.GetOr(0);
      computedUnits := load.units.GetOr(0);
      computedSection := load.section;
      computedAcademicYear := load.academicYear;
      computedSemester := load.semester;
      computedSchedule := load.schedule.GetOr("");
      computedRoom := load.room.GetOr("TBA");
    }

    /** Lines 468-489: formatted_section parsed from the stored section;
        nothing else changes. */
    method SetManualLabel()
      modifies this`formattedSection
      ensures formattedSection == ManualLabel(stored.section)
    {
      var sectionStr := stored.section.GetOr("");
      if Truthy(sectionStr) {
        sectionStr := DirectionalSuffix.StripDirectionalSuffix(sectionStr);
        formattedSection := ParseSectionString(sectionStr);
      } else {
        formattedSection := stored.section.GetOr("");
      }
      if Truthy(formattedSection) {
        formattedSection := DirectionalSuffix.StripDirectionalSuffix(formattedSection);
      }
    }
  }
}
