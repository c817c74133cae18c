/** The student count that FacultyLoadController::index attaches to each load
    (getStudentCountForFacultyLoad, lines 498-572). */
module StudentCounts {
  import opened Wrappers
  import opened Text
  import opened Records
  import opened DirectionalSuffix
  import opened YearLevels

  /** A row of year_sections as far as the query reads it. */
  datatype YearSection = YearSection(yearLevel: Option<string>, section: Option<string>)

  /** A row of students with its year_section, when it has one. */
  datatype Student = Student(programId: Option<nat>, yearSection: Option<YearSection>)

  /** The year_level condition (lines 550-554): equal to either form or
      containing the number (`LIKE '%n%'`). A null column matches nothing. */
  predicate YearMatches(column: Option<string>, yearNum: string, yearLevel: string) {
    column.Some? && (column.value == yearNum || column.value == yearLevel || Contains(column.value, yearNum))
  }

  /** The section condition (lines 557-562): equal to the section or to its
      cleaned form, or starting with the cleaned form (`LIKE 'c%'`). */
  predicate SectionMatches(column: Option<string>, section: string, cleanSection: string) {
    column.Some? && (column.value == section || column.value == cleanSection || StartsWith(column.value, cleanSection))
  }

  /** What the nested where / whereHas asks of one student. */
  predicate Counted(student: Student, programId: nat, yearLevel: string, section: string, isNumeric: bool) {
    var yearNum := QueryYearLevel(yearLevel, isNumeric);
    student.programId == Some(programId) && student.yearSection.Some?
    && YearMatches(student.yearSection.value.yearLevel, yearNum, yearLevel)
    && SectionMatches(student.yearSection.value.section, section, StripDirectionalSuffix(section))
  }

  /** `->count()` of the query over the students table. */
  function CountMatching(students: seq<Student>, programId: nat, yearLevel: string, section: string,
                         isNumeric: bool): (r: nat)
    ensures r <= |students|
    ensures r == 0 <==> forall i | 0 <= i < |students| :: !Counted(students[i], programId, yearLevel, section, isNumeric)
  {
    if students == [] then 0
    else
      var rest := CountMatching(students[1..], programId, yearLevel, section, isNumeric);
      assert forall i | 1 <= i < |students| :: students[i] == students[1..][i - 1];
      (if Counted(students[0], programId, yearLevel, section, isNumeric) then 1 else 0) + rest
  }

  /** The count is additive over the students table. */
  lemma {:induction false} CountMatchingAppend(a: seq<Student>, b: seq<Student>, programId: nat, yearLevel: string,
                                               section: string, isNumeric: bool)
    ensures CountMatching(a + b, programId, yearLevel, section, isNumeric)
            == CountMatching(a, programId, yearLevel, section, isNumeric) + CountMatching(b, programId, yearLevel, section, isNumeric)
  {
    if a != [] {
      assert (a + b)[1..] == a[1..] + b;
      CountMatchingAppend(a[1..], b, programId, yearLevel, section, isNumeric);
    } else {
      assert a + b == b;
    }
  }

  /** The section the query uses: the offering's parent section with its
      directional suffix removed when it is not empty (lines 510-513). */
  function QuerySection(parentSection: string): string {
    if Truthy(parentSection) then StripDirectionalSuffix(parentSection) else parentSection
  }

  /** The student count of a load as the query intends it, with the
      `yearSection` relation in place: 0 without an offering or when the
      program, year level or section is empty, otherwise the query count. */
  function StudentCount(load: StoredLoad, catalog: Catalog, students: seq<Student>, isNumeric: bool): (r: nat)
    ensures r <= |students|
  {
    var off := if load.offeringId.Some? then Lookup(catalog.offerings, load.offeringId.value) else None;
    match off
    case None => 0
    case Some(so) =>
      var yearLevel := StudentYearLevel(so.yearLevel);
      var section := QuerySection(so.parentSection);
      if so.programId != 0 && Truthy(yearLevel) && Truthy(section) then
        CountMatching(students, so.programId, yearLevel, section, isNumeric)
      else 0
  }

  /** Whether the query of lines 532-564 is reached: the load has an offering
      whose program, year level and section are all set. */
  predicate QueryReached(load: StoredLoad, catalog: Catalog) {
    && load.offeringId.Some? && load.offeringId.value in catalog.offerings
    && var so := catalog.offerings[load.offeringId.value];
       so.programId != 0 && Truthy(StudentYearLevel(so.yearLevel)) && Truthy(QuerySection(so.parentSection))
  }

  /** The count as written. Student.php declares no `yearSection` relation, so
      once the query is reached its `whereHas('yearSection', ...)` (line 534)
      raises; the catch of lines 567-569 logs it and line 571 returns 0. The
      other paths return 0 before the query. So every load counts 0. */
  function StudentCountAsWritten(load: StoredLoad, catalog: Catalog, students: seq<Student>, isNumeric: bool): (r: nat)
    ensures r == 0
  {
    if QueryReached(load, catalog) then 0 else StudentCount(load, catalog, students, isNumeric)
  }

  /** The query is the only path that counts anyone. */
  lemma UnreachedCountsNone(load: StoredLoad, catalog: Catalog, students: seq<Student>, isNumeric: bool)
    requires !QueryReached(load, catalog)
    ensures StudentCount(load, catalog, students, isNumeric) == 0
  {
  }

  /** The input of OwnSectionCounted: the intended count is 1, the count as
      written is 0. */
  lemma MissingRelationCountsNone(load: StoredLoad, catalog: Catalog, student: Student, isNumeric: bool)
    requires load.offeringId.Some? && load.offeringId.value in catalog.offerings
    requires var so := catalog.offerings[load.offeringId.value];
             so.programId != 0 && Truthy(StudentYearLevel(so.yearLevel)) && Truthy(QuerySection(so.parentSection))
             && student == Student(Some(so.programId), Some(YearSection(Some(StudentYearLevel(so.yearLevel)),
                                                                         Some(QuerySection(so.parentSection)))))
    ensures StudentCountAsWritten(load, catalog, [student], isNumeric) == 0
    ensures StudentCount(load, catalog, [student], isNumeric) == 1
  {
    OwnSectionCounted(load, catalog, student, isNumeric);
  }

  /** A manual load (no offering) counts no students. */
  lemma ManualLoadCountsNone(load: StoredLoad, catalog: Catalog, students: seq<Student>, isNumeric: bool)
    requires load.offeringId.None? || load.offeringId.value !in catalog.offerings
    ensures StudentCount(load, catalog, students, isNumeric) == 0
  {
  }

  lemma ContainsItself(s: string)
    ensures Contains(s, s)
  {
    assert OccursAt(s, s, 0) by { assert s[0..|s|] == s; }
  }

  lemma StartsWithItself(s: string)
    ensures StartsWith(s, s)
  {
    assert s[..|s|] == s;
  }

  /** Since the two year forms coincide, the three year conditions reduce to
      "contains the year level"; the section conditions reduce to "equals the
      section or starts with its cleaned form". */
  lemma CountedSimplified(student: Student, programId: nat, yearLevel: string, section: string, isNumeric: bool)
    requires QueryYearLevel(yearLevel, isNumeric) == yearLevel
    ensures Counted(student, programId, yearLevel, section, isNumeric) <==>
                 student.programId == Some(programId) && student.yearSection.Some?
                 && student.yearSection.value.yearLevel.Some?
                 && Contains(student.yearSection.value.yearLevel.value, yearLevel)
                 && student.yearSection.value.section.Some?
                 && (student.yearSection.value.section.value == section
                     || StartsWith(student.yearSection.value.section.value, StripDirectionalSuffix(section)))
  {
    if student.yearSection.Some? {
      var ys := student.yearSection.value;
      if ys.yearLevel.Some? && ys.yearLevel.value == yearLevel { ContainsItself(yearLevel); }
      if ys.section.Some? && ys.section.value == StripDirectionalSuffix(section) {
        StartsWithItself(StripDirectionalSuffix(section));
      }
    }
  }

  /** For the year level actually queried the two forms always coincide. */
  lemma QueriedFormsCoincide(offeringYear: string, isNumeric: bool)
    ensures QueryYearLevel(StudentYearLevel(offeringYear), isNumeric) == StudentYearLevel(offeringYear)
  {
    QueryYearLevelIsNoOp(offeringYear, isNumeric);
  }

  /** A student of the offering's program whose year section holds exactly the
      offering's year level and section is counted. */
  lemma OwnSectionCounted(load: StoredLoad, catalog: Catalog, student: Student, isNumeric: bool)
    requires load.offeringId.Some? && load.offeringId.value in catalog.offerings
    requires var so := catalog.offerings[load.offeringId.value];
             so.programId != 0 && Truthy(StudentYearLevel(so.yearLevel)) && Truthy(QuerySection(so.parentSection))
             && student == Student(Some(so.programId), Some(YearSection(Some(StudentYearLevel(so.yearLevel)),
                                                                         Some(QuerySection(so.parentSection)))))
    ensures StudentCount(load, catalog, [student], isNumeric) == 1
  {
    var so := catalog.offerings[load.offeringId.value];
    var yearLevel := StudentYearLevel(so.yearLevel);
    var section := QuerySection(so.parentSection);
    QueriedFormsCoincide(so.yearLevel, isNumeric);
    SelfCounted(so.programId, yearLevel, section, isNumeric);
    CountSingle(student, so.programId, yearLevel, section, isNumeric);
  }

  /** A student holding exactly the queried year level and section matches. */
  lemma SelfCounted(programId: nat, yearLevel: string, section: string, isNumeric: bool)
    requires QueryYearLevel(yearLevel, isNumeric) == yearLevel
    ensures Counted(Student(Some(programId), Some(YearSection(Some(yearLevel), Some(section)))),
                    programId, yearLevel, section, isNumeric)
  {
    ContainsItself(yearLevel);
  }

  /** A table of one matching student counts one. */
  lemma CountSingle(student: Student, programId: nat, yearLevel: string, section: string, isNumeric: bool)
    requires Counted(student, programId, yearLevel, section, isNumeric)
    ensures CountMatching([student], programId, yearLevel, section, isNumeric) == 1
  {
    assert [student][1..] == [];
  }

  /** The prefix condition over-counts: for section "A" a student of section
      "AB" is counted too. */
  lemma PrefixOverCounts()
    ensures Counted(Student(Some(3), Some(YearSection(Some("2"), Some("AB")))), 3, "2", "A", true)
  {
    StripWithoutHyphen("A");
    assert "AB"[..1] == "A";
    ContainsItself("2");
  }
}
