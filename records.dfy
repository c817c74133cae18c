/** The rows the controllers read and write, one datatype per table. Every
    nullable column is an Option; ids are natural numbers. */
module Records {
  import opened Wrappers
  import opened Schedules

  /** A row of subjects, as far as the controllers read it. */
  datatype Subject = Subject(code: Option<string>, name: Option<string>,
                             lec: Option<int>, lab: Option<int>, units: Option<int>)

  /** A row of programs. */
  datatype Program = Program(code: Option<string>, name: Option<string>)

  /** A row of section_offerings together with its schedule rows, in the order
      the relation returns them. */
  datatype Offering = Offering(programId: nat, academicYear: string, semester: string,
                               yearLevel: string, parentSection: string, subjectId: nat,
                               slots: Option<int>, lec: Option<int>, lab: Option<int>,
                               schedules: seq<ScheduleEntry>)

  /** A row of faculty_loads, with every column but faculty_id and type
      nullable, as the migration make_redundant_fields_nullable_in_faculty_loads
      intends. Migrated in file-name order that migration runs before the
      table exists and does nothing, so the create migration's NOT NULL
      columns would stay; the model takes the nullable schema. */
  datatype StoredLoad = StoredLoad(facultyId: nat, offeringId: Option<nat>, subjectId: Option<nat>,
                                   code: Option<string>, description: Option<string>,
                                   lec: Option<int>, lab: Option<int>, units: Option<int>,
                                   section: Option<string>, schedule: Option<string>, room: Option<string>,
                                   kind: string, academicYear: Option<string>, semester: Option<string>)

  /** PHP's `empty()` on a nullable id: null and 0 are empty. */
  predicate IdFilled(id: Option<nat>) {
    id.Some? && id.value != 0
  }

  /** The rows a controller can look up by id. */
  datatype Catalog = Catalog(users: set<nat>, offerings: map<nat, Offering>,
                             subjects: map<nat, Subject>, programs: map<nat, Program>)

  function Lookup<T>(m: map<nat, T>, id: nat): (r: Option<T>)
    ensures r.Some? <==> id in m
    ensures r.Some? ==> r.value == m[id]
  {
    if id in m then Some(m[id]) else None
  }

  // ---------------------------------------------------------------------
  // Request keys and the validation rules shared by the controllers

  /** A key of a request: left out, or given (possibly as null). */
  datatype Field<T> = Absent | Given(value: Option<T>)

  /** `$validated[key] ?? …` sees a missing key as null. */
  function ValueOf<T>(f: Field<T>): (r: Option<T>)
    ensures f.Absent? ==> r.None?
    ensures f.Given? ==> r == f.value
  {
    if f.Given? then f.value else None
  }

  /** Mass assignment: a given key is written, a missing one keeps the column. */
  function Assign<T>(f: Field<T>, current: Option<T>): (r: Option<T>)
    ensures f.Absent? ==> r == current
    ensures f.Given? ==> r == f.value
  {
    if f.Given? then f.value else current
  }

  /** `max:n` on a nullable string. */
  predicate FitsIn(o: Option<string>, n: nat) { o.None? || |o.value| <= n }
  /** `nullable|integer|min:0`. */
  predicate NonNegative(o: Option<int>) { o.None? || o.value >= 0 }
  /** `nullable|exists:table,id`. */
  predicate IdExists<T>(id: Option<nat>, m: map<nat, T>) { id.None? || id.value in m }
}
