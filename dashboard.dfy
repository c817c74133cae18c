/** DashboardController: the "time ago" text, the user totals of the super
    admin dashboard, the dean's student summary and the two recent-activity
    lists. Query results, the clock and the database's row order are inputs. */
module Dashboard {
  import opened Wrappers
  import opened Text
  import opened Sorting

  // ---------------------------------------------------------------------
  // getTimeAgo (lines 380-399)

  const Minute: nat := 60
  const Hour: nat := 3600
  const Day: nat := 86400

  /** getTimeAgo for a row created `elapsed` seconds ago. Carbon's diffInHours,
      diffInMinutes and diffInDays are the whole hours, minutes and days. */
  function TimeAgo(elapsed: nat): string {
    var diff := elapsed / Hour;
    if diff < 1 then
      var minutes := elapsed / Minute;
      if minutes < 1 then "Just now"
      else NatToString(minutes) + " minute" + (if minutes > 1 then "s" else "") + " ago"
    else if diff < 24 then
      NatToString(diff) + " hour" + (if diff > 1 then "s" else "") + " ago"
    else
      var days := elapsed / Day;
      if days == 1 then "Yesterday" else NatToString(days) + " days ago"
  }

  /** What a "time ago" text says. */
  datatype Ago = JustNow | MinutesAgo(n: nat) | HoursAgo(n: nat) | Yesterday | DaysAgo(n: nat)

  /** The reading that fits a delay of `elapsed` seconds, stated on ranges. */
  predicate Describes(a: Ago, elapsed: nat) {
    match a
    case JustNow => elapsed < Minute
    case MinutesAgo(n) => Minute <= elapsed < Hour && n == elapsed / Minute
    case HoursAgo(n) => Hour <= elapsed < Day && n == elapsed / Hour
    case Yesterday => Day <= elapsed < 2 * Day
    case DaysAgo(n) => 2 * Day <= elapsed && n == elapsed / Day
  }

  /** Reads a "time ago" text back; the singular unit only goes with 1. */
  function ReadAgo(r: string): Option<Ago> {
    if r == "Just now" then Some(JustNow)
    else if r == "Yesterday" then Some(Yesterday)
    else
      var p := IndexOfChar(r, ' ');
      if p == 0 || !AllDigits(r[..p]) then None
      else
        var n := DigitsValue(r[..p]);
        var unit := r[p..];
        if (unit == " minute ago" && n == 1) || (unit == " minutes ago" && n > 1) then Some(MinutesAgo(n))
        else if (unit == " hour ago" && n == 1) || (unit == " hours ago" && n > 1) then Some(HoursAgo(n))
        else if unit == " days ago" && n > 1 then Some(DaysAgo(n))
        else None
  }

  /** A number followed by a unit starting with a space splits at that space. */
  lemma ReadCount(n: nat, unit: string)
    requires unit != [] && unit[0] == ' '
    ensures var d := NatToString(n);
            var r := d + unit;
            IndexOfChar(r, ' ') == |d| && r[..|d|] == d && r[|d|..] == unit
            && r != "Just now" && r != "Yesterday" && DigitsValue(d) == n
  {
    var d := NatToString(n);
    var r := d + unit;
    var p := IndexOfChar(r, ' ');
    assert r[|d|] == ' ';
    assert r[..|d|] == d;
    assert r[|d|..] == unit;
    assert IsDigit(r[0]);
    DigitsValueOfNatToString(n);
  }

  /** The text getTimeAgo writes for `elapsed` reads back as a fitting reading. */
  lemma ReadingOf(elapsed: nat) returns (a: Ago)
    ensures Describes(a, elapsed) && ReadAgo(TimeAgo(elapsed)) == Some(a)
  {
    var diff := elapsed / Hour;
    if diff < 1 {
      var minutes := elapsed / Minute;
      if minutes < 1 {
        a := JustNow;
      } else {
        a := MinutesAgo(minutes);
        MinutesReadBack(minutes);
      }
    } else if diff < 24 {
      a := HoursAgo(diff);
      HoursReadBack(diff);
    } else {
      var days := elapsed / Day;
      if days == 1 {
        a := Yesterday;
      } else {
        a := DaysAgo(days);
        ReadCount(days, " days ago");
      }
    }
  }

  lemma MinutesReadBack(n: nat)
    requires n >= 1
    ensures ReadAgo(NatToString(n) + " minute" + (if n > 1 then "s" else "") + " ago") == Some(MinutesAgo(n))
  {
    var unit := " minute" + (if n > 1 then "s" else "") + " ago";
    assert NatToString(n) + " minute" + (if n > 1 then "s" else "") + " ago" == NatToString(n) + unit;
    ReadCount(n, unit);
  }

  lemma HoursReadBack(n: nat)
    requires n >= 1
    ensures ReadAgo(NatToString(n) + " hour" + (if n > 1 then "s" else "") + " ago") == Some(HoursAgo(n))
  {
    var unit := " hour" + (if n > 1 then "s" else "") + " ago";
    assert NatToString(n) + " hour" + (if n > 1 then "s" else "") + " ago" == NatToString(n) + unit;
    ReadCount(n, unit);
  }

  /** At most one reading fits a delay. */
  lemma DescribesUnique(a: Ago, b: Ago, elapsed: nat)
    requires Describes(a, elapsed) && Describes(b, elapsed)
    ensures a == b
  {
  }

  /** The text getTimeAgo writes reads back as the one reading that fits the
      delay: the right unit, the right count, and the right grammatical number. */
  lemma TimeAgoReadsBack(elapsed: nat)
    ensures forall a :: Describes(a, elapsed) <==> ReadAgo(TimeAgo(elapsed)) == Some(a)
  {
    var a := ReadingOf(elapsed);
    forall b | Describes(b, elapsed) ensures b == a {
      DescribesUnique(a, b, elapsed);
    }
  }

  // ---------------------------------------------------------------------
  // getStatistics: the user totals (lines 25-38, 80-87)

  /** How many users have the role. */
  function CountRole(roles: seq<string>, role: string): (n: nat)
    ensures n <= |roles|
    ensures n == 0 <==> role !in roles
  {
    if roles == [] then 0
    else
      var init := roles[..|roles| - 1];
      assert roles == init + [roles[|roles| - 1]];
      CountRole(init, role) + (if roles[|roles| - 1] == role then 1 else 0)
  }

  /** `select role, count(*) ... group by role`, plucked into role => count:
      only the roles that occur are keys. */
  function GroupByRole(roles: seq<string>): (m: map<string, nat>)
    ensures forall r :: r in m <==> r in roles
    ensures forall r | r in m :: m[r] == CountRole(roles, r) && m[r] > 0
  {
    map r | r in roles :: CountRole(roles, r)
  }

  /** `$usersByRole[$role] ?? 0`. */
  function CountOf(byRole: map<string, nat>, role: string): (n: nat)
    ensures role !in byRole ==> n == 0
  {
    if role in byRole then byRole[role] else 0
  }

  /** A role nobody has reads as 0, and every other role as its count. */
  lemma CountOfGroup(roles: seq<string>, role: string)
    ensures CountOf(GroupByRole(roles), role) == CountRole(roles, role)
  {
  }

  datatype TotalUsers = TotalUsers(students: nat, coordinators: nat, faculty: nat, deans: nat,
                                   registrars: nat, total: nat)

  /** The totals as written: faculty counts the roles 'faculty' and 'professor'. */
  function UserTotalsAsWritten(studentCount: nat, userRoles: seq<string>, accountCount: nat): (t: TotalUsers)
    ensures t.faculty == CountRole(userRoles, "faculty") + CountRole(userRoles, "professor")
    ensures t.total == studentCount + |userRoles| + accountCount
  {
    var byRole := GroupByRole(userRoles);
    CountOfGroup(userRoles, "faculty");
    CountOfGroup(userRoles, "professor");
    TotalUsers(studentCount, CountOf(byRole, "program_head"),
               CountOf(byRole, "faculty") + CountOf(byRole, "professor"),
               CountOf(byRole, "dean"), CountOf(byRole, "registrar"),
               studentCount + |userRoles| + accountCount)
  }

  /** UserController::store saves a professor with the role 'prof', which the
      faculty count as written misses. */
  lemma StoredProfessorNotCounted()
    ensures UserTotalsAsWritten(0, ["prof"], 0).faculty == 0
    ensures UserTotalsAsWritten(0, ["prof"], 0).total == 1
  {
    assert "prof" != "faculty" && "prof" != "professor";
    assert "faculty" !in ["prof"];
    assert "professor" !in ["prof"];
  }

  /** The totals with 'prof' also counted as faculty. */
  function UserTotals(studentCount: nat, userRoles: seq<string>, accountCount: nat): (t: TotalUsers)
    ensures t.students == studentCount
    ensures t.coordinators == CountRole(userRoles, "program_head")
    ensures t.faculty == CountRole(userRoles, "faculty") + CountRole(userRoles, "professor")
                         + CountRole(userRoles, "prof")
    ensures t.deans == CountRole(userRoles, "dean")
    ensures t.registrars == CountRole(userRoles, "registrar")
    ensures t.total == studentCount + |userRoles| + accountCount
  {
    var byRole := GroupByRole(userRoles);
    CountOfGroup(userRoles, "program_head");
    CountOfGroup(userRoles, "faculty");
    CountOfGroup(userRoles, "professor");
    CountOfGroup(userRoles, "prof");
    CountOfGroup(userRoles, "dean");
    CountOfGroup(userRoles, "registrar");
    TotalUsers(studentCount, CountOf(byRole, "program_head"),
               CountOf(byRole, "faculty") + CountOf(byRole, "professor") + CountOf(byRole, "prof"),
               CountOf(byRole, "dean"), CountOf(byRole, "registrar"),
               studentCount + |userRoles| + accountCount)
  }

  /** Each user has one role, so the role counts together never exceed the users. */
  lemma {:induction false} RoleCountsBounded(roles: seq<string>)
    ensures CountRole(roles, "program_head") + CountRole(roles, "faculty") + CountRole(roles, "professor")
            + CountRole(roles, "prof") + CountRole(roles, "dean") + CountRole(roles, "registrar") <= |roles|
  {
    if roles != [] {
      RoleCountsBounded(roles[..|roles| - 1]);
    }
  }

  /** The breakdown never exceeds the total, and a user stored as a
      professor is counted. */
  lemma UserTotalsBreakdown(studentCount: nat, userRoles: seq<string>, accountCount: nat)
    ensures var t := UserTotals(studentCount, userRoles, accountCount);
            t.students + t.coordinators + t.faculty + t.deans + t.registrars <= t.total
            && ("prof" in userRoles ==> t.faculty > 0)
  {
    RoleCountsBounded(userRoles);
  }

  // ---------------------------------------------------------------------
  // getDeanStatistics (lines 221-320)

  /** The signed-in user: an Account or a User; only the id and role matter. */
  datatype Viewer = Viewer(id: nat, role: string)
  datatype CollegeRow = CollegeRow(id: nat, deanId: Option<nat>)
  datatype ProgramRow = ProgramRow(id: nat, collegeId: Option<nat>)
  datatype StudentRecord = StudentRecord(programId: Option<nat>, yearSectionId: Option<nat>)

  /** `College::where('dean_id', $id)->first()`, over the rows in table order. */
  function DeanCollege(colleges: seq<CollegeRow>, deanId: nat): (c: Option<CollegeRow>)
    ensures c.Some? ==> c.value in colleges && c.value.deanId == Some(deanId)
    ensures c.None? <==> forall k | 0 <= k < |colleges| :: colleges[k].deanId != Some(deanId)
  {
    if colleges == [] then None
    else if colleges[0].deanId == Some(deanId) then Some(colleges[0])
    else
      var c := DeanCollege(colleges[1..], deanId);
      assert forall k | 1 <= k < |colleges| :: colleges[k] == colleges[1..][k - 1];
      c
  }

  /** `Program::where('college_id', $id)->pluck('id')`. */
  function ProgramIds(programs: seq<ProgramRow>, collegeId: nat): (ids: set<nat>)
    ensures forall id :: id in ids <==> exists p | p in programs :: p.id == id && p.collegeId == Some(collegeId)
  {
    set p | p in programs && p.collegeId == Some(collegeId) :: p.id
  }

  /** `Student::whereIn('program_id', $ids)`: a student without a program is never in. */
  function StudentsIn(students: seq<StudentRecord>, ids: set<nat>): (r: seq<StudentRecord>)
    ensures |r| <= |students|
    ensures forall s :: s in r <==> s in students && s.programId.Some? && s.programId.value in ids
    ensures forall s :: multiset(r)[s] == if s.programId.Some? && s.programId.value in ids then multiset(students)[s] else 0
    ensures ids == {} ==> r == []
  {
    if students == [] then []
    else
      var rest := StudentsIn(students[1..], ids);
      var s := students[0];
      assert students == [s] + students[1..];
      if s.programId.Some? && s.programId.value in ids then [s] + rest else rest
  }

  /** Students with a year_section (`whereNotNull('year_section_id')`). */
  function CountRegular(students: seq<StudentRecord>): (n: nat)
    ensures n <= |students|
    ensures |students| == 1 ==> (n == 1 <==> students[0].yearSectionId.Some?)
  {
    if students == [] then 0
    else CountRegular(students[1..]) + (if students[0].yearSectionId.Some? then 1 else 0)
  }

  /** Students without one (`whereNull('year_section_id')`). */
  function CountIrregular(students: seq<StudentRecord>): (n: nat)
    ensures n <= |students|
    ensures |students| == 1 ==> (n == 1 <==> students[0].yearSectionId.None?)
  {
    if students == [] then 0
    else CountIrregular(students[1..]) + (if students[0].yearSectionId.None? then 1 else 0)
  }

  /** Each count adds up over consecutive runs of rows: with the one-row
      case, this fixes the counts as the number of matching rows. */
  lemma {:induction false} CountRegularAppend(a: seq<StudentRecord>, b: seq<StudentRecord>)
    ensures CountRegular(a + b) == CountRegular(a) + CountRegular(b)
  {
    if a != [] {
      assert (a + b)[1..] == a[1..] + b;
      CountRegularAppend(a[1..], b);
    } else {
      assert a + b == b;
    }
  }

  lemma {:induction false} CountIrregularAppend(a: seq<StudentRecord>, b: seq<StudentRecord>)
    ensures CountIrregular(a + b) == CountIrregular(a) + CountIrregular(b)
  {
    if a != [] {
      assert (a + b)[1..] == a[1..] + b;
      CountIrregularAppend(a[1..], b);
    } else {
      assert a + b == b;
    }
  }

  /** Every student is regular or irregular, never both. */
  lemma {:induction false} RegularIrregularSplit(students: seq<StudentRecord>)
    ensures CountRegular(students) + CountIrregular(students) == |students|
  {
    if students != [] {
      RegularIrregularSplit(students[1..]);
    }
  }

  /** `(int) ($total * 0.95)`, taken as the exact 95 per cent rounded down. */
  function PresentEstimate(total: nat): (p: nat)
    ensures p <= total
    ensures p * 100 <= total * 95 < (p + 1) * 100
  {
    total * 95 / 100
  }

  datatype DeanSummary = DeanSummary(collegeId: nat, total: nat, regular: nat, irregular: nat,
                                     present: nat, absent: int)

  /** 401, 403, 404 or the summary with 200. */
  datatype DeanResult = Unauthenticated | NotDean | NoCollege | Summary(summary: DeanSummary)

  function DeanStatus(r: DeanResult): int {
    match r
    case Unauthenticated => 401
    case NotDean => 403
    case NoCollege => 404
    case Summary(_) => 200
  }

  /** getDeanStatistics: the student summary of the college whose dean is the
      viewer, over the students of that college's programs. */
  function DeanStatistics(viewer: Option<Viewer>, colleges: seq<CollegeRow>, programs: seq<ProgramRow>,
                          students: seq<StudentRecord>): (r: DeanResult)
    ensures DeanStatus(r) == 401 <==> viewer.None?
    ensures DeanStatus(r) == 403 <==> viewer.Some? && viewer.value.role != "dean"
    ensures DeanStatus(r) == 404 <==>
              viewer.Some? && viewer.value.role == "dean" && DeanCollege(colleges, viewer.value.id).None?
    ensures r.Summary? ==>
              var c := DeanCollege(colleges, viewer.value.id).value;
              var mine := StudentsIn(students, ProgramIds(programs, c.id));
              r.summary.collegeId == c.id
              && r.summary.total == |mine|
              && r.summary.regular == CountRegular(mine) && r.summary.irregular == CountIrregular(mine)
              && r.summary.regular + r.summary.irregular == r.summary.total
              && 0 <= r.summary.absent && r.summary.present + r.summary.absent == r.summary.total
              && r.summary.present == PresentEstimate(r.summary.total)
  {
    if viewer.None? then Unauthenticated
    else if viewer.value.role != "dean" then NotDean
    else
      match DeanCollege(colleges, viewer.value.id)
      case None => NoCollege
      case Some(c) =>
        var ids := ProgramIds(programs, c.id);
        var all := if ids == {} then [] else StudentsIn(students, ids);
        RegularIrregularSplit(all);
        var total := |all|;
        var present := PresentEstimate(total);
        Summary(DeanSummary(c.id, total, CountRegular(all), CountIrregular(all), present, total - present))
  }

  // ---------------------------------------------------------------------
  // getRecentActivities (lines 120-168) and getDeanRecentActivities (325-375)

  /** A row of the latest-students query: `age` is the seconds since created_at. */
  datatype StudentRow = StudentRow(id: nat, fullname: string, createdAt: string, age: nat)

  /** A row of the latest-loads query; `faculty` is the faculty's full name
      when the relation resolves. */
  datatype LoadRow = LoadRow(id: nat, faculty: Option<string>, subjectCode: Option<string>,
                             createdAt: string, age: nat)

  datatype Activity = Activity(id: nat, kind: string, message: string, createdAt: string,
                               icon: string, color: string)

  datatype DeanActivity = DeanActivity(activity: string, time: string, createdAt: string)

  /** What the dean's list returns per entry (lines 368-373). */
  datatype ShownActivity = ShownActivity(activity: string, time: string)

  /** The number of entries kept (`take(5)`). */
  const RecentLimit: nat := 5

  function ActivityStamp(a: Activity): string { a.createdAt }
  function DeanStamp(a: DeanActivity): string { a.createdAt }

  function StudentActivity(s: StudentRow): Activity {
    Activity(s.id, "registration", "New student registered: " + s.fullname, s.createdAt,
             "UserCheck", "text-blue-500")
  }

  /** Only applied to loads whose faculty resolves; a null subject code
      interpolates as "". */
  function LoadActivity(l: LoadRow): Activity {
    Activity(l.id, "faculty_load", "Faculty load assigned: " + l.faculty.GetOr("") + " - " + l.subjectCode.GetOr(""),
             l.createdAt, "BookOpen", "text-green-500")
  }

  function DeanStudentActivity(s: StudentRow): DeanActivity {
    DeanActivity("New student registration approved: " + s.fullname, TimeAgo(s.age), s.createdAt)
  }

  function DeanLoadActivity(l: LoadRow): DeanActivity {
    DeanActivity("Faculty attendance reviewed: " + l.faculty.GetOr(""), TimeAgo(l.age), l.createdAt)
  }

  function Shown(a: DeanActivity): ShownActivity { ShownActivity(a.activity, a.time) }

  /** The admin list's entries for the latest students, in query order. */
  function StudentActivities(students: seq<StudentRow>): (r: seq<Activity>)
    ensures |r| == |students|
    ensures forall a | a in r :: a.kind == "registration"
  {
    if students == [] then []
    else StudentActivities(students[..|students| - 1]) + [StudentActivity(students[|students| - 1])]
  }

  /** One more student row adds its entry at the end. */
  lemma StudentActivitiesStep(students: seq<StudentRow>, i: nat)
    requires i < |students|
    ensures StudentActivities(students[..i + 1]) == StudentActivities(students[..i]) + [StudentActivity(students[i])]
  {
    assert students[..i + 1][..i] == students[..i];
  }

  /** The admin list's entries for the latest loads whose faculty resolves
      (`if ($load->faculty)`), in query order. */
  function LoadActivities(loads: seq<LoadRow>): (r: seq<Activity>)
    ensures |r| <= |loads|
    ensures forall a | a in r :: a.kind == "faculty_load"
  {
    if loads == [] then []
    else
      var last := loads[|loads| - 1];
      LoadActivities(loads[..|loads| - 1]) + (if last.faculty.Some? then [LoadActivity(last)] else [])
  }

  /** One more load adds its entry at the end when its faculty resolves. */
  lemma LoadActivitiesStep(loads: seq<LoadRow>, i: nat)
    requires i < |loads|
    ensures LoadActivities(loads[..i + 1])
            == LoadActivities(loads[..i]) + (if loads[i].faculty.Some? then [LoadActivity(loads[i])] else [])
  {
    assert loads[..i + 1][..i] == loads[..i];
  }

  /** The dean list's entries for the latest students of the college. */
  function DeanStudentActivities(students: seq<StudentRow>): (r: seq<DeanActivity>)
    ensures |r| == |students|
  {
    if students == [] then []
    else DeanStudentActivities(students[..|students| - 1]) + [DeanStudentActivity(students[|students| - 1])]
  }

  /** The dean list's entries for the latest loads whose faculty resolves. */
  function DeanLoadActivities(loads: seq<LoadRow>): (r: seq<DeanActivity>)
    ensures |r| <= |loads|
  {
    if loads == [] then []
    else
      var last := loads[|loads| - 1];
      DeanLoadActivities(loads[..|loads| - 1]) + (if last.faculty.Some? then [DeanLoadActivity(last)] else [])
  }

  /** The loads' entries keep the query order: the entries of a concatenation
      are those of the first part followed by those of the second. */
  lemma {:induction false} LoadActivitiesAppend(a: seq<LoadRow>, b: seq<LoadRow>)
    ensures LoadActivities(a + b) == LoadActivities(a) + LoadActivities(b)
    ensures DeanLoadActivities(a + b) == DeanLoadActivities(a) + DeanLoadActivities(b)
    decreases |b|
  {
    if b == [] {
      assert a + b == a;
    } else {
      var front := b[..|b| - 1];
      assert (a + b)[..|a + b| - 1] == a + front;
      assert (a + b)[|a + b| - 1] == b[|b| - 1];
      LoadActivitiesAppend(a, front);
    }
  }

  /** One entry per student row, in query order. */
  lemma {:induction false} StudentActivitiesEach(students: seq<StudentRow>)
    ensures forall i | 0 <= i < |students| :: StudentActivities(students)[i] == StudentActivity(students[i])
    ensures forall i | 0 <= i < |students| :: DeanStudentActivities(students)[i] == DeanStudentActivity(students[i])
  {
    if students != [] {
      var front := students[..|students| - 1];
      StudentActivitiesEach(front);
      assert forall i | 0 <= i < |front| :: front[i] == students[i];
    }
  }

  /** The entries are those of the loads whose faculty resolves, and no others. */
  lemma {:induction false} LoadActivitiesMembers(loads: seq<LoadRow>)
    ensures forall a :: a in LoadActivities(loads) <==>
              exists i | 0 <= i < |loads| :: loads[i].faculty.Some? && a == LoadActivity(loads[i])
    ensures forall a :: a in DeanLoadActivities(loads) <==>
              exists i | 0 <= i < |loads| :: loads[i].faculty.Some? && a == DeanLoadActivity(loads[i])
  {
    if loads != [] {
      var front := loads[..|loads| - 1];
      LoadActivitiesMembers(front);
      assert forall i | 0 <= i < |front| :: front[i] == loads[i];
    }
  }

  /** A single load contributes its entry exactly when its faculty resolves. */
  lemma LoadActivitiesOne(l: LoadRow)
    ensures LoadActivities([l]) == if l.faculty.Some? then [LoadActivity(l)] else []
    ensures DeanLoadActivities([l]) == if l.faculty.Some? then [DeanLoadActivity(l)] else []
  {
    assert [l][..0] == [];
  }

  /** `->map(...)`: each entry reduced to its text and time (lines 368-373). */
  function ShowAll(s: seq<DeanActivity>): (r: seq<ShownActivity>)
    ensures |r| == |s|
    ensures forall i | 0 <= i < |s| :: r[i] == ShownActivity(s[i].activity, s[i].time)
  {
    if s == [] then [] else ShowAll(s[..|s| - 1]) + [Shown(s[|s| - 1])]
  }

  /** sortByDesc('created_at')->take(5). */
  function TopFive<T(==)>(key: T -> string, s: seq<T>): (r: seq<T>)
    ensures |r| == if |s| < RecentLimit then |s| else RecentLimit
    ensures SortedDesc(key, r)
    ensures multiset(r) <= multiset(s)
  {
    var sorted := SortByDesc(key, s);
    var n := if |sorted| < RecentLimit then |sorted| else RecentLimit;
    assert sorted == sorted[..n] + sorted[n..];
    assert multiset(sorted) == multiset(sorted[..n]) + multiset(sorted[n..]);
    sorted[..n]
  }

  /** What take(5) leaves out is never later than what it keeps. */
  lemma TopFiveKeepsLatest<T>(key: T -> string, s: seq<T>, x: T, i: nat)
    requires x in multiset(s) - multiset(TopFive(key, s)) && i < |TopFive(key, s)|
    ensures LexLessEq(key(x), key(TopFive(key, s)[i]))
  {
    var sorted := SortByDesc(key, s);
    var r := TopFive(key, s);
    var n := |r|;
    assert sorted == r + sorted[n..];
    assert multiset(s) == multiset(r) + multiset(sorted[n..]);
    SortedDescBelowCut(key, sorted, n, x, i);
  }

  /** In a list sorted latest first, what lies past a cut is never later than
      what lies before it. */
  lemma SortedDescBelowCut<T>(key: T -> string, sorted: seq<T>, n: nat, x: T, i: nat)
    requires SortedDesc(key, sorted) && i < n <= |sorted| && x in multiset(sorted[n..])
    ensures LexLessEq(key(x), key(sorted[i]))
  {
    var j :| 0 <= j < |sorted[n..]| && sorted[n..][j] == x;
    assert sorted[n + j] == x;
  }

  /** The query limits (3 students, 2 loads) leave at most five activities, so
      take(5) cuts nothing; the list is the activities, latest first. */
  lemma TopFiveOfFew<T>(key: T -> string, s: seq<T>)
    requires |s| <= RecentLimit
    ensures multiset(TopFive(key, s)) == multiset(s)
  {
    var r := TopFive(key, s);
    var d := multiset(s) - multiset(r);
    assert |multiset(s)| == |multiset(r)| + |d|;
  }

  /** The latest-students query takes 3 rows and the latest-loads query 2,
      so the admin list keeps every entry they give. */
  lemma QueryLimitsKeepAll(students: seq<StudentRow>, loads: seq<LoadRow>)
    requires |students| <= 3 && |loads| <= 2
    ensures var all := StudentActivities(students) + LoadActivities(loads);
            multiset(TopFive(ActivityStamp, all)) == multiset(all)
  {
    TopFiveOfFew(ActivityStamp, StudentActivities(students) + LoadActivities(loads));
  }

  /** getRecentActivities over the two query results (lines 125-167). */
  method RecentActivities(students: seq<StudentRow>, loads: seq<LoadRow>) returns (recent: seq<Activity>)
    ensures recent == TopFive(ActivityStamp, StudentActivities(students) + LoadActivities(loads))
  {
    var activities: seq<Activity> := [];
    for i := 0 to |students|
      invariant activities == StudentActivities(students[..i])
    {
      StudentActivitiesStep(students, i);
      activities := activities + [StudentActivity(students[i])];
    }
    assert students[..|students|] == students;
    ghost var fromStudents := activities;
    for i := 0 to |loads|
      invariant activities == fromStudents + LoadActivities(loads[..i])
    {
      LoadActivitiesStep(loads, i);
      if loads[i].faculty.Some? {
        activities := activities + [LoadActivity(loads[i])];
      }
    }
    assert loads[..|loads|] == loads;
    recent := TopFive(ActivityStamp, activities);
  }

  // ---------------------------------------------------------------------
  // getStatistics (lines 21-115): every query runs inside one try block

  /** The part of getStatistics' answer that is modelled: the 500 of the
      catch at lines 109-114, or the user totals and the recent list. */
  datatype StatisticsAnswer =
    | StatisticsFailed(status: nat, message: string)
    | StatisticsFigures(totals: TotalUsers, recent: seq<Activity>)

  const StatisticsFailure: string := "Failed to fetch dashboard statistics: "

  /** getStatistics as written. `withCount('students')` at line 44 needs a
      `students` relation on Program, and `programHasStudents` says whether
      it is declared. Program.php:8-21 declares only head(), so as the code
      stands it is false: the query raises and the catch answers 500 with the
      exception's text `reason`, after the totals of lines 25-38 are
      computed. */
  function StatisticsAsWritten(programHasStudents: bool, studentCount: nat, userRoles: seq<string>,
                               accountCount: nat, students: seq<StudentRow>, loads: seq<LoadRow>,
                               reason: string): (r: StatisticsAnswer)
    ensures r.StatisticsFailed? <==> !programHasStudents
    ensures r.StatisticsFailed? ==> r.status == 500 && r.message == StatisticsFailure + reason
    ensures r.StatisticsFigures? ==> r.totals == UserTotalsAsWritten(studentCount, userRoles, accountCount)
  {
    var totals := UserTotalsAsWritten(studentCount, userRoles, accountCount);
    if !programHasStudents then StatisticsFailed(500, StatisticsFailure + reason)
    else StatisticsFigures(totals, TopFive(ActivityStamp, StudentActivities(students) + LoadActivities(loads)))
  }

  /** getStatistics with Program's `students` relation declared and 'prof'
      counted as faculty: the totals and getRecentActivities' list. */
  function Statistics(studentCount: nat, userRoles: seq<string>, accountCount: nat,
                      students: seq<StudentRow>, loads: seq<LoadRow>): (r: StatisticsAnswer)
    ensures r.StatisticsFigures?
  {
    StatisticsFigures(UserTotals(studentCount, userRoles, accountCount),
                      TopFive(ActivityStamp, StudentActivities(students) + LoadActivities(loads)))
  }

  /** The corrected answer: the breakdown stays within the total, a stored
      professor counts as faculty, and the recent list holds at most five of
      the entries, latest first. */
  lemma StatisticsFiguresHold(studentCount: nat, userRoles: seq<string>, accountCount: nat,
                              students: seq<StudentRow>, loads: seq<LoadRow>)
    ensures var r := Statistics(studentCount, userRoles, accountCount, students, loads);
            var t := r.totals;
            && t.students + t.coordinators + t.faculty + t.deans + t.registrars <= t.total
            && ("prof" in userRoles ==> t.faculty > 0)
            && |r.recent| <= RecentLimit
            && SortedDesc(ActivityStamp, r.recent)
            && multiset(r.recent) <= multiset(StudentActivities(students) + LoadActivities(loads))
  {
    UserTotalsBreakdown(studentCount, userRoles, accountCount);
  }

  /** As written every call answers 500, whatever the tables hold, where the
      corrected answer always carries the figures. */
  lemma StatisticsAlwaysFail(studentCount: nat, userRoles: seq<string>, accountCount: nat,
                             students: seq<StudentRow>, loads: seq<LoadRow>, reason: string)
    ensures StatisticsAsWritten(false, studentCount, userRoles, accountCount, students, loads, reason).status == 500
    ensures Statistics(studentCount, userRoles, accountCount, students, loads).StatisticsFigures?
  {
  }

  /** The faculty miscount of lines 35-36 is hidden by the failure while the
      relation is missing, and shows once it is declared. */
  lemma StoredProfessorMasked(reason: string)
    ensures StatisticsAsWritten(false, 0, ["prof"], 0, [], [], reason).StatisticsFailed?
    ensures StatisticsAsWritten(true, 0, ["prof"], 0, [], [], reason).totals.faculty == 0
    ensures Statistics(0, ["prof"], 0, [], []).totals.faculty == 1
  {
    StoredProfessorNotCounted();
    UserTotalsBreakdown(0, ["prof"], 0);
  }

  /** getDeanRecentActivities: the students' entries only when the college has
      programs; each entry is shown as its text and its time ago. */
  method DeanRecentActivities(hasPrograms: bool, students: seq<StudentRow>, loads: seq<LoadRow>)
    returns (recent: seq<ShownActivity>)
    ensures recent == ShowAll(TopFive(DeanStamp, (if hasPrograms then DeanStudentActivities(students) else [])
                                                 + DeanLoadActivities(loads)))
  {
    var activities: seq<DeanActivity> := [];
    if hasPrograms {
      for i := 0 to |students|
        invariant activities == DeanStudentActivities(students[..i])
      {
        assert students[..i + 1][..i] == students[..i];
        activities := activities + [DeanStudentActivity(students[i])];
      }
      assert students[..|students|] == students;
    }
    ghost var fromStudents := activities;
    for i := 0 to |loads|
      invariant activities == fromStudents + DeanLoadActivities(loads[..i])
    {
      assert loads[..i + 1][..i] == loads[..i];
      if loads[i].faculty.Some? {
        assert DeanLoadActivities(loads[..i + 1]) == DeanLoadActivities(loads[..i]) + [DeanLoadActivity(loads[i])];
        activities := activities + [DeanLoadActivity(loads[i])];
      }
    }
    assert loads[..|loads|] == loads;
    recent := ShowAll(TopFive(DeanStamp, activities));
  }
}
