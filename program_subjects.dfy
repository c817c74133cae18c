/** The program_subject pivot table and ProgramController's assignSubject and
    unassignSubject on it. */
module ProgramSubjects {
  import opened Wrappers

  /** A row of program_subject; rows written by other screens may carry a
      semester and year level. */
  datatype PivotRow = PivotRow(programId: nat, subjectId: nat, semester: Option<string>, yearLevel: Option<string>)

  /** `$program->subjects`: the subjects a program has at least one row for. */
  function SubjectsOf(pivot: seq<PivotRow>, programId: nat): (r: set<nat>)
    ensures forall s :: s in r <==> exists i | 0 <= i < |pivot| :: pivot[i].programId == programId && pivot[i].subjectId == s
  {
    set i | 0 <= i < |pivot| && pivot[i].programId == programId :: pivot[i].subjectId
  }

  /** `detach($subjectId)`: every row of the pair goes, the others stay in order. */
  function Detach(pivot: seq<PivotRow>, programId: nat, subjectId: nat): (r: seq<PivotRow>)
    ensures forall row :: row in r <==> row in pivot && !(row.programId == programId && row.subjectId == subjectId)
  {
    if pivot == [] then []
    else
      var rest := Detach(pivot[1..], programId, subjectId);
      assert forall row :: row in pivot <==> row == pivot[0] || row in pivot[1..];
      if pivot[0].programId == programId && pivot[0].subjectId == subjectId then rest else [pivot[0]] + rest
  }

  /** Detaching a pair that has no row changes nothing. */
  lemma {:induction false} DetachAbsent(pivot: seq<PivotRow>, programId: nat, subjectId: nat)
    requires forall i | 0 <= i < |pivot| :: !(pivot[i].programId == programId && pivot[i].subjectId == subjectId)
    ensures Detach(pivot, programId, subjectId) == pivot
  {
    if pivot != [] {
      assert forall i | 0 <= i < |pivot[1..]| :: pivot[1..][i] == pivot[i + 1];
      DetachAbsent(pivot[1..], programId, subjectId);
      assert pivot == [pivot[0]] + pivot[1..];
    }
  }

  lemma {:induction false} DetachAppend(pivot: seq<PivotRow>, row: PivotRow, programId: nat, subjectId: nat)
    ensures Detach(pivot + [row], programId, subjectId)
            == Detach(pivot, programId, subjectId) + Detach([row], programId, subjectId)
  {
    if pivot == [] {
      assert pivot + [row] == [row];
    } else {
      assert (pivot + [row])[1..] == pivot[1..] + [row];
      DetachAppend(pivot[1..], row, programId, subjectId);
    }
  }

  lemma DetachSubjects(pivot: seq<PivotRow>, programId: nat, subjectId: nat, other: nat)
    ensures SubjectsOf(Detach(pivot, programId, subjectId), programId) == SubjectsOf(pivot, programId) - {subjectId}
    ensures other != programId ==> SubjectsOf(Detach(pivot, programId, subjectId), other) == SubjectsOf(pivot, other)
  {
    var d := Detach(pivot, programId, subjectId);
    forall s ensures s in SubjectsOf(d, programId) <==> s in SubjectsOf(pivot, programId) && s != subjectId {
      if s in SubjectsOf(d, programId) {
        var i :| 0 <= i < |d| && d[i].programId == programId && d[i].subjectId == s;
        assert d[i] in pivot;
      }
      if s in SubjectsOf(pivot, programId) && s != subjectId {
        var i :| 0 <= i < |pivot| && pivot[i].programId == programId && pivot[i].subjectId == s;
        assert pivot[i] in d;
      }
    }
    if other != programId {
      forall s ensures s in SubjectsOf(d, other) <==> s in SubjectsOf(pivot, other) {
        if s in SubjectsOf(d, other) {
          var i :| 0 <= i < |d| && d[i].programId == other && d[i].subjectId == s;
          assert d[i] in pivot;
        }
        if s in SubjectsOf(pivot, other) {
          var i :| 0 <= i < |pivot| && pivot[i].programId == other && pivot[i].subjectId == s;
          assert pivot[i] in d;
        }
      }
    }
  }

  lemma AttachSubjects(pivot: seq<PivotRow>, programId: nat, subjectId: nat, other: nat)
    ensures SubjectsOf(pivot + [PivotRow(programId, subjectId, None, None)], programId) == SubjectsOf(pivot, programId) + {subjectId}
    ensures other != programId ==> SubjectsOf(pivot + [PivotRow(programId, subjectId, None, None)], other) == SubjectsOf(pivot, other)
  {
    var p := pivot + [PivotRow(programId, subjectId, None, None)];
    assert p[|pivot|].subjectId == subjectId;
    assert forall i | 0 <= i < |pivot| :: p[i] == pivot[i];
  }

  /** Assigning a new subject and then unassigning it restores the table. */
  lemma AssignThenUnassign(pivot: seq<PivotRow>, programId: nat, subjectId: nat)
    requires subjectId !in SubjectsOf(pivot, programId)
    ensures Detach(pivot + [PivotRow(programId, subjectId, None, None)], programId, subjectId) == pivot
  {
    DetachAppend(pivot, PivotRow(programId, subjectId, None, None), programId, subjectId);
    DetachAbsent(pivot, programId, subjectId);
  }

  /** The status code of a request and the pivot table it leaves. */
  datatype Answer = Answer(status: int, pivot: seq<PivotRow>)

  /** assignSubject as written: Program (Program.php:8-21) declares no
      `subjects()` relation, so once the program exists and the request
      validates, the call on line 169 raises and the request ends with status
      500 before the pivot is touched. */
  function AssignAsWritten(programs: set<nat>, subjects: set<nat>, pivot: seq<PivotRow>, programId: nat, subjectId: Option<nat>)
    : (r: Answer)
    ensures r.pivot == pivot && r.status != 200
    ensures r.status == 500 <==> programId in programs && subjectId.Some? && subjectId.value in subjects
  {
    if programId !in programs then Answer(404, pivot)
    else if subjectId.None? || subjectId.value !in subjects then Answer(422, pivot)
    else Answer(500, pivot)
  }

  /** assignSubject over a `subjects()` relation on program_subject. */
  function AssignOutcome(programs: set<nat>, subjects: set<nat>, pivot: seq<PivotRow>, programId: nat, subjectId: Option<nat>)
    : (r: Answer)
    ensures r.status == 404 <==> programId !in programs
    ensures r.status == 200 <==> programId in programs && subjectId.Some? && subjectId.value in subjects
                                 && subjectId.value !in SubjectsOf(pivot, programId)
    ensures r.status == 200 ==> SubjectsOf(r.pivot, programId) == SubjectsOf(pivot, programId) + {subjectId.value}
    ensures r.status != 200 ==> r.pivot == pivot
  {
    if programId !in programs then Answer(404, pivot)
    else if subjectId.None? || subjectId.value !in subjects then Answer(422, pivot)
    else if subjectId.value in SubjectsOf(pivot, programId) then Answer(400, pivot)
    else
      AttachSubjects(pivot, programId, subjectId.value, programId);
      Answer(200, pivot + [PivotRow(programId, subjectId.value, None, None)])
  }

  /** unassignSubject as written: for an existing program the `subjects()`
      call on line 201 raises, so nothing is ever unassigned. */
  function UnassignAsWritten(programs: set<nat>, pivot: seq<PivotRow>, programId: nat, subjectId: nat): (r: Answer)
    ensures r.pivot == pivot && r.status != 200
    ensures r.status == 404 <==> programId !in programs
  {
    if programId !in programs then Answer(404, pivot) else Answer(500, pivot)
  }

  /** unassignSubject over a `subjects()` relation on program_subject. */
  function UnassignOutcome(programs: set<nat>, pivot: seq<PivotRow>, programId: nat, subjectId: nat): (r: Answer)
    ensures r.status == 404 <==> programId !in programs
    ensures r.status == 200 <==> programId in programs && subjectId in SubjectsOf(pivot, programId)
    ensures r.status == 200 ==> SubjectsOf(r.pivot, programId) == SubjectsOf(pivot, programId) - {subjectId}
    ensures r.status != 200 ==> r.pivot == pivot
  {
    if programId !in programs then Answer(404, pivot)
    else if subjectId !in SubjectsOf(pivot, programId) then Answer(400, pivot)
    else
      DetachSubjects(pivot, programId, subjectId, programId);
      Answer(200, Detach(pivot, programId, subjectId))
  }

  /** The two versions agree on every request that is turned away before the
      relation is used; every request the intended version accepts ends in 500
      as written, with the subject neither assigned nor unassigned. */
  lemma MissingRelationFails(programs: set<nat>, subjects: set<nat>, pivot: seq<PivotRow>, programId: nat, subjectId: nat)
    ensures programId !in programs ==> AssignAsWritten(programs, subjects, pivot, programId, Some(subjectId))
                                       == AssignOutcome(programs, subjects, pivot, programId, Some(subjectId))
    ensures AssignOutcome(programs, subjects, pivot, programId, Some(subjectId)).status == 200
            ==> AssignAsWritten(programs, subjects, pivot, programId, Some(subjectId)) == Answer(500, pivot)
                && subjectId !in SubjectsOf(pivot, programId)
                && subjectId in SubjectsOf(AssignOutcome(programs, subjects, pivot, programId, Some(subjectId)).pivot, programId)
    ensures UnassignOutcome(programs, pivot, programId, subjectId).status == 200
            ==> UnassignAsWritten(programs, pivot, programId, subjectId) == Answer(500, pivot)
                && subjectId in SubjectsOf(pivot, programId)
                && subjectId !in SubjectsOf(UnassignOutcome(programs, pivot, programId, subjectId).pivot, programId)
  {
  }

  class ProgramSubjectTable {
    var programs: set<nat>
    var subjects: set<nat>
    var pivot: seq<PivotRow>

    constructor(programs: set<nat>, subjects: set<nat>)
      ensures this.programs == programs && this.subjects == subjects && pivot == []
    {
      this.programs := programs;
      this.subjects := subjects;
      pivot := [];
    }

    /** assignSubject (lines 153-184): 404 for an unknown program, 422 when
        `subject_id` is missing or unknown, 400 when the subject is already
        assigned, otherwise one pivot row added. */
    method AssignSubject(programId: nat, subjectId: Option<nat>) returns (status: int)
      modifies this
      ensures programs == old(programs) && subjects == old(subjects)
      ensures programId !in programs ==> status == 404
      ensures programId in programs && (subjectId.None? || subjectId.value !in subjects) ==> status == 422
      ensures programId in programs && subjectId.Some? && subjectId.value in subjects
              && subjectId.value in SubjectsOf(old(pivot), programId)
              ==> status == 400
      ensures programId in programs && subjectId.Some? && subjectId.value in subjects
              && subjectId.value !in SubjectsOf(old(pivot), programId)
              ==> status == 200
      ensures status != 200 ==> pivot == old(pivot)
      ensures status == 200 ==> pivot == old(pivot) + [PivotRow(programId, subjectId.value, None, None)]
                                && SubjectsOf(pivot, programId) == SubjectsOf(old(pivot), programId) + {subjectId.value}
                                && subjectId.value !in SubjectsOf(old(pivot), programId)
      ensures Answer(status, pivot) == AssignOutcome(old(programs), old(subjects), old(pivot), programId, subjectId)
    {
      if programId !in programs {
        return 404;
      }
      if subjectId.None? || subjectId.value !in subjects {
        return 422;
      }
      if subjectId.value in SubjectsOf(pivot, programId) {
        return 400;
      }
      AttachSubjects(pivot, programId, subjectId.value, programId);
      pivot := pivot + [PivotRow(programId, subjectId.value, None, None)];
      status := 200;
    }

    /** unassignSubject (lines 189-216): 404 for an unknown program, 400 when
        the subject is not assigned, otherwise every row of the pair removed. */
    method UnassignSubject(programId: nat, subjectId: nat) returns (status: int)
      modifies this
      ensures programs == old(programs) && subjects == old(subjects)
      ensures programId !in programs ==> status == 404
      ensures programId in programs && subjectId !in SubjectsOf(old(pivot), programId) ==> status == 400
      ensures programId in programs && subjectId in SubjectsOf(old(pivot), programId) ==> status == 200
      ensures status != 200 ==> pivot == old(pivot)
      ensures status == 200 ==> pivot == Detach(old(pivot), programId, subjectId)
                                && SubjectsOf(pivot, programId) == SubjectsOf(old(pivot), programId) - {subjectId}
      ensures Answer(status, pivot) == UnassignOutcome(old(programs), old(pivot), programId, subjectId)
    {
      if programId !in programs {
        return 404;
      }
      if subjectId !in SubjectsOf(pivot, programId) {
        return 400;
      }
      DetachSubjects(pivot, programId, subjectId, programId);
      pivot := Detach(pivot, programId, subjectId);
      status := 200;
    }
  }
}
