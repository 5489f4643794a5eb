/** Controller/StudentController.java: what a logged-in student does with the store. */
module StudentController {
  import opened Common
  import opened Model
  import opened Store
  import opened Session

  /** The test registerSubject applies: the subject exists and its prerequisite, if it
      has one, is completed. Unlike canRegisterForSubject it does not ask whether the
      student is already registered. */
  predicate PrerequisiteMet(xs: seq<Subject>, rs: seq<RegistrationRecord>, studentId: string, subjectId: string)
    reads xs
  {
    var k := SubjectIndex(xs, subjectId);
    k >= 0 && (xs[k].HasPrerequisite() ==> HasCompleted(rs, studentId, xs[k].prerequisiteId.value))
  }

  /** canRegisterForSubject is registerSubject's test plus "not yet registered", so the
      two disagree exactly on pairs that are already registered. */
  lemma CanRegisterIsPrerequisiteMetAndNew(xs: seq<Subject>, rs: seq<RegistrationRecord>,
                                          studentId: string, subjectId: string)
    ensures CanRegister(xs, rs, studentId, subjectId) <==>
      (PrerequisiteMet(xs, rs, studentId, subjectId) && (studentId, subjectId) !in Pairs(rs))
  {
  }

  /** registerSubject: refuses, changing nothing, an unknown subject or one whose
      prerequisite the student has not completed; otherwise registers the pair through
      the store (which adds nothing when it is already registered) and reports success. */
  method RegisterSubject(dm: DataManager, studentId: string, subjectId: string) returns (ok: bool)
    requires dm.Valid()
    modifies dm
    ensures dm.Valid()
    ensures ok == PrerequisiteMet(dm.subjects, old(dm.Registrations()), studentId, subjectId)
    ensures dm.students == old(dm.students) && dm.subjects == old(dm.subjects) &&
      dm.curriculums == old(dm.curriculums)
    ensures !ok ==> dm.registrations == old(dm.registrations) && dm.disk == old(dm.disk)
    ensures ok ==> dm.Registrations() == Register(old(dm.Registrations()), studentId, subjectId)
    ensures ok ==> (studentId, subjectId) in Pairs(dm.Registrations())
    ensures ok && (studentId, subjectId) in old(Pairs(dm.Registrations())) ==>
      dm.registrations == old(dm.registrations) && dm.disk == old(dm.disk)
    ensures ok && (studentId, subjectId) !in old(Pairs(dm.Registrations())) ==>
      dm.disk == dm.Snapshot()
  {
    var subject := dm.GetSubjectById(subjectId);
    if subject == null {
      return false;
    }
    if subject.HasPrerequisite() {
      var completed := dm.HasCompletedPrerequisite(studentId, subject.prerequisiteId.value);
      if !completed {
        return false;
      }
    }
    dm.RegisterSubject(studentId, subjectId);
    RegisterIdempotent(old(dm.Registrations()), studentId, subjectId);
    return true;
  }

  /** canViewStudentProfile: no one when logged out, every profile for an admin, and
      otherwise only the user's own profile. */
  function CanViewStudentProfile(sm: SessionManager, studentId: string): (ok: bool)
    reads sm, sm.currentUser
    ensures !sm.IsLoggedIn() ==> !ok
    ensures sm.IsAdmin() ==> ok
    ensures sm.IsLoggedIn() && !sm.IsAdmin() ==> (ok <==> sm.currentUser.studentId == studentId)
    ensures ok ==> sm.IsAdmin() || sm.currentUser.studentId == studentId
  {
    if !sm.IsLoggedIn() then false
    else if sm.IsAdmin() then true
    else sm.currentUser.studentId == studentId
  }

  /** Keeping only the student's registrations does not change the grade found for
      that student. */
  lemma {:induction false} GradeForOwnRegistrations(rs: seq<RegisteredSubject>, studentId: string, subjectId: string)
    ensures GradeFor(RegistrationRecords(RegistrationsOf(rs, studentId)), studentId, subjectId) ==
      GradeFor(RegistrationRecords(rs), studentId, subjectId)
    ensures forall k :: 0 <= k < |RegistrationsOf(rs, studentId)| ==> RegistrationsOf(rs, studentId)[k].studentId == studentId
  {
    RegistrationsOfMembers(rs, studentId);
    if rs != [] {
      GradeForOwnRegistrations(rs[1..], studentId, subjectId);
      assert RegistrationRecords(rs)[1..] == RegistrationRecords(rs[1..]);
      var rest := RegistrationsOf(rs[1..], studentId);
      if rs[0].studentId == studentId {
        assert RegistrationsOf(rs, studentId) == [rs[0]] + rest;
        assert RegistrationRecords([rs[0]] + rest)[1..] == RegistrationRecords(rest);
      } else {
        assert RegistrationsOf(rs, studentId) == rest;
      }
    }
  }

  /** getGradeForSubject: the grade of the student's first registration for the
      subject, or null when there is none. */
  method GetGradeForSubject(dm: DataManager, studentId: string, subjectId: string) returns (grade: Option<string>)
    ensures grade == GradeFor(dm.Registrations(), studentId, subjectId)
    ensures (studentId, subjectId) !in Pairs(dm.Registrations()) ==> grade == None
  {
    var own := dm.GetRegisteredSubjectsForStudent(studentId);
    GradeForOwnRegistrations(dm.registrations, studentId, subjectId);
    ghost var records := RegistrationRecords(own);
    assert GradeFor(records, studentId, subjectId) == GradeFor(dm.Registrations(), studentId, subjectId);
    grade := GradeAmong(own, records, studentId, subjectId);
  }

  /** The loop of getGradeForSubject over registrations that all belong to the student. */
  method GradeAmong(own: seq<RegisteredSubject>, ghost records: seq<RegistrationRecord>, studentId: string,
                    subjectId: string) returns (grade: Option<string>)
    requires records == RegistrationRecords(own)
    requires forall k :: 0 <= k < |own| ==> own[k].studentId == studentId
    ensures grade == GradeFor(records, studentId, subjectId)
  {
    for i := 0 to |own|
      invariant GradeFor(records, studentId, subjectId) == GradeFor(records[i..], studentId, subjectId)
    {
      assert records[i..][1..] == records[i + 1..];
      if own[i].subjectId == subjectId {
        return own[i].grade;
      }
    }
    return None;
  }

  /** getRegisteredSubjectDetails, as its loop computes it: for each of the student's
      registrations in order, the subject it names, skipping unknown subjects. */
  function SubjectDetails(own: seq<RegisteredSubject>, xs: seq<Subject>): seq<Subject>
    reads own, xs
  {
    if own == [] then []
    else
      var x := FindSubject(xs, own[0].subjectId);
      (if x != null then [x] else []) + SubjectDetails(own[1..], xs)
  }

  /** The details list is the subject of each registration with a known subject, one
      for one and in registration order. */
  lemma {:induction false} SubjectDetailsOfKnown(own: seq<RegisteredSubject>, xs: seq<Subject>)
    ensures |SubjectDetails(own, xs)| == |KnownRegistrations(own, xs)|
    ensures forall i :: 0 <= i < |SubjectDetails(own, xs)| ==>
      SubjectDetails(own, xs)[i] == FindSubject(xs, KnownRegistrations(own, xs)[i].subjectId)
  {
    if own != [] {
      SubjectDetailsOfKnown(own[1..], xs);
    }
  }

  /** SubjectDetails of a list with one more registration at the end. */
  lemma {:induction false} SubjectDetailsSnoc(own: seq<RegisteredSubject>, r: RegisteredSubject, xs: seq<Subject>)
    ensures var x := FindSubject(xs, r.subjectId);
      SubjectDetails(own + [r], xs) == SubjectDetails(own, xs) + (if x != null then [x] else [])
  {
    if own == [] {
      assert own + [r] == [r];
    } else {
      assert (own + [r])[1..] == own[1..] + [r];
      SubjectDetailsSnoc(own[1..], r, xs);
    }
  }

  method GetRegisteredSubjectDetails(dm: DataManager, studentId: string) returns (details: seq<Subject>)
    ensures details == SubjectDetails(RegistrationsOf(dm.registrations, studentId), dm.subjects)
  {
    var own := dm.GetRegisteredSubjectsForStudent(studentId);
    details := DetailsOf(dm.subjects, own);
  }

  /** The loop of getRegisteredSubjectDetails over the student's registrations. */
  method DetailsOf(xs: seq<Subject>, own: seq<RegisteredSubject>) returns (details: seq<Subject>)
    ensures details == SubjectDetails(own, xs)
  {
    details := [];
    for i := 0 to |own|
      invariant details == SubjectDetails(own[..i], xs)
    {
      assert own[..i + 1] == own[..i] + [own[i]];
      SubjectDetailsSnoc(own[..i], own[i], xs);
      var subject := FindSubject(xs, own[i].subjectId);
      if subject != null {
        details := details + [subject];
      }
    }
    assert own[..|own|] == own;
  }

  /** getCurriculumForStudent: the curriculum the student's curriculum identifier names,
      or null for an unknown student or curriculum; when it is null, no subject is
      available to the student. */
  method GetCurriculumForStudent(dm: DataManager, studentId: string) returns (c: SubjectStructure?)
    ensures FindStudent(dm.students, studentId) == null ==> c == null
    ensures FindStudent(dm.students, studentId) != null ==>
      c == FindCurriculum(dm.curriculums, FindStudent(dm.students, studentId).curriculumId)
    ensures c != null ==> c in dm.curriculums && c.curriculumId == FindStudent(dm.students, studentId).curriculumId
    ensures c == null ==> AvailableSubjects(dm.students, dm.subjects, dm.curriculums, dm.Registrations(), studentId) == []
  {
    var student := dm.GetStudentById(studentId);
    if student != null {
      c := dm.GetCurriculumById(student.curriculumId);
      return;
    }
    return null;
  }
}
