/** The repository of the registration system (Model/DataManager.java): four ordered
    lists of students, subjects, curriculums and registrations, the lookups and filters
    over them, the operations that change them, and their persistence to four files. */
module Store {
  import opened Common
  import opened Model

  // ===========================================================================
  // Serialized forms of the lists

  function StudentRecords(ss: seq<Student>): (r: seq<StudentRecord>)
    reads ss
    ensures |r| == |ss| && forall i :: 0 <= i < |ss| ==> r[i] == ss[i].Record()
  {
    seq(|ss|, i requires 0 <= i < |ss| reads ss => ss[i].Record())
  }

  function SubjectRecords(xs: seq<Subject>): (r: seq<SubjectRecord>)
    reads xs
    ensures |r| == |xs| && forall i :: 0 <= i < |xs| ==> r[i] == xs[i].Record()
  {
    seq(|xs|, i requires 0 <= i < |xs| reads xs => xs[i].Record())
  }

  function StructureRecords(cs: seq<SubjectStructure>): (r: seq<StructureRecord>)
    reads cs
    ensures |r| == |cs| && forall i :: 0 <= i < |cs| ==> r[i] == cs[i].Record()
  {
    seq(|cs|, i requires 0 <= i < |cs| reads cs => cs[i].Record())
  }

  function RegistrationRecords(rs: seq<RegisteredSubject>): (r: seq<RegistrationRecord>)
    reads rs
    ensures |r| == |rs| && forall i :: 0 <= i < |rs| ==> r[i] == rs[i].Record()
  {
    seq(|rs|, i requires 0 <= i < |rs| reads rs => rs[i].Record())
  }

  lemma StudentRecordsAppend(ss: seq<Student>, s: Student)
    ensures StudentRecords(ss + [s]) == StudentRecords(ss) + [s.Record()]
  {
  }

  lemma StudentRecordsAppendAll(ss: seq<Student>, ts: seq<Student>)
    ensures StudentRecords(ss + ts) == StudentRecords(ss) + StudentRecords(ts)
  {
  }

  lemma SubjectRecordsAppend(xs: seq<Subject>, ys: seq<Subject>)
    ensures SubjectRecords(xs + ys) == SubjectRecords(xs) + SubjectRecords(ys)
  {
  }

  lemma StructureRecordsAppend(cs: seq<SubjectStructure>, ds: seq<SubjectStructure>)
    ensures StructureRecords(cs + ds) == StructureRecords(cs) + StructureRecords(ds)
  {
  }

  lemma RegistrationRecordsAppend(rs: seq<RegisteredSubject>, gs: seq<RegisteredSubject>)
    ensures RegistrationRecords(rs + gs) == RegistrationRecords(rs) + RegistrationRecords(gs)
  {
  }

  /** The four data files; None is a file that does not exist. */
  datatype Disk = Disk(
    students: Option<seq<StudentRecord>>,
    subjects: Option<seq<SubjectRecord>>,
    curriculums: Option<seq<StructureRecord>>,
    registrations: Option<seq<RegistrationRecord>>)

  /** loadData reads the files only when all four exist. */
  predicate AllFilesExist(d: Disk) {
    d.students.Some? && d.subjects.Some? && d.curriculums.Some? && d.registrations.Some?
  }

  /** A curriculum record as saveData writes it: the two lists run in parallel. */
  predicate ParallelLists(c: StructureRecord) {
    |c.requiredSubjectIds| == |c.semesters|
  }

  /** Files that saveData wrote: every stored curriculum has parallel lists. */
  predicate WellFormed(d: Disk) {
    d.curriculums.Some? ==>
      forall i :: 0 <= i < |d.curriculums.value| ==> ParallelLists(d.curriculums.value[i])
  }

  // ===========================================================================
  // Registrations as (student, subject) pairs, counts and completed prerequisites

  function Pair(r: RegistrationRecord): (string, string) {
    (r.studentId, r.subjectId)
  }

  function Pairs(rs: seq<RegistrationRecord>): (ps: seq<(string, string)>)
    ensures |ps| == |rs| && forall i :: 0 <= i < |rs| ==> ps[i] == Pair(rs[i])
  {
    seq(|rs|, i requires 0 <= i < |rs| => Pair(rs[i]))
  }

  /** No (student, subject) pair is registered twice. */
  predicate DistinctPairs(rs: seq<RegistrationRecord>) {
    forall i, j :: 0 <= i < j < |rs| ==> Pair(rs[i]) != Pair(rs[j])
  }

  /** The subject column of the registrations. */
  function RegisteredSubjectIds(rs: seq<RegistrationRecord>): (ids: seq<string>)
    ensures |ids| == |rs| && forall i :: 0 <= i < |rs| ==> ids[i] == rs[i].subjectId
  {
    seq(|rs|, i requires 0 <= i < |rs| => rs[i].subjectId)
  }

  /** The count getRegistrationCountForSubject computes: the number of times the subject
      occurs in the subject column. */
  function CountFor(rs: seq<RegistrationRecord>, subjectId: string): (n: nat)
    ensures n == multiset(RegisteredSubjectIds(rs))[subjectId]
  {
    if rs == [] then 0
    else
      assert RegisteredSubjectIds(rs) == [rs[0].subjectId] + RegisteredSubjectIds(rs[1..]);
      (if rs[0].subjectId == subjectId then 1 else 0) + CountFor(rs[1..], subjectId)
  }

  /** hasCompletedPrerequisite: some registration of the student for the subject is graded. */
  predicate HasCompleted(rs: seq<RegistrationRecord>, studentId: string, subjectId: string) {
    exists i :: 0 <= i < |rs| && rs[i].studentId == studentId && rs[i].subjectId == subjectId &&
      Present(rs[i].grade)
  }

  /** A completed prerequisite is in particular a registration of that pair. */
  lemma CompletedIsRegistered(rs: seq<RegistrationRecord>, studentId: string, subjectId: string)
    requires HasCompleted(rs, studentId, subjectId)
    ensures (studentId, subjectId) in Pairs(rs)
  {
    var i :| 0 <= i < |rs| && rs[i].studentId == studentId && rs[i].subjectId == subjectId &&
      Present(rs[i].grade);
    assert Pairs(rs)[i] == (studentId, subjectId);
  }

  /** registerSubject: the pair is appended, ungraded, unless it is already registered. */
  function Register(rs: seq<RegistrationRecord>, studentId: string, subjectId: string): seq<RegistrationRecord> {
    if (studentId, subjectId) in Pairs(rs) then rs
    else rs + [RegistrationRecord(studentId, subjectId, None)]
  }

  lemma PairsAppend(rs: seq<RegistrationRecord>, r: RegistrationRecord)
    ensures Pairs(rs + [r]) == Pairs(rs) + [Pair(r)]
  {
  }

  /** Registering is idempotent, and afterwards the pair is registered. */
  lemma RegisterIdempotent(rs: seq<RegistrationRecord>, studentId: string, subjectId: string)
    ensures (studentId, subjectId) in Pairs(Register(rs, studentId, subjectId))
    ensures Register(Register(rs, studentId, subjectId), studentId, subjectId) == Register(rs, studentId, subjectId)
  {
    PairsAppend(rs, RegistrationRecord(studentId, subjectId, None));
  }

  /** Registering keeps the pairs distinct. */
  lemma RegisterKeepsDistinct(rs: seq<RegistrationRecord>, studentId: string, subjectId: string)
    requires DistinctPairs(rs)
    ensures DistinctPairs(Register(rs, studentId, subjectId))
  {
    if (studentId, subjectId) !in Pairs(rs) {
      var r := Register(rs, studentId, subjectId);
      forall i, j | 0 <= i < j < |r|
        ensures Pair(r[i]) != Pair(r[j])
      {
        if j == |rs| {
          assert Pairs(rs)[i] == Pair(r[i]);
        }
      }
    }
  }

  /** Registering a new pair raises that subject's count by exactly one and leaves every
      other count alone; registering a known pair changes no count. */
  lemma RegisterCount(rs: seq<RegistrationRecord>, studentId: string, subjectId: string, x: string)
    ensures CountFor(Register(rs, studentId, subjectId), x) ==
      CountFor(rs, x) + (if x == subjectId && (studentId, subjectId) !in Pairs(rs) then 1 else 0)
  {
    if (studentId, subjectId) !in Pairs(rs) {
      var r := RegistrationRecord(studentId, subjectId, None);
      assert RegisteredSubjectIds(rs + [r]) == RegisteredSubjectIds(rs) + [subjectId];
    }
  }

  /** A new registration carries no grade, so registering never completes a prerequisite. */
  lemma RegisterCompletesNothing(rs: seq<RegistrationRecord>, studentId: string, subjectId: string,
                                 s: string, p: string)
    ensures HasCompleted(Register(rs, studentId, subjectId), s, p) == HasCompleted(rs, s, p)
  {
    var r := Register(rs, studentId, subjectId);
    if HasCompleted(r, s, p) {
      var i :| 0 <= i < |r| && r[i].studentId == s && r[i].subjectId == p && Present(r[i].grade);
      assert i < |rs| && rs[i] == r[i];
    }
    if HasCompleted(rs, s, p) {
      var i :| 0 <= i < |rs| && rs[i].studentId == s && rs[i].subjectId == p && Present(rs[i].grade);
      assert r[i] == rs[i];
    }
  }

  /** The grade getGradeForSubject reports: that of the first registration of the pair. */
  function GradeFor(rs: seq<RegistrationRecord>, studentId: string, subjectId: string): (g: Option<string>)
    ensures (studentId, subjectId) !in Pairs(rs) ==> g == None
    ensures (studentId, subjectId) in Pairs(rs) ==> g == rs[IndexOf(Pairs(rs), (studentId, subjectId))].grade
  {
    if rs == [] then None
    else
      assert Pairs(rs) == [Pair(rs[0])] + Pairs(rs[1..]);
      if rs[0].studentId == studentId && rs[0].subjectId == subjectId then rs[0].grade
      else GradeFor(rs[1..], studentId, subjectId)
  }

  /** setGrade on the store: the grade of the first registration of the pair is replaced. */
  function SetGradeAt(rs: seq<RegistrationRecord>, studentId: string, subjectId: string, g: Option<string>): seq<RegistrationRecord> {
    var i := IndexOf(Pairs(rs), (studentId, subjectId));
    if i < 0 then rs else rs[i := rs[i].(grade := g)]
  }

  /** After a grade is set, the grade read back for the pair is that grade, every pair
      is still registered, and no other pair's grade has changed. */
  lemma SetThenGetGrade(rs: seq<RegistrationRecord>, studentId: string, subjectId: string,
                        g: Option<string>, s: string, x: string)
    requires (studentId, subjectId) in Pairs(rs)
    ensures Pairs(SetGradeAt(rs, studentId, subjectId, g)) == Pairs(rs)
    ensures GradeFor(SetGradeAt(rs, studentId, subjectId, g), studentId, subjectId) == g
    ensures (s, x) != (studentId, subjectId) ==>
      GradeFor(SetGradeAt(rs, studentId, subjectId, g), s, x) == GradeFor(rs, s, x)
  {
    var r := SetGradeAt(rs, studentId, subjectId, g);
    assert Pairs(r) == Pairs(rs);
  }

  // ===========================================================================
  // Lookups: the first element carrying the key, or null. Each lookup is the position
  // of that element (-1 when there is none) and the element at that position.

  /** The position of the first student with the identifier, or -1; updateStudent
      overwrites this slot. */
  function StudentIndex(ss: seq<Student>, key: string): (i: int)
    reads ss
    ensures -1 <= i < |ss|
    ensures 0 <= i ==> ss[i].studentId == key
  {
    if ss == [] then -1
    else if ss[0].studentId == key then 0
    else
      var j := StudentIndex(ss[1..], key);
      if j < 0 then -1 else j + 1
  }

  /** No element before the one found carries the key; with -1, none does. */
  lemma {:induction false} StudentIndexFirst(ss: seq<Student>, key: string)
    ensures var i := StudentIndex(ss, key);
      forall j :: 0 <= j < |ss| && (i < 0 || j < i) ==> ss[j].studentId != key
  {
    if ss != [] && ss[0].studentId != key {
      StudentIndexFirst(ss[1..], key);
      assert forall j :: 1 <= j < |ss| ==> ss[j] == ss[1..][j - 1];
    }
  }

  /** getStudentById: the first student with the identifier, or null. */
  function FindStudent(ss: seq<Student>, key: string): Student?
    reads ss
  {
    var i := StudentIndex(ss, key);
    if i < 0 then null else ss[i]
  }

  /** The position of the first student with the email, or -1. */
  function EmailIndex(ss: seq<Student>, key: string): (i: int)
    reads ss
    ensures -1 <= i < |ss|
    ensures 0 <= i ==> ss[i].email == key
  {
    if ss == [] then -1
    else if ss[0].email == key then 0
    else
      var j := EmailIndex(ss[1..], key);
      if j < 0 then -1 else j + 1
  }

  /** No element before the one found carries the key; with -1, none does. */
  lemma {:induction false} EmailIndexFirst(ss: seq<Student>, key: string)
    ensures var i := EmailIndex(ss, key);
      forall j :: 0 <= j < |ss| && (i < 0 || j < i) ==> ss[j].email != key
  {
    if ss != [] && ss[0].email != key {
      EmailIndexFirst(ss[1..], key);
      assert forall j :: 1 <= j < |ss| ==> ss[j] == ss[1..][j - 1];
    }
  }

  /** getStudentByEmail: the first student with the email, or null. */
  function FindByEmail(ss: seq<Student>, key: string): Student?
    reads ss
  {
    var i := EmailIndex(ss, key);
    if i < 0 then null else ss[i]
  }

  /** The position of the first subject with the identifier, or -1. */
  function SubjectIndex(ss: seq<Subject>, key: string): (i: int)
    reads ss
    ensures -1 <= i < |ss|
    ensures 0 <= i ==> ss[i].subjectId == key
  {
    if ss == [] then -1
    else if ss[0].subjectId == key then 0
    else
      var j := SubjectIndex(ss[1..], key);
      if j < 0 then -1 else j + 1
  }

  /** No element before the one found carries the key; with -1, none does. */
  lemma {:induction false} SubjectIndexFirst(ss: seq<Subject>, key: string)
    ensures var i := SubjectIndex(ss, key);
      forall j :: 0 <= j < |ss| && (i < 0 || j < i) ==> ss[j].subjectId != key
  {
    if ss != [] && ss[0].subjectId != key {
      SubjectIndexFirst(ss[1..], key);
      assert forall j :: 1 <= j < |ss| ==> ss[j] == ss[1..][j - 1];
    }
  }

  /** getSubjectById: the first subject with the identifier, or null. */
  function FindSubject(ss: seq<Subject>, key: string): Subject?
    reads ss
  {
    var i := SubjectIndex(ss, key);
    if i < 0 then null else ss[i]
  }

  /** The position of the first curriculum with the identifier, or -1. */
  function CurriculumIndex(ss: seq<SubjectStructure>, key: string): (i: int)
    reads ss
    ensures -1 <= i < |ss|
    ensures 0 <= i ==> ss[i].curriculumId == key
  {
    if ss == [] then -1
    else if ss[0].curriculumId == key then 0
    else
      var j := CurriculumIndex(ss[1..], key);
      if j < 0 then -1 else j + 1
  }

  /** No element before the one found carries the key; with -1, none does. */
  lemma {:induction false} CurriculumIndexFirst(ss: seq<SubjectStructure>, key: string)
    ensures var i := CurriculumIndex(ss, key);
      forall j :: 0 <= j < |ss| && (i < 0 || j < i) ==> ss[j].curriculumId != key
  {
    if ss != [] && ss[0].curriculumId != key {
      CurriculumIndexFirst(ss[1..], key);
      assert forall j :: 1 <= j < |ss| ==> ss[j] == ss[1..][j - 1];
    }
  }

  /** getCurriculumById: the first curriculum with the identifier, or null. */
  function FindCurriculum(ss: seq<SubjectStructure>, key: string): SubjectStructure?
    reads ss
  {
    var i := CurriculumIndex(ss, key);
    if i < 0 then null else ss[i]
  }

  /** After the first student with an identifier is replaced by another with the same
      identifier, looking the identifier up yields the replacement, and every other
      identifier is found where it was. */
  lemma ReplaceThenFind(ss: seq<Student>, s: Student, y: string)
    requires StudentIndex(ss, s.studentId) >= 0
    ensures FindStudent(ss[StudentIndex(ss, s.studentId) := s], s.studentId) == s
    ensures y != s.studentId ==>
      FindStudent(ss[StudentIndex(ss, s.studentId) := s], y) == FindStudent(ss, y)
  {
    var i := StudentIndex(ss, s.studentId);
    var t := ss[i := s];
    assert forall j :: 0 <= j < |ss| ==> t[j].studentId == ss[j].studentId;
    StudentIndexFirst(ss, s.studentId);
    StudentIndexFirst(t, s.studentId);
    if y != s.studentId {
      StudentIndexFirst(ss, y);
      StudentIndexFirst(t, y);
      var k := StudentIndex(ss, y);
      assert k != i;
      assert k >= 0 ==> t[k] == ss[k];
    }
  }

  // ===========================================================================
  // Filters, in list order

  /** getStudentsBySchool: the non-admin students of the school. */
  function StudentsAtSchool(ss: seq<Student>, school: string): seq<Student>
    reads ss
  {
    if ss == [] then []
    else (if ss[0].school == school && !ss[0].isAdmin then [ss[0]] else []) + StudentsAtSchool(ss[1..], school)
  }

  /** StudentsAtSchool of a list with one more student at the end. */
  lemma {:induction false} StudentsAtSchoolSnoc(ss: seq<Student>, s: Student, school: string)
    ensures StudentsAtSchool(ss + [s], school) ==
      StudentsAtSchool(ss, school) + (if s.school == school && !s.isAdmin then [s] else [])
  {
    if ss == [] {
      assert ss + [s] == [s];
    } else {
      assert (ss + [s])[1..] == ss[1..] + [s];
      StudentsAtSchoolSnoc(ss[1..], s, school);
    }
  }

  /** The school filter keeps exactly the non-admin students of the school. */
  lemma {:induction false} StudentsAtSchoolMembers(ss: seq<Student>, school: string)
    ensures |StudentsAtSchool(ss, school)| <= |ss|
    ensures forall i :: 0 <= i < |StudentsAtSchool(ss, school)| ==>
      StudentsAtSchool(ss, school)[i] in ss && StudentsAtSchool(ss, school)[i].school == school &&
      !StudentsAtSchool(ss, school)[i].isAdmin
    ensures forall k :: 0 <= k < |ss| && ss[k].school == school && !ss[k].isAdmin ==> ss[k] in StudentsAtSchool(ss, school)
  {
    if ss != [] {
      StudentsAtSchoolMembers(ss[1..], school);
      assert forall k :: 1 <= k < |ss| ==> ss[k] == ss[1..][k - 1];
    }
  }

  /** getRegisteredSubjectsForStudent: the registrations of the student. */
  function RegistrationsOf(rs: seq<RegisteredSubject>, studentId: string): seq<RegisteredSubject>
    reads rs
  {
    if rs == [] then []
    else (if rs[0].studentId == studentId then [rs[0]] else []) + RegistrationsOf(rs[1..], studentId)
  }

  /** RegistrationsOf of a list with one more registration at the end. */
  lemma {:induction false} RegistrationsOfSnoc(rs: seq<RegisteredSubject>, r: RegisteredSubject, studentId: string)
    ensures RegistrationsOf(rs + [r], studentId) ==
      RegistrationsOf(rs, studentId) + (if r.studentId == studentId then [r] else [])
  {
    if rs == [] {
      assert rs + [r] == [r];
    } else {
      assert (rs + [r])[1..] == rs[1..] + [r];
      RegistrationsOfSnoc(rs[1..], r, studentId);
    }
  }

  /** The student filter keeps exactly the registrations of the student. */
  lemma {:induction false} RegistrationsOfMembers(rs: seq<RegisteredSubject>, studentId: string)
    ensures |RegistrationsOf(rs, studentId)| <= |rs|
    ensures forall i :: 0 <= i < |RegistrationsOf(rs, studentId)| ==>
      RegistrationsOf(rs, studentId)[i] in rs && RegistrationsOf(rs, studentId)[i].studentId == studentId
    ensures forall k :: 0 <= k < |rs| && rs[k].studentId == studentId ==> rs[k] in RegistrationsOf(rs, studentId)
  {
    if rs != [] {
      RegistrationsOfMembers(rs[1..], studentId);
      assert forall k :: 1 <= k < |rs| ==> rs[k] == rs[1..][k - 1];
    }
  }

  /** The registrations, in order, whose subject the subject list holds. */
  function KnownRegistrations(rs: seq<RegisteredSubject>, xs: seq<Subject>): seq<RegisteredSubject>
    reads rs, xs
  {
    if rs == [] then []
    else (if SubjectIndex(xs, rs[0].subjectId) >= 0 then [rs[0]] else []) + KnownRegistrations(rs[1..], xs)
  }

  /** The filter keeps exactly the registrations whose subject can be found. */
  lemma {:induction false} KnownRegistrationsMembers(rs: seq<RegisteredSubject>, xs: seq<Subject>)
    ensures |KnownRegistrations(rs, xs)| <= |rs|
    ensures forall i :: 0 <= i < |KnownRegistrations(rs, xs)| ==>
      KnownRegistrations(rs, xs)[i] in rs && FindSubject(xs, KnownRegistrations(rs, xs)[i].subjectId) != null
    ensures forall k :: 0 <= k < |rs| && FindSubject(xs, rs[k].subjectId) != null ==>
      rs[k] in KnownRegistrations(rs, xs)
  {
    if rs != [] {
      KnownRegistrationsMembers(rs[1..], xs);
      assert forall k :: 1 <= k < |rs| ==> rs[k] == rs[1..][k - 1];
    }
  }

  /** A student is registered for a subject exactly when one of the student's own
      registrations names it. */
  lemma OwnRegistrationsPairs(rs: seq<RegisteredSubject>, studentId: string, x: string)
    ensures (studentId, x) in Pairs(RegistrationRecords(rs)) <==>
      exists k :: 0 <= k < |RegistrationsOf(rs, studentId)| && RegistrationsOf(rs, studentId)[k].subjectId == x
  {
    var own := RegistrationsOf(rs, studentId);
    RegistrationsOfMembers(rs, studentId);
    if (studentId, x) in Pairs(RegistrationRecords(rs)) {
      var j :| 0 <= j < |rs| && Pairs(RegistrationRecords(rs))[j] == (studentId, x);
      assert rs[j].studentId == studentId;
      var k :| 0 <= k < |own| && own[k] == rs[j];
      assert own[k].subjectId == x;
    }
    if exists k :: 0 <= k < |own| && own[k].subjectId == x {
      var k :| 0 <= k < |own| && own[k].subjectId == x;
      var j :| 0 <= j < |rs| && rs[j] == own[k];
      assert Pairs(RegistrationRecords(rs))[j] == (studentId, x);
    }
  }

  /** getStudentsForSubject: for each registration of the subject, the student it names,
      skipping identifiers no student has. */
  function StudentsFor(rs: seq<RegisteredSubject>, ss: seq<Student>, subjectId: string): seq<Student>
    reads rs, ss
  {
    if rs == [] then []
    else
      var k := StudentIndex(ss, rs[0].studentId);
      (if rs[0].subjectId == subjectId && k >= 0 then [ss[k]] else []) + StudentsFor(rs[1..], ss, subjectId)
  }

  /** StudentsFor of a list with one more registration at the end. */
  lemma {:induction false} StudentsForSnoc(rs: seq<RegisteredSubject>, r: RegisteredSubject, ss: seq<Student>,
                                           subjectId: string)
    ensures var s := FindStudent(ss, r.studentId);
      StudentsFor(rs + [r], ss, subjectId) ==
        StudentsFor(rs, ss, subjectId) + (if r.subjectId == subjectId && s != null then [s] else [])
  {
    if rs == [] {
      assert rs + [r] == [r];
    } else {
      assert (rs + [r])[1..] == rs[1..] + [r];
      StudentsForSnoc(rs[1..], r, ss, subjectId);
    }
  }

  /** The list of students for a subject is never longer than its registration count. */
  lemma {:induction false} StudentsForCount(rs: seq<RegisteredSubject>, ss: seq<Student>, subjectId: string)
    ensures |StudentsFor(rs, ss, subjectId)| <= CountFor(RegistrationRecords(rs), subjectId)
  {
    if rs != [] {
      StudentsForCount(rs[1..], ss, subjectId);
      assert RegistrationRecords(rs) == [rs[0].Record()] + RegistrationRecords(rs[1..]);
    }
  }

  /** Every listed student is the student its identifier finds, and some registration
      of the subject names that identifier. */
  lemma {:induction false} StudentsForSound(rs: seq<RegisteredSubject>, ss: seq<Student>, subjectId: string)
    ensures forall i :: 0 <= i < |StudentsFor(rs, ss, subjectId)| ==>
      var s := StudentsFor(rs, ss, subjectId)[i];
      FindStudent(ss, s.studentId) == s &&
      exists k :: 0 <= k < |rs| && rs[k].subjectId == subjectId && rs[k].studentId == s.studentId
  {
    if rs != [] {
      var rest := StudentsFor(rs[1..], ss, subjectId);
      var r := StudentsFor(rs, ss, subjectId);
      StudentsForSound(rs[1..], ss, subjectId);
      forall i | 0 <= i < |r|
        ensures FindStudent(ss, r[i].studentId) == r[i]
        ensures exists k :: 0 <= k < |rs| && rs[k].subjectId == subjectId && rs[k].studentId == r[i].studentId
      {
        if |r| == |rest| + 1 && i == 0 {
          assert rs[0].subjectId == subjectId && rs[0].studentId == r[0].studentId;
        } else {
          var j := if |r| == |rest| then i else i - 1;
          assert r[i] == rest[j];
          var k :| 0 <= k < |rs[1..]| && rs[1..][k].subjectId == subjectId && rs[1..][k].studentId == rest[j].studentId;
          assert rs[k + 1] == rs[1..][k];
        }
      }
    }
  }

  /** Every student named by a registration of the subject is listed. */
  lemma {:induction false} StudentsForComplete(rs: seq<RegisteredSubject>, ss: seq<Student>, subjectId: string)
    ensures forall k :: 0 <= k < |rs| && rs[k].subjectId == subjectId && FindStudent(ss, rs[k].studentId) != null ==>
      FindStudent(ss, rs[k].studentId) in StudentsFor(rs, ss, subjectId)
  {
    if rs != [] {
      StudentsForComplete(rs[1..], ss, subjectId);
      assert forall k :: 1 <= k < |rs| ==> rs[k] == rs[1..][k - 1];
    }
  }

  // ===========================================================================
  // Registration eligibility and the available-subjects computation

  /** canRegisterForSubject: the subject exists, the student has no registration for it,
      and its prerequisite, if it has one, is completed. */
  predicate CanRegister(xs: seq<Subject>, rs: seq<RegistrationRecord>, studentId: string, subjectId: string)
    reads xs
  {
    var k := SubjectIndex(xs, subjectId);
    k >= 0 && (studentId, subjectId) !in Pairs(rs) &&
    (xs[k].HasPrerequisite() ==> HasCompleted(rs, studentId, xs[k].prerequisiteId.value))
  }

  /** The subjects of `ids`, in order, that the student can register for. */
  function AvailableAmong(ids: seq<string>, xs: seq<Subject>, rs: seq<RegistrationRecord>, studentId: string): seq<Subject>
    reads xs
  {
    if ids == [] then []
    else
      (if CanRegister(xs, rs, studentId, ids[0]) then [xs[SubjectIndex(xs, ids[0])]] else []) +
      AvailableAmong(ids[1..], xs, rs, studentId)
  }

  /** AvailableAmong of a list with one more identifier at the end. */
  lemma {:induction false} AvailableAmongSnoc(ids: seq<string>, id: string, xs: seq<Subject>,
                                              rs: seq<RegistrationRecord>, studentId: string)
    ensures AvailableAmong(ids + [id], xs, rs, studentId) ==
      AvailableAmong(ids, xs, rs, studentId) +
      (if CanRegister(xs, rs, studentId, id) then [xs[SubjectIndex(xs, id)]] else [])
  {
    if ids == [] {
      assert ids + [id] == [id];
    } else {
      assert (ids + [id])[1..] == ids[1..] + [id];
      AvailableAmongSnoc(ids[1..], id, xs, rs, studentId);
    }
  }

  /** The offered subjects are exactly those of the list the student can register for. */
  lemma {:induction false} AvailableAmongMembers(ids: seq<string>, xs: seq<Subject>, rs: seq<RegistrationRecord>, studentId: string)
    ensures |AvailableAmong(ids, xs, rs, studentId)| <= |ids|
    ensures forall i :: 0 <= i < |AvailableAmong(ids, xs, rs, studentId)| ==>
      var x := AvailableAmong(ids, xs, rs, studentId)[i];
      x.subjectId in ids && FindSubject(xs, x.subjectId) == x && CanRegister(xs, rs, studentId, x.subjectId)
    ensures forall k :: 0 <= k < |ids| && CanRegister(xs, rs, studentId, ids[k]) ==>
      FindSubject(xs, ids[k]) in AvailableAmong(ids, xs, rs, studentId)
  {
    if ids != [] {
      AvailableAmongMembers(ids[1..], xs, rs, studentId);
      assert forall k :: 1 <= k < |ids| ==> ids[k] == ids[1..][k - 1];
      var rest := AvailableAmong(ids[1..], xs, rs, studentId);
      forall i | 0 <= i < |rest|
        ensures rest[i].subjectId in ids
      {
        assert rest[i].subjectId in ids[1..];
      }
    }
  }

  /** getAvailableSubjectsForStudent: empty for an unknown student or curriculum,
      otherwise the curriculum's subjects the student can register for. */
  function AvailableSubjects(ss: seq<Student>, xs: seq<Subject>, cs: seq<SubjectStructure>,
                             rs: seq<RegistrationRecord>, studentId: string): seq<Subject>
    reads ss, xs, cs
  {
    var s := FindStudent(ss, studentId);
    if s == null then []
    else
      var c := FindCurriculum(cs, s.curriculumId);
      if c == null then [] else AvailableAmong(c.requiredSubjectIds, xs, rs, studentId)
  }

  /** Nothing is offered to an unknown student or to a student whose curriculum is
      unknown; otherwise a subject is offered exactly when the curriculum requires it,
      it is the subject its identifier finds, and canRegisterForSubject holds for it. */
  lemma AvailableIffCanRegister(ss: seq<Student>, xs: seq<Subject>, cs: seq<SubjectStructure>,
                                rs: seq<RegistrationRecord>, studentId: string, x: Subject)
    ensures FindStudent(ss, studentId) == null ==> AvailableSubjects(ss, xs, cs, rs, studentId) == []
    ensures FindStudent(ss, studentId) != null && FindCurriculum(cs, FindStudent(ss, studentId).curriculumId) == null ==>
      AvailableSubjects(ss, xs, cs, rs, studentId) == []
    ensures FindStudent(ss, studentId) != null && FindCurriculum(cs, FindStudent(ss, studentId).curriculumId) != null ==>
      (x in AvailableSubjects(ss, xs, cs, rs, studentId) <==>
        x.subjectId in FindCurriculum(cs, FindStudent(ss, studentId).curriculumId).requiredSubjectIds &&
        FindSubject(xs, x.subjectId) == x && CanRegister(xs, rs, studentId, x.subjectId))
  {
    var s := FindStudent(ss, studentId);
    if s != null && FindCurriculum(cs, s.curriculumId) != null {
      var ids := FindCurriculum(cs, s.curriculumId).requiredSubjectIds;
      AvailableAmongMembers(ids, xs, rs, studentId);
      if x.subjectId in ids && FindSubject(xs, x.subjectId) == x && CanRegister(xs, rs, studentId, x.subjectId) {
        var k :| 0 <= k < |ids| && ids[k] == x.subjectId;
        assert CanRegister(xs, rs, studentId, ids[k]);
      }
    }
  }

  // ===========================================================================
  // The admin account

  const AdminEmail := "admin@kmitl.ac.th"

  /** The account ensureAdminExists adds. */
  const AdminRecord := StudentRecord("69000000", "Mr.", "Admin", "User", Some(Date(1990, 1, 1)),
                                     "N/A", AdminEmail, "", "admin", true)

  /** ensureAdminExists looks for a student with the admin email and the admin flag. */
  predicate HasAdmin(ss: seq<StudentRecord>) {
    exists i :: 0 <= i < |ss| && ss[i].email == AdminEmail && ss[i].isAdmin
  }

  /** The student list after ensureAdminExists. */
  function WithAdmin(ss: seq<StudentRecord>): seq<StudentRecord> {
    if HasAdmin(ss) then ss else ss + [AdminRecord]
  }

  /** The repair always leaves an admin account, keeps every earlier entry, adds at most
      one, and changes nothing when an admin account is already there. */
  lemma WithAdminHasAdmin(ss: seq<StudentRecord>)
    ensures HasAdmin(WithAdmin(ss))
    ensures |ss| <= |WithAdmin(ss)| <= |ss| + 1 && WithAdmin(ss)[..|ss|] == ss
    ensures HasAdmin(ss) ==> WithAdmin(ss) == ss
  {
    if !HasAdmin(ss) {
      assert WithAdmin(ss)[|ss|] == AdminRecord;
    }
  }

  /** The lists loadData should produce from stored files: the files, with the admin
      account repaired. */
  function Repaired(d: Disk): Disk
    requires AllFilesExist(d)
  {
    d.(students := Some(WithAdmin(d.students.value)))
  }

  // ===========================================================================
  // The sample data createSampleData writes

  const SampleCurriculums: seq<StructureRecord> := [
    StructureRecord("10000001", "Computer Science", "Department of Computer Science",
      ["05500001", "90690001", "90690003", "05500002", "05500003", "90690002"], [1, 1, 1, 2, 2, 2]),
    StructureRecord("20000001", "Computer Engineering", "Department of Computer Engineering",
      ["05500001", "90690001", "90690002", "05500005", "05500006", "90690004"], [1, 1, 1, 2, 2, 2])
  ]

  const SampleSubjects: seq<SubjectRecord> := [
    SubjectRecord("05500001", "Introduction to Programming", 3, "Dr. Smith", Some("")),
    SubjectRecord("05500002", "Data Structures", 3, "Dr. Johnson", Some("05500001")),
    SubjectRecord("05500003", "Database Systems", 3, "Dr. Brown", Some("")),
    SubjectRecord("05500004", "Web Development", 3, "Dr. Davis", Some("")),
    SubjectRecord("05500005", "Computer Networks", 3, "Dr. Wilson", Some("")),
    SubjectRecord("05500006", "Operating Systems", 3, "Dr. Anderson", Some("")),
    SubjectRecord("90690001", "General Mathematics", 3, "Dr. Thomas", Some("")),
    SubjectRecord("90690002", "Physics for Computing", 3, "Dr. Taylor", Some("")),
    SubjectRecord("90690003", "Technical Writing", 3, "Dr. Harris", Some("")),
    SubjectRecord("90690004", "Ethics in Computing", 3, "Dr. Lewis", Some(""))
  ]

  const SampleStudents: seq<StudentRecord> := [
    AdminRecord,
    StudentRecord("69000001", "Mr.", "John", "Doe", Some(Date(2007, 5, 15)), "Bangkok High School",
                  "john@kmitl.ac.th", "10000001", "password", false),
    StudentRecord("69000002", "Ms.", "Jane", "Smith", Some(Date(2006, 8, 22)), "Bangkok High School",
                  "jane@kmitl.ac.th", "10000001", "password", false),
    StudentRecord("69000003", "Mr.", "Mike", "Johnson", Some(Date(2007, 3, 10)), "Chiang Mai High School",
                  "mike@kmitl.ac.th", "20000001", "password", false),
    StudentRecord("69000004", "Ms.", "Sarah", "Williams", Some(Date(2006, 7, 5)), "Chiang Mai High School",
                  "sarah@kmitl.ac.th", "20000001", "password", false),
    StudentRecord("69000005", "Mr.", "David", "Brown", Some(Date(2007, 11, 18)), "Phuket High School",
                  "david@kmitl.ac.th", "10000001", "password", false),
    StudentRecord("69000006", "Ms.", "Emily", "Jones", Some(Date(2006, 4, 30)), "Phuket High School",
                  "emily@kmitl.ac.th", "10000001", "password", false),
    StudentRecord("69000007", "Mr.", "Robert", "Taylor", Some(Date(2007, 9, 12)), "Khon Kaen High School",
                  "robert@kmitl.ac.th", "20000001", "password", false),
    StudentRecord("69000008", "Ms.", "Jessica", "Anderson", Some(Date(2006, 2, 25)), "Khon Kaen High School",
                  "jessica@kmitl.ac.th", "20000001", "password", false),
    StudentRecord("69000009", "Mr.", "Thomas", "Wilson", Some(Date(2007, 6, 8)), "Songkhla High School",
                  "thomas@kmitl.ac.th", "10000001", "password", false),
    StudentRecord("69000010", "Ms.", "Olivia", "Martinez", Some(Date(2006, 10, 15)), "Songkhla High School",
                  "olivia@kmitl.ac.th", "20000001", "password", false)
  ]

  const SampleRegistrations: seq<RegistrationRecord> := [
    RegistrationRecord("69000001", "05500001", Some("A")),
    RegistrationRecord("69000001", "90690001", Some("B+")),
    RegistrationRecord("69000002", "05500001", Some("B")),
    RegistrationRecord("69000003", "05500001", Some("A")),
    RegistrationRecord("69000004", "90690001", Some("C+"))
  ]

  const SampleDisk := Disk(Some(SampleStudents), Some(SampleSubjects), Some(SampleCurriculums),
                           Some(SampleRegistrations))

  /** Each sample curriculum lists a semester for every required subject. */
  lemma SampleCurriculumsParallel()
    ensures forall i :: 0 <= i < |SampleCurriculums| ==> ParallelLists(SampleCurriculums[i])
  {
  }

  /** The sample data is consistent: the admin account is present, the curriculums have
      parallel lists, no pair is registered twice and every sample grade is valid. */
  lemma SampleDataConsistent()
    ensures HasAdmin(SampleStudents)
    ensures forall i :: 0 <= i < |SampleCurriculums| ==> ParallelLists(SampleCurriculums[i])
    ensures DistinctPairs(SampleRegistrations)
    ensures forall i :: 0 <= i < |SampleRegistrations| ==> ValidGrade(SampleRegistrations[i].grade)
  {
    assert SampleStudents[0].email == AdminEmail && SampleStudents[0].isAdmin;
  }

  // ===========================================================================
  // Object factories: the objects readObject (or the sample code) creates

  /** One student as readObject restores it. */
  method NewStudent(r: StudentRecord) returns (s: Student)
    ensures fresh(s) && s.Record() == r
  {
    s := new Student(r.studentId, r.title, r.firstName, r.lastName, r.birthDate, r.school,
                     r.email, r.curriculumId, r.password, r.isAdmin);
  }

  /** One subject as readObject restores it. */
  method NewSubject(r: SubjectRecord) returns (x: Subject)
    ensures fresh(x) && x.Record() == r
  {
    x := new Subject(r.subjectId, r.subjectName, r.credits, r.instructor, r.prerequisiteId);
  }

  method NewStudents(rs: seq<StudentRecord>) returns (ss: seq<Student>)
    ensures StudentRecords(ss) == rs
  {
    ss := [];
    for i := 0 to |rs|
      invariant StudentRecords(ss) == rs[..i]
    {
      var s := NewStudent(rs[i]);
      StudentRecordsAppend(ss, s);
      ss := ss + [s];
      assert rs[..i + 1] == rs[..i] + [rs[i]];
    }
  }

  method NewSubjects(rs: seq<SubjectRecord>) returns (xs: seq<Subject>)
    ensures SubjectRecords(xs) == rs
  {
    xs := [];
    for i := 0 to |rs|
      invariant SubjectRecords(xs) == rs[..i]
    {
      var x := NewSubject(rs[i]);
      SubjectRecordsAppend(xs, [x]);
      xs := xs + [x];
      assert rs[..i + 1] == rs[..i] + [rs[i]];
    }
  }

  /** One curriculum as readObject restores it, lists included. */
  method NewStructure(r: StructureRecord) returns (c: SubjectStructure)
    requires ParallelLists(r)
    ensures fresh(c) && c.Record() == r && c.Valid()
  {
    c := new SubjectStructure(r.curriculumId, r.curriculumName, r.departmentName);
    c.requiredSubjectIds := r.requiredSubjectIds;
    c.semesters := r.semesters;
  }

  method NewStructures(rs: seq<StructureRecord>) returns (cs: seq<SubjectStructure>)
    requires forall i :: 0 <= i < |rs| ==> ParallelLists(rs[i])
    ensures StructureRecords(cs) == rs
    ensures forall i :: 0 <= i < |cs| ==> cs[i].Valid()
  {
    cs := [];
    for i := 0 to |rs|
      invariant StructureRecords(cs) == rs[..i]
      invariant forall k :: 0 <= k < |cs| ==> cs[k].Valid()
    {
      var c := NewStructure(rs[i]);
      StructureRecordsAppend(cs, [c]);
      cs := cs + [c];
      assert rs[..i + 1] == rs[..i] + [rs[i]];
    }
  }

  method NewRegistrations(rs: seq<RegistrationRecord>) returns (gs: seq<RegisteredSubject>)
    ensures RegistrationRecords(gs) == rs
    ensures forall i :: 0 <= i < |gs| ==> fresh(gs[i])
    ensures forall i, j :: 0 <= i < j < |gs| ==> gs[i] != gs[j]
  {
    gs := [];
    for i := 0 to |rs|
      invariant RegistrationRecords(gs) == rs[..i]
      invariant forall k :: 0 <= k < |gs| ==> fresh(gs[k])
      invariant forall k, j :: 0 <= k < j < |gs| ==> gs[k] != gs[j]
    {
      var r := rs[i];
      var g := new RegisteredSubject(r.studentId, r.subjectId, r.grade);
      RegistrationRecordsAppend(gs, [g]);
      gs := gs + [g];
      assert rs[..i + 1] == rs[..i] + [rs[i]];
    }
  }

  /** The ungraded registration registerSubject creates. */
  method NewRegistration(studentId: string, subjectId: string) returns (r: RegisteredSubject)
    ensures fresh(r) && r.Record() == RegistrationRecord(studentId, subjectId, None)
  {
    r := new RegisteredSubject(studentId, subjectId, None);
  }

  /** The admin account ensureAdminExists creates. */
  method NewAdmin() returns (admin: Student)
    ensures fresh(admin) && admin.Record() == AdminRecord
  {
    admin := new Student("69000000", "Mr.", "Admin", "User", Some(Date(1990, 1, 1)),
                         "N/A", AdminEmail, "", "admin", true);
  }

  // ===========================================================================
  // Starting the system: the lists and the files the constructor leaves

  /** The lists the system starts with: the stored files with the admin account
      repaired when all four exist, the sample data otherwise. */
  function StartLists(files: Disk): Disk {
    if AllFilesExist(files) then Repaired(files) else SampleDisk
  }

  /** What the lists and the files hold once the system has started with loadData as
      written: when the admin account is missing, the save inside the repair writes the
      three lists that have not been read yet, which are still empty, and those empty
      files are what is then read back. */
  function StartAsWrittenLists(files: Disk): Disk {
    if !AllFilesExist(files) then SampleDisk
    else if HasAdmin(files.students.value) then files
    else Disk(Some(WithAdmin(files.students.value)), Some([]), Some([]), Some([]))
  }

  /** With loadData reading all four files before the repair, restarting from what the
      files hold gives the same lists again: nothing stored is lost. */
  lemma RestartKeepsData(files: Disk)
    ensures AllFilesExist(StartLists(files))
    ensures StartLists(StartLists(files)) == StartLists(files)
  {
    if AllFilesExist(files) {
      WithAdminHasAdmin(files.students.value);
      WithAdminHasAdmin(WithAdmin(files.students.value));
    } else {
      SampleDataConsistent();
    }
  }

  /** As written, the first start from stored files without an admin account already
      holds no subjects, curriculums or registrations, where the corrected start keeps
      the stored ones; the files are left empty too, so a restart does not recover them. */
  lemma StartAsWrittenLosesData()
    ensures var files := Disk(Some(SampleStudents[1..]), Some(SampleSubjects), Some(SampleCurriculums),
                              Some(SampleRegistrations));
      StartLists(files).subjects == Some(SampleSubjects) &&
      StartLists(files).curriculums == Some(SampleCurriculums) &&
      StartLists(files).registrations == Some(SampleRegistrations) &&
      StartAsWrittenLists(files).subjects == Some([]) &&
      StartAsWrittenLists(files).curriculums == Some([]) &&
      StartAsWrittenLists(files).registrations == Some([]) &&
      StartLists(StartAsWrittenLists(files)).subjects == Some([])
  {
    var files := Disk(Some(SampleStudents[1..]), Some(SampleSubjects), Some(SampleCurriculums),
                      Some(SampleRegistrations));
    assert !HasAdmin(SampleStudents[1..]) by {
      forall i | 0 <= i < |SampleStudents[1..]|
        ensures !(SampleStudents[1..][i].email == AdminEmail && SampleStudents[1..][i].isAdmin)
      {
        assert SampleStudents[1..][i] == SampleStudents[i + 1];
      }
    }
  }

  // ===========================================================================
  // DataManager

  class DataManager {
    var students: seq<Student>
    var subjects: seq<Subject>
    var curriculums: seq<SubjectStructure>
    var registrations: seq<RegisteredSubject>
    /** What the four data files hold. */
    var disk: Disk

    /** Every curriculum keeps its lists parallel. */
    ghost predicate CurriculumsValid()
      reads this, curriculums
    {
      forall i :: 0 <= i < |curriculums| ==> curriculums[i].Valid()
    }

    /** No registration object is listed twice, so changing one registration's grade
        changes only that entry. */
    ghost predicate RegistrationsDistinct()
      reads this
    {
      forall i, j :: 0 <= i < j < |registrations| ==> registrations[i] != registrations[j]
    }

    ghost predicate Valid()
      reads this, curriculums
    {
      CurriculumsValid() && RegistrationsDistinct()
    }

    /** The contents saveData would write now. */
    function Snapshot(): Disk
      reads this, students, subjects, curriculums, registrations
    {
      Disk(Some(StudentRecords(students)), Some(SubjectRecords(subjects)),
           Some(StructureRecords(curriculums)), Some(RegistrationRecords(registrations)))
    }

    /** The registrations as records, the form the specification functions use. */
    function Registrations(): seq<RegistrationRecord>
      reads this, registrations
    {
      RegistrationRecords(registrations)
    }

    /** The singleton's private constructor, with the files as a parameter and loadData
        reading all four files before the admin repair. The lists hold StartLists(files),
        the files hold the same, and an admin account exists. */
    constructor (files: Disk)
      requires WellFormed(files)
      ensures Valid()
      ensures Some(StudentRecords(students)) == StartLists(files).students
      ensures Some(SubjectRecords(subjects)) == StartLists(files).subjects
      ensures Some(StructureRecords(curriculums)) == StartLists(files).curriculums
      ensures Some(RegistrationRecords(registrations)) == StartLists(files).registrations
      ensures disk == StartLists(files)
      ensures HasAdmin(StudentRecords(students))
    {
      students := [];
      subjects := [];
      curriculums := [];
      registrations := [];
      disk := files;
      new;
      var loaded := LoadData();
      if !loaded {
        StartWithSampleData();
      } else {
        WithAdminHasAdmin(files.students.value);
        EnsureAdminExists();
      }
    }

    /** The constructor as written, which loads through LoadDataAsWritten. The lists
        and the files both hold StartAsWrittenLists(files), and an admin account exists. */
    constructor StartAsWritten(files: Disk)
      requires WellFormed(files)
      ensures Valid()
      ensures Some(StudentRecords(students)) == StartAsWrittenLists(files).students
      ensures Some(SubjectRecords(subjects)) == StartAsWrittenLists(files).subjects
      ensures Some(StructureRecords(curriculums)) == StartAsWrittenLists(files).curriculums
      ensures Some(RegistrationRecords(registrations)) == StartAsWrittenLists(files).registrations
      ensures disk == StartAsWrittenLists(files)
      ensures HasAdmin(StudentRecords(students))
    {
      students := [];
      subjects := [];
      curriculums := [];
      registrations := [];
      disk := files;
      new;
      var loaded := LoadDataAsWritten();
      if !loaded {
        StartWithSampleData();
      } else {
        WithAdminHasAdmin(files.students.value);
        EnsureAdminExists();
      }
    }

    /** The constructor's branch for missing files: createSampleData, then saveData. */
    method StartWithSampleData()
      requires students == [] && subjects == [] && curriculums == [] && registrations == []
      modifies this
      ensures Valid()
      ensures StudentRecords(students) == SampleStudents && SubjectRecords(subjects) == SampleSubjects
      ensures StructureRecords(curriculums) == SampleCurriculums && RegistrationRecords(registrations) == SampleRegistrations
      ensures disk == SampleDisk
      ensures HasAdmin(StudentRecords(students))
    {
      CreateSampleData();
      assert StudentRecords(students) == SampleStudents && SubjectRecords(subjects) == SampleSubjects;
      assert StructureRecords(curriculums) == SampleCurriculums && Registrations() == SampleRegistrations;
      SaveData();
      SampleDataConsistent();
    }

    /** saveData: each file now holds the corresponding list. */
    method SaveData()
      modifies this
      ensures disk == Snapshot()
      ensures students == old(students) && subjects == old(subjects)
      ensures curriculums == old(curriculums) && registrations == old(registrations)
      ensures StudentRecords(students) == old(StudentRecords(students))
      ensures SubjectRecords(subjects) == old(SubjectRecords(subjects))
      ensures StructureRecords(curriculums) == old(StructureRecords(curriculums))
      ensures RegistrationRecords(registrations) == old(RegistrationRecords(registrations))
      ensures old(Valid()) ==> Valid()
    {
      disk := Snapshot();
    }

    // ---- reading the four files; each reader replaces one list and nothing else

    method ReadStudents(rs: seq<StudentRecord>)
      modifies this
      ensures StudentRecords(students) == rs
      ensures subjects == old(subjects) && curriculums == old(curriculums)
      ensures registrations == old(registrations) && disk == old(disk)
      ensures SubjectRecords(subjects) == old(SubjectRecords(subjects))
      ensures StructureRecords(curriculums) == old(StructureRecords(curriculums))
      ensures RegistrationRecords(registrations) == old(RegistrationRecords(registrations))
      ensures old(Valid()) ==> Valid()
    {
      students := NewStudents(rs);
    }

    method ReadSubjects(rs: seq<SubjectRecord>)
      modifies this
      ensures SubjectRecords(subjects) == rs
      ensures students == old(students) && curriculums == old(curriculums)
      ensures registrations == old(registrations) && disk == old(disk)
      ensures StudentRecords(students) == old(StudentRecords(students))
      ensures StructureRecords(curriculums) == old(StructureRecords(curriculums))
      ensures RegistrationRecords(registrations) == old(RegistrationRecords(registrations))
      ensures old(Valid()) ==> Valid()
    {
      subjects := NewSubjects(rs);
    }

    method ReadCurriculums(rs: seq<StructureRecord>)
      requires forall i :: 0 <= i < |rs| ==> ParallelLists(rs[i])
      modifies this
      ensures StructureRecords(curriculums) == rs
      ensures CurriculumsValid()
      ensures students == old(students) && subjects == old(subjects)
      ensures registrations == old(registrations) && disk == old(disk)
      ensures StudentRecords(students) == old(StudentRecords(students))
      ensures SubjectRecords(subjects) == old(SubjectRecords(subjects))
      ensures RegistrationRecords(registrations) == old(RegistrationRecords(registrations))
    {
      curriculums := NewStructures(rs);
    }

    method ReadRegistrations(rs: seq<RegistrationRecord>)
      modifies this
      ensures RegistrationRecords(registrations) == rs
      ensures RegistrationsDistinct()
      ensures students == old(students) && subjects == old(subjects)
      ensures curriculums == old(curriculums) && disk == old(disk)
      ensures StudentRecords(students) == old(StudentRecords(students))
      ensures SubjectRecords(subjects) == old(SubjectRecords(subjects))
      ensures StructureRecords(curriculums) == old(StructureRecords(curriculums))
      ensures old(CurriculumsValid()) ==> CurriculumsValid()
    {
      registrations := NewRegistrations(rs);
    }

    /** loadData with the admin repair moved after all four files are read: the lists
        and the files both end up holding the stored data with the admin repaired. */
    method LoadData() returns (loaded: bool)
      requires WellFormed(disk)
      modifies this
      ensures loaded == AllFilesExist(old(disk))
      ensures !loaded ==> (students == old(students) && subjects == old(subjects) &&
        curriculums == old(curriculums) && registrations == old(registrations) && disk == old(disk))
      ensures loaded ==> Valid()
      ensures loaded ==> StudentRecords(students) == WithAdmin(old(disk).students.value)
      ensures loaded ==> SubjectRecords(subjects) == old(disk).subjects.value
      ensures loaded ==> StructureRecords(curriculums) == old(disk).curriculums.value
      ensures loaded ==> RegistrationRecords(registrations) == old(disk).registrations.value
      ensures loaded ==> disk == Repaired(old(disk))
    {
      if !AllFilesExist(disk) {
        return false;
      }
      var files := disk;
      ReadStudents(files.students.value);
      ReadSubjects(files.subjects.value);
      ReadCurriculums(files.curriculums.value);
      ReadRegistrations(files.registrations.value);
      WithAdminHasAdmin(files.students.value);
      EnsureAdminExists();
      return true;
    }

    /** loadData as written: the admin repair runs right after the students are read.
        When it adds the admin, its save overwrites the other three files with the lists
        that are still empty, and those files are then read back empty. */
    method LoadDataAsWritten() returns (loaded: bool)
      requires WellFormed(disk)
      requires subjects == [] && curriculums == [] && registrations == []
      modifies this
      ensures loaded == AllFilesExist(old(disk))
      ensures !loaded ==> (students == old(students) && subjects == old(subjects) &&
        curriculums == old(curriculums) && registrations == old(registrations) && disk == old(disk))
      ensures loaded ==> Valid()
      ensures loaded ==> StudentRecords(students) == StartAsWrittenLists(old(disk)).students.value
      ensures loaded ==> SubjectRecords(subjects) == StartAsWrittenLists(old(disk)).subjects.value
      ensures loaded ==> StructureRecords(curriculums) == StartAsWrittenLists(old(disk)).curriculums.value
      ensures loaded ==> RegistrationRecords(registrations) == StartAsWrittenLists(old(disk)).registrations.value
      ensures loaded ==> disk == StartAsWrittenLists(old(disk))
    {
      if !AllFilesExist(disk) {
        return false;
      }
      ghost var files := disk;
      ReadStudents(disk.students.value);
      WithAdminHasAdmin(files.students.value);
      EnsureAdminExists();
      assert disk == StartAsWrittenLists(files);
      ReadSubjects(disk.subjects.value);
      ReadCurriculums(disk.curriculums.value);
      ReadRegistrations(disk.registrations.value);
      return true;
    }

    /** ensureAdminExists: when no student has the admin email and the admin flag, the
        admin account is appended and the lists saved. */
    method EnsureAdminExists()
      modifies this
      ensures StudentRecords(students) == WithAdmin(old(StudentRecords(students)))
      ensures subjects == old(subjects) && curriculums == old(curriculums) && registrations == old(registrations)
      ensures HasAdmin(old(StudentRecords(students))) ==> students == old(students) && disk == old(disk)
      ensures !HasAdmin(old(StudentRecords(students))) ==> disk == Snapshot()
      ensures SubjectRecords(subjects) == old(SubjectRecords(subjects))
      ensures StructureRecords(curriculums) == old(StructureRecords(curriculums))
      ensures RegistrationRecords(registrations) == old(RegistrationRecords(registrations))
      ensures old(Valid()) ==> Valid()
    {
      var adminExists := AdminExists();
      if !adminExists {
        AppendAdmin();
        SaveData();
      }
    }

    /** The search loop of ensureAdminExists. */
    method AdminExists() returns (adminExists: bool)
      ensures adminExists == HasAdmin(StudentRecords(students))
    {
      for i := 0 to |students|
        invariant forall k :: 0 <= k < i ==> !(students[k].email == AdminEmail && students[k].isAdmin)
      {
        if students[i].email == AdminEmail && students[i].isAdmin {
          assert StudentRecords(students)[i] == students[i].Record();
          return true;
        }
      }
      return false;
    }

    /** The append of ensureAdminExists. */
    method AppendAdmin()
      modifies this
      ensures StudentRecords(students) == old(StudentRecords(students)) + [AdminRecord]
      ensures subjects == old(subjects) && curriculums == old(curriculums)
      ensures registrations == old(registrations) && disk == old(disk)
      ensures SubjectRecords(subjects) == old(SubjectRecords(subjects))
      ensures StructureRecords(curriculums) == old(StructureRecords(curriculums))
      ensures RegistrationRecords(registrations) == old(RegistrationRecords(registrations))
      ensures old(Valid()) ==> Valid()
    {
      var admin := NewAdmin();
      StudentRecordsAppend(students, admin);
      students := students + [admin];
    }

    /** createSampleData: the sample curriculums, subjects, students and registrations
        are appended to the lists. */
    method CreateSampleData()
      modifies this
      ensures old(Valid()) ==> Valid()
      ensures StudentRecords(students) == old(StudentRecords(students)) + SampleStudents
      ensures SubjectRecords(subjects) == old(SubjectRecords(subjects)) + SampleSubjects
      ensures StructureRecords(curriculums) == old(StructureRecords(curriculums)) + SampleCurriculums
      ensures RegistrationRecords(registrations) == old(RegistrationRecords(registrations)) + SampleRegistrations
      ensures disk == old(disk)
    {
      AddSampleCurriculums();
      AddSampleSubjects();
      AddSampleStudents();
      AddSampleRegistrations();
    }

    method AddSampleCurriculums()
      modifies this
      ensures StructureRecords(curriculums) == old(StructureRecords(curriculums)) + SampleCurriculums
      ensures old(CurriculumsValid()) ==> CurriculumsValid()
      ensures students == old(students) && subjects == old(subjects)
      ensures registrations == old(registrations) && disk == old(disk)
      ensures StudentRecords(students) == old(StudentRecords(students))
      ensures SubjectRecords(subjects) == old(SubjectRecords(subjects))
      ensures RegistrationRecords(registrations) == old(RegistrationRecords(registrations))
    {
      SampleCurriculumsParallel();
      var cs := NewStructures(SampleCurriculums);
      StructureRecordsAppend(curriculums, cs);
      curriculums := curriculums + cs;
    }

    method AddSampleSubjects()
      modifies this
      ensures SubjectRecords(subjects) == old(SubjectRecords(subjects)) + SampleSubjects
      ensures students == old(students) && curriculums == old(curriculums)
      ensures registrations == old(registrations) && disk == old(disk)
      ensures StudentRecords(students) == old(StudentRecords(students))
      ensures StructureRecords(curriculums) == old(StructureRecords(curriculums))
      ensures RegistrationRecords(registrations) == old(RegistrationRecords(registrations))
      ensures old(Valid()) ==> Valid()
    {
      var xs := NewSubjects(SampleSubjects);
      SubjectRecordsAppend(subjects, xs);
      subjects := subjects + xs;
    }

    method AddSampleStudents()
      modifies this
      ensures StudentRecords(students) == old(StudentRecords(students)) + SampleStudents
      ensures subjects == old(subjects) && curriculums == old(curriculums)
      ensures registrations == old(registrations) && disk == old(disk)
      ensures SubjectRecords(subjects) == old(SubjectRecords(subjects))
      ensures StructureRecords(curriculums) == old(StructureRecords(curriculums))
      ensures RegistrationRecords(registrations) == old(RegistrationRecords(registrations))
      ensures old(Valid()) ==> Valid()
    {
      var ss := NewStudents(SampleStudents);
      StudentRecordsAppendAll(students, ss);
      students := students + ss;
    }

    method AddSampleRegistrations()
      modifies this
      ensures RegistrationRecords(registrations) == old(RegistrationRecords(registrations)) + SampleRegistrations
      ensures old(RegistrationsDistinct()) ==> RegistrationsDistinct()
      ensures students == old(students) && subjects == old(subjects)
      ensures curriculums == old(curriculums) && disk == old(disk)
      ensures StudentRecords(students) == old(StudentRecords(students))
      ensures SubjectRecords(subjects) == old(SubjectRecords(subjects))
      ensures StructureRecords(curriculums) == old(StructureRecords(curriculums))
      ensures old(CurriculumsValid()) ==> CurriculumsValid()
    {
      var gs := NewRegistrations(SampleRegistrations);
      RegistrationRecordsAppend(registrations, gs);
      registrations := registrations + gs;
    }

    // ---- queries (each scans the list as the source does)

    /** getAllStudents, getAllSubjects, getAllCurriculums: copies of the lists. */
    function GetAllStudents(): (ss: seq<Student>)
      reads this
      ensures ss == students
    {
      students
    }

    function GetAllSubjects(): (xs: seq<Subject>)
      reads this
      ensures xs == subjects
    {
      subjects
    }

    function GetAllCurriculums(): (cs: seq<SubjectStructure>)
      reads this
      ensures cs == curriculums
    {
      curriculums
    }

    method GetStudentsBySchool(school: string) returns (result: seq<Student>)
      ensures result == StudentsAtSchool(students, school)
    {
      result := [];
      for i := 0 to |students|
        invariant result == StudentsAtSchool(students[..i], school)
      {
        assert students[..i + 1] == students[..i] + [students[i]];
        StudentsAtSchoolSnoc(students[..i], students[i], school);
        if students[i].school == school && !students[i].isAdmin {
          result := result + [students[i]];
        }
      }
      assert students[..|students|] == students;
    }

    /** getAllSchools: each school of a non-admin student, once. The source collects
        them in a HashSet, whose order is not specified. */
    method GetAllSchools() returns (schools: seq<string>)
      ensures forall i, j :: 0 <= i < j < |schools| ==> schools[i] != schools[j]
      ensures forall x :: x in schools <==>
        exists k :: 0 <= k < |students| && !students[k].isAdmin && students[k].school == x
    {
      schools := [];
      for i := 0 to |students|
        invariant forall a, b :: 0 <= a < b < |schools| ==> schools[a] != schools[b]
        invariant forall x :: x in schools <==>
          exists k :: 0 <= k < i && !students[k].isAdmin && students[k].school == x
      {
        if !students[i].isAdmin && students[i].school !in schools {
          schools := schools + [students[i].school];
        }
      }
    }

    method GetSubjectById(id: string) returns (x: Subject?)
      ensures x == FindSubject(subjects, id)
    {
      SubjectIndexFirst(subjects, id);
      for i := 0 to |subjects|
        invariant forall k :: 0 <= k < i ==> subjects[k].subjectId != id
      {
        if subjects[i].subjectId == id {
          return subjects[i];
        }
      }
      return null;
    }

    method GetCurriculumById(id: string) returns (c: SubjectStructure?)
      ensures c == FindCurriculum(curriculums, id)
    {
      CurriculumIndexFirst(curriculums, id);
      for i := 0 to |curriculums|
        invariant forall k :: 0 <= k < i ==> curriculums[k].curriculumId != id
      {
        if curriculums[i].curriculumId == id {
          return curriculums[i];
        }
      }
      return null;
    }

    method GetStudentById(id: string) returns (s: Student?)
      ensures s == FindStudent(students, id)
    {
      StudentIndexFirst(students, id);
      for i := 0 to |students|
        invariant forall k :: 0 <= k < i ==> students[k].studentId != id
      {
        if students[i].studentId == id {
          return students[i];
        }
      }
      return null;
    }

    method GetStudentByEmail(email: string) returns (s: Student?)
      ensures s == FindByEmail(students, email)
    {
      EmailIndexFirst(students, email);
      for i := 0 to |students|
        invariant forall k :: 0 <= k < i ==> students[k].email != email
      {
        if students[i].email == email {
          return students[i];
        }
      }
      return null;
    }

    method GetRegisteredSubjectsForStudent(studentId: string) returns (result: seq<RegisteredSubject>)
      ensures result == RegistrationsOf(registrations, studentId)
    {
      result := [];
      for i := 0 to |registrations|
        invariant result == RegistrationsOf(registrations[..i], studentId)
      {
        assert registrations[..i + 1] == registrations[..i] + [registrations[i]];
        RegistrationsOfSnoc(registrations[..i], registrations[i], studentId);
        if registrations[i].studentId == studentId {
          result := result + [registrations[i]];
        }
      }
      assert registrations[..|registrations|] == registrations;
    }

    method GetStudentsForSubject(subjectId: string) returns (result: seq<Student>)
      ensures result == StudentsFor(registrations, students, subjectId)
    {
      result := [];
      for i := 0 to |registrations|
        invariant result == StudentsFor(registrations[..i], students, subjectId)
      {
        assert registrations[..i + 1] == registrations[..i] + [registrations[i]];
        StudentsForSnoc(registrations[..i], registrations[i], students, subjectId);
        if registrations[i].subjectId == subjectId {
          var s := FindStudent(students, registrations[i].studentId);
          if s != null {
            result := result + [s];
          }
        }
      }
      assert registrations[..|registrations|] == registrations;
    }

    method HasCompletedPrerequisite(studentId: string, prerequisiteId: string) returns (completed: bool)
      ensures completed == HasCompleted(Registrations(), studentId, prerequisiteId)
    {
      for i := 0 to |registrations|
        invariant forall k :: 0 <= k < i ==>
          !(registrations[k].studentId == studentId && registrations[k].subjectId == prerequisiteId &&
            registrations[k].IsGraded())
      {
        if registrations[i].studentId == studentId && registrations[i].subjectId == prerequisiteId &&
           registrations[i].IsGraded() {
          assert Registrations()[i] == registrations[i].Record();
          return true;
        }
      }
      return false;
    }

    method GetRegistrationCountForSubject(subjectId: string) returns (count: int)
      ensures count == CountFor(Registrations(), subjectId)
    {
      count := 0;
      ghost var records := Registrations();
      for i := 0 to |registrations|
        invariant CountFor(records, subjectId) == count + CountFor(records[i..], subjectId)
      {
        assert records[i..][1..] == records[i + 1..];
        assert records[i].subjectId == registrations[i].subjectId;
        if registrations[i].subjectId == subjectId {
          count := count + 1;
        }
      }
    }

    /** getAvailableSubjectsForStudent: the curriculum's required subjects, in order,
        that exist, that the student has not registered for and whose prerequisite,
        if any, the student has completed. */
    method GetAvailableSubjectsForStudent(studentId: string) returns (available: seq<Subject>)
      ensures available == AvailableSubjects(students, subjects, curriculums, Registrations(), studentId)
    {
      var student := GetStudentById(studentId);
      if student == null {
        return [];
      }
      var curriculum := GetCurriculumById(student.curriculumId);
      if curriculum == null {
        return [];
      }
      var required := curriculum.requiredSubjectIds;
      var registered := RegisteredSubjectIdsOf(studentId);
      available := AvailableFrom(required, studentId, registered);
    }

    /** The set of subject identifiers getAvailableSubjectsForStudent collects from the
        student's registrations: exactly the subjects the student is registered for. */
    method RegisteredSubjectIdsOf(studentId: string) returns (registered: set<string>)
      ensures forall x :: x in registered <==> (studentId, x) in Pairs(Registrations())
    {
      var own := GetRegisteredSubjectsForStudent(studentId);
      registered := {};
      for i := 0 to |own|
        invariant forall x :: x in registered <==> exists k :: 0 <= k < i && own[k].subjectId == x
      {
        registered := registered + {own[i].subjectId};
      }
      RegisteredAmongOwn(studentId, own, registered);
    }

    /** The subject identifiers of the student's own registrations are exactly the
        subjects the student is registered for. */
    lemma RegisteredAmongOwn(studentId: string, own: seq<RegisteredSubject>, registered: set<string>)
      requires own == RegistrationsOf(registrations, studentId)
      requires forall x :: x in registered <==> exists k :: 0 <= k < |own| && own[k].subjectId == x
      ensures forall x :: x in registered <==> (studentId, x) in Pairs(Registrations())
    {
      forall x
        ensures x in registered <==> (studentId, x) in Pairs(Registrations())
      {
        OwnRegistrationsPairs(registrations, studentId, x);
      }
    }

    /** The second loop of getAvailableSubjectsForStudent, over the required subjects. */
    method AvailableFrom(required: seq<string>, studentId: string, registered: set<string>)
      returns (available: seq<Subject>)
      requires forall x :: x in registered <==> (studentId, x) in Pairs(Registrations())
      ensures available == AvailableAmong(required, subjects, Registrations(), studentId)
    {
      available := [];
      for i := 0 to |required|
        invariant available == AvailableAmong(required[..i], subjects, Registrations(), studentId)
      {
        assert required[..i + 1] == required[..i] + [required[i]];
        AvailableAmongSnoc(required[..i], required[i], subjects, Registrations(), studentId);
        if required[i] in registered {
          continue;
        }
        var subject := FindSubject(subjects, required[i]);
        if subject == null {
          continue;
        }
        if subject.HasPrerequisite() {
          if HasCompleted(Registrations(), studentId, subject.prerequisiteId.value) {
            available := available + [subject];
          }
        } else {
          available := available + [subject];
        }
      }
      assert required[..|required|] == required;
    }

    // ---- operations that change the lists; each ends with saveData when it changes one

    /** registerSubject: idempotent; a new pair is appended ungraded and saved. */
    method RegisterSubject(studentId: string, subjectId: string)
      requires Valid()
      modifies this
      ensures Valid()
      ensures Registrations() == Register(old(Registrations()), studentId, subjectId)
      ensures students == old(students) && subjects == old(subjects) && curriculums == old(curriculums)
      ensures (studentId, subjectId) in old(Pairs(Registrations())) ==>
        registrations == old(registrations) && disk == old(disk)
      ensures (studentId, subjectId) !in old(Pairs(Registrations())) ==> disk == Snapshot()
    {
      for i := 0 to |registrations|
        invariant forall k :: 0 <= k < i ==> Pairs(Registrations())[k] != (studentId, subjectId)
      {
        if registrations[i].studentId == studentId && registrations[i].subjectId == subjectId {
          assert Pairs(Registrations())[i] == (studentId, subjectId);
          return;
        }
      }
      var r := NewRegistration(studentId, subjectId);
      registrations := registrations + [r];
      assert Registrations() == old(Registrations()) + [r.Record()];
      SaveData();
    }

    /** setGrade: the first registration of the pair takes the grade (validated by
        RegisteredSubject.setGrade) and the lists are saved; without a registration of
        the pair nothing happens. */
    method SetGrade(studentId: string, subjectId: string, grade: Option<string>) returns (outcome: Outcome)
      requires Valid()
      modifies this, registrations
      ensures Valid()
      ensures students == old(students) && subjects == old(subjects) && curriculums == old(curriculums)
      ensures registrations == old(registrations)
      ensures (studentId, subjectId) !in old(Pairs(Registrations())) ==>
        outcome == Done && Registrations() == old(Registrations()) && disk == old(disk)
      ensures (studentId, subjectId) in old(Pairs(Registrations())) && ValidGrade(grade) ==>
        outcome == Done && Registrations() == SetGradeAt(old(Registrations()), studentId, subjectId, grade) &&
        disk == Snapshot()
      ensures (studentId, subjectId) in old(Pairs(Registrations())) && !ValidGrade(grade) ==>
        outcome == IllegalArgument("Invalid grade: " + grade.value) &&
        Registrations() == old(Registrations()) && disk == old(disk)
    {
      for i := 0 to |registrations|
        invariant forall k :: 0 <= k < i ==> Pairs(Registrations())[k] != (studentId, subjectId)
      {
        if registrations[i].studentId == studentId && registrations[i].subjectId == subjectId {
          IndexOfFirst(Pairs(Registrations()), (studentId, subjectId), i);
          outcome := SetGradeOfRegistration(i, studentId, subjectId, grade);
          return;
        }
      }
      return Done;
    }

    /** The body of setGrade's loop once the first registration of the pair, at
        position i, is found. */
    method SetGradeOfRegistration(i: nat, studentId: string, subjectId: string, grade: Option<string>)
      returns (outcome: Outcome)
      requires Valid() && i < |registrations|
      requires IndexOf(Pairs(Registrations()), (studentId, subjectId)) == i
      modifies this, registrations
      ensures Valid()
      ensures students == old(students) && subjects == old(subjects) && curriculums == old(curriculums)
      ensures registrations == old(registrations)
      ensures ValidGrade(grade) ==>
        outcome == Done && Registrations() == SetGradeAt(old(Registrations()), studentId, subjectId, grade) &&
        disk == Snapshot()
      ensures !ValidGrade(grade) ==>
        outcome == IllegalArgument("Invalid grade: " + grade.value) &&
        Registrations() == old(Registrations()) && disk == old(disk)
    {
      var reg := registrations[i];
      outcome := reg.SetGrade(grade);
      assert forall k :: 0 <= k < |registrations| && k != i ==> registrations[k] != reg;
      if outcome.IllegalArgument? {
        assert Registrations() == old(Registrations());
        return;
      }
      assert Registrations() == SetGradeAt(old(Registrations()), studentId, subjectId, grade);
      SaveData();
    }

    /** addStudent, addSubject, addCurriculum: append and save. */
    method AddStudent(student: Student)
      modifies this
      ensures students == old(students) + [student]
      ensures subjects == old(subjects) && curriculums == old(curriculums) && registrations == old(registrations)
      ensures disk == Snapshot()
    {
      students := students + [student];
      SaveData();
    }

    method AddSubject(subject: Subject)
      modifies this
      ensures subjects == old(subjects) + [subject]
      ensures students == old(students) && curriculums == old(curriculums) && registrations == old(registrations)
      ensures disk == Snapshot()
    {
      subjects := subjects + [subject];
      SaveData();
    }

    method AddCurriculum(curriculum: SubjectStructure)
      requires Valid() && curriculum.Valid()
      modifies this
      ensures Valid()
      ensures curriculums == old(curriculums) + [curriculum]
      ensures students == old(students) && subjects == old(subjects) && registrations == old(registrations)
      ensures disk == Snapshot()
    {
      curriculums := curriculums + [curriculum];
      SaveData();
    }

    /** updateStudent: the first student with the same identifier is replaced and the
        lists saved; with no such student nothing happens. */
    method UpdateStudent(student: Student)
      modifies this
      ensures subjects == old(subjects) && curriculums == old(curriculums) && registrations == old(registrations)
      ensures var i := old(StudentIndex(students, student.studentId));
        if i < 0 then students == old(students) && disk == old(disk)
        else students == old(students)[i := student] && disk == Snapshot()
    {
      for i := 0 to |students|
        invariant StudentIndex(students, student.studentId) ==
          (var j := StudentIndex(students[i..], student.studentId); if j < 0 then -1 else i + j)
      {
        assert students[i..][1..] == students[i + 1..];
        if students[i].studentId == student.studentId {
          students := students[i := student];
          SaveData();
          return;
        }
      }
    }
  }
}
