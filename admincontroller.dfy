/** Controller/AdminController.java: the administrator's student list, search, sorts,
    grading and the per-student registration table. */
module AdminController {
  import opened Common
  import opened Model
  import opened Store
  import opened StudentSort
  import opened Formatter

  // ---------------------------------------------------------------------------
  // getAllStudents

  /** The students without the admin flag, in store order. */
  function NonAdmins(ss: seq<Student>): seq<Student>
    reads ss
  {
    if ss == [] then []
    else (if !ss[0].isAdmin then [ss[0]] else []) + NonAdmins(ss[1..])
  }

  /** The filter keeps exactly the students without the admin flag. */
  lemma {:induction false} NonAdminsMembers(ss: seq<Student>)
    ensures |NonAdmins(ss)| <= |ss|
    ensures forall i :: 0 <= i < |NonAdmins(ss)| ==> NonAdmins(ss)[i] in ss && !NonAdmins(ss)[i].isAdmin
    ensures forall k :: 0 <= k < |ss| && !ss[k].isAdmin ==> ss[k] in NonAdmins(ss)
  {
    if ss != [] {
      NonAdminsMembers(ss[1..]);
      assert forall k :: 1 <= k < |ss| ==> ss[k] == ss[1..][k - 1];
    }
  }

  method GetAllStudents(dm: DataManager) returns (result: seq<Student>)
    ensures result == NonAdmins(dm.students)
  {
    var all := dm.GetAllStudents();
    result := [];
    for i := 0 to |all|
      invariant NonAdmins(all) == result + NonAdmins(all[i..])
    {
      assert all[i..][1..] == all[i + 1..];
      if !all[i].isAdmin {
        result := result + [all[i]];
      }
    }
  }

  // ---------------------------------------------------------------------------
  // sortStudentsByName, sortStudentsByAge: a sorted copy; the argument is not changed

  /** The sorted copy is a permutation of the input, ascending by the order's key, and
      stable: for every key, the students with that key keep their relative order. */
  lemma SortStudentsCorrect(students: seq<Student>, order: StudentOrder)
    ensures var sorted := Sort(students, Keys(students, order));
      multiset(sorted) == multiset(students) &&
      (forall i, j :: 0 <= i < j < |sorted| ==> !KeyLess(KeyOf(sorted[j], order), KeyOf(sorted[i], order))) &&
      (forall k :: WithKey(sorted, k, Keys(students, order)) == WithKey(students, k, Keys(students, order)))
  {
    var keys := Keys(students, order);
    var sorted := Sort(students, keys);
    SortCorrect(students, keys, []);
    forall i, j | 0 <= i < j < |sorted|
      ensures !KeyLess(KeyOf(sorted[j], order), KeyOf(sorted[i], order))
    {
      assert sorted[i] in multiset(students) && sorted[j] in multiset(students);
      assert Key(keys, sorted[i]) == KeyOf(sorted[i], order);
      assert Key(keys, sorted[j]) == KeyOf(sorted[j], order);
    }
  }

  /** Any stable, ordered permutation of the input is the sorted copy; so the model's
      insertion sort and the library's stable merge sort give the same list. */
  lemma SortStudentsUnique(students: seq<Student>, order: StudentOrder, other: seq<Student>)
    requires multiset(other) == multiset(students)
    requires forall i, j :: 0 <= i < j < |other| ==> !KeyLess(KeyOf(other[j], order), KeyOf(other[i], order))
    requires forall k :: WithKey(other, k, Keys(students, order)) == WithKey(students, k, Keys(students, order))
    ensures other == Sort(students, Keys(students, order))
  {
    var keys := Keys(students, order);
    forall i, j | 0 <= i < j < |other|
      ensures !KeyLess(Key(keys, other[j]), Key(keys, other[i]))
    {
      assert other[i] in multiset(students) && other[j] in multiset(students);
    }
    assert Sorted(other, keys);
    SortCorrect(students, keys, other);
  }

  /** sortStudentsByName: ascending by full name (String.compareTo), stable. */
  function SortStudentsByName(students: seq<Student>): (sorted: seq<Student>)
    reads students
    ensures multiset(sorted) == multiset(students)
    ensures forall i, j :: 0 <= i < j < |sorted| ==> !LexLess(sorted[j].FullName(), sorted[i].FullName())
    ensures forall k :: WithKey(sorted, k, Keys(students, ByName)) == WithKey(students, k, Keys(students, ByName))
  {
    SortStudentsCorrect(students, ByName);
    Sort(students, Keys(students, ByName))
  }

  /** sortStudentsByAge: ascending by the age on `today` (Integer.compare), stable. */
  function SortStudentsByAge(students: seq<Student>, today: Date): (sorted: seq<Student>)
    reads students
    ensures multiset(sorted) == multiset(students)
    ensures forall i, j :: 0 <= i < j < |sorted| ==> sorted[i].Age(today) <= sorted[j].Age(today)
    ensures forall k ::
      WithKey(sorted, k, Keys(students, ByAge(today))) == WithKey(students, k, Keys(students, ByAge(today)))
  {
    SortStudentsCorrect(students, ByAge(today));
    Sort(students, Keys(students, ByAge(today)))
  }

  // ---------------------------------------------------------------------------
  // setGrade

  /** setGrade: an invalid grade is refused with IllegalArgumentException before the
      store is touched; a valid one is handed to the store's setGrade. */
  method SetGrade(dm: DataManager, studentId: string, subjectId: string, grade: Option<string>)
    returns (outcome: Outcome)
    requires dm.Valid()
    modifies dm, dm.registrations
    ensures dm.Valid()
    ensures dm.students == old(dm.students) && dm.subjects == old(dm.subjects) &&
      dm.curriculums == old(dm.curriculums) && dm.registrations == old(dm.registrations)
    ensures !ValidGrade(grade) ==>
      outcome == IllegalArgument("Invalid grade: " + grade.value) &&
      dm.Registrations() == old(dm.Registrations()) && dm.disk == old(dm.disk)
    ensures ValidGrade(grade) ==> outcome == Done
    ensures ValidGrade(grade) && (studentId, subjectId) in old(Pairs(dm.Registrations())) ==>
      dm.Registrations() == SetGradeAt(old(dm.Registrations()), studentId, subjectId, grade) &&
      dm.disk == dm.Snapshot()
    ensures ValidGrade(grade) && (studentId, subjectId) !in old(Pairs(dm.Registrations())) ==>
      dm.Registrations() == old(dm.Registrations()) && dm.disk == old(dm.disk)
  {
    var valid := RegisteredSubject.IsValidGrade(grade);
    if !valid {
      return IllegalArgument("Invalid grade: " + grade.value);
    }
    outcome := dm.SetGrade(studentId, subjectId, grade);
  }

  // ---------------------------------------------------------------------------
  // searchStudents

  /** A student matches a lower-cased query when the identifier contains it or the
      lower-cased full name contains it. */
  predicate MatchesQuery(s: Student, lowerQuery: string)
    reads s
  {
    Contains(s.studentId, lowerQuery) || Contains(ToLower(s.FullName()), lowerQuery)
  }

  /** The students of ss, in order, that match the query. */
  function Matching(ss: seq<Student>, lowerQuery: string): seq<Student>
    reads ss
  {
    if ss == [] then []
    else (if MatchesQuery(ss[0], lowerQuery) then [ss[0]] else []) + Matching(ss[1..], lowerQuery)
  }

  /** The search keeps exactly the students in whose identifier or lower-cased name the
      query occurs at some position. */
  lemma {:induction false} MatchingMembers(ss: seq<Student>, lowerQuery: string)
    ensures |Matching(ss, lowerQuery)| <= |ss|
    ensures forall i :: 0 <= i < |Matching(ss, lowerQuery)| ==>
      Matching(ss, lowerQuery)[i] in ss && MatchesQuery(Matching(ss, lowerQuery)[i], lowerQuery)
    ensures forall k :: 0 <= k < |ss| && MatchesQuery(ss[k], lowerQuery) ==> ss[k] in Matching(ss, lowerQuery)
  {
    if ss != [] {
      MatchingMembers(ss[1..], lowerQuery);
      assert forall k :: 1 <= k < |ss| ==> ss[k] == ss[1..][k - 1];
    }
  }

  /** MatchesQuery in terms of positions: the query occurs somewhere in the identifier
      or in the lower-cased full name. */
  lemma MatchesQueryIffOccurs(s: Student, lowerQuery: string)
    ensures MatchesQuery(s, lowerQuery) <==>
      (exists i :: OccursAt(s.studentId, lowerQuery, i)) ||
      (exists i :: OccursAt(ToLower(s.FullName()), lowerQuery, i))
  {
    ContainsIffOccurs(s.studentId, lowerQuery);
    ContainsIffOccurs(ToLower(s.FullName()), lowerQuery);
  }

  /** searchStudents: every non-admin student for a null or empty query; otherwise the
      non-admin students, in order, that match the lower-cased query. */
  method SearchStudents(dm: DataManager, query: Option<string>) returns (result: seq<Student>)
    ensures !Present(query) ==> result == NonAdmins(dm.students)
    ensures Present(query) ==> result == Matching(NonAdmins(dm.students), ToLower(query.value))
  {
    var all := GetAllStudents(dm);
    if !Present(query) {
      return all;
    }
    var lowerQuery := ToLower(query.value);
    result := MatchingAmong(all, lowerQuery);
  }

  /** The loop of searchStudents over the non-admin students. */
  method MatchingAmong(all: seq<Student>, lowerQuery: string) returns (result: seq<Student>)
    ensures result == Matching(all, lowerQuery)
  {
    result := [];
    for i := 0 to |all|
      invariant Matching(all, lowerQuery) == result + Matching(all[i..], lowerQuery)
    {
      assert all[i..][1..] == all[i + 1..];
      if Contains(all[i].studentId, lowerQuery) || Contains(ToLower(all[i].FullName()), lowerQuery) {
        result := result + [all[i]];
      }
    }
  }

  // ---------------------------------------------------------------------------
  // getRegisteredSubjectsWithDetailsForStudent

  /** One table row: the subject's identifier, name, credits and instructor, and the
      grade as the admin table shows it. */
  datatype DetailRow = DetailRow(subjectId: string, subjectName: string, credits: int,
                                 instructor: string, grade: string)

  function RowOf(x: Subject, r: RegisteredSubject): (row: DetailRow)
    reads x, r
    ensures row.grade == NotGraded <==> (!Present(r.grade) || r.grade.value == NotGraded)
  {
    DetailRow(x.subjectId, x.subjectName, x.credits, x.instructor, FormatGrade(r.grade))
  }

  /** The rows the loop builds: one per registration whose subject exists, in order. */
  function DetailRows(own: seq<RegisteredSubject>, xs: seq<Subject>): seq<DetailRow>
    reads own, xs
  {
    if own == [] then []
    else
      var x := FindSubject(xs, own[0].subjectId);
      (if x != null then [RowOf(x, own[0])] else []) + DetailRows(own[1..], xs)
  }

  /** The table has one row per registration with a known subject, in registration
      order, showing that subject and that registration's grade. */
  lemma {:induction false} DetailRowsOfKnown(own: seq<RegisteredSubject>, xs: seq<Subject>)
    ensures |DetailRows(own, xs)| == |KnownRegistrations(own, xs)|
    ensures forall i :: 0 <= i < |DetailRows(own, xs)| ==>
      var r := KnownRegistrations(own, xs)[i];
      FindSubject(xs, r.subjectId) != null && DetailRows(own, xs)[i] == RowOf(FindSubject(xs, r.subjectId), r)
  {
    if own != [] {
      DetailRowsOfKnown(own[1..], xs);
    }
  }

  method GetRegisteredSubjectsWithDetailsForStudent(dm: DataManager, studentId: string)
    returns (rows: seq<DetailRow>)
    ensures rows == DetailRows(RegistrationsOf(dm.registrations, studentId), dm.subjects)
  {
    var own := dm.GetRegisteredSubjectsForStudent(studentId);
    rows := RowsOf(dm.subjects, own);
  }

  /** DetailRows of a list with one more registration at the end. */
  lemma {:induction false} DetailRowsSnoc(own: seq<RegisteredSubject>, r: RegisteredSubject, xs: seq<Subject>)
    ensures var x := FindSubject(xs, r.subjectId);
      DetailRows(own + [r], xs) == DetailRows(own, xs) + (if x != null then [RowOf(x, r)] else [])
  {
    if own == [] {
      assert own + [r] == [r];
    } else {
      assert (own + [r])[1..] == own[1..] + [r];
      DetailRowsSnoc(own[1..], r, xs);
    }
  }

  /** The loop of getRegisteredSubjectsWithDetailsForStudent. */
  method RowsOf(xs: seq<Subject>, own: seq<RegisteredSubject>) returns (rows: seq<DetailRow>)
    ensures rows == DetailRows(own, xs)
  {
    rows := [];
    for i := 0 to |own|
      invariant rows == DetailRows(own[..i], xs)
    {
      assert own[..i + 1] == own[..i] + [own[i]];
      DetailRowsSnoc(own[..i], own[i], xs);
      var subject := FindSubject(xs, own[i].subjectId);
      if subject != null {
        var grade := if !Present(own[i].grade) then NotGraded else own[i].grade.value;
        var row := DetailRow(subject.subjectId, subject.subjectName, subject.credits, subject.instructor, grade);
        assert row == RowOf(subject, own[i]);
        rows := rows + [row];
      }
    }
    assert own[..|own|] == own;
  }
}
