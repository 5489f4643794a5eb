/** The four entity records of the registration system (Model/RegisteredSubject.java,
    Model/Subject.java, Model/SubjectStructure.java, Model/Student.java). Each is a
    class whose setters change one field in place. Each also has a Record(), the value
    an object stream writes for it; the store persists and reloads those records. */
module Model {
  import opened Common

  // ===========================================================================
  // RegisteredSubject: a (student, subject) registration with an optional grade

  /** RegisteredSubject.VALID_GRADES, in the order the source lists them. */
  const ValidGrades: seq<string> := ["A", "B+", "B", "C+", "C", "D+", "D", "F"]

  /** What RegisteredSubject.isValidGrade accepts: null and "" (not graded yet), or
      one of the eight letter grades, compared case-sensitively. */
  predicate ValidGrade(g: Option<string>) {
    !Present(g) || g.value in ValidGrades
  }

  /** Among non-empty strings, exactly the eight letter grades are valid. */
  lemma ValidGradeExactly(s: string)
    requires s != ""
    ensures ValidGrade(Some(s)) <==>
      s == "A" || s == "B+" || s == "B" || s == "C+" || s == "C" || s == "D+" || s == "D" || s == "F"
  {
  }

  /** For a grade that passed validation, "graded" means "carries a letter grade". */
  lemma GradedValidGradeIsLetter(g: Option<string>)
    requires ValidGrade(g)
    ensures Present(g) <==> g.Some? && g.value in ValidGrades
  {
  }

  /** The serialized form of a RegisteredSubject. */
  datatype RegistrationRecord = RegistrationRecord(studentId: string, subjectId: string, grade: Option<string>)

  class RegisteredSubject {
    var studentId: string
    var subjectId: string
    var grade: Option<string>

    /** Stores all three fields as given; the grade is not validated here. */
    constructor (studentId: string, subjectId: string, grade: Option<string>)
      ensures Record() == RegistrationRecord(studentId, subjectId, grade)
    {
      this.studentId := studentId;
      this.subjectId := subjectId;
      this.grade := grade;
    }

    function Record(): RegistrationRecord
      reads this
    {
      RegistrationRecord(studentId, subjectId, grade)
    }

    /** RegisteredSubject.isValidGrade: the early-return scan over VALID_GRADES. */
    static method IsValidGrade(g: Option<string>) returns (valid: bool)
      ensures valid == ValidGrade(g)
    {
      if !Present(g) {
        return true;
      }
      for i := 0 to |ValidGrades|
        invariant g.value !in ValidGrades[..i]
      {
        if ValidGrades[i] == g.value {
          return true;
        }
      }
      return false;
    }

    /** setGrade: an invalid grade throws IllegalArgumentException and leaves the field
        as it was; a valid one (including null and "") is stored. */
    method SetGrade(g: Option<string>) returns (outcome: Outcome)
      modifies this
      ensures ValidGrade(g) ==> outcome == Done && Record() == old(Record()).(grade := g)
      ensures !ValidGrade(g) ==>
        outcome == IllegalArgument("Invalid grade: " + g.value) && Record() == old(Record())
      ensures ValidGrade(g) ==> (IsGraded() <==> Present(g))
    {
      var valid := IsValidGrade(g);
      if !valid {
        return IllegalArgument("Invalid grade: " + g.value);
      }
      grade := g;
      return Done;
    }

    method SetStudentId(id: string)
      modifies this
      ensures Record() == old(Record()).(studentId := id)
    {
      studentId := id;
    }

    method SetSubjectId(id: string)
      modifies this
      ensures Record() == old(Record()).(subjectId := id)
    {
      subjectId := id;
    }

    /** isGraded: the grade is non-null and non-empty. */
    predicate IsGraded()
      reads this
    {
      Present(grade)
    }
  }

  // ===========================================================================
  // Subject

  /** The serialized form of a Subject. */
  datatype SubjectRecord = SubjectRecord(
    subjectId: string, subjectName: string, credits: int, instructor: string,
    prerequisiteId: Option<string>)

  class Subject {
    var subjectId: string
    var subjectName: string
    var credits: int
    var instructor: string
    var prerequisiteId: Option<string>

    /** Stores the five fields exactly as given; credits are not checked. */
    constructor (subjectId: string, subjectName: string, credits: int, instructor: string,
                 prerequisiteId: Option<string>)
      ensures Record() == SubjectRecord(subjectId, subjectName, credits, instructor, prerequisiteId)
    {
      this.subjectId := subjectId;
      this.subjectName := subjectName;
      this.credits := credits;
      this.instructor := instructor;
      this.prerequisiteId := prerequisiteId;
    }

    function Record(): SubjectRecord
      reads this
    {
      SubjectRecord(subjectId, subjectName, credits, instructor, prerequisiteId)
    }

    method SetSubjectId(v: string)
      modifies this
      ensures Record() == old(Record()).(subjectId := v)
    {
      subjectId := v;
    }

    method SetSubjectName(v: string)
      modifies this
      ensures Record() == old(Record()).(subjectName := v)
    {
      subjectName := v;
    }

    method SetCredits(v: int)
      modifies this
      ensures Record() == old(Record()).(credits := v)
    {
      credits := v;
    }

    method SetInstructor(v: string)
      modifies this
      ensures Record() == old(Record()).(instructor := v)
    {
      instructor := v;
    }

    method SetPrerequisiteId(v: Option<string>)
      modifies this
      ensures Record() == old(Record()).(prerequisiteId := v)
    {
      prerequisiteId := v;
    }

    /** hasPrerequisite: the prerequisite identifier is non-null and non-empty. */
    predicate HasPrerequisite()
      reads this
    {
      Present(prerequisiteId)
    }

    /** toString: `id: name (n credits)`. The identifier and the credit count can be
        read back from the text. */
    function ToString(): (r: string)
      reads this
      ensures r == subjectId + ": " + subjectName + " (" + IntToString(credits) + " credits)"
      ensures StartsWith(r, subjectId + ": ")
      ensures var n := IntToString(credits);
        |r| >= |n| + 9 && r[|r| - |n| - 9..] == n + " credits)" && ParseInt(n) == credits
    {
      IntToStringRoundTrip(credits);
      subjectId + ": " + subjectName + " (" + IntToString(credits) + " credits)"
    }
  }

  // ===========================================================================
  // SubjectStructure: a curriculum, with parallel lists of subject ids and semesters

  /** The ids whose paired semester is k, in list order (getRequiredSubjectsForSemester). */
  function InSemester(ids: seq<string>, semesters: seq<int>, k: int): seq<string>
    requires |ids| == |semesters|
  {
    if ids == [] then []
    else
      var n := |ids| - 1;
      InSemester(ids[..n], semesters[..n], k) + (if semesters[n] == k then [ids[n]] else [])
  }

  /** An id is listed for semester k iff it is paired with k somewhere in the lists. */
  lemma {:induction false} InSemesterMembers(ids: seq<string>, semesters: seq<int>, k: int, x: string)
    requires |ids| == |semesters|
    ensures x in InSemester(ids, semesters, k) <==>
      exists i :: 0 <= i < |ids| && ids[i] == x && semesters[i] == k
  {
    if ids != [] {
      var n := |ids| - 1;
      InSemesterMembers(ids[..n], semesters[..n], k, x);
      if exists i :: 0 <= i < |ids| && ids[i] == x && semesters[i] == k {
        var i :| 0 <= i < |ids| && ids[i] == x && semesters[i] == k;
        if i < n {
          assert ids[..n][i] == x && semesters[..n][i] == k;
        }
      }
    }
  }

  /** When every semester is 1 or 2, the two per-semester lists together hold every
      required subject once per occurrence. */
  lemma {:induction false} InSemesterPartition(ids: seq<string>, semesters: seq<int>)
    requires |ids| == |semesters|
    requires forall i :: 0 <= i < |semesters| ==> semesters[i] == 1 || semesters[i] == 2
    ensures |InSemester(ids, semesters, 1)| + |InSemester(ids, semesters, 2)| == |ids|
  {
    if ids != [] {
      var n := |ids| - 1;
      InSemesterPartition(ids[..n], semesters[..n]);
    }
  }

  /** The serialized form of a SubjectStructure. */
  datatype StructureRecord = StructureRecord(
    curriculumId: string, curriculumName: string, departmentName: string,
    requiredSubjectIds: seq<string>, semesters: seq<int>)

  class SubjectStructure {
    var curriculumId: string
    var curriculumName: string
    var departmentName: string
    var requiredSubjectIds: seq<string>
    var semesters: seq<int>

    /** The two lists run in parallel: semesters[i] is the semester of requiredSubjectIds[i]. */
    ghost predicate Valid()
      reads this
    {
      |requiredSubjectIds| == |semesters|
    }

    /** A new structure has its three names and no required subjects. */
    constructor (curriculumId: string, curriculumName: string, departmentName: string)
      ensures Valid()
      ensures Record() == StructureRecord(curriculumId, curriculumName, departmentName, [], [])
    {
      this.curriculumId := curriculumId;
      this.curriculumName := curriculumName;
      this.departmentName := departmentName;
      requiredSubjectIds := [];
      semesters := [];
    }

    function Record(): StructureRecord
      reads this
    {
      StructureRecord(curriculumId, curriculumName, departmentName, requiredSubjectIds, semesters)
    }

    /** addRequiredSubject appends one entry to each parallel list. */
    method AddRequiredSubject(subjectId: string, semester: int)
      requires Valid()
      modifies this
      ensures Valid()
      ensures requiredSubjectIds == old(requiredSubjectIds) + [subjectId]
      ensures semesters == old(semesters) + [semester]
      ensures curriculumId == old(curriculumId) && curriculumName == old(curriculumName)
      ensures departmentName == old(departmentName)
    {
      requiredSubjectIds := requiredSubjectIds + [subjectId];
      semesters := semesters + [semester];
    }

    /** getRequiredSubjectsForSemester: the index loop that collects the ids paired
        with the given semester. */
    method GetRequiredSubjectsForSemester(semester: int) returns (result: seq<string>)
      requires Valid()
      ensures result == InSemester(requiredSubjectIds, semesters, semester)
    {
      result := [];
      var i := 0;
      while i < |requiredSubjectIds|
        invariant 0 <= i <= |requiredSubjectIds|
        invariant result == InSemester(requiredSubjectIds[..i], semesters[..i], semester)
      {
        assert requiredSubjectIds[..i + 1][..i] == requiredSubjectIds[..i];
        assert semesters[..i + 1][..i] == semesters[..i];
        if semesters[i] == semester {
          result := result + [requiredSubjectIds[i]];
        }
        i := i + 1;
      }
      assert requiredSubjectIds[..i] == requiredSubjectIds && semesters[..i] == semesters;
    }

    /** getAllRequiredSubjects: a copy of the id list, one entry per semester entry. */
    function GetAllRequiredSubjects(): (ids: seq<string>)
      reads this
      requires Valid()
      ensures ids == requiredSubjectIds && |ids| == |semesters|
    {
      requiredSubjectIds
    }

    /** getSemesterForSubject: the semester paired with the first occurrence of the id
        (List.indexOf), or -1 when the curriculum does not list it. */
    function GetSemesterForSubject(subjectId: string): (semester: int)
      reads this
      requires Valid()
      ensures subjectId !in requiredSubjectIds ==> semester == -1
      ensures subjectId in requiredSubjectIds ==>
        exists i :: 0 <= i < |requiredSubjectIds| && requiredSubjectIds[i] == subjectId &&
          subjectId !in requiredSubjectIds[..i] && semester == semesters[i]
    {
      var index := IndexOf(requiredSubjectIds, subjectId);
      if index >= 0 then semesters[index] else -1
    }
  }

  // ===========================================================================
  // Student

  /** The serialized form of a Student. */
  datatype StudentRecord = StudentRecord(
    studentId: string, title: string, firstName: string, lastName: string,
    birthDate: Option<Date>, school: string, email: string, curriculumId: string,
    password: string, isAdmin: bool)

  /** The minimum age for registration (Student.isValidAge). */
  const MinimumAge := 15

  /** Joining by a space loses nothing when the left part has no space in it. */
  lemma SpaceJoinInjective(a1: string, b1: string, a2: string, b2: string)
    requires ' ' !in a1 && ' ' !in a2
    requires a1 + " " + b1 == a2 + " " + b2
    ensures a1 == a2 && b1 == b2
  {
    var s1, s2 := a1 + " " + b1, a2 + " " + b2;
    assert s1[|a1|] == ' ' && s2[|a2|] == ' ';
    assert forall i :: 0 <= i < |a1| ==> s1[i] == a1[i] != ' ';
    assert forall i :: 0 <= i < |a2| ==> s2[i] == a2[i] != ' ';
    assert a1 == s1[..|a1|] && a2 == s2[..|a2|];
    assert b1 == s1[|a1| + 1..] && b2 == s2[|a2| + 1..];
  }

  class Student {
    var studentId: string
    var title: string
    var firstName: string
    var lastName: string
    var birthDate: Option<Date>
    var school: string
    var email: string
    var curriculumId: string
    var password: string
    var isAdmin: bool

    constructor (studentId: string, title: string, firstName: string, lastName: string,
                 birthDate: Option<Date>, school: string, email: string, curriculumId: string,
                 password: string, isAdmin: bool)
      ensures Record() == StudentRecord(studentId, title, firstName, lastName, birthDate,
                                        school, email, curriculumId, password, isAdmin)
    {
      this.studentId := studentId;
      this.title := title;
      this.firstName := firstName;
      this.lastName := lastName;
      this.birthDate := birthDate;
      this.school := school;
      this.email := email;
      this.curriculumId := curriculumId;
      this.password := password;
      this.isAdmin := isAdmin;
    }

    function Record(): StudentRecord
      reads this
    {
      StudentRecord(studentId, title, firstName, lastName, birthDate, school, email,
                    curriculumId, password, isAdmin)
    }

    /** getAge: 0 without a birth date, otherwise the whole years from the birth date
        to `today` (the source reads the system clock). */
    function Age(today: Date): (age: int)
      reads this
      ensures birthDate.None? ==> age == 0
      ensures birthDate.Some? ==> age == YearsBetween(birthDate.value, today)
    {
      if birthDate.None? then 0 else YearsBetween(birthDate.value, today)
    }

    /** isValidAge: at least 15 years old. */
    predicate IsValidAge(today: Date)
      reads this
    {
      Age(today) >= MinimumAge
    }

    /** getFullName: title, first and last name separated by single spaces. When the
        parts hold no spaces, the full name determines them. */
    function FullName(): (name: string)
      reads this
      ensures ' ' !in title && ' ' !in firstName ==>
        forall t, f, l :: ' ' !in t && ' ' !in f && name == t + " " + f + " " + l ==>
          t == title && f == firstName && l == lastName
    {
      var name := title + " " + firstName + " " + lastName;
      assert name == title + " " + (firstName + " " + lastName);
      forall t, f, l | ' ' !in title && ' ' !in firstName && ' ' !in t && ' ' !in f &&
                       name == t + " " + f + " " + l
        ensures t == title && f == firstName && l == lastName
      {
        assert t + " " + f + " " + l == t + " " + (f + " " + l);
        SpaceJoinInjective(title, firstName + " " + lastName, t, f + " " + l);
        SpaceJoinInjective(firstName, lastName, f, l);
      }
      name
    }

    /** toString: `id: full name`; both parts can be cut back out of the text. */
    function ToString(): (r: string)
      reads this
      ensures StartsWith(r, studentId + ": ") && r[|studentId| + 2..] == FullName()
    {
      studentId + ": " + FullName()
    }

    method SetStudentId(v: string)
      modifies this
      ensures Record() == old(Record()).(studentId := v)
    {
      studentId := v;
    }

    method SetTitle(v: string)
      modifies this
      ensures Record() == old(Record()).(title := v)
    {
      title := v;
    }

    method SetFirstName(v: string)
      modifies this
      ensures Record() == old(Record()).(firstName := v)
    {
      firstName := v;
    }

    method SetLastName(v: string)
      modifies this
      ensures Record() == old(Record()).(lastName := v)
    {
      lastName := v;
    }

    method SetBirthDate(v: Option<Date>)
      modifies this
      ensures Record() == old(Record()).(birthDate := v)
    {
      birthDate := v;
    }

    method SetSchool(v: string)
      modifies this
      ensures Record() == old(Record()).(school := v)
    {
      school := v;
    }

    method SetEmail(v: string)
      modifies this
      ensures Record() == old(Record()).(email := v)
    {
      email := v;
    }

    method SetCurriculumId(v: string)
      modifies this
      ensures Record() == old(Record()).(curriculumId := v)
    {
      curriculumId := v;
    }

    method SetPassword(v: string)
      modifies this
      ensures Record() == old(Record()).(password := v)
    {
      password := v;
    }

    method SetAdmin(v: bool)
      modifies this
      ensures Record() == old(Record()).(isAdmin := v)
    {
      isAdmin := v;
    }
  }

  /** The age rule on the test driver's two students, born 16 and 14 years before
      today (LocalDate.now().minusYears(n)): the first is old enough, the second not. */
  lemma AgeThresholdOnBirthdays(today: Date)
    requires ValidDate(today)
    ensures YearsBetween(MinusYears(today, 16), today) >= MinimumAge
    ensures YearsBetween(MinusYears(today, 14), today) < MinimumAge
  {
    YearsBetweenMinusYears(today, 16);
    YearsBetweenMinusYears(today, 14);
  }
}
