/** Controller/ValidationController.java: the business rules the views check before
    they change the store. */
module ValidationController {
  import opened Common
  import opened Model
  import opened Store

  // ---------------------------------------------------------------------------
  // The identifier formats. Each regular expression the source uses is a fixed
  // sequence of character classes, matched against the whole string.

  datatype CharClass = Lit(c: char) | AnyDigit | NonZeroDigit

  predicate InClass(c: char, k: CharClass) {
    match k
    case Lit(l) => c == l
    case AnyDigit => IsDigit(c)
    case NonZeroDigit => '1' <= c <= '9'
  }

  /** String.matches for an anchored pattern of single-character classes. */
  predicate Matches(s: string, p: seq<CharClass>) {
    |s| == |p| && forall i :: 0 <= i < |s| ==> InClass(s[i], p[i])
  }

  /** The pattern matching the literal text `t`. */
  function Literal(t: string): (p: seq<CharClass>)
    ensures |p| == |t| && forall i :: 0 <= i < |t| ==> p[i] == Lit(t[i])
  {
    seq(|t|, i requires 0 <= i < |t| => Lit(t[i]))
  }

  /** `\d{n}` */
  function Digits(n: nat): (p: seq<CharClass>)
    ensures |p| == n && forall i :: 0 <= i < n ==> p[i] == AnyDigit
  {
    seq(n, i => AnyDigit)
  }

  /** `^69\d{6}$` */
  const StudentIdPattern: seq<CharClass> := Literal("69") + Digits(6)
  /** `^0550\d{4}$`, the faculty subjects */
  const FacultySubjectPattern: seq<CharClass> := Literal("0550") + Digits(4)
  /** `^9069\d{4}$`, the general-education subjects */
  const GeneralSubjectPattern: seq<CharClass> := Literal("9069") + Digits(4)
  /** `^[1-9]\d{7}$` */
  const CurriculumIdPattern: seq<CharClass> := [NonZeroDigit] + Digits(7)

  /** A literal prefix followed by n digits matches exactly the strings that consist of
      that prefix and n more digits. */
  lemma {:induction false} MatchesPrefixDigits(s: string, t: string, n: nat)
    ensures Matches(s, Literal(t) + Digits(n)) <==>
      |s| == |t| + n && StartsWith(s, t) && AllDigits(s[|t|..])
  {
    var p := Literal(t) + Digits(n);
    if Matches(s, p) {
      assert forall i :: 0 <= i < |t| ==> s[i] == t[i] by {
        forall i | 0 <= i < |t| ensures s[i] == t[i] { assert InClass(s[i], p[i]); }
      }
      assert s[..|t|] == t;
      forall i | 0 <= i < n ensures IsDigit(s[|t|..][i]) {
        assert InClass(s[|t| + i], p[|t| + i]);
      }
    }
    if |s| == |t| + n && StartsWith(s, t) && AllDigits(s[|t|..]) {
      forall i | 0 <= i < |s| ensures InClass(s[i], p[i]) {
        if i < |t| {
          assert s[..|t|][i] == s[i];
        } else {
          assert s[|t|..][i - |t|] == s[i];
        }
      }
    }
  }

  /** validateStudentId: present, eight characters, "69" followed by six digits. */
  function ValidateStudentId(studentId: Option<string>): (ok: bool)
    ensures ok <==> (studentId.Some? && |studentId.value| == 8 &&
                     StartsWith(studentId.value, "69") && AllDigits(studentId.value[2..]))
  {
    if studentId.None? then false
    else
      MatchesPrefixDigits(studentId.value, "69", 6);
      Matches(studentId.value, StudentIdPattern)
  }

  /** validateSubjectId: present, and a faculty ("0550") or general-education ("9069")
      identifier followed by four digits. */
  function ValidateSubjectId(subjectId: Option<string>): (ok: bool)
    ensures ok <==> (subjectId.Some? && |subjectId.value| == 8 &&
                     (StartsWith(subjectId.value, "0550") || StartsWith(subjectId.value, "9069")) &&
                     AllDigits(subjectId.value[4..]))
  {
    if subjectId.None? then false
    else
      MatchesPrefixDigits(subjectId.value, "0550", 4);
      MatchesPrefixDigits(subjectId.value, "9069", 4);
      Matches(subjectId.value, FacultySubjectPattern) || Matches(subjectId.value, GeneralSubjectPattern)
  }

  /** validateCurriculumId: present, eight digits, the first of them not 0. */
  function ValidateCurriculumId(curriculumId: Option<string>): (ok: bool)
    ensures ok <==> (curriculumId.Some? && |curriculumId.value| == 8 &&
                     AllDigits(curriculumId.value) && curriculumId.value[0] != '0')
  {
    if curriculumId.None? then false
    else
      var s := curriculumId.value;
      assert Matches(s, CurriculumIdPattern) ==> AllDigits(s) by {
        if Matches(s, CurriculumIdPattern) {
          forall i | 0 <= i < |s| ensures IsDigit(s[i]) { assert InClass(s[i], CurriculumIdPattern[i]); }
        }
      }
      Matches(s, CurriculumIdPattern)
  }

  /** Examples of the student identifier format, accepted and refused. */
  lemma StudentIdExamples()
    ensures ValidateStudentId(Some("69000001")) && ValidateStudentId(Some("69123456"))
    ensures !ValidateStudentId(Some("59000001")) && !ValidateStudentId(Some("6900001"))
    ensures !ValidateStudentId(Some("6900000a")) && !ValidateStudentId(None)
  {
    assert StartsWith("69000001", "69") && AllDigits("69000001"[2..]);
    assert StartsWith("69123456", "69") && AllDigits("69123456"[2..]);
    assert "59000001"[..2][0] != "69"[0];
    assert "6900000a"[2..][5] == 'a';
  }

  /** Examples of the subject identifier format, accepted and refused. */
  lemma SubjectIdExamples()
    ensures ValidateSubjectId(Some("05500001")) && ValidateSubjectId(Some("90690001"))
    ensures !ValidateSubjectId(Some("12345678")) && !ValidateSubjectId(Some("055000011"))
    ensures !ValidateSubjectId(Some("69000001")) && !ValidateSubjectId(None)
  {
    assert StartsWith("05500001", "0550") && AllDigits("05500001"[4..]);
    assert StartsWith("90690001", "9069") && AllDigits("90690001"[4..]);
    assert "12345678"[..4][0] != "0550"[0] && "12345678"[..4][0] != "9069"[0];
    assert "69000001"[..4][0] != "0550"[0] && "69000001"[..4][0] != "9069"[0];
  }

  /** Examples of the curriculum identifier format, accepted and refused. */
  lemma CurriculumIdExamples()
    ensures ValidateCurriculumId(Some("10000001")) && ValidateCurriculumId(Some("20000001"))
    ensures !ValidateCurriculumId(Some("00000001")) && !ValidateCurriculumId(Some("1000001"))
    ensures !ValidateCurriculumId(None)
  {
    assert AllDigits("10000001") && AllDigits("20000001");
  }

  /** validateCredits: a subject carries a positive number of credits. */
  predicate ValidateCredits(credits: int) {
    credits > 0
  }

  /** validateStudentAge: a student (not null) who is at least 15 on `today`. */
  function ValidateStudentAge(student: Student?, today: Date): (ok: bool)
    reads student
    ensures ok <==> student != null && student.IsValidAge(today)
    ensures ok ==> student.birthDate.Some?
  {
    student != null && student.Age(today) >= 15
  }

  /** Someone born exactly n years before `today` passes the age check exactly when n is
      at least 15. */
  lemma ValidateAgeOnBirthday(student: Student, today: Date, n: nat)
    requires ValidDate(today)
    requires student.birthDate == Some(MinusYears(today, n))
    ensures ValidateStudentAge(student, today) <==> n >= 15
  {
    YearsBetweenMinusYears(today, n);
  }

  /** The students createSampleData writes have well-formed identifiers. */
  lemma SampleStudentIdsValidate()
    ensures forall i :: 0 <= i < |SampleStudents| ==> ValidateStudentId(Some(SampleStudents[i].studentId))
  {
    FirstSampleStudentIdsValidate();
    LastSampleStudentIdsValidate();
  }

  lemma FirstSampleStudentIdsValidate()
    ensures forall i :: 0 <= i < 6 ==> ValidateStudentId(Some(SampleStudents[i].studentId))
  {
  }

  lemma LastSampleStudentIdsValidate()
    ensures forall i :: 6 <= i < |SampleStudents| ==> ValidateStudentId(Some(SampleStudents[i].studentId))
  {
  }

  /** The subjects createSampleData writes have well-formed identifiers and positive
      credits. */
  lemma SampleSubjectsValidate()
    ensures forall i :: 0 <= i < |SampleSubjects| ==>
      ValidateSubjectId(Some(SampleSubjects[i].subjectId)) && ValidateCredits(SampleSubjects[i].credits)
  {
  }

  /** The curriculums createSampleData writes have well-formed identifiers and require
      subjects with well-formed identifiers. */
  lemma SampleCurriculumsValidate()
    ensures forall i :: 0 <= i < |SampleCurriculums| ==>
      ValidateCurriculumId(Some(SampleCurriculums[i].curriculumId)) &&
      forall j :: 0 <= j < |SampleCurriculums[i].requiredSubjectIds| ==>
        ValidateSubjectId(Some(SampleCurriculums[i].requiredSubjectIds[j]))
  {
  }

  /** canRegisterForSubject: the subject exists, none of the student's registrations is
      for it, and its prerequisite, if any, the student has completed. */
  method CanRegisterForSubject(dm: DataManager, studentId: string, subjectId: string) returns (ok: bool)
    ensures ok == CanRegister(dm.subjects, dm.Registrations(), studentId, subjectId)
  {
    var subject := dm.GetSubjectById(subjectId);
    if subject == null {
      return false;
    }
    var own := dm.GetRegisteredSubjectsForStudent(studentId);
    OwnRegistrationsPairs(dm.registrations, studentId, subjectId);
    for i := 0 to |own|
      invariant forall k :: 0 <= k < i ==> own[k].subjectId != subjectId
    {
      if own[i].subjectId == subjectId {
        return false;
      }
    }
    if subject.HasPrerequisite() {
      ok := dm.HasCompletedPrerequisite(studentId, subject.prerequisiteId.value);
      return;
    }
    return true;
  }

  /** validateGrade: RegisteredSubject.isValidGrade. */
  method ValidateGrade(grade: Option<string>) returns (ok: bool)
    ensures ok == ValidGrade(grade)
    ensures ok && Present(grade) ==> grade.value in ValidGrades
  {
    ok := RegisteredSubject.IsValidGrade(grade);
  }
}
