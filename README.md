# Course registration: a verified model of the domain layer

This project models the domain and business-rule layer of a small student
course-registration system written in Java. The system has four entities:
students, subjects, curriculums (a `SubjectStructure` with parallel lists of
required subject identifiers and semesters) and registrations (a
`RegisteredSubject` linking a student to a subject, with an optional letter
grade). A `DataManager` keeps the four lists, persists them to four files and
answers the lookups and filters the application needs. A session manager holds
the logged-in user. Four controllers sit on top of these: validation, the student's
actions, the admin's actions and authentication. A formatter maps missing values
to display text.

The Dafny modules follow that structure:

- `Common`: Java `null` as `Option`, exceptions as `Outcome`, `List.indexOf`,
  `String.contains`, ASCII `toLowerCase`, `String.compareTo` (on code points), decimal printing of
  ints, and the calendar arithmetic behind `Period.between(...).getYears()`.
- `Model`: the four entity classes with their fields, constructors and setters.
  Each class also has a `Record()` value, its serialized form.
- `Store`: the `DataManager` class with `seq` fields. The four files are an
  abstract `Disk` value. `saveData` sets `disk` to a snapshot of the lists.
  The module also holds the specification functions every query is proved
  against (`RegistrationsOf`, `StudentsFor`, `AvailableSubjects`, `CountFor`,
  `Register`, `SetGradeAt`, `WithAdmin`, …).
- `Session`: the `SessionManager` class, whose current user goes null → user → null.
- `Formatter`: `formatGrade`, `formatCurriculumId` and the null branch of `formatDate`.
- `ValidationController`: the identifier formats as anchored patterns of character
  classes, plus the age, credits, grade and registration checks.
- `StudentController`, `AdminController`, `AuthController`: the controller methods.
  They take the store and the session as explicit parameters.
- `StudentSort`: `Collections.sort` with the two comparators of
  `AdminController`, modelled as a stable insertion sort. It is proved to be a
  permutation, sorted and stable, and to be the only list with those three
  properties.

Operations that build results in loops are `method`s with loop invariants. Each
is proved equal to a recursive specification function, and the properties the
system promises are proved about those functions as lemmas. State changes are
methods that state the whole new state of the store.

Several predicates are stated as their definitions and carry no contract of
their own. They are used throughout the contracts below:
- `RegisteredSubject.IsGraded` (Model/RegisteredSubject.java:68-70): the grade is non-null and non-empty;
- `Subject.HasPrerequisite` (Model/Subject.java:67-69): the prerequisite is non-null and non-empty;
- `Student.IsValidAge` (Model/Student.java:50-52): age at least 15;
- `SessionManager.IsLoggedIn` (util/SessionManager.java:45-47);
- `ValidateCredits` (Controller/ValidationController.java:43-45): credits > 0;
- `Store.HasCompleted` (Model/DataManager.java:369-378): some registration of the pair is graded.

## Model

| member | source | states |
|---|---|---|
| `Common.IndexOf` | Model/SubjectStructure.java:51 | `List.indexOf`: -1 exactly when the element is absent, otherwise the position of its first occurrence |
| `Common.IndexOfFirst` | Model/SubjectStructure.java:51 | a position holding x with no x before it is the one `indexOf` returns |
| `Common.ContainsIffOccurs` | Controller/AdminController.java:112-113 | `String.contains`, modelled as a scan over start positions, holds exactly when the text occurs at some position |
| `Common.ToLower` | Controller/AdminController.java:109 | lowering keeps the length and maps each character through the ASCII lower-case map |
| `Common.ToLowerIdempotent` | Controller/AdminController.java:109 | lowering an already lowered text changes nothing |
| `Common.LexLessIrreflexive` | Controller/AdminController.java:58 | no name compares below itself under `compareTo` |
| `Common.LexLessTransitive` | Controller/AdminController.java:58 | `compareTo` below is transitive |
| `Common.LexLessTotal` | Controller/AdminController.java:58 | any two distinct names are ordered one way or the other |
| `Common.NatToString` | Model/Subject.java:73 | the decimal text of a number is non-empty and all digits |
| `Common.NatToStringRoundTrip` | Model/Subject.java:73 | reading back the decimal text of a natural number gives the number |
| `Common.IntToStringRoundTrip` | Model/Subject.java:73 | the decimal text of any int, with its sign, parses back to that int |
| `Common.MinusYears` | App/TestApp.java:66 | `LocalDate.minusYears` always yields a valid date |
| `Common.YearsBetweenMinusYears` | Model/Student.java:42-47 | a birth date n years before today gives an age of exactly n |
| `Model.ValidGradeExactly` | Model/RegisteredSubject.java:23-37 | among non-empty strings, exactly the eight letter grades A, B+, B, C+, C, D+, D, F are valid (case-sensitive) |
| `Model.GradedValidGradeIsLetter` | Model/RegisteredSubject.java:26-37 | a valid grade that counts as graded is one of the eight letters; null and "" are the only other valid grades |
| `Model.RegisteredSubject.constructor` | Model/RegisteredSubject.java:12-16 | the three fields are stored as given; the grade is not validated |
| `Model.RegisteredSubject.IsValidGrade` | Model/RegisteredSubject.java:26-37 | the early-return scan over the grade table answers exactly `ValidGrade`: true for null and "" and for the eight letters |
| `Model.RegisteredSubject.SetGrade` | Model/RegisteredSubject.java:60-65 | an invalid grade gives `IllegalArgumentException("Invalid grade: " + g)` and leaves the registration unchanged; a valid one replaces only the grade, and the registration is then graded exactly when the grade is non-empty |
| `Model.RegisteredSubject.SetStudentId` | Model/RegisteredSubject.java:44-46 | changes only the student id |
| `Model.RegisteredSubject.SetSubjectId` | Model/RegisteredSubject.java:52-54 | changes only the subject id |
| `Model.Subject.constructor` | Model/Subject.java:14-20 | the five fields are stored exactly as given; credits are not checked |
| `Model.Subject.SetSubjectId` | Model/Subject.java:31-33 | changes only the subject id |
| `Model.Subject.SetSubjectName` | Model/Subject.java:39-41 | changes only the name |
| `Model.Subject.SetCredits` | Model/Subject.java:47-49 | changes only the credits |
| `Model.Subject.SetInstructor` | Model/Subject.java:55-57 | changes only the instructor |
| `Model.Subject.SetPrerequisiteId` | Model/Subject.java:63-65 | changes only the prerequisite |
| `Model.Subject.ToString` | Model/Subject.java:72-74 | the text is the id, ": ", the name, " (", the credits as decimal text and " credits)"; so it starts with the id and ": ", and the decimal text at its end reads back as the credits |
| `Model.InSemesterMembers` | Model/SubjectStructure.java:34-42 | an id is in the semester-k list exactly when some position pairs it with semester k |
| `Model.InSemesterPartition` | Model/SubjectStructure.java:34-42 | when every semester is 1 or 2, the two semester lists together have as many entries as the curriculum |
| `Model.SubjectStructure.constructor` | Model/SubjectStructure.java:13-21 | the three names are stored and both parallel lists start empty |
| `Model.SubjectStructure.AddRequiredSubject` | Model/SubjectStructure.java:28-31 | appends the id and the semester to the two lists, keeping them the same length and every earlier entry and name |
| `Model.SubjectStructure.GetRequiredSubjectsForSemester` | Model/SubjectStructure.java:34-42 | the index loop returns, in list order, the ids paired with the given semester |
| `Model.SubjectStructure.GetAllRequiredSubjects` | Model/SubjectStructure.java:45-47 | a copy equal to the id list, which is as long as the semester list |
| `Model.SubjectStructure.GetSemesterForSubject` | Model/SubjectStructure.java:50-56 | -1 when the id is absent; otherwise the semester paired with the id's first occurrence |
| `Model.SpaceJoinInjective` | Model/Student.java:135-137 | joining with a space is injective when the first part has no space |
| `Model.Student.constructor` | Model/Student.java:22-35 | the ten fields are stored as given |
| `Model.Student.Age` | Model/Student.java:42-47 | 0 when there is no birth date, otherwise the whole years from the birth date to today |
| `Model.Student.FullName` | Model/Student.java:135-137 | title, first name and last name joined by single spaces: when title and first name contain no space, the three parts can be read back from the full name |
| `Model.Student.ToString` | Model/Student.java:140-142 | the id, ": ", then the full name |
| `Model.Student.SetStudentId` | Model/Student.java:59-61 | changes only the student id |
| `Model.Student.SetTitle` | Model/Student.java:67-69 | changes only the title |
| `Model.Student.SetFirstName` | Model/Student.java:75-77 | changes only the first name |
| `Model.Student.SetLastName` | Model/Student.java:83-85 | changes only the last name |
| `Model.Student.SetBirthDate` | Model/Student.java:91-93 | changes only the birth date |
| `Model.Student.SetSchool` | Model/Student.java:99-101 | changes only the school |
| `Model.Student.SetEmail` | Model/Student.java:107-109 | changes only the email |
| `Model.Student.SetCurriculumId` | Model/Student.java:115-117 | changes only the curriculum id |
| `Model.Student.SetPassword` | Model/Student.java:123-125 | changes only the password |
| `Model.Student.SetAdmin` | Model/Student.java:131-133 | changes only the admin flag |
| `Model.AgeThresholdOnBirthdays` | App/TestApp.java:65-73 | born 16 years before today is old enough and 14 years before today is not, on every valid today |
| `Store.CountFor` | Model/DataManager.java:482-490 | the count is the number of registrations naming the subject |
| `Store.CompletedIsRegistered` | Model/DataManager.java:369-378 | a completed prerequisite is a registered pair |
| `Store.RegisterIdempotent` | Model/DataManager.java:381-392 | after registering, the pair is registered, and registering it again changes nothing |
| `Store.RegisterKeepsDistinct` | Model/DataManager.java:381-392 | registering never creates a second registration for a pair |
| `Store.RegisterCount` | Model/DataManager.java:381-392 | registering a new pair raises that subject's count by exactly one and leaves every other count alone; an existing pair changes no count |
| `Store.RegisterCompletesNothing` | Model/DataManager.java:381-392 | a new ungraded registration never completes a prerequisite |
| `Store.GradeFor` | Controller/StudentController.java:107-117 | no grade for an unregistered pair; otherwise the grade of the first registration of the pair |
| `Store.SetThenGetGrade` | Model/DataManager.java:395-403 | after a grade is set the same pairs are registered, the pair reads back the new grade, and every other pair keeps its grade |
| `Store.StudentIndex` | Model/DataManager.java:324-331 | -1 or a position holding a student with the id |
| `Store.StudentIndexFirst` | Model/DataManager.java:324-331 | no student before that position, and none at all when -1, has the id |
| `Store.EmailIndex` | Model/DataManager.java:334-341 | -1 or a position holding a student with the email |
| `Store.EmailIndexFirst` | Model/DataManager.java:334-341 | no student before that position, and none at all when -1, has the email |
| `Store.SubjectIndex` | Model/DataManager.java:299-306 | -1 or a position holding a subject with the id |
| `Store.SubjectIndexFirst` | Model/DataManager.java:299-306 | no subject before that position, and none at all when -1, has the id |
| `Store.CurriculumIndex` | Model/DataManager.java:314-321 | -1 or a position holding a curriculum with the id |
| `Store.CurriculumIndexFirst` | Model/DataManager.java:314-321 | no curriculum before that position, and none at all when -1, has the id |
| `Store.ReplaceThenFind` | Model/DataManager.java:424-432 | after the first student with an id is replaced, a lookup by that id finds the replacement and every other id finds what it found before |
| `Store.StudentsAtSchoolMembers` | Model/DataManager.java:272-280 | the school filter keeps exactly the non-admin students of that school |
| `Store.RegistrationsOfMembers` | Model/DataManager.java:344-352 | the student filter keeps exactly the registrations of that student |
| `Store.KnownRegistrationsMembers` | Controller/StudentController.java:91-96 | keeps exactly the registrations whose subject exists |
| `Store.OwnRegistrationsPairs` | Model/DataManager.java:451-454 | a pair is registered exactly when the student's own registrations contain the subject |
| `Store.StudentsForCount` | Model/DataManager.java:355-366 | the students of a subject are no more than its registration count |
| `Store.StudentsForSound` | Model/DataManager.java:355-366 | every listed student is the store's student for their id and has a registration for the subject |
| `Store.StudentsForComplete` | Model/DataManager.java:355-366 | every registration of the subject whose student exists contributes that student |
| `Store.AvailableAmongMembers` | Model/DataManager.java:457-476 | the available subjects are exactly the existing, registrable subjects among the required ids |
| `Store.AvailableIffCanRegister` | Model/DataManager.java:435-479 | empty for an unknown student or curriculum; otherwise a subject is available exactly when the curriculum requires it, it is the store's subject for its id, the student has not registered it, and any prerequisite is completed |
| `Store.WithAdminHasAdmin` | Model/DataManager.java:493-515 | after the repair an admin account exists; an existing one means no change, otherwise exactly one admin is appended after all earlier students |
| `Store.RestartKeepsData` | Model/DataManager.java:64-99 | with the corrected load, the files after start-up are complete and starting again from them gives the same lists |
| `Store.StartAsWrittenLosesData` | Model/DataManager.java:81-93 | with the load as written, a first start from stored files without an admin account already holds no subjects, curriculums or registrations, while the corrected load keeps the stored ones; the files stay empty, so a restart does not recover them |
| `Store.SampleDataConsistent` | Model/DataManager.java:102-248 | the sample data has an admin, parallel curriculum lists, no duplicate registration and only valid grades |
| `Store.DataManager.constructor` | Model/DataManager.java:33-53 | complete files are loaded and repaired; otherwise the sample data is created and saved; either way the store is consistent, has an admin, and the files hold what the lists hold |
| `Store.DataManager.StartAsWritten` | Model/DataManager.java:33-53 | the constructor as written: missing files give the sample data; stored files with an admin are kept; stored files without one leave the students with the admin added and the other three lists empty, in memory and in the files |
| `Store.DataManager.StartWithSampleData` | Model/DataManager.java:46-48 | from empty lists, creates the sample data and saves it |
| `Store.DataManager.SaveData` | Model/DataManager.java:56-61 | the files become a snapshot of the four lists; nothing else changes |
| `Store.DataManager.LoadData` | Model/DataManager.java:64-99 | false and no change when a file is missing; otherwise all four lists are read, the admin account is repaired, and the files end up holding the repaired lists |
| `Store.DataManager.LoadDataAsWritten` | Model/DataManager.java:64-99 | as written: false and no change when a file is missing; otherwise the repair runs after the students are read, and when it adds the admin its save empties the other three files before they are read, so the three lists come back empty |
| `Store.DataManager.EnsureAdminExists` | Model/DataManager.java:493-515 | the students become `WithAdmin` of the old students and nothing else changes; it saves only when it added the admin |
| `Store.DataManager.AdminExists` | Model/DataManager.java:494-502 | the scan finds an account with the admin email and the admin flag |
| `Store.DataManager.AppendAdmin` | Model/DataManager.java:505-511 | appends the fixed admin account and nothing else |
| `Store.DataManager.CreateSampleData` | Model/DataManager.java:102-248 | appends the sample curriculums, subjects, students and registrations |
| `Store.DataManager.AddSampleCurriculums` | Model/DataManager.java:104-138 | appends the two sample curriculums with their required subjects |
| `Store.DataManager.AddSampleSubjects` | Model/DataManager.java:108-229 | appends the ten sample subjects |
| `Store.DataManager.AddSampleStudents` | Model/DataManager.java:140-241 | appends the admin and the ten sample students |
| `Store.DataManager.AddSampleRegistrations` | Model/DataManager.java:209-247 | appends the five sample registrations without creating a duplicate pair |
| `Store.DataManager.GetStudentsBySchool` | Model/DataManager.java:272-280 | the loop returns the school filter of the students |
| `Store.DataManager.GetAllSchools` | Model/DataManager.java:283-291 | no school twice, and a school is listed exactly when some non-admin student is at it |
| `Store.DataManager.GetSubjectById` | Model/DataManager.java:299-306 | the first subject with the id, or null |
| `Store.DataManager.GetCurriculumById` | Model/DataManager.java:314-321 | the first curriculum with the id, or null |
| `Store.DataManager.GetStudentById` | Model/DataManager.java:324-331 | the first student with the id, or null |
| `Store.DataManager.GetStudentByEmail` | Model/DataManager.java:334-341 | the first student with the email, or null |
| `Store.DataManager.GetRegisteredSubjectsForStudent` | Model/DataManager.java:344-352 | the student's registrations, in store order |
| `Store.DataManager.GetStudentsForSubject` | Model/DataManager.java:355-366 | for each registration of the subject whose student exists, that student, in registration order |
| `Store.DataManager.HasCompletedPrerequisite` | Model/DataManager.java:369-378 | true exactly when some registration of the pair is graded |
| `Store.DataManager.GetRegistrationCountForSubject` | Model/DataManager.java:482-490 | the counter equals the number of registrations naming the subject |
| `Store.DataManager.GetAvailableSubjectsForStudent` | Model/DataManager.java:435-479 | equals `AvailableSubjects` (see `Store.AvailableIffCanRegister`) |
| `Store.DataManager.RegisteredSubjectIdsOf` | Model/DataManager.java:451-454 | the set holds exactly the subjects registered to the student |
| `Store.RegisteredAmongOwn` | Model/DataManager.java:451-454 | the set built from the student's own registrations is the set of their registered subjects |
| `Store.DataManager.AvailableFrom` | Model/DataManager.java:457-476 | the loop over the required ids keeps, in order, each existing subject the student can register for |
| `Store.DataManager.RegisterSubject` | Model/DataManager.java:381-392 | an existing pair leaves the registrations and files alone; otherwise one ungraded registration is appended and saved; the store stays consistent |
| `Store.DataManager.SetGrade` | Model/DataManager.java:395-403 | no match changes nothing; a valid grade is set on the first matching registration only and saved; an invalid grade throws and changes nothing |
| `Store.DataManager.SetGradeOfRegistration` | Model/DataManager.java:397-400 | the matched registration gets the grade and the store is saved, or the grade is invalid and nothing changes |
| `Store.DataManager.AddStudent` | Model/DataManager.java:406-409 | appends the student and saves; the other lists are unchanged |
| `Store.DataManager.AddSubject` | Model/DataManager.java:412-415 | appends the subject and saves; the other lists are unchanged |
| `Store.DataManager.AddCurriculum` | Model/DataManager.java:418-421 | appends the curriculum and saves; the other lists are unchanged |
| `Store.DataManager.UpdateStudent` | Model/DataManager.java:424-432 | replaces only the first student with the same id and saves; with no match nothing changes |
| `Session.SessionManager.constructor` | util/SessionManager.java:21-23 | a new session has no user, so no one is logged in or admin |
| `Session.SessionManager.Login` | util/SessionManager.java:26-32 | null is refused with false and no change; any user becomes the current user and the result is true |
| `Session.SessionManager.Logout` | util/SessionManager.java:35-37 | afterwards no one is logged in or admin |
| `Session.SessionManager.IsAdmin` | util/SessionManager.java:50-52 | admin exactly when a user is logged in and has the admin flag, so admin implies logged in |
| `Formatter.FormatGrade` | util/Formatter.java:30-35 | null or "" gives "Not graded"; any other grade is returned unchanged |
| `Formatter.FormatValidGrade` | util/Formatter.java:30-35 | for a valid grade, the text is "Not graded" exactly when ungraded, and otherwise one of the eight letters |
| `Formatter.FormatGradeInjective` | util/Formatter.java:30-35 | two valid grades with the same text are both ungraded or the same letter |
| `Formatter.FormatCurriculumId` | util/Formatter.java:38-43 | null or "" gives "N/A"; any other id is returned unchanged |
| `Formatter.FormatDate` | util/Formatter.java:13-18 | null gives "N/A"; a date gives its formatted text |
| `ValidationController.Literal` | Controller/ValidationController.java:26 | the pattern of a literal text matches each character by itself |
| `ValidationController.Digits` | Controller/ValidationController.java:26 | `\d{n}` is n digit classes |
| `ValidationController.MatchesPrefixDigits` | Controller/ValidationController.java:24-34 | a literal prefix then n digits matches exactly the texts of that length that start with the prefix and continue with digits |
| `ValidationController.ValidateStudentId` | Controller/ValidationController.java:24-27 | non-null, 8 characters, "69" then 6 ASCII digits |
| `ValidationController.ValidateSubjectId` | Controller/ValidationController.java:31-34 | non-null, 8 characters, "0550" or "9069" then 4 ASCII digits |
| `ValidationController.ValidateCurriculumId` | Controller/ValidationController.java:37-40 | non-null, 8 ASCII digits, the first not 0 |
| `ValidationController.StudentIdExamples` | App/TestApp.java:76-77 | "69000001" passes; "59000001", a short id, a letter and null fail |
| `ValidationController.SubjectIdExamples` | App/TestApp.java:79-81 | "05500001" and "90690001" pass; "12345678", a long id, a student id and null fail |
| `ValidationController.CurriculumIdExamples` | App/TestApp.java:83-84 | "10000001" passes; "00000001", a short id and null fail |
| `ValidationController.ValidateStudentAge` | Controller/ValidationController.java:19-21 | false for null; otherwise the age test; a passing student has a birth date |
| `ValidationController.ValidateAgeOnBirthday` | Controller/ValidationController.java:19-21 | a student born n years before today passes exactly when n >= 15 |
| `ValidationController.SampleStudentIdsValidate` | Model/DataManager.java:140-207 | every sample student id passes `validateStudentId` |
| `ValidationController.SampleSubjectsValidate` | Model/DataManager.java:108-117 | every sample subject id passes `validateSubjectId` with positive credits |
| `ValidationController.SampleCurriculumsValidate` | Model/DataManager.java:104-138 | every sample curriculum id, and every subject id it requires, passes validation |
| `ValidationController.CanRegisterForSubject` | Controller/ValidationController.java:48-69 | false for an unknown subject or an existing registration; otherwise the prerequisite's completion, or true without one |
| `ValidationController.ValidateGrade` | Controller/ValidationController.java:72-74 | agrees with `isValidGrade` on every input |
| `StudentController.CanRegisterIsPrerequisiteMetAndNew` | Controller/StudentController.java:37-54 | `canRegisterForSubject` is `registerSubject`'s test plus "not yet registered" |
| `StudentController.RegisterSubject` | Controller/StudentController.java:37-54 | false, with nothing changed, for an unknown subject or an uncompleted prerequisite; otherwise true and the pair is then registered: a new pair is appended and the store is saved, an already registered pair is not duplicated and the files stay as they were |
| `StudentController.CanViewStudentProfile` | Controller/StudentController.java:71-84 | nobody when logged out; an admin views every profile; anyone else views only their own |
| `StudentController.GradeForOwnRegistrations` | Controller/StudentController.java:107-117 | the first match among a student's own registrations is the first match among all registrations |
| `StudentController.GetGradeForSubject` | Controller/StudentController.java:107-117 | the grade of the student's first registration for the subject, or null when there is none |
| `StudentController.GradeAmong` | Controller/StudentController.java:110-116 | the early-return loop finds the first registration of the subject |
| `StudentController.SubjectDetailsOfKnown` | Controller/StudentController.java:87-99 | one subject per registration whose subject exists, in registration order |
| `StudentController.GetRegisteredSubjectDetails` | Controller/StudentController.java:87-99 | the subjects of the student's registrations, in order, unknown ones skipped |
| `StudentController.DetailsOf` | Controller/StudentController.java:91-96 | the loop keeps the known subject of each registration, in order |
| `StudentController.GetCurriculumForStudent` | Controller/StudentController.java:62-68 | null for an unknown student; otherwise the first curriculum with the student's curriculum id; when null, nothing is available to the student |
| `StudentSort.SortPermutation` | Controller/AdminController.java:54-55 | the sort returns a permutation of its input |
| `StudentSort.SortSorted` | Controller/AdminController.java:54-55 | the sort's output is ordered by the key |
| `StudentSort.SortStable` | Controller/AdminController.java:54-55 | for every key, the elements with that key keep their input order |
| `StudentSort.SortedStableUnique` | Controller/AdminController.java:54-55 | two sorted lists with the same elements of each key, in the same order, are equal |
| `StudentSort.SortCorrect` | Controller/AdminController.java:54-55 | the sort is a sorted, stable permutation and equals every other sorted, stable arrangement of the input |
| `AdminController.NonAdminsMembers` | Controller/AdminController.java:29-40 | keeps exactly the non-admin students |
| `AdminController.GetAllStudents` | Controller/AdminController.java:29-40 | the non-admin students in store order |
| `AdminController.SortStudentsCorrect` | Controller/AdminController.java:53-74 | sorting students by a comparator gives a permutation ordered by that comparator and stable for its ties |
| `AdminController.SortStudentsUnique` | Controller/AdminController.java:53-74 | any permutation that is ordered and stable is the model's result, so every stable sort agrees with it |
| `AdminController.SortStudentsByName` | Controller/AdminController.java:53-62 | a permutation of the input ascending by full name, stable for equal names |
| `AdminController.SortStudentsByAge` | Controller/AdminController.java:65-74 | a permutation of the input with non-decreasing age, stable for equal ages |
| `AdminController.SetGrade` | Controller/AdminController.java:87-93 | an invalid grade throws before the store is touched; a valid grade is set on the first matching registration and the store is saved, and with no match nothing changes |
| `AdminController.MatchingMembers` | Controller/AdminController.java:111-116 | keeps exactly the students matching the query |
| `AdminController.MatchesQueryIffOccurs` | Controller/AdminController.java:112-113 | a student matches exactly when the query occurs in the id or in the lowered full name |
| `AdminController.SearchStudents` | Controller/AdminController.java:101-119 | a null or empty query gives all non-admin students; otherwise the non-admin students, in order, whose id or lowered full name contains the lowered query |
| `AdminController.MatchingAmong` | Controller/AdminController.java:111-116 | the loop keeps, in order, the matching students |
| `AdminController.RowOf` | Controller/AdminController.java:129-135 | the grade cell is "Not graded" exactly when the grade is null, empty or that text itself |
| `AdminController.DetailRowsOfKnown` | Controller/AdminController.java:122-141 | one row per registration whose subject exists, in order, built from that subject and registration |
| `AdminController.GetRegisteredSubjectsWithDetailsForStudent` | Controller/AdminController.java:122-141 | the rows of the student's registrations with a known subject |
| `AdminController.RowsOf` | Controller/AdminController.java:126-138 | the loop builds the same rows |
| `AuthController.Authenticated` | Controller/AuthController.java:20-29 | a user is let in exactly when the first student with the email has the password; that user is in the store with those credentials |
| `AuthController.ShadowedEmailCannotLogIn` | Controller/AuthController.java:21 | a student whose email an earlier student already has can never log in |
| `AuthController.Authenticate` | Controller/AuthController.java:20-29 | true exactly when the credentials let someone in, who then becomes the current user; on false the session is unchanged |
| `AuthController.Logout` | Controller/AuthController.java:32-34 | afterwards no one is logged in or admin |

## Left out

- File I/O and Java serialisation: the four files are an abstract `Disk` value (a missing file is `None`). Deserialisation failures (Model/DataManager.java:95-98) and console logging are not modelled.
- The `getInstance` singletons: the store and the session are explicit objects passed to the controllers.
- The clock: `LocalDate.now()` is a `today: Date` parameter. `Period.between` is modelled as the month-and-day arithmetic of `java.time`.
- `DateTimeFormatter` and `parseDate` (util/Formatter.java:17-27): called with a date, `formatDate` returns its formatted text, given as a parameter. `parseDate` is not part of this model.
- The regular-expression engine: each pattern is an anchored sequence of character classes.
- `toLowerCase` is the ASCII map only. No Unicode case folding.
- Java `null` strings: only the values where the source tests for null or where null is a meaningful value are `Option` (grades, prerequisites, birth dates, the arguments of the validators and the formatter, the search query). Every other string, such as ids, names, email, school, password and lookup keys, is a non-null `string`. The `NullPointerException` a null there would raise is not modelled. Examples: a stored student with a null email at Model/DataManager.java:336, a null school at Model/DataManager.java:275, a null password at Controller/AuthController.java:23.
- `Common.LexLess`: compares characters as Unicode scalar values. `String.compareTo` compares UTF-16 code units, so the two orders differ when a name holds characters beyond U+FFFF next to characters between U+E000 and U+FFFF. For names within the Basic Multilingual Plane the two orders agree.
- `Collections.sort` is a library merge sort. The model uses a stable insertion sort. `StudentSort.SortCorrect` proves that any stable sort gives the same list.
- The sorts copy the list and sort the copy in place. The model returns a new sequence, so the input is unchanged by construction.
- `getAllSchools` goes through a `HashSet`, whose iteration order is unspecified. `Store.DataManager.GetAllSchools` keeps first-occurrence order, and its contract states only distinctness and membership.
- Inside loops the model calls the specification functions (`FindSubject`, `FindStudent`, `HasCompleted`) instead of the lookup methods. Those methods are proved equal to these functions.
- `Store.DataManager.GetAllStudents`, `Store.DataManager.GetAllSubjects`, `Store.DataManager.GetAllCurriculums`: a Dafny `seq` is a value, so the Java copy is the field itself. No contract beyond that.
- Thin delegations are not repeated as separate members. Each is the store or session member it forwards to:
  - AdminController `isAdmin`, `getStudentsBySchool`, `getAllSchools`, `getAllSubjects`, `getStudentsForSubject`, `getRegistrationCountForSubject`;
  - StudentController `getStudentById`, `getRegisteredSubjects`, `getAvailableSubjects`, `getSubjectDetails`, `isAdmin`;
  - AuthController `isLoggedIn`, `isAdmin`, `getCurrentUser`;
  - SessionManager `getCurrentUser`.
- `Store.DataManager.AddCurriculum` requires the curriculum's two lists to be the same length. Every `SubjectStructure` built through its constructor and `addRequiredSubject` satisfies this.
- `Store.DataManager.RegisterSubject`, `Store.DataManager.SetGrade` and `AdminController.SetGrade` require the store invariant `Valid()`: parallel curriculum lists and no registration object listed twice. The constructors establish it, and the store methods that change curriculums or registrations state that they keep it. Duplicate (student, subject) pairs are not excluded by it: stored files or the id setters can create them, and every lookup then uses the first one, as the Java does.
- The default (no-argument) constructors kept for serialisation, Model/BaseModel.java, the Swing views and the application entry points are not part of this model.

## Findings

| source | as written | input that shows it | evidently intended | confidence | as-written member | corrected member |
|---|---|---|---|---|---|---|
| Model/DataManager.java:81 | `loadData` calls `ensureAdminExists` after reading only the students (lines 84-93 read the other three files later). When the admin account is missing, its `saveData` (line 512) writes the still-empty subject, curriculum and registration lists over their files, and those empty files are then read back. | all four files present, with a student list that has no admin account | read all four files first, then repair the admin account, so no stored data is lost | not executed | `Store.StartAsWrittenLosesData` | `Store.RestartKeepsData` |
