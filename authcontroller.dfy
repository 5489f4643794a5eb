/** Controller/AuthController.java: logging in by email and password, and the session
    queries the views use. */
module AuthController {
  import opened Model
  import opened Store
  import opened Session

  /** The student a login with these credentials lets in, or null: the first student
      with the email, when the password is the one stored for that student. */
  function Authenticated(ss: seq<Student>, email: string, password: string): (user: Student?)
    reads ss
    ensures user != null ==> user in ss && user.email == email && user.password == password
    ensures user != null <==> (exists i :: 0 <= i < |ss| && ss[i].email == email && ss[i].password == password &&
                                            forall k :: 0 <= k < i ==> ss[k].email != email)
  {
    EmailIndexFirst(ss, email);
    var s := FindByEmail(ss, email);
    if s != null && s.password == password then s else null
  }

  /** Only the first student with an email can log in with it: a student listed after
      another with the same email is never let in, whatever password is given. */
  lemma ShadowedEmailCannotLogIn(ss: seq<Student>, i: nat, j: nat, password: string)
    requires i < j < |ss| && ss[i].email == ss[j].email
    requires forall k :: 0 <= k < j ==> ss[k] != ss[j]
    ensures Authenticated(ss, ss[j].email, password) != ss[j]
  {
    EmailIndexFirst(ss, ss[j].email);
    var first := EmailIndex(ss, ss[j].email);
    assert 0 <= first <= i;
  }

  /** authenticate: on a match the student becomes the current user and the result is
      true; otherwise the session is left as it was and the result is false. */
  method Authenticate(dm: DataManager, sm: SessionManager, email: string, password: string) returns (ok: bool)
    modifies sm
    ensures ok <==> Authenticated(dm.students, email, password) != null
    ensures ok ==> sm.currentUser == Authenticated(dm.students, email, password) && sm.IsLoggedIn()
    ensures !ok ==> sm.currentUser == old(sm.currentUser)
  {
    var student := dm.GetStudentByEmail(email);
    if student != null && student.password == password {
      ok := sm.Login(student);
      return;
    }
    return false;
  }

  /** logout: afterwards no one is logged in, so no one is an admin. */
  method Logout(sm: SessionManager)
    modifies sm
    ensures sm.currentUser == null && !sm.IsLoggedIn() && !sm.IsAdmin()
  {
    sm.Logout();
  }
}
