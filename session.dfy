/** util/SessionManager.java: who is logged in. The singleton is an explicitly
    constructed object here. */
module Session {
  import opened Model

  class SessionManager {
    /** The user currently logged in; null when no one is. */
    var currentUser: Student?

    /** A new session has no current user. */
    constructor ()
      ensures currentUser == null
      ensures !IsLoggedIn() && !IsAdmin()
    {
      currentUser := null;
    }

    /** login: a user becomes the current user; null is refused and changes nothing. */
    method Login(user: Student?) returns (ok: bool)
      modifies this
      ensures ok <==> user != null
      ensures ok ==> currentUser == user && IsLoggedIn()
      ensures !ok ==> currentUser == old(currentUser)
    {
      if user != null {
        currentUser := user;
        return true;
      }
      return false;
    }

    /** logout: no one is logged in afterwards, so no one is an admin either. */
    method Logout()
      modifies this
      ensures currentUser == null
      ensures !IsLoggedIn() && !IsAdmin()
    {
      currentUser := null;
    }

    predicate IsLoggedIn()
      reads this
    {
      currentUser != null
    }

    /** isAdmin: a user is logged in and carries the admin flag; so an admin is
        always logged in. */
    function IsAdmin(): (admin: bool)
      reads this, currentUser
      ensures admin ==> IsLoggedIn()
      ensures admin <==> currentUser != null && currentUser.isAdmin
    {
      IsLoggedIn() && currentUser.isAdmin
    }
  }
}
