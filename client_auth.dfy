/** The browser's record of who is signed in, shared by the routes: a user
    or none, and a flag that must agree with it. */
module ClientAuth {
  import opened Wrappers

  class AuthState<User> {
    var user: Option<User>
    var isAuthenticated: bool

    /** The two fields agree: signed in exactly when a user is recorded. */
    predicate Valid()
      reads this
    {
      isAuthenticated == user.Some?
    }

    /** The initial `auth` object: nobody signed in. */
    constructor ()
      ensures user == None && !isAuthenticated
      ensures Valid()
    {
      user := None;
      isAuthenticated := false;
    }

    /** `setUser(u)`: records `u` and sets the flag from it. It needs
        nothing of the state before, so the fields agree after any run of
        calls. */
    method SetUser(u: Option<User>)
      modifies this
      ensures user == u
      ensures isAuthenticated <==> u.Some?
      ensures Valid()
    {
      user := u;
      isAuthenticated := u.Some?;
    }
  }
}
