/** The session whitelist kept by the authentication handlers. Every user
    record holds the refresh tokens currently valid for it; `login` adds
    one, `refresh` rotates one (and treats an unknown but genuine token as a
    stolen one, revoking every session of its user), `logout` removes one,
    and `register` adds a user with an empty whitelist.

    Each handler is specified by a function from the old store to the new
    store and the response (`LoginSpec`, `RefreshSpec`, `LogoutSpec`,
    `RegisterSpec`), and implemented by a method of `UserCollection`, which
    updates the records step by step as the handler does. Token signing is
    a counter that hands out fresh serial numbers; `verifyRefreshToken` at
    the moment of the call is the parameter `verify` (it answers `None` for
    a forged, malformed or expired token); bcrypt's `compare` is the
    parameter `matches` and its `hash` the parameter `hash`. */
module AuthController {
  import opened Wrappers
  import opened Text
  import opened Errors
  import opened AuthSchema
  import opened UserModel

  /** The collection together with the two sources of fresh values. */
  datatype Store = Store(users: seq<User>, nextToken: Token, nextId: UserId)

  /** A successful login or refresh: the user and the new refresh token set
      as the `refreshToken` cookie. */
  datatype Session = Session(userId: UserId, refreshToken: Token)

  const BadCredentials: string := "Invalid email or password"
  const NoRefreshToken: string := "No refresh token provided"
  const BadRefreshToken: string := "Invalid or expired refresh token"

  /** No token is in two users' whitelists. */
  ghost predicate TokensOwnedOnce(users: seq<User>) {
    forall i, j, t :: 0 <= i < j < |users| ==> !(t in users[i].refreshToken && t in users[j].refreshToken)
  }

  /** The invariant of the store: unique keys, ids and tokens below the next
      ones handed out, and every token owned by one user at most. */
  ghost predicate ValidStore(s: Store) {
    && UniqueKeys(s.users)
    && (forall i :: 0 <= i < |s.users| ==> s.users[i].id < s.nextId)
    && (forall i, t :: 0 <= i < |s.users| && t in s.users[i].refreshToken ==> t < s.nextToken)
    && TokensOwnedOnce(s.users)
  }

  /** `list.filter((rt) => rt !== t)`. */
  function Without(list: seq<Token>, t: Token): (r: seq<Token>)
    ensures forall x :: x in r <==> x in list && x != t
    ensures |r| <= |list|
    ensures t !in list ==> r == list
  {
    if list == [] then []
    else (if list[0] == t then [] else [list[0]]) + Without(list[1..], t)
  }

  /** The collection with user `i`'s whitelist replaced. */
  function WithTokens(users: seq<User>, i: nat, list: seq<Token>): (r: seq<User>)
    requires i < |users|
    ensures |r| == |users|
    ensures r[i] == users[i].(refreshToken := list)
    ensures forall j :: 0 <= j < |users| && j != i ==> r[j] == users[j]
  {
    users[i := users[i].(refreshToken := list)]
  }

  /** Changing one whitelist to tokens it already held or tokens handed out
      since keeps the store's invariant. */
  lemma {:induction false} ReplaceTokensKeepsValid(s: Store, i: nat, list: seq<Token>, next: Token)
    requires ValidStore(s) && i < |s.users| && next >= s.nextToken
    requires forall x :: x in list ==> x in s.users[i].refreshToken || s.nextToken <= x < next
    ensures ValidStore(Store(WithTokens(s.users, i, list), next, s.nextId))
  {
    var users := WithTokens(s.users, i, list);
    assert UniqueKeys(users) by {
      forall a, b | 0 <= a < b < |users|
        ensures users[a].id != users[b].id && !SameUsername(users[a].username, users[b].username)
                && users[a].email != users[b].email
      {
        assert users[a].id == s.users[a].id && users[a].username == s.users[a].username
               && users[a].email == s.users[a].email;
        assert users[b].id == s.users[b].id && users[b].username == s.users[b].username
               && users[b].email == s.users[b].email;
      }
    }
    forall a, b, t | 0 <= a < b < |users|
      ensures !(t in users[a].refreshToken && t in users[b].refreshToken)
    {
      if a == i {
        assert users[b] == s.users[b];
      } else if b == i {
        assert users[a] == s.users[a];
      } else {
        assert users[a] == s.users[a] && users[b] == s.users[b];
      }
    }
    forall a | 0 <= a < |users| ensures users[a].id < s.nextId {
      assert users[a].id == s.users[a].id;
    }
  }

  // ---------------------------------------------------------------------------
  // login

  /** The whitelist a successful login leaves behind, before the new token is
      appended: with a cookie, every copy of the cookie's token is dropped;
      a cookie token that is in no whitelist at all wipes the list. */
  function LoginKept(users: seq<User>, i: nat, cookie: Option<Token>): seq<Token>
    requires i < |users|
  {
    match cookie
    case None => users[i].refreshToken
    case Some(c) => if FindByToken(users, c).None? then [] else Without(users[i].refreshToken, c)
  }

  /** `login`. */
  function LoginSpec(s: Store, email: Option<string>, password: Option<string>, cookie: Option<Token>,
                     isEmail: string -> bool, matches: (string, string) -> bool): (Store, Result<Session, Thrown>)
  {
    match ParseLogin(email, password, isEmail)
    case Err(issues) => (s, Err(Zod(Messages(issues))))
    case Ok(input) =>
      match FindByEmail(s.users, input.email)
      case None => (s, Err(App(BadRequestError(BadCredentials))))
      case Some(i) =>
        if !matches(input.password, s.users[i].password) then (s, Err(App(BadRequestError(BadCredentials))))
        else
          var t := s.nextToken;
          (Store(WithTokens(s.users, i, LoginKept(s.users, i, cookie) + [t]), t + 1, s.nextId),
           Ok(Session(s.users[i].id, t)))
  }

  /** What `login` answers and leaves behind: it succeeds exactly when the
      body is valid, the email is known and the password matches; a refused
      login changes nothing, and an unknown email and a wrong password are
      refused with the same error; a successful login appends exactly one
      fresh token to the found user's whitelist. */
  lemma {:induction false} LoginOutcome(s: Store, email: Option<string>, password: Option<string>, cookie: Option<Token>,
                     isEmail: string -> bool, matches: (string, string) -> bool)
    ensures var out := LoginSpec(s, email, password, cookie, isEmail, matches);
            && (out.1.Ok? <==> && ParseLogin(email, password, isEmail).Ok?
                                && FindByEmail(s.users, email.value).Some?
                                && matches(password.value, s.users[FindByEmail(s.users, email.value).value].password))
            && (out.1.Err? ==> out.0 == s)
            && (ParseLogin(email, password, isEmail).Ok?
                && (FindByEmail(s.users, email.value).None?
                    || !matches(password.value, s.users[FindByEmail(s.users, email.value).value].password))
                ==> out.1 == Err(App(BadRequestError(BadCredentials))))
            && (out.1.Ok? ==>
                  var i := FindByEmail(s.users, email.value).value;
                  && out.1.value == Session(s.users[i].id, s.nextToken)
                  && out.0 == Store(WithTokens(s.users, i, LoginKept(s.users, i, cookie) + [s.nextToken]),
                                    s.nextToken + 1, s.nextId))
  {
    var parsed := ParseLogin(email, password, isEmail);
    if parsed.Ok? {
      var input := parsed.value;
      var found := FindByEmail(s.users, input.email);
      if found.Some? && matches(input.password, s.users[found.value].password) {
        LoginSucceeds(s, email, password, cookie, isEmail, matches, input, found.value);
      }
    }
  }

  /** What login does to the whitelist, in the source's terms. */
  lemma {:induction false} LoginWhitelist(users: seq<User>, i: nat, cookie: Option<Token>)
    requires i < |users|
    ensures cookie.None? ==> LoginKept(users, i, cookie) == users[i].refreshToken
    ensures cookie.Some? ==> cookie.value !in LoginKept(users, i, cookie)
    ensures cookie.Some? && FindByToken(users, cookie.value).Some? ==>
              forall x :: x in LoginKept(users, i, cookie) <==> x in users[i].refreshToken && x != cookie.value
    ensures cookie.Some? && (forall j :: 0 <= j < |users| ==> cookie.value !in users[j].refreshToken) ==>
              LoginKept(users, i, cookie) == []
  {
  }

  /** `login` unfolded on a valid body whose email is known and whose
      password matches. */
  lemma {:induction false} LoginSucceeds(s: Store, email: Option<string>, password: Option<string>, cookie: Option<Token>,
                      isEmail: string -> bool, matches: (string, string) -> bool, input: LoginInput, i: nat)
    requires ParseLogin(email, password, isEmail) == Ok(input)
    requires FindByEmail(s.users, input.email) == Some(i)
    requires i < |s.users| && matches(input.password, s.users[i].password)
    ensures LoginSpec(s, email, password, cookie, isEmail, matches)
              == (Store(WithTokens(s.users, i, LoginKept(s.users, i, cookie) + [s.nextToken]), s.nextToken + 1, s.nextId),
                  Ok(Session(s.users[i].id, s.nextToken)))
  {
    var out := LoginSpec(s, email, password, cookie, isEmail, matches);
    assert out.1 == Ok(Session(s.users[i].id, s.nextToken));
    assert out.0.nextToken == s.nextToken + 1;
    assert out.0.users == WithTokens(s.users, i, LoginKept(s.users, i, cookie) + [s.nextToken]);
  }

  lemma {:induction false} LoginKeepsValid(s: Store, email: Option<string>, password: Option<string>, cookie: Option<Token>,
                        isEmail: string -> bool, matches: (string, string) -> bool)
    requires ValidStore(s)
    ensures ValidStore(LoginSpec(s, email, password, cookie, isEmail, matches).0)
  {
    var parsed := ParseLogin(email, password, isEmail);
    var found := if parsed.Ok? then FindByEmail(s.users, parsed.value.email) else None;
    if found.Some? && matches(parsed.value.password, s.users[found.value].password) {
      var i := found.value;
      LoginSucceeds(s, email, password, cookie, isEmail, matches, parsed.value, i);
      LoginListFresh(s.users, i, cookie, s.nextToken);
      ReplaceTokensKeepsValid(s, i, LoginKept(s.users, i, cookie) + [s.nextToken], s.nextToken + 1);
    } else {
      LoginOutcome(s, email, password, cookie, isEmail, matches);
    }
  }

  /** The whitelist login leaves holds old tokens of the user and the one
      new token. */
  lemma {:induction false} LoginListFresh(users: seq<User>, i: nat, cookie: Option<Token>, t: Token)
    requires i < |users|
    ensures forall x :: x in LoginKept(users, i, cookie) + [t] ==> x in users[i].refreshToken || t <= x < t + 1
  {
    var kept := LoginKept(users, i, cookie);
    forall x | x in kept + [t] ensures x in users[i].refreshToken || t <= x < t + 1 {
      if x != t {
        assert x in kept;
      }
    }
  }

  // ---------------------------------------------------------------------------
  // refresh

  /** The store after a token in no whitelist is presented: if it still
      verifies, the whitelist of the user it names is emptied. The lookup and
      the save sit inside a `try` whose `catch` only logs, so when either of
      them fails (`revokeFails`) nothing changes. At most the named user
      loses its sessions; every other record stays as it was. */
  function RevokeNamed(s: Store, t: Token, verify: Token -> Option<UserId>, revokeFails: bool): (r: Store)
    ensures r.nextToken == s.nextToken && r.nextId == s.nextId && |r.users| == |s.users|
    ensures revokeFails || verify(t).None? ==> r == s
    ensures forall j :: 0 <= j < |s.users| && r.users[j] != s.users[j] ==>
              && r.users[j] == s.users[j].(refreshToken := [])
              && !revokeFails && verify(t) == Some(s.users[j].id)
    ensures !revokeFails && verify(t).Some? && FindById(s.users, verify(t).value).Some? ==>
              r.users == WithTokens(s.users, FindById(s.users, verify(t).value).value, [])
  {
    if revokeFails then s
    else
      match verify(t)
      case None => s
      case Some(uid) =>
        match FindById(s.users, uid)
        case None => s
        case Some(j) => s.(users := WithTokens(s.users, j, []))
  }

  /** `refresh`. `saveFails` says whether saving the rotated whitelist fails;
      the handler's `catch` then saves the list without the presented token.
      `revokeFails` says whether revoking the sessions named by a replayed
      token fails. */
  function RefreshSpec(s: Store, cookie: Option<Token>, verify: Token -> Option<UserId>, saveFails: bool,
                       revokeFails: bool)
    : (out: (Store, Result<Session, Thrown>))
    ensures cookie.None? ==> out == (s, Err(App(UnauthorizedError(NoRefreshToken))))
    ensures cookie.Some? && out.1.Err? ==> out.1 == Err(App(UnauthorizedError(BadRefreshToken)))
    // a token in no whitelist always fails; it revokes the sessions of the user it names, if it verifies
    ensures cookie.Some? && FindByToken(s.users, cookie.value).None? ==>
              out.1.Err? && out.0 == RevokeNamed(s, cookie.value, verify, revokeFails)
    // a known token: only its owner's whitelist changes, and it loses every copy of the token
    ensures cookie.Some? && FindByToken(s.users, cookie.value).Some? ==>
              var i := FindByToken(s.users, cookie.value).value;
              var rest := Without(s.users[i].refreshToken, cookie.value);
              && (out.1.Ok? <==> verify(cookie.value) == Some(s.users[i].id) && !saveFails)
              && (out.1.Ok? ==> out.1.value == Session(s.users[i].id, s.nextToken)
                                && out.0 == Store(WithTokens(s.users, i, rest + [s.nextToken]), s.nextToken + 1, s.nextId))
              && (out.1.Err? ==> out.0.users == WithTokens(s.users, i, rest) && out.0.nextId == s.nextId
                                 && out.0.nextToken >= s.nextToken)
  {
    match cookie
    case None => (s, Err(App(UnauthorizedError(NoRefreshToken))))
    case Some(t) =>
      match FindByToken(s.users, t)
      case None => (RevokeNamed(s, t, verify, revokeFails), Err(App(UnauthorizedError(BadRefreshToken))))
      case Some(i) =>
        var rest := Without(s.users[i].refreshToken, t);
        if verify(t) == Some(s.users[i].id) then
          var n := s.nextToken;
          if saveFails then (Store(WithTokens(s.users, i, rest), n + 1, s.nextId), Err(App(UnauthorizedError(BadRefreshToken))))
          else (Store(WithTokens(s.users, i, rest + [n]), n + 1, s.nextId), Ok(Session(s.users[i].id, n)))
        else (s.(users := WithTokens(s.users, i, rest)), Err(App(UnauthorizedError(BadRefreshToken))))
  }

  lemma {:induction false} RefreshKeepsValid(s: Store, cookie: Option<Token>, verify: Token -> Option<UserId>, saveFails: bool,
                                             revokeFails: bool)
    requires ValidStore(s)
    ensures ValidStore(RefreshSpec(s, cookie, verify, saveFails, revokeFails).0)
  {
    if cookie.Some? {
      var t := cookie.value;
      var found := FindByToken(s.users, t);
      var out := RefreshSpec(s, cookie, verify, saveFails, revokeFails);
      if found.None? {
        if !revokeFails && verify(t).Some? && FindById(s.users, verify(t).value).Some? {
          ReplaceTokensKeepsValid(s, FindById(s.users, verify(t).value).value, [], s.nextToken);
        }
      } else {
        var i := found.value;
        var rest := Without(s.users[i].refreshToken, t);
        if out.1.Ok? {
          RotatedListFresh(s.users[i].refreshToken, t, s.nextToken);
          ReplaceTokensKeepsValid(s, i, rest + [s.nextToken], s.nextToken + 1);
        } else {
          ReplaceTokensKeepsValid(s, i, rest, out.0.nextToken);
          assert out.0 == Store(out.0.users, out.0.nextToken, out.0.nextId);
        }
      }
    }
  }

  /** The whitelist refresh leaves holds old tokens of the user and the
      one new token. */
  lemma {:induction false} RotatedListFresh(list: seq<Token>, presented: Token, t: Token)
    ensures forall x :: x in Without(list, presented) + [t] ==> x in list || t <= x < t + 1
  {
    var rest := Without(list, presented);
    forall x | x in rest + [t] ensures x in list || t <= x < t + 1 {
      if x != t {
        assert x in rest;
      }
    }
  }

  /** The owner of a token in a valid store is the only user holding it, so
      removing it from the owner's whitelist removes it from the store. */
  lemma {:induction false} RemovedEverywhere(s: Store, i: nat, t: Token)
    requires ValidStore(s) && i < |s.users| && t in s.users[i].refreshToken
    ensures FindByToken(WithTokens(s.users, i, Without(s.users[i].refreshToken, t)), t).None?
  {
    var users := WithTokens(s.users, i, Without(s.users[i].refreshToken, t));
    forall j | 0 <= j < |users| ensures t !in users[j].refreshToken {
      if j != i {
        assert users[j] == s.users[j];
      }
    }
  }

  /** A user id names at most one record of a valid store, found by `findById`. */
  lemma {:induction false} FindByIdOfValid(users: seq<User>, i: nat)
    requires UniqueKeys(users) && i < |users|
    ensures FindById(users, users[i].id) == Some(i)
  {
    forall m | 0 <= m < i ensures users[m].id != users[i].id {
    }
  }

  /** Reuse detection: once a token has been rotated, presenting it again
      while it still verifies revokes every session of its owner, including
      the one the rotation created; that successor is then refused, whatever
      the verifier and the database say at that point. A failed or missed
      rotation changes nothing of this, and an expired replay revokes
      nothing (see `RefreshSpec`). */
  lemma {:induction false} ReplayAfterRotation(s: Store, t: Token, v1: Token -> Option<UserId>,
                                                v2: Token -> Option<UserId>, v3: Token -> Option<UserId>,
                                                saveFails: bool, revokeFails: bool)
    requires ValidStore(s)
    requires RefreshSpec(s, Some(t), v1, false, false).1.Ok?
    requires v2(t) == v1(t)
    ensures FindByToken(s.users, t).Some?
    ensures var i := FindByToken(s.users, t).value;
            var (s1, r1) := RefreshSpec(s, Some(t), v1, false, false);
            var (s2, r2) := RefreshSpec(s1, Some(t), v2, false, false);
            && r2 == Err(App(UnauthorizedError(BadRefreshToken)))
            && s2.users == WithTokens(s.users, i, [])
            && RefreshSpec(s2, Some(r1.value.refreshToken), v3, saveFails, revokeFails).1.Err?
  {
    var i := FindByToken(s.users, t).value;
    var (s1, r1) := RefreshSpec(s, Some(t), v1, false, false);
    var n := r1.value.refreshToken;
    RotatedTokenGone(s, t, v1);
    assert v2(t) == Some(s.users[i].id);
    FindByIdOfValid(s1.users, i);
    var (s2, r2) := RefreshSpec(s1, Some(t), v2, false, false);
    assert s2.users == WithTokens(s1.users, i, []);
    assert s2.users == WithTokens(s.users, i, []);
    // the successor was held by the owner alone, whose whitelist is now empty
    assert FindByToken(s2.users, n).None? by {
      forall j | 0 <= j < |s2.users| ensures n !in s2.users[j].refreshToken {
        if j != i {
          assert s2.users[j] == s.users[j];
        }
      }
    }
  }

  /** Reuse detection rests on the revocation's save: when it fails, the
      replay is still refused, but the store keeps the rotated whitelist, so
      the successor token stays valid. */
  lemma {:induction false} ReplayWithFailedRevocation(s: Store, t: Token, v1: Token -> Option<UserId>,
                                                       v2: Token -> Option<UserId>)
    requires ValidStore(s)
    requires RefreshSpec(s, Some(t), v1, false, false).1.Ok?
    ensures var (s1, r1) := RefreshSpec(s, Some(t), v1, false, false);
            && RefreshSpec(s1, Some(t), v2, false, true) == (s1, Err(App(UnauthorizedError(BadRefreshToken))))
            && FindByToken(s1.users, r1.value.refreshToken).Some?
  {
    var i := FindByToken(s.users, t).value;
    var (s1, r1) := RefreshSpec(s, Some(t), v1, false, false);
    RotatedTokenGone(s, t, v1);
    var n := r1.value.refreshToken;
    assert n in s1.users[i].refreshToken;
  }

  /** After a successful rotation the presented token is in no whitelist,
      and the new one is its owner's. */
  lemma {:induction false} RotatedTokenGone(s: Store, t: Token, v1: Token -> Option<UserId>)
    requires ValidStore(s)
    requires RefreshSpec(s, Some(t), v1, false, false).1.Ok?
    ensures FindByToken(s.users, t).Some?
    ensures var i := FindByToken(s.users, t).value;
            var (s1, r1) := RefreshSpec(s, Some(t), v1, false, false);
            && r1.value.refreshToken == s.nextToken
            && s1.users == WithTokens(s.users, i, Without(s.users[i].refreshToken, t) + [s.nextToken])
            && ValidStore(s1)
            && FindByToken(s1.users, t).None?
  {
    var i := FindByToken(s.users, t).value;
    var (s1, r1) := RefreshSpec(s, Some(t), v1, false, false);
    var n := r1.value.refreshToken;
    var rest := Without(s.users[i].refreshToken, t);
    assert n == s.nextToken && s1.users == WithTokens(s.users, i, rest + [n]);
    RefreshKeepsValid(s, Some(t), v1, false, false);
    forall j | 0 <= j < |s1.users| ensures t !in s1.users[j].refreshToken {
      if j != i {
        assert s1.users[j] == s.users[j];
      } else {
        assert n != t;
      }
    }
  }

  // ---------------------------------------------------------------------------
  // logout

  /** `logout`: the status sent, 204 without a cookie and 200 otherwise. */
  function LogoutSpec(s: Store, cookie: Option<Token>): (out: (Store, int))
    ensures out.1 == (if cookie.None? then 204 else 200)
    ensures cookie.None? || FindByToken(s.users, cookie.value).None? ==> out.0 == s
    ensures cookie.Some? && FindByToken(s.users, cookie.value).Some? ==>
              var i := FindByToken(s.users, cookie.value).value;
              out.0 == s.(users := WithTokens(s.users, i, Without(s.users[i].refreshToken, cookie.value)))
  {
    match cookie
    case None => (s, 204)
    case Some(t) =>
      match FindByToken(s.users, t)
      case None => (s, 200)
      case Some(i) => (s.(users := WithTokens(s.users, i, Without(s.users[i].refreshToken, t))), 200)
  }

  /** After logout the presented token is in no whitelist of a valid store,
      and every other token is where it was. */
  lemma {:induction false} LogoutRemovesOnlyThatToken(s: Store, t: Token)
    requires ValidStore(s)
    ensures var s1 := LogoutSpec(s, Some(t)).0;
            && |s1.users| == |s.users|
            && (forall j :: 0 <= j < |s1.users| ==> t !in s1.users[j].refreshToken)
            && (forall j, x :: 0 <= j < |s1.users| && x != t ==>
                  (x in s1.users[j].refreshToken <==> x in s.users[j].refreshToken))
  {
    var s1 := LogoutSpec(s, Some(t)).0;
    match FindByToken(s.users, t)
    case None =>
    case Some(i) =>
      RemovedEverywhere(s, i, t);
  }

  // ---------------------------------------------------------------------------
  // register

  /** The conflict message chosen from the field of the violated index. */
  function ConflictMessage(field: string): (m: string)
    ensures field == "email" ==> m == "User with this email already exists"
    ensures field == "username" ==> m == "User with this username already exists"
    ensures field != "email" && field != "username" ==> m == "User with this information already exists"
  {
    if field == "email" then "User with this email already exists"
    else if field == "username" then "User with this username already exists"
    else "User with this information already exists"
  }

  /** The insertion `User.create` attempts once the record is built: a
      violated index is reported as a conflict on that field, otherwise the
      record is appended. */
  function Admit(s: Store, u: User): (out: (Store, Result<UserId, Thrown>))
    ensures out.1.Ok? <==> Conflict(s.users, u).None?
    ensures out.1.Err? ==> out.0 == s && out.1.error.App? && out.1.error.app.statusCode == 409
    ensures out.1.Ok? ==> out.0 == Store(s.users + [u], s.nextToken, s.nextId + 1) && out.1.value == u.id
  {
    match Conflict(s.users, u)
    case Some(k) => (s, Err(App(ConflictError(ConflictMessage(KeyName(k))))))
    case None => (Store(s.users + [u], s.nextToken, s.nextId + 1), Ok(u.id))
  }

  /** The record `User.create` builds from a parsed body, with the hashed
      password and the next id. */
  function Created(s: Store, input: RegisterInput, hash: string -> string): Option<User> {
    NewUser(s.nextId, input.username, input.email, hash(input.password))
  }

  /** `register`; `hash` is bcrypt's `hash`. A record the model's validators
      refuse (which a valid body never produces, see `RegisterBodyFitsModel`)
      surfaces as the database's error. */
  function RegisterSpec(s: Store, username: Option<string>, email: Option<string>, password: Option<string>,
                        isEmail: string -> bool, hash: string -> string): (out: (Store, Result<UserId, Thrown>))
    ensures out.1.Err? ==> out.0 == s
  {
    match ParseRegister(username, email, password, isEmail)
    case Err(issues) => (s, Err(Zod(Messages(issues))))
    case Ok(input) =>
      match Created(s, input, hash)
      case None => (s, Err(Other(true, NoCode)))
      case Some(u) => Admit(s, u)
  }

  /** The model's own validators never refuse the record built from a body
      that passes `registerSchema`. */
  lemma {:induction false} ParsedBodyIsCreated(s: Store, username: Option<string>, email: Option<string>, password: Option<string>,
                            isEmail: string -> bool, hash: string -> string)
    requires ParseRegister(username, email, password, isEmail).Ok?
    ensures Created(s, ParseRegister(username, email, password, isEmail).value, hash).Some?
  {
    CreatedRecord(s, username, email, password, isEmail, hash);
  }

  /** The record built from a body that passes `registerSchema`: the trimmed
      username, the stored form of the email, the hashed password, the next
      id and an empty whitelist. */
  lemma {:induction false} CreatedRecord(s: Store, username: Option<string>, email: Option<string>, password: Option<string>,
                      isEmail: string -> bool, hash: string -> string)
    requires ParseRegister(username, email, password, isEmail).Ok?
    ensures Created(s, ParseRegister(username, email, password, isEmail).value, hash)
            == Some(User(s.nextId, Trim(username.value), StoredEmail(email.value), hash(password.value), []))
  {
    var input := ParseRegister(username, email, password, isEmail).value;
    assert UsernameOk(input.username);
    CreatedFromValid(s, input, hash);
  }

  /** A username of word characters has no whitespace to trim, so the
      model's setter leaves it as it is and its length is within bounds. */
  lemma {:induction false} CreatedFromValid(s: Store, input: RegisterInput, hash: string -> string)
    requires UsernameOk(input.username)
    ensures Created(s, input, hash)
            == Some(User(s.nextId, input.username, StoredEmail(input.email), hash(input.password), []))
  {
    assert IsWordChar(input.username[0]) && IsWordChar(input.username[|input.username| - 1]);
    TrimOfTrimmed(input.username);
  }

  lemma {:induction false} RegisterIsAdmit(s: Store, username: Option<string>, email: Option<string>, password: Option<string>,
                        isEmail: string -> bool, hash: string -> string)
    requires ParseRegister(username, email, password, isEmail).Ok?
    requires Created(s, ParseRegister(username, email, password, isEmail).value, hash).Some?
    ensures RegisterSpec(s, username, email, password, isEmail, hash)
            == Admit(s, Created(s, ParseRegister(username, email, password, isEmail).value, hash).value)
  {
  }

  /** A body that passes `registerSchema` always passes the model's own
      validators, so registration fails only on a validation issue or a
      taken username or email. */
  lemma {:induction false} RegisterBodyFitsModel(s: Store, username: Option<string>, email: Option<string>, password: Option<string>,
                              isEmail: string -> bool, hash: string -> string)
    requires ParseRegister(username, email, password, isEmail).Ok?
    ensures var out := RegisterSpec(s, username, email, password, isEmail, hash);
            out.1.Err? ==> out.1.error.App? && out.1.error.app.statusCode == 409
  {
    ParsedBodyIsCreated(s, username, email, password, isEmail, hash);
    RegisterIsAdmit(s, username, email, password, isEmail, hash);
  }

  /** A successful registration appends exactly one record: the next id, the
      trimmed username, the stored form of the email, the hash of the
      password and an empty whitelist, clashing with no existing record. */
  lemma {:induction false} RegisterOutcome(s: Store, username: Option<string>, email: Option<string>, password: Option<string>,
                        isEmail: string -> bool, hash: string -> string)
    ensures var out := RegisterSpec(s, username, email, password, isEmail, hash);
            out.1.Ok? ==>
              && ParseRegister(username, email, password, isEmail).Ok?
              && var u := User(s.nextId, Trim(username.value), StoredEmail(email.value), hash(password.value), []);
              && out == (Store(s.users + [u], s.nextToken, s.nextId + 1), Ok(s.nextId))
              && Conflict(s.users, u).None?
  {
    var out := RegisterSpec(s, username, email, password, isEmail, hash);
    if out.1.Ok? {
      RegisterOkIsParsed(s, username, email, password, isEmail, hash);
      var u := User(s.nextId, Trim(username.value), StoredEmail(email.value), hash(password.value), []);
      RegisterAdmitsRecord(s, username, email, password, isEmail, hash);
      AdmitAppends(s, u);
    }
  }

  lemma {:induction false} RegisterOkIsParsed(s: Store, username: Option<string>, email: Option<string>, password: Option<string>,
                           isEmail: string -> bool, hash: string -> string)
    requires RegisterSpec(s, username, email, password, isEmail, hash).1.Ok?
    ensures ParseRegister(username, email, password, isEmail).Ok?
  {
  }

  lemma {:induction false} RegisterAdmitsRecord(s: Store, username: Option<string>, email: Option<string>, password: Option<string>,
                             isEmail: string -> bool, hash: string -> string)
    requires ParseRegister(username, email, password, isEmail).Ok?
    ensures RegisterSpec(s, username, email, password, isEmail, hash)
            == Admit(s, User(s.nextId, Trim(username.value), StoredEmail(email.value), hash(password.value), []))
  {
    CreatedRecord(s, username, email, password, isEmail, hash);
    RegisterIsAdmit(s, username, email, password, isEmail, hash);
  }

  lemma {:induction false} AdmitAppends(s: Store, u: User)
    ensures Admit(s, u).1.Ok? ==> Admit(s, u) == (Store(s.users + [u], s.nextToken, s.nextId + 1), Ok(u.id))
  {
  }

  lemma {:induction false} RegisterKeepsValid(s: Store, username: Option<string>, email: Option<string>, password: Option<string>,
                           isEmail: string -> bool, hash: string -> string)
    requires ValidStore(s)
    ensures ValidStore(RegisterSpec(s, username, email, password, isEmail, hash).0)
  {
    var out := RegisterSpec(s, username, email, password, isEmail, hash);
    if out.1.Ok? {
      assert ParseRegister(username, email, password, isEmail).Ok?;
      ParsedBodyIsCreated(s, username, email, password, isEmail, hash);
      RegisterIsAdmit(s, username, email, password, isEmail, hash);
      var u := Created(s, ParseRegister(username, email, password, isEmail).value, hash).value;
      AdmitKeepsValid(s, u);
    } else {
      assert out.0 == s;
    }
  }

  lemma {:induction false} AdmitKeepsValid(s: Store, u: User)
    requires ValidStore(s) && u.id == s.nextId && u.refreshToken == []
    ensures ValidStore(Admit(s, u).0)
  {
    if Conflict(s.users, u).Some? {
      return;
    }
    InsertKeepsUnique(s.users, u);
    var users := s.users + [u];
    forall a, b, t | 0 <= a < b < |users|
      ensures !(t in users[a].refreshToken && t in users[b].refreshToken)
    {
      assert users[a] == s.users[a];
      if b < |s.users| {
        assert users[b] == s.users[b];
      }
    }
  }

  // ---------------------------------------------------------------------------
  // the collection as the handlers change it

  class UserCollection {
    var users: seq<User>
    var nextToken: Token
    var nextId: UserId

    function State(): Store
      reads this
    {
      Store(users, nextToken, nextId)
    }

    ghost predicate Valid()
      reads this
    {
      ValidStore(State())
    }

    constructor ()
      ensures Valid() && users == []
    {
      users := [];
      nextToken := 0;
      nextId := 0;
    }

    /** `signRefreshToken`, modelled as always fresh: the next serial token,
        never handed out before. */
    method Sign() returns (t: Token)
      modifies this
      ensures t == old(nextToken) && nextToken == t + 1
      ensures users == old(users) && nextId == old(nextId)
    {
      t := nextToken;
      nextToken := nextToken + 1;
    }

    method Login(email: Option<string>, password: Option<string>, cookie: Option<Token>,
                 isEmail: string -> bool, matches: (string, string) -> bool) returns (r: Result<Session, Thrown>)
      requires Valid()
      modifies this
      ensures (State(), r) == LoginSpec(old(State()), email, password, cookie, isEmail, matches)
      ensures Valid()
    {
      ghost var s := State();
      ghost var out := LoginSpec(s, email, password, cookie, isEmail, matches);
      var parsed := ParseLogin(email, password, isEmail);
      if parsed.Err? {
        r := Err(Zod(Messages(parsed.error)));
        assert (State(), r) == out;
        return;
      }
      var found := FindByEmail(users, parsed.value.email);
      if found.None? || !matches(parsed.value.password, users[found.value].password) {
        r := Err(App(BadRequestError(BadCredentials)));
        assert (State(), r) == out;
        return;
      }
      var i := found.value;
      ghost var after := Store(WithTokens(s.users, i, LoginKept(s.users, i, cookie) + [s.nextToken]), s.nextToken + 1, s.nextId);
      LoginSucceeds(s, email, password, cookie, isEmail, matches, parsed.value, i);
      LoginKeepsValid(s, email, password, cookie, isEmail, matches);
      var newToken := RotateOnLogin(i, cookie);
      r := Ok(Session(users[i].id, newToken));
      assert users == after.users;
      assert nextToken == after.nextToken && nextId == after.nextId;
    }

    /** The end of a successful `login`: a new refresh token is signed, the
        whitelist is kept (less the presented cookie), or emptied when the
        cookie is in no whitelist, and the new token is appended and saved. */
    method RotateOnLogin(i: nat, cookie: Option<Token>) returns (newToken: Token)
      requires i < |users|
      modifies this
      ensures newToken == old(nextToken) && nextToken == newToken + 1 && nextId == old(nextId)
      ensures users == WithTokens(old(users), i, LoginKept(old(users), i, cookie) + [newToken])
    {
      newToken := Sign();
      var kept := if cookie.None? then users[i].refreshToken else Without(users[i].refreshToken, cookie.value);
      if cookie.Some? {
        var holder := FindByToken(users, cookie.value);
        if holder.None? {
          kept := [];
        }
      }
      users := WithTokens(users, i, kept + [newToken]);
    }

    method Refresh(cookie: Option<Token>, verify: Token -> Option<UserId>, saveFails: bool, revokeFails: bool)
      returns (r: Result<Session, Thrown>)
      requires Valid()
      modifies this
      ensures (State(), r) == RefreshSpec(old(State()), cookie, verify, saveFails, revokeFails)
      ensures Valid()
    {
      ghost var s := State();
      RefreshKeepsValid(s, cookie, verify, saveFails, revokeFails);
      if cookie.None? {
        return Err(App(UnauthorizedError(NoRefreshToken)));
      }
      var t := cookie.value;
      var found := FindByToken(users, t);
      if found.None? {
        var decoded := verify(t);
        if decoded.Some? && !revokeFails {
          var hacked := FindById(users, decoded.value);
          if hacked.Some? {
            users := WithTokens(users, hacked.value, []);
          }
        }
        return Err(App(UnauthorizedError(BadRefreshToken)));
      }
      var i := found.value;
      var rest := Without(users[i].refreshToken, t);
      var decoded := verify(t);
      if decoded != Some(users[i].id) {
        users := WithTokens(users, i, rest);
        return Err(App(UnauthorizedError(BadRefreshToken)));
      }
      var newToken := Sign();
      if saveFails {
        users := WithTokens(users, i, rest);
        return Err(App(UnauthorizedError(BadRefreshToken)));
      }
      users := WithTokens(users, i, rest + [newToken]);
      r := Ok(Session(users[i].id, newToken));
    }

    method Logout(cookie: Option<Token>) returns (status: int)
      requires Valid()
      modifies this
      ensures (State(), status) == LogoutSpec(old(State()), cookie)
      ensures Valid()
    {
      if cookie.None? {
        return 204;
      }
      var t := cookie.value;
      var found := FindByToken(users, t);
      if found.Some? {
        var i := found.value;
        ReplaceTokensKeepsValid(State(), i, Without(users[i].refreshToken, t), nextToken);
        users := WithTokens(users, i, Without(users[i].refreshToken, t));
      }
      status := 200;
    }

    /** `User.create` once the record is built: the insertion the unique
        indexes guard. */
    method Create(u: User) returns (r: Result<UserId, Thrown>)
      requires Valid() && u.id == nextId && u.refreshToken == []
      modifies this
      ensures (State(), r) == Admit(old(State()), u)
      ensures Valid()
    {
      AdmitKeepsValid(State(), u);
      var conflict := Conflict(users, u);
      if conflict.Some? {
        return Err(App(ConflictError(ConflictMessage(KeyName(conflict.value)))));
      }
      users := users + [u];
      nextId := nextId + 1;
      r := Ok(u.id);
    }

    method Register(username: Option<string>, email: Option<string>, password: Option<string>,
                    isEmail: string -> bool, hash: string -> string) returns (r: Result<UserId, Thrown>)
      requires Valid()
      modifies this
      ensures (State(), r) == RegisterSpec(old(State()), username, email, password, isEmail, hash)
      ensures Valid()
    {
      ghost var s := State();
      var input := ParseRegister(username, email, password, isEmail);
      if input.Err? {
        return Err(Zod(Messages(input.error)));
      }
      var created := NewUser(nextId, input.value.username, input.value.email, hash(input.value.password));
      assert created == Created(s, input.value, hash);
      if created.None? {
        return Err(Other(true, NoCode));
      }
      RegisterIsAdmit(s, username, email, password, isEmail, hash);
      r := Create(created.value);
    }
  }
}
