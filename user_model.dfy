/** The user record and the collection rules around it: field setters and
    validators, the default of the refresh-token whitelist, the fields left
    out of a default query, the two unique indexes, and `findOne`, which
    returns the first matching record in the collection's natural order. */
module UserModel {
  import opened Wrappers
  import opened Text

  /** A user's `_id`. */
  type UserId = nat

  /** A signed refresh token. Tokens are compared only for equality, so a
      serial number stands for the signed string. */
  type Token = nat

  /** A stored user. `password` is the bcrypt hash. */
  datatype User = User(id: UserId, username: string, email: string, password: string, refreshToken: seq<Token>)

  /** What a query returns when it does not ask for `+password` or
      `+refreshToken`: those fields are `select: false`. */
  datatype UserView = UserView(id: UserId, username: string, email: string,
                               password: Option<string>, refreshToken: Option<seq<Token>>)

  function Select(u: User, withPassword: bool, withTokens: bool): (v: UserView)
    ensures v.id == u.id && v.username == u.username && v.email == u.email
    ensures v.password.Some? <==> withPassword
    ensures v.refreshToken.Some? <==> withTokens
    ensures v.password.Some? ==> v.password.value == u.password
    ensures v.refreshToken.Some? ==> v.refreshToken.value == u.refreshToken
  {
    UserView(u.id, u.username, u.email,
             if withPassword then Some(u.password) else None,
             if withTokens then Some(u.refreshToken) else None)
  }

  /** The `email` setters: trimmed and lowercased. The same setters apply to
      the value in a query filter on `email`. */
  function StoredEmail(email: string): (e: string)
    ensures |e| <= |email|
  {
    Lower(Trim(email))
  }

  /** `User.create`: the setters run, then the validators; a username that
      is not 3 to 25 characters once trimmed is refused. The whitelist starts
      empty. */
  function NewUser(id: UserId, username: string, email: string, passwordHash: string): (r: Option<User>)
    ensures r.Some? <==> 3 <= |Trim(username)| <= 25
    ensures r.Some? ==> r.value.refreshToken == [] && r.value.id == id
                        && r.value.username == Trim(username)
                        && r.value.email == StoredEmail(email) && r.value.password == passwordHash
  {
    var u := Trim(username);
    if 3 <= |u| <= 25 then Some(User(id, u, StoredEmail(email), passwordHash, [])) else None
  }

  /** The username index compares at collation strength 2, which ignores
      case: 'marko' and 'Marko' collide. */
  predicate SameUsername(a: string, b: string) {
    Lower(a) == Lower(b)
  }

  /** The unique indexes (and the unique `_id`) hold over the collection. */
  predicate UniqueKeys(users: seq<User>) {
    forall i, j :: 0 <= i < j < |users| ==>
      users[i].id != users[j].id && !SameUsername(users[i].username, users[j].username)
      && users[i].email != users[j].email
  }

  /** The index a new record violates, in the order the indexes are declared. */
  datatype DuplicateKey = UsernameKey | EmailKey

  function KeyName(k: DuplicateKey): string {
    match k
    case UsernameKey => "username"
    case EmailKey => "email"
  }

  function FindFirstFrom(users: seq<User>, p: User -> bool, k: nat): (r: Option<nat>)
    requires k <= |users|
    ensures r.Some? ==> k <= r.value < |users| && p(users[r.value])
                        && forall m :: k <= m < r.value ==> !p(users[m])
    ensures r.None? ==> forall m :: k <= m < |users| ==> !p(users[m])
    decreases |users| - k
  {
    if k == |users| then None
    else if p(users[k]) then Some(k)
    else FindFirstFrom(users, p, k + 1)
  }

  /** `findOne`: the first record, in natural order, that matches. */
  function FindFirst(users: seq<User>, p: User -> bool): (r: Option<nat>)
    ensures r.Some? ==> r.value < |users| && p(users[r.value])
                        && forall m :: 0 <= m < r.value ==> !p(users[m])
    ensures r.None? ==> forall m :: 0 <= m < |users| ==> !p(users[m])
  {
    FindFirstFrom(users, p, 0)
  }

  /** `findOne({ email })`, with the setters applied to the filter value. */
  function FindByEmail(users: seq<User>, email: string): Option<nat> {
    FindFirst(users, (u: User) => u.email == StoredEmail(email))
  }

  /** `findOne({ refreshToken })`: a record whose whitelist holds the token. */
  function FindByToken(users: seq<User>, t: Token): Option<nat> {
    FindFirst(users, (u: User) => t in u.refreshToken)
  }

  /** `findById`. */
  function FindById(users: seq<User>, id: UserId): Option<nat> {
    FindFirst(users, (u: User) => u.id == id)
  }

  /** The index `User.create` trips over, if any: the username index is
      declared first. */
  function Conflict(users: seq<User>, u: User): (r: Option<DuplicateKey>)
    ensures r.None? <==> forall m :: 0 <= m < |users| ==>
                           !SameUsername(users[m].username, u.username) && users[m].email != u.email
    ensures r == Some(EmailKey) ==> exists m :: 0 <= m < |users| && users[m].email == u.email
  {
    if FindFirst(users, (v: User) => SameUsername(v.username, u.username)).Some? then Some(UsernameKey)
    else if FindFirst(users, (v: User) => v.email == u.email).Some? then Some(EmailKey)
    else None
  }

  /** Adding a record that trips no index and has a fresh id keeps the
      indexes unique. */
  lemma {:induction false} InsertKeepsUnique(users: seq<User>, u: User)
    requires UniqueKeys(users)
    requires Conflict(users, u).None?
    requires forall m :: 0 <= m < |users| ==> users[m].id != u.id
    ensures UniqueKeys(users + [u])
  {
    var all := users + [u];
    forall i, j | 0 <= i < j < |all|
      ensures all[i].id != all[j].id && !SameUsername(all[i].username, all[j].username)
              && all[i].email != all[j].email
    {
      if j == |users| {
        assert all[i] == users[i];
      }
    }
  }
}
