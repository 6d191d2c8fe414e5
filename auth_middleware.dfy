/** The access-token gate in front of protected routes: it reads the
    `Authorization` header, expects `Bearer <token>`, verifies the token and
    either answers 401 or records the caller and hands on to the next
    handler. Token verification is an oracle `verify`, which yields the
    user id of the payload or nothing when the token does not verify. */
module AuthMiddleware {
  import opened Wrappers
  import opened Text
  import opened UserModel

  const MissingHeader: string := "Missing Authorization header"
  const InvalidFormat: string := "Invalid authorization format"
  const InvalidToken: string := "Invalid or expired token"

  /** How the gate ends: an error response, or the caller's id passed on. */
  datatype Decision = Respond(status: int, message: string) | Proceed(userId: UserId)

  /** `const [type, token] = header.split(" ")`: the first two pieces; a
      missing second piece reads as empty. */
  function Scheme(header: string): string {
    Split(header, " ")[0]
  }

  function Credentials(header: string): string {
    var parts := Split(header, " ");
    if |parts| > 1 then parts[1] else ""
  }

  /** `isAuthenticated`'s decision. */
  function Authenticate(header: Option<string>, verify: string -> Option<UserId>): (d: Decision)
    ensures d.Respond? ==> d.status == 401
    ensures d.Respond? && d.message == MissingHeader <==> header.None? || header.value == ""
    ensures d.Proceed? <==> (header.Some? && header.value != "" && Scheme(header.value) == "Bearer"
                             && Credentials(header.value) != "" && verify(Credentials(header.value)).Some?)
    ensures d.Proceed? ==> d.userId == verify(Credentials(header.value)).value
  {
    if header.None? || header.value == "" then Respond(401, MissingHeader)
    else if Scheme(header.value) != "Bearer" || Credentials(header.value) == "" then Respond(401, InvalidFormat)
    else
      match verify(Credentials(header.value))
      case None => Respond(401, InvalidToken)
      case Some(id) => Proceed(id)
  }

  /** `Bearer <token>` is read as the token up to the next space; whatever
      follows that space is ignored. The caller is the token's user when
      the token verifies, and 401 "Invalid or expired token" otherwise. */
  lemma {:induction false} BearerTokenIsRead(token: string, rest: string, verify: string -> Option<UserId>)
    requires token != "" && ' ' !in token
    requires rest == [] || rest[0] == ' '
    ensures Authenticate(Some("Bearer " + token + rest), verify) ==
            if verify(token).Some? then Proceed(verify(token).value) else Respond(401, InvalidToken)
  {
    var header := "Bearer " + token + rest;
    assert " " == [' '];
    assert header == "Bearer" + [' '] + token + rest;
    SplitFirstTwo("Bearer", token, rest, ' ');
    assert Scheme(header) == "Bearer" && Credentials(header) == token;
  }

  /** Two spaces after `Bearer` leave the token piece empty, so the header
      is refused as malformed before any verification. */
  lemma {:induction false} DoubleSpaceRefused(token: string, verify: string -> Option<UserId>)
    ensures Authenticate(Some("Bearer  " + token), verify) == Respond(401, InvalidFormat)
  {
    var header := "Bearer  " + token;
    assert " " == [' '];
    assert header == "Bearer" + [' '] + "" + ([' '] + token);
    SplitFirstTwo("Bearer", "", [' '] + token, ' ');
    assert Credentials(header) == "";
  }

  /** The request and response of one pass through the gate: the caller
      recorded on the request, the response sent (if any), and how often
      the next handler ran. */
  class Exchange {
    var user: Option<UserId>
    var response: Option<(int, string)>
    var nextCalls: nat

    constructor ()
      ensures user == None && response == None && nextCalls == 0
    {
      user := None;
      response := None;
      nextCalls := 0;
    }

    /** `isAuthenticated(req, res, next)`. On success the caller is set and
        `next` runs exactly once with no response sent; on failure the 401
        is sent and `next` does not run. */
    method IsAuthenticated(header: Option<string>, verify: string -> Option<UserId>)
      modifies this
      ensures var d := Authenticate(header, verify);
              && (d.Proceed? ==> user == Some(d.userId) && nextCalls == old(nextCalls) + 1 && response == old(response))
              && (d.Respond? ==> user == old(user) && nextCalls == old(nextCalls) && response == Some((d.status, d.message)))
    {
      if header.None? || header.value == "" {
        response := Some((401, MissingHeader));
        return;
      }
      var parts := Split(header.value, " ");
      var scheme := parts[0];
      var token := if |parts| > 1 then parts[1] else "";
      if scheme != "Bearer" || token == "" {
        response := Some((401, InvalidFormat));
        return;
      }
      var payload := verify(token);
      if payload.None? {
        response := Some((401, InvalidToken));
        return;
      }
      user := Some(payload.value);
      nextCalls := nextCalls + 1;
    }
  }
}
