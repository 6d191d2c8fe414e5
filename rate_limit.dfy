/** The rate limiter's own parts: the key a request is counted under, the
    body of the 429 answer with its "try again in N minutes" wording, and
    the switch that turns limiting off. Counting requests within the window
    is the limiting library's; it is modelled only as far as its options
    say: a request is counted unless skipped, and passes while the count is
    within `max`. */
module RateLimit {
  import opened Wrappers
  import opened Text
  import opened Paging

  /** `Math.ceil(a / b)` for a positive `b`, on integers of either sign. */
  function CeilDivInt(a: int, b: int): (q: int)
    requires b > 0
    ensures (q - 1) * b < a <= q * b
  {
    -((-a) / b)
  }

  /** The minutes `formatRetryAfter` reports: `max(1, ceil((seconds || 0) / 60))`. */
  function RetryMinutes(seconds: RawNumber): (m: int)
    ensures m >= 1
  {
    Max(1, CeilDivInt(NumberOr(seconds, 0), 60))
  }

  /** `formatRetryAfter`: the minutes and the unit, singular for one. */
  function FormatRetryAfter(seconds: RawNumber): string {
    var m := RetryMinutes(seconds);
    NatText(m) + " minute" + (if m == 1 then "" else "s")
  }

  /** The minutes are never fewer than one: a wait of up to a minute, no
      wait, a negative one or an unreadable one all read "1 minute"; a
      longer wait is rounded up to whole minutes. */
  lemma {:induction false} RetryMinutesRoundsUp(seconds: RawNumber)
    ensures seconds == NotANumber || seconds == Integer(0) ==> FormatRetryAfter(seconds) == "1 minute"
    ensures seconds.Integer? && seconds.n <= 60 ==> RetryMinutes(seconds) == 1
    ensures seconds.Integer? && seconds.n > 60 ==>
              var m := RetryMinutes(seconds);
              (m - 1) * 60 < seconds.n <= m * 60 && m >= 2
  {
    if seconds.Integer? && seconds.n <= 60 {
      var q := CeilDivInt(NumberOr(seconds, 0), 60);
      assert q <= 1 by {
        if q > 1 {
          MulMonotone(1, q - 1, 60);
        }
      }
    }
    assert NatText(1) == "1";
    assert "1" + " minute" + "" == "1 minute";
  }

  /** The unit is "minute" for exactly one minute and "minutes" otherwise. */
  lemma {:induction false} RetryUnit(seconds: RawNumber)
    ensures RetryMinutes(seconds) == 1 ==> FormatRetryAfter(seconds) == "1 minute"
    ensures RetryMinutes(seconds) != 1 ==>
              FormatRetryAfter(seconds) == NatText(RetryMinutes(seconds)) + " minutes"
  {
    assert NatText(1) == "1";
    assert "1" + " minute" + "" == "1 minute";
    assert forall t: string :: t + " minute" + "s" == t + " minutes";
  }

  // ---------------------------------------------------------------------------
  // keyGenerator

  /** A JavaScript string is truthy when it is present and non-empty. */
  predicate Given(s: Option<string>) {
    s.Some? && s.value != ""
  }

  /** `${x}` of a value that may be undefined. */
  function Shown(s: Option<string>): string {
    if s.Some? then s.value else "undefined"
  }

  /** `keyGenerator`: by user when a user is known, else by address; the
      socket's address when the request has no `ip`. The library's
      address normaliser is the oracle `ipKey`. */
  function RateLimitKey(actionKey: string, userId: Option<string>, ip: Option<string>,
                        remoteAddress: Option<string>, ipKey: string -> string): (k: string)
    ensures Given(userId) ==> k == actionKey + ":user:" + userId.value
    ensures !Given(userId) && !Given(ip) ==> k == actionKey + ":ip:" + Shown(remoteAddress)
    ensures !Given(userId) && Given(ip) ==> k == actionKey + ":ip:" + ipKey(ip.value)
  {
    if Given(userId) then actionKey + ":user:" + userId.value
    else if !Given(ip) then actionKey + ":ip:" + Shown(remoteAddress)
    else actionKey + ":ip:" + ipKey(ip.value)
  }

  /** Keys of one limiter never mix the two kinds: a signed-in caller and
      an anonymous one are never counted under the same key, and two
      signed-in callers share a key only when they are the same user. */
  lemma {:induction false} KeysSeparateUsersFromAddresses(actionKey: string, u: Option<string>, ip: Option<string>,
                                       remote: Option<string>, v: Option<string>, ip2: Option<string>,
                                       remote2: Option<string>, ipKey: string -> string)
    ensures Given(u) && !Given(v) ==>
              RateLimitKey(actionKey, u, ip, remote, ipKey) != RateLimitKey(actionKey, v, ip2, remote2, ipKey)
    ensures Given(u) && Given(v) && u != v ==>
              RateLimitKey(actionKey, u, ip, remote, ipKey) != RateLimitKey(actionKey, v, ip2, remote2, ipKey)
  {
    var n := |actionKey|;
    if Given(u) && !Given(v) {
      var a := RateLimitKey(actionKey, u, ip, remote, ipKey);
      var b := RateLimitKey(actionKey, v, ip2, remote2, ipKey);
      assert a[n + 1] == 'u';
      assert b[n + 1] == 'i';
    }
    if Given(u) && Given(v) && u != v {
      var a := RateLimitKey(actionKey, u, ip, remote, ipKey);
      var b := RateLimitKey(actionKey, v, ip2, remote2, ipKey);
      var p := actionKey + ":user:";
      assert a == p + u.value && b == p + v.value;
      assert a[|p|..] == u.value && b[|p|..] == v.value;
    }
  }

  // ---------------------------------------------------------------------------
  // handler

  /** The JSON body of a refused request. `retryAfter` is `null` when the
      header is absent or its number unreadable. */
  datatype LimitBody = LimitBody(error: string, message: string, retryAfter: Option<int>, kind: string)

  const WithoutRetry: string := "Too many requests, please try again later."

  /** The handler, given what `parseInt` made of the `Retry-After` header
      (`None` when the header is absent or empty). The wait is named only
      when that number is truthy, that is neither unreadable nor 0. */
  function LimitResponse(actionKey: string, retryHeader: Option<RawNumber>): (b: LimitBody)
    ensures b.error == "Rate limit exceeded" && b.kind == actionKey
    ensures b.retryAfter.Some? <==> retryHeader.Some? && retryHeader.value.Integer?
    ensures b.retryAfter.Some? ==> b.retryAfter.value == retryHeader.value.n
  {
    var retryAfter := if retryHeader.Some? && retryHeader.value.Integer? then Some(retryHeader.value.n) else None;
    var message :=
      if retryAfter.Some? && retryAfter.value != 0
      then "Too many requests. Please try again in " + FormatRetryAfter(retryHeader.value) + "."
      else WithoutRetry;
    LimitBody("Rate limit exceeded", message, retryAfter, actionKey)
  }

  /** The message names a wait exactly when the header holds a non-zero
      number; otherwise it is the generic one. */
  lemma {:induction false} LimitMessage(actionKey: string, retryHeader: Option<RawNumber>)
    ensures var b := LimitResponse(actionKey, retryHeader);
            if retryHeader.Some? && retryHeader.value.Integer? && retryHeader.value.n != 0
            then b.message == "Too many requests. Please try again in " + FormatRetryAfter(retryHeader.value) + "."
                 && b.message != WithoutRetry
            else b.message == WithoutRetry
  {
    var b := LimitResponse(actionKey, retryHeader);
    if retryHeader.Some? && retryHeader.value.Integer? && retryHeader.value.n != 0 {
      assert b.message[17] == '.' && WithoutRetry[17] == ',';
    }
  }

  // ---------------------------------------------------------------------------
  // skip and max

  /** `skip`: the limiter stands aside when limiting is switched off. */
  function Skipped(enabled: bool): bool {
    !enabled
  }

  /** One request under one key within the current window, as the limiting
      library treats it: a skipped request passes and is not counted;
      otherwise it is counted, and it passes while the count stays within
      `max`. The result is whether it passes and the new count. */
  function Hit(enabled: bool, max: nat, hits: nat): (bool, nat) {
    if Skipped(enabled) then (true, hits) else (hits + 1 <= max, hits + 1)
  }

  /** `n` requests in a row under one key within one window, starting from
      `hits` counted requests: how many pass, and the count after them. */
  function Hits(enabled: bool, max: nat, hits: nat, n: nat): (nat, nat)
    decreases n
  {
    if n == 0 then (0, hits)
    else
      var (ok, h) := Hit(enabled, max, hits);
      var (passed, after) := Hits(enabled, max, h, n - 1);
      ((if ok then 1 else 0) + passed, after)
  }

  /** With limiting switched off every request passes and none is counted. */
  lemma {:induction false} SkippedNeverCounted(max: nat, hits: nat, n: nat)
    ensures Hits(false, max, hits, n) == (n, hits)
    decreases n
  {
    if n > 0 {
      SkippedNeverCounted(max, hits, n - 1);
    }
  }

  /** With limiting on, every request is counted, and of the requests in a
      window exactly those up to the `max`-th pass. */
  lemma {:induction false} AtMostMaxPass(max: nat, hits: nat, n: nat)
    ensures Hits(true, max, hits, n) == (if hits >= max then 0 else Min(n, max - hits), hits + n)
    decreases n
  {
    if n > 0 {
      AtMostMaxPass(max, hits + 1, n - 1);
    }
  }
}
