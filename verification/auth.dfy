/** The token life cycle of src/lib/auth.ts: the `jwt` callback, a
    transition over the stored token, the sign-in data, the current time and
    the outcome of asking Google for a new access token; and the `session`
    callback that copies token fields into the session. The clock and the
    refresh request (src/lib/token.ts) are inputs. */
module Auth {
  import opened Wrappers

  const NoRefreshTokenError := "NoRefreshTokenError"
  const RefreshAccessTokenError := "RefreshAccessTokenError"

  /** The signed-in user as the provider reports it; never looked into. */
  datatype User = User(id: string, name: Option<string>, email: Option<string>)

  /** The OAuth account of a sign-in; `expiresAt` is in seconds. */
  datatype Account = Account(accessToken: Option<string>, expiresAt: Option<int>, refreshToken: Option<string>)

  /** The stored JWT. `accessTokenExpires` is in milliseconds and `None` when
      absent or not a number; `claims` are all other fields, which every
      transition carries over through the object spread. */
  datatype Token = Token(
    accessToken: Option<string>,
    accessTokenExpires: Option<int>,
    refreshToken: Option<string>,
    user: Option<User>,
    error: Option<string>,
    claims: map<string, string>)

  /** What `refreshAccessToken` yields: the new fields, or a thrown error. */
  datatype RefreshResult =
    | Refreshed(accessToken: Option<string>, accessTokenExpires: int, refreshToken: Option<string>)
    | RefreshFailed

  /** `account && user`: the callback runs as part of a sign-in. */
  predicate IsSignIn(account: Option<Account>, user: Option<User>) {
    account.Some? && user.Some?
  }

  /** auth.ts line 44: a non-zero numeric expiry still in the future. */
  predicate IsFresh(token: Token, now: int) {
    token.accessTokenExpires.Some? && token.accessTokenExpires.value != 0
      && now < token.accessTokenExpires.value
  }

  /** A token stays fresh until its expiry time and not at or after it; a
      missing or zero expiry is never fresh. */
  lemma FreshUntilExpiry(token: Token, t1: int, t2: int)
    requires t1 <= t2
    ensures IsFresh(token, t2) ==> IsFresh(token, t1)
    ensures token.accessTokenExpires.Some? && t2 >= token.accessTokenExpires.value ==> !IsFresh(token, t2)
    ensures token.accessTokenExpires.None? || token.accessTokenExpires == Some(0) ==> !IsFresh(token, t1)
  {
  }

  /** auth.ts line 37: seconds to milliseconds, or 0 when absent or 0. */
  function ExpiryMillis(expiresAt: Option<int>): (ms: int)
    ensures ms == 0 <==> expiresAt.None? || expiresAt.value == 0
    ensures expiresAt.Some? ==> ms == expiresAt.value * 1000
  {
    if expiresAt.Some? && expiresAt.value != 0 then expiresAt.value * 1000 else 0
  }

  /** The `jwt` callback. */
  function Jwt(token: Token, account: Option<Account>, user: Option<User>, now: int,
               refresh: RefreshResult): (r: Token)
    // the spread keeps every other field on every path
    ensures r.claims == token.claims
    // an error is never cleared; it is only ever set to one of two codes
    ensures r.error == token.error || r.error == Some(NoRefreshTokenError)
      || r.error == Some(RefreshAccessTokenError)
    ensures IsSignIn(account, user) ==>
      && r.accessToken == account.value.accessToken
      && r.accessTokenExpires == Some(ExpiryMillis(account.value.expiresAt))
      && r.refreshToken == account.value.refreshToken
      && r.user == user
      && r.error == token.error
    ensures !IsSignIn(account, user) && IsFresh(token, now) ==> r == token
    ensures !IsSignIn(account, user) && !IsFresh(token, now) && Truthy(token.refreshToken) ==>
      match refresh
      case Refreshed(a, e, rt) =>
        r == token.(accessToken := a, accessTokenExpires := Some(e),
                    refreshToken := if rt.Some? then rt else token.refreshToken)
      case RefreshFailed =>
        r == token.(error := Some(RefreshAccessTokenError))
    ensures !IsSignIn(account, user) && !IsFresh(token, now) && !Truthy(token.refreshToken) ==>
      r == token.(error := Some(NoRefreshTokenError))
  {
    if IsSignIn(account, user) then
      var acc := account.value;
      token.(accessToken := acc.accessToken,
             accessTokenExpires := Some(ExpiryMillis(acc.expiresAt)),
             refreshToken := acc.refreshToken,
             user := user)
    else if IsFresh(token, now) then token
    else if Truthy(token.refreshToken) then
      match refresh
      case Refreshed(a, e, rt) =>
        token.(accessToken := a, accessTokenExpires := Some(e),
               refreshToken := if rt.Some? then rt else token.refreshToken)
      case RefreshFailed => token.(error := Some(RefreshAccessTokenError))
    else token.(error := Some(NoRefreshTokenError))
  }

  /** The refresh request is made only for an expired token that has a
      refresh token, outside a sign-in. */
  predicate WillRefresh(token: Token, account: Option<Account>, user: Option<User>, now: int) {
    !IsSignIn(account, user) && !IsFresh(token, now) && Truthy(token.refreshToken)
  }

  /** When no refresh request is made, its outcome does not matter. */
  lemma RefreshOutcomeIrrelevant(token: Token, account: Option<Account>, user: Option<User>, now: int,
                                 r1: RefreshResult, r2: RefreshResult)
    requires !WillRefresh(token, account, user, now)
    ensures Jwt(token, account, user, now, r1) == Jwt(token, account, user, now, r2)
  {
  }

  /** A fresh token is a fixed point between sign-ins. */
  lemma FreshIsIdempotent(token: Token, now: int, refresh: RefreshResult)
    requires IsFresh(token, now)
    ensures Jwt(token, None, None, now, refresh) == token
    ensures Jwt(Jwt(token, None, None, now, refresh), None, None, now, refresh) == token
  {
  }

  /** A sign-in without an expiry stores 0, which counts as expired: the next
      call refreshes whatever the time, when a refresh token was granted. */
  lemma ZeroExpiryRefreshesNext(token: Token, acc: Account, u: User, now1: int, now2: int,
                                refresh: RefreshResult)
    requires acc.expiresAt.None? || acc.expiresAt.value == 0
    requires Truthy(acc.refreshToken)
    ensures var signedIn := Jwt(token, Some(acc), Some(u), now1, refresh);
      && signedIn.accessTokenExpires == Some(0)
      && WillRefresh(signedIn, None, None, now2)
  {
  }

  /** A successful refresh keeps an error set by an earlier failure. */
  lemma RefreshKeepsError(token: Token, now: int, a: Option<string>, e: int, rt: Option<string>)
    requires WillRefresh(token, None, None, now)
    ensures Jwt(token, None, None, now, Refreshed(a, e, rt)).error == token.error
  {
  }

  /** One call of the callback: its sign-in data, the time and the refresh
      outcome it would see. */
  datatype Call = Call(account: Option<Account>, user: Option<User>, now: int, refresh: RefreshResult)

  /** The token after a sequence of calls. */
  function Run(token: Token, calls: seq<Call>): Token
    decreases |calls|
  {
    if calls == [] then token
    else
      var c := calls[0];
      Run(Jwt(token, c.account, c.user, c.now, c.refresh), calls[1..])
  }

  /** Along any sequence of calls, an error once set is never removed, and
      no field outside the modelled ones ever changes. */
  lemma {:induction false} RunKeepsError(token: Token, calls: seq<Call>)
    ensures token.error.Some? ==> Run(token, calls).error.Some?
    ensures Run(token, calls).claims == token.claims
    decreases |calls|
  {
    if calls != [] {
      var c := calls[0];
      RunKeepsError(Jwt(token, c.account, c.user, c.now, c.refresh), calls[1..]);
    }
  }

  /** The parts of the session the callback writes. */
  datatype SessionView = SessionView(accessToken: Option<string>, user: Option<User>, error: Option<string>)

  /** The `session` callback: the error is copied only when set; the access
      token and user always. */
  function Session(session: SessionView, token: Token): (r: SessionView)
    ensures r.accessToken == token.accessToken && r.user == token.user
    ensures Truthy(token.error) ==> r.error == token.error
    ensures !Truthy(token.error) ==> r.error == session.error
  {
    SessionView(token.accessToken, token.user, if Truthy(token.error) then token.error else session.error)
  }

  /** A failed refresh reaches the session as `RefreshAccessTokenError`,
      together with the old access token. */
  lemma FailedRefreshReachesSession(session: SessionView, token: Token, now: int)
    requires WillRefresh(token, None, None, now)
    ensures var s := Session(session, Jwt(token, None, None, now, RefreshFailed));
      s.error == Some(RefreshAccessTokenError) && s.accessToken == token.accessToken
  {
  }
}
