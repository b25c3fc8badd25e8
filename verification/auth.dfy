/** The request context's authentication chain: the Authorization header gives
    a session id, the session names a user, and `authenticate` fails when that
    chain ends in no user. */
module Auth {
  import opened Wrappers
  import opened Ascii
  import opened Records

  const BearerPrefix: string := "Bearer "

  /** The header starts with `Bearer ` in any mix of letter case (`/^Bearer /i`). */
  predicate HasBearerPrefix(header: string): (b: bool)
    ensures b <==> |header| >= 7 && Lower(header[..7]) == "bearer "
    ensures |header| >= 7 && header[..7] == BearerPrefix ==> b
  {
    |header| >= |BearerPrefix| && EqualsIgnoringCase(header[..|BearerPrefix|], BearerPrefix)
  }

  /** The session id taken from the Authorization header: the header (or `''`
      when it is missing) with one leading `Bearer ` removed. */
  function SessionId(authHeader: Option<string>): (id: string)
    ensures var h := authHeader.GetOr("");
      if HasBearerPrefix(h) then h == h[..|BearerPrefix|] + id && |id| == |h| - |BearerPrefix|
      else id == h
  {
    var h := authHeader.GetOr("");
    if HasBearerPrefix(h) then h[|BearerPrefix|..] else h
  }

  /** Extraction undoes the client's `<scheme> <token>`: whatever the letter
      case of the scheme name, the token comes back unchanged (also when the
      token itself starts with `Bearer `: only one prefix is removed). */
  lemma {:induction false} SessionIdOfBearerHeader(scheme: string, token: string)
    requires EqualsIgnoringCase(scheme, BearerPrefix)
    ensures SessionId(Some(scheme + token)) == token
  {
    assert |Lower(scheme)| == |scheme| && |Lower(BearerPrefix)| == |BearerPrefix|;
    assert (scheme + token)[..|BearerPrefix|] == scheme;
    assert (scheme + token)[|BearerPrefix|..] == token;
  }

  /** A header that does not start with the scheme is used unchanged, and a
      missing header is the empty id. */
  lemma SessionIdWithoutPrefix(header: string)
    requires !HasBearerPrefix(header)
    ensures SessionId(Some(header)) == header
    ensures SessionId(None) == ""
  {
  }

  /** The scheme is matched ignoring case: `bearer x` and `BEARER x` give
      `x`. */
  lemma LowerCaseSchemeExamples()
    ensures SessionId(Some("bearer x")) == "x"
    ensures SessionId(Some("BEARER x")) == "x"
  {
    assert Lower("bearer ") == Lower(BearerPrefix) by {
      assert forall i :: 0 <= i < 7 ==> LowerChar("bearer "[i]) == LowerChar(BearerPrefix[i]);
    }
    SessionIdOfBearerHeader("bearer ", "x");
    assert Lower("BEARER ") == Lower(BearerPrefix) by {
      assert forall i :: 0 <= i < 7 ==> LowerChar("BEARER "[i]) == LowerChar(BearerPrefix[i]);
    }
    SessionIdOfBearerHeader("BEARER ", "x");
  }

  /** Only one prefix is removed, and only with its space: `Bearer Bearer x`
      gives `Bearer x`, `Bearerx` is kept whole. */
  lemma PrefixRemovedOnceExamples()
    ensures SessionId(Some("Bearer Bearer x")) == "Bearer x"
    ensures SessionId(Some("Bearerx")) == "Bearerx"
  {
    SessionIdOfBearerHeader("Bearer ", "Bearer x");
    assert Lower("Bearerx")[6] == 'x' != Lower(BearerPrefix)[6];
  }

  /** `getSession`: the session stored under the extracted id, if any. */
  function GetSession(sessions: map<string, Session>, authHeader: Option<string>): (s: Option<Session>)
    ensures s.Some? <==> SessionId(authHeader) in sessions
    ensures s.Some? ==> s.value == sessions[SessionId(authHeader)]
  {
    var id := SessionId(authHeader);
    if id in sessions then Some(sessions[id]) else None
  }

  /** `getCurrentUser`: the user named by the session, looked up under `''`
      when there is no session. */
  function CurrentUser(sessions: map<string, Session>, users: map<string, User>, authHeader: Option<string>): (u: Option<User>)
    ensures var userId := if GetSession(sessions, authHeader).Some? then GetSession(sessions, authHeader).value.user else "";
      (u.Some? <==> userId in users) && (u.Some? ==> u.value == users[userId])
  {
    var session := GetSession(sessions, authHeader);
    var userId := match session case Some(s) => s.user case None => "";
    if userId in users then Some(users[userId]) else None
  }

  /** `authenticate`: the current user, or the error "Not authenticated". */
  function Authenticate(sessions: map<string, Session>, users: map<string, User>, authHeader: Option<string>): (r: Result<User>)
    ensures r.Err? <==> CurrentUser(sessions, users, authHeader).None?
    ensures r.Err? ==> r.message == "Not authenticated"
    ensures r.Ok? ==> r.value == CurrentUser(sessions, users, authHeader).value
  {
    match CurrentUser(sessions, users, authHeader)
    case None => Err("Not authenticated")
    case Some(user) => Ok(user)
  }

  /** When every session names a stored user and no user has the empty id,
      a request is authenticated exactly when its header names a stored
      session, and the viewer is that session's user. */
  lemma AuthenticatedIffSession(sessions: map<string, Session>, users: map<string, User>, authHeader: Option<string>)
    requires forall s :: s in sessions ==> sessions[s].user in users
    requires "" !in users
    ensures Authenticate(sessions, users, authHeader).Ok? <==> SessionId(authHeader) in sessions
    ensures Authenticate(sessions, users, authHeader).Ok? ==>
      Authenticate(sessions, users, authHeader).value == users[sessions[SessionId(authHeader)].user]
  {
  }
}
