/** Cookie-based session authentication: a map from session id to user id.
    The class-level dictionary of the source is passed in and returned
    explicitly; the random `uuid4` id is a parameter. */
module SessionAuth {
  import opened Wrappers
  import opened Users

  type SessionMap = map<string, string>

  /** An inbound request, reduced to the value of its session cookie. */
  datatype Request = Request(sessionCookie: Option<string>)

  /** `Auth.session_cookie(request)`: no cookie for a missing request. The cookie
      name and its lookup belong to the web layer, which is not part of this model. */
  function SessionCookie(request: Option<Request>): (r: Option<string>)
    ensures request.None? ==> r.None?
    ensures request.Some? ==> r == request.value.sessionCookie
  {
    match request
    case None => None
    case Some(req) => req.sessionCookie
  }

  /** Python truthiness of an optional string: `None` and `""` are false. */
  predicate Truthy(s: Option<string>) {
    s.Some? && s.value != ""
  }

  /** Binds a fresh session id to `userId` when it is a string. */
  function CreateSession(sessions: SessionMap, userId: PyValue, freshId: string): (r: (Option<string>, SessionMap))
    requires freshId !in sessions
    ensures !userId.PyStr? ==> r == (None, sessions)
    ensures userId.PyStr? ==> r.0 == Some(freshId)
    ensures userId.PyStr? ==> r.1.Keys == sessions.Keys + {freshId} && r.1[freshId] == userId.s
    ensures forall k :: k in sessions ==> k in r.1 && r.1[k] == sessions[k]
  {
    if userId.PyNone? || !userId.PyStr? then (None, sessions)
    else (Some(freshId), sessions[freshId := userId.s])
  }

  /** The user id bound to a session id; `None` for a missing, non-string or unknown id. */
  function UserIdForSessionId(sessions: SessionMap, sessionId: PyValue): (r: Option<string>)
    ensures r.Some? <==> sessionId.PyStr? && sessionId.s in sessions
    ensures r.Some? ==> r.value == sessions[sessionId.s]
  {
    if sessionId.PyNone? || !sessionId.PyStr? then None
    else if sessionId.s in sessions then Some(sessions[sessionId.s])
    else None
  }

  /** The user the request's session cookie belongs to, resolved through `User.get`. */
  function CurrentUser(sessions: SessionMap, request: Option<Request>, users: seq<User>): (r: Option<User>)
    ensures SessionCookie(request).None? ==> r.None?
    ensures r.Some? <==>
              var c := SessionCookie(request);
              c.Some? && c.value in sessions && exists i :: 0 <= i < |users| && users[i].id == sessions[c.value]
    ensures r.Some? ==> r.value in users && r.value.id == sessions[SessionCookie(request).value]
  {
    var cookie := SessionCookie(request);
    if cookie.None? then None
    else
      var userId := UserIdForSessionId(sessions, PyStr(cookie.value));
      Get(users, userId)
  }

  /** Logs out: removes the cookie's session and answers `true`, or answers
      `false` and changes nothing when there is no request, no non-empty cookie,
      or the cookie's user id is missing or empty. */
  function DestroySession(sessions: SessionMap, request: Option<Request>): (r: (bool, SessionMap))
    ensures r.0 <==>
              var c := SessionCookie(request);
              Truthy(c) && c.value in sessions && sessions[c.value] != ""
    ensures !r.0 ==> r.1 == sessions
    ensures r.0 ==> var c := SessionCookie(request).value;
              r.1.Keys == sessions.Keys - {c} && forall k :: k in r.1 ==> r.1[k] == sessions[k]
  {
    if request.None? then (false, sessions)
    else
      var cookie := SessionCookie(request);
      if !Truthy(cookie) then (false, sessions)
      else
        var userId := UserIdForSessionId(sessions, PyStr(cookie.value));
        if !Truthy(userId) then (false, sessions)
        else (true, sessions - {cookie.value})
  }

  /** Creating a session and looking its id up gives back the user id. */
  lemma CreateThenLookup(sessions: SessionMap, userId: string, freshId: string)
    requires freshId !in sessions
    ensures var (id, after) := CreateSession(sessions, PyStr(userId), freshId);
            id.Some? && UserIdForSessionId(after, PyStr(id.value)) == Some(userId)
  {
  }

  /** Logging out twice with the same cookie succeeds at most once. */
  lemma DestroyAtMostOnce(sessions: SessionMap, request: Option<Request>)
    ensures var (ok, after) := DestroySession(sessions, request);
            ok ==> DestroySession(after, request) == (false, after)
  {
  }

  /** After a logout the session id no longer resolves. */
  lemma DestroyThenLookupFails(sessions: SessionMap, request: Option<Request>)
    ensures var (ok, after) := DestroySession(sessions, request);
            ok ==> UserIdForSessionId(after, PyStr(SessionCookie(request).value)).None?
  {
  }

  /** A session created for a non-empty user id can be destroyed with its cookie,
      and that restores the map as it was before the session was created. */
  lemma CreateThenDestroy(sessions: SessionMap, userId: string, freshId: string)
    requires freshId !in sessions
    requires userId != "" && freshId != ""
    ensures var (id, created) := CreateSession(sessions, PyStr(userId), freshId);
            DestroySession(created, Some(Request(id))) == (true, sessions)
  {
    var created := CreateSession(sessions, PyStr(userId), freshId).1;
    assert created - {freshId} == sessions;
  }

  /** A session created for the empty user id can never be destroyed: its
      user id is falsy, so logout refuses it. */
  lemma EmptyUserIdSessionIsPermanent(sessions: SessionMap, freshId: string, request: Option<Request>)
    requires freshId !in sessions
    requires SessionCookie(request) == Some(freshId)
    ensures var (_, created) := CreateSession(sessions, PyStr(""), freshId);
            DestroySession(created, request) == (false, created)
  {
  }
}
