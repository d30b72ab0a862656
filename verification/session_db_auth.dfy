/** Session authentication backed by a persisted collection of session records,
    with lazy expiry: a stale record is rejected when it is read, never removed
    by the read. The clock is an integer number of seconds passed in. */
module SessionDbAuth {
  import opened Wrappers
  import SessionAuth

  /** A persisted `UserSession`; `createdAt` is set once, when it is built. */
  datatype SessionRecord = SessionRecord(sessionId: string, userId: string, createdAt: int)

  /** The in-memory map inherited from `SessionAuth`, and the persisted records. */
  datatype Store = Store(memory: SessionAuth.SessionMap, records: seq<SessionRecord>)

  /** `UserSession.search({'session_id': id})[0]`: the first record with that id. */
  function FindRecord(records: seq<SessionRecord>, sessionId: string): (r: Option<nat>)
    ensures r.None? <==> forall i :: 0 <= i < |records| ==> records[i].sessionId != sessionId
    ensures r.Some? ==> r.value < |records| && records[r.value].sessionId == sessionId
    ensures r.Some? ==> forall j :: 0 <= j < r.value ==> records[j].sessionId != sessionId
  {
    if |records| == 0 then None
    else if records[0].sessionId == sessionId then Some(0)
    else
      match FindRecord(records[1..], sessionId)
      case None => None
      case Some(k) => Some(k + 1)
  }

  /** No record carries this id yet: what a freshly drawn `uuid4` guarantees. */
  predicate Unused(store: Store, id: string) {
    id !in store.memory && forall i :: 0 <= i < |store.records| ==> store.records[i].sessionId != id
  }

  /** A session is still honoured at `now` when expiry is switched off
      (`sessionDuration <= 0`) or its age has not passed the duration; the
      boundary itself is still honoured. */
  predicate Live(record: SessionRecord, sessionDuration: int, now: int) {
    sessionDuration <= 0 || record.createdAt + sessionDuration >= now
  }

  /** Creates the in-memory session through the parent class and, when that
      succeeds, persists one record for it stamped `now`. */
  function CreateSession(store: Store, userId: PyValue, freshId: string, now: int): (r: (Option<string>, Store))
    requires Unused(store, freshId)
    ensures !userId.PyStr? ==> r == (None, store)
    ensures userId.PyStr? ==>
              r.0 == Some(freshId) &&
              r.1.records == store.records + [SessionRecord(freshId, userId.s, now)] &&
              r.1.memory == store.memory[freshId := userId.s]
  {
    var (id, memory) := SessionAuth.CreateSession(store.memory, userId, freshId);
    if id.None? then (None, store)
    else (id, Store(memory, store.records + [SessionRecord(id.value, userId.s, now)]))
  }

  /** The user id of the first record with this session id, if that record is
      still live at `now`. Only the persisted records are consulted. Only `None`
      is refused up front; the search compares ids by equality, so an instance of
      a `str` subclass finds the record of the equal string, and any other kind
      of value finds none. */
  function UserIdForSessionId(records: seq<SessionRecord>, sessionId: PyValue,
                              sessionDuration: int, now: int): (r: Option<string>)
    ensures sessionId.PyNone? ==> r.None?
    ensures r.Some? <==>
              sessionId.IsStrInstance() &&
              var found := FindRecord(records, sessionId.s);
              found.Some? && Live(records[found.value], sessionDuration, now)
    ensures r.Some? ==> r.value == records[FindRecord(records, sessionId.s).value].userId
  {
    if sessionId.PyNone? then None
    else if !sessionId.IsStrInstance() then None
    else
      match FindRecord(records, sessionId.s)
      case None => None
      case Some(i) =>
        if sessionDuration <= 0 then Some(records[i].userId)
        else if records[i].createdAt + sessionDuration < now then None
        else Some(records[i].userId)
  }

  /** The three ways `destroy_session` can end. */
  datatype DestroyOutcome =
    | Refused                   // returns False, nothing changed
    | Destroyed(after: Store)   // returns True
    | KeyMissing                // `del` raises KeyError: the record exists but the in-memory key does not

  function RemoveAt(records: seq<SessionRecord>, i: nat): (r: seq<SessionRecord>)
    requires i < |records|
    ensures |r| == |records| - 1
    ensures forall j :: 0 <= j < i ==> r[j] == records[j]
    ensures forall j :: i <= j < |r| ==> r[j] == records[j + 1]
  {
    records[..i] + records[i + 1..]
  }

  /** Logs out: deletes the in-memory key and the first record with the cookie's id. */
  function DestroySession(store: Store, request: Option<SessionAuth.Request>): (r: DestroyOutcome)
    ensures r.Refused? <==>
              var c := SessionAuth.SessionCookie(request);
              !SessionAuth.Truthy(c) || FindRecord(store.records, c.value).None?
    ensures r.KeyMissing? <==>
              var c := SessionAuth.SessionCookie(request);
              SessionAuth.Truthy(c) && FindRecord(store.records, c.value).Some? && c.value !in store.memory
    ensures r.Destroyed? ==>
              var c := SessionAuth.SessionCookie(request).value;
              var i := FindRecord(store.records, c).value;
              r.after.memory.Keys == store.memory.Keys - {c} &&
              (forall k :: k in r.after.memory ==> r.after.memory[k] == store.memory[k]) &&
              r.after.records == RemoveAt(store.records, i)
  {
    if request.None? then Refused
    else
      var cookie := SessionAuth.SessionCookie(request);
      if !SessionAuth.Truthy(cookie) then Refused
      else
        match FindRecord(store.records, cookie.value)
        case None => Refused
        case Some(i) =>
          if cookie.value !in store.memory then KeyMissing
          else Destroyed(Store(store.memory - {cookie.value}, RemoveAt(store.records, i)))
  }

  /** The state every sequence of `CreateSession` and `DestroySession` calls keeps:
      record ids are distinct, and every record still has its in-memory key. */
  predicate Consistent(store: Store) {
    && (forall i, j :: 0 <= i < j < |store.records| ==> store.records[i].sessionId != store.records[j].sessionId)
    && (forall i :: 0 <= i < |store.records| ==> store.records[i].sessionId in store.memory)
  }

  lemma CreatePreservesConsistency(store: Store, userId: PyValue, freshId: string, now: int)
    requires Consistent(store) && Unused(store, freshId)
    ensures Consistent(CreateSession(store, userId, freshId, now).1)
  {
  }

  lemma {:induction false} DestroyPreservesConsistency(store: Store, request: Option<SessionAuth.Request>)
    requires Consistent(store)
    ensures DestroySession(store, request).Destroyed? ==> Consistent(DestroySession(store, request).after)
  {
    var r := DestroySession(store, request);
    if r.Destroyed? {
      var c := SessionAuth.SessionCookie(request).value;
      var i := FindRecord(store.records, c).value;
      var rs := r.after.records;
      forall k | 0 <= k < |rs|
        ensures rs[k].sessionId in r.after.memory
      {
        var orig := if k < i then k else k + 1;
        assert rs[k] == store.records[orig];
        assert orig != i;
      }
      forall a, b | 0 <= a < b < |rs|
        ensures rs[a].sessionId != rs[b].sessionId
      {
        var oa := if a < i then a else a + 1;
        var ob := if b < i then b else b + 1;
        assert rs[a] == store.records[oa] && rs[b] == store.records[ob];
      }
    }
  }

  /** In a consistent store logging out never raises. */
  lemma ConsistentDestroyNeverRaises(store: Store, request: Option<SessionAuth.Request>)
    requires Consistent(store)
    ensures !DestroySession(store, request).KeyMissing?
  {
  }

  /** In a consistent store the same cookie logs out at most once. */
  lemma {:induction false} DestroyAtMostOnce(store: Store, request: Option<SessionAuth.Request>)
    requires Consistent(store)
    ensures DestroySession(store, request).Destroyed? ==>
              DestroySession(DestroySession(store, request).after, request).Refused?
  {
    var r := DestroySession(store, request);
    if r.Destroyed? {
      var c := SessionAuth.SessionCookie(request).value;
      var i := FindRecord(store.records, c).value;
      var rs := r.after.records;
      forall k | 0 <= k < |rs|
        ensures rs[k].sessionId != c
      {
        var orig := if k < i then k else k + 1;
        assert rs[k] == store.records[orig];
      }
    }
  }

  /** A new session resolves to its user for as long as it is live. */
  lemma CreateThenLookup(store: Store, userId: string, freshId: string, createdAt: int,
                         sessionDuration: int, now: int)
    requires Unused(store, freshId)
    requires sessionDuration <= 0 || now <= createdAt + sessionDuration
    ensures var (id, after) := CreateSession(store, PyStr(userId), freshId, createdAt);
            id == Some(freshId) && UserIdForSessionId(after.records, PyStr(freshId), sessionDuration, now) == Some(userId)
  {
    var after := CreateSession(store, PyStr(userId), freshId, createdAt).1;
    assert after.records[|store.records|].sessionId == freshId;
    assert forall j :: 0 <= j < |store.records| ==> after.records[j] == store.records[j];
    assert FindRecord(after.records, freshId) == Some(|store.records|);
  }

  /** Expiry is monotone in time: a session rejected at `t` stays rejected later. */
  lemma ExpiryIsMonotone(records: seq<SessionRecord>, sessionId: PyValue, sessionDuration: int, t: int, later: int)
    requires t <= later
    requires UserIdForSessionId(records, sessionId, sessionDuration, t).None?
    ensures UserIdForSessionId(records, sessionId, sessionDuration, later).None?
  {
  }

  /** Expiry is lazy: an expired session's record is still stored, and still
      resolves once expiry is switched off. */
  lemma ExpiryKeepsRecord(records: seq<SessionRecord>, sessionId: string, sessionDuration: int, now: int)
    requires FindRecord(records, sessionId).Some?
    requires UserIdForSessionId(records, PyStr(sessionId), sessionDuration, now).None?
    ensures sessionDuration > 0
    ensures UserIdForSessionId(records, PyStr(sessionId), 0, now).Some?
  {
  }

  /** A process restart keeps the records and loses the in-memory map. */
  function Restart(store: Store): (r: Store)
    ensures r.records == store.records && r.memory == map[]
  {
    Store(map[], store.records)
  }

  /** After a restart every lookup answers as before, but logging out with a
      stored session's cookie raises, because `destroy_session` deletes the
      in-memory key first. */
  lemma RestartThenDestroyRaises(store: Store, request: Option<SessionAuth.Request>,
                                 sessionId: PyValue, sessionDuration: int, now: int)
    requires SessionAuth.Truthy(SessionAuth.SessionCookie(request))
    requires FindRecord(store.records, SessionAuth.SessionCookie(request).value).Some?
    ensures DestroySession(Restart(store), request).KeyMissing?
    ensures UserIdForSessionId(Restart(store).records, sessionId, sessionDuration, now)
            == UserIdForSessionId(store.records, sessionId, sessionDuration, now)
  {
  }
}
