/** The session middleware: decide which session a request belongs to,
    creating one when the cookie is missing or names no live session. The
    `sessions` table is a map from id to expiry time in milliseconds, the
    clock is the integer `now`, the id `uuidv4()` would return is the
    parameter `newId`, and `faultAt` names the database call (0 for the
    first, 1 for the second) that throws, if any. */
module Session {
  import opened Wrappers

  /** 30 days in milliseconds: the cookie's `maxAge` and the
      `INTERVAL 30 DAY` of the stored expiry. */
  const MaxAge: nat := 30 * 24 * 60 * 60 * 1000

  type Store = map<string, int>

  /** The `sessionId` cookie the response sets. */
  datatype Cookie = Cookie(value: string, maxAge: nat)

  /** How the middleware hands over: `next()`, or `next(error)` after a
      database error. */
  datatype Next = Continue | ContinueWithError

  /** The store after the request, the id attached to the request, the
      cookie set on the response, and the call to `next`. */
  datatype Outcome = Outcome(store: Store, sessionId: Option<string>, cookie: Option<Cookie>, next: Next)

  /** `SELECT id FROM sessions WHERE id = ? AND expires_at > NOW()` finds a row. */
  predicate Live(store: Store, id: string, now: int) {
    id in store && store[id] > now
  }

  /** The outcome after a database error: nothing else happened. */
  function Failed(store: Store): Outcome {
    Outcome(store, None, None, ContinueWithError)
  }

  /** `sessionMiddleware`. A missing or empty cookie counts as no cookie. */
  function Resolve(store: Store, now: int, cookie: Option<string>, newId: string, faultAt: Option<nat>): (out: Outcome)
    ensures out.next == ContinueWithError <==> faultAt == Some(0) || (faultAt == Some(1) && InsertNeeded(store, now, cookie, newId))
    ensures out.next == ContinueWithError ==> out == Failed(store)
    ensures out.next == Continue ==> out.sessionId.Some?
    ensures out.cookie.Some? ==> out.cookie == Some(Cookie(out.sessionId.value, MaxAge)) && out.next == Continue
    ensures forall k :: k in store ==> k in out.store
    ensures forall k :: k in out.store && k != newId ==> k in store && out.store[k] == store[k]
  {
    if faultAt == Some(0) then Failed(store)
    else if cookie.None? || cookie == Some("") then
      if newId in store then Outcome(store, Some(newId), Some(Cookie(newId, MaxAge)), Continue)
      else if faultAt == Some(1) then Failed(store)
      else Outcome(store[newId := now + MaxAge], Some(newId), Some(Cookie(newId, MaxAge)), Continue)
    else if Live(store, cookie.value, now) then Outcome(store, cookie, None, Continue)
    else if faultAt == Some(1) then Failed(store)
    else Outcome(store[newId := now + MaxAge], Some(newId), Some(Cookie(newId, MaxAge)), Continue)
  }

  /** Whether the request reaches an `INSERT`, the second database call. */
  predicate InsertNeeded(store: Store, now: int, cookie: Option<string>, newId: string) {
    if cookie.None? || cookie == Some("") then newId !in store else !Live(store, cookie.value, now)
  }

  /** A live session named by the cookie is kept: same id, store unchanged,
      no cookie set. */
  lemma LiveSessionKept(store: Store, now: int, id: string, newId: string, faultAt: Option<nat>)
    requires id != "" && Live(store, id, now) && faultAt != Some(0)
    ensures Resolve(store, now, Some(id), newId, faultAt) == Outcome(store, Some(id), None, Continue)
  {
  }

  /** A cookie naming a missing or expired session is replaced by a newId
      session that lives 30 days, and the cookie is reset. */
  lemma DeadSessionReplaced(store: Store, now: int, id: string, newId: string)
    requires id != "" && !Live(store, id, now)
    ensures var out := Resolve(store, now, Some(id), newId, None);
            && out.sessionId == Some(newId) && out.cookie == Some(Cookie(newId, MaxAge))
            && out.store == store[newId := now + MaxAge] && out.next == Continue
  {
  }

  /** Without a cookie a newId session is created, unless the newId id is
      already stored, in which case the stored row is reused as it is; the
      cookie is set either way. */
  lemma NoCookieCreates(store: Store, now: int, newId: string)
    ensures var out := Resolve(store, now, None, newId, None);
            && out.sessionId == Some(newId) && out.cookie == Some(Cookie(newId, MaxAge)) && out.next == Continue
            && out.store == (if newId in store then store else store[newId := now + MaxAge])
  {
  }

  /** The handed-out session is recognised: a follow-up request that sends
      back the id the middleware attached, before 30 days have passed, keeps
      that session without touching the store. (A session found under a
      reused generated id is excluded: its stored expiry is not renewed.) */
  lemma FollowUpKeepsSession(store: Store, now: int, later: int, cookie: Option<string>, newId: string, newId2: string)
    requires Resolve(store, now, cookie, newId, None).next == Continue
    requires newId != "" && now <= later < now + MaxAge
    requires (cookie.None? || cookie == Some("")) ==> newId !in store
    requires cookie.Some? && cookie != Some("") && Live(store, cookie.value, now) ==> Live(store, cookie.value, later)
    ensures var out := Resolve(store, now, cookie, newId, None);
            && out.sessionId.value != ""
            && Resolve(out.store, later, out.sessionId, newId2, None) == Outcome(out.store, out.sessionId, None, Continue)
  {
  }
}
