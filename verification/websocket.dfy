/** The websocket session registry: the `sessionId` cookie parser, the
    `clients` map from session id to socket that connection and close events
    update, and the `notifyClient` guard. Sockets are numbered; whether a
    socket is open when a notification is sent is a parameter. */
module Websocket {
  import opened Wrappers
  import opened Text

  // ------------------------------------------------------ getSessionIdFromCookie

  const CookieKey := "sessionId="

  /** The end of the run of non-`;` characters starting at `i`. */
  function ValueEnd(s: string, i: nat): (j: nat)
    requires i <= |s|
    ensures i <= j <= |s|
    ensures forall k :: i <= k < j ==> s[k] != ';'
    ensures j == |s| || s[j] == ';'
    decreases |s| - i
  {
    if i < |s| && s[i] != ';' then ValueEnd(s, i + 1) else i
  }

  /** `/sessionId=([^;]+)/` matches at `i`: the key, then at least one
      character other than `;`. */
  predicate MatchAt(s: string, i: nat) {
    OccursAt(s, CookieKey, i) && i + |CookieKey| < |s| && s[i + |CookieKey|] != ';'
  }

  predicate NoMatchBetween(s: string, lo: nat, hi: nat) {
    forall k :: lo <= k < hi ==> !MatchAt(s, k)
  }

  /** The leftmost match at or after `i`, or `|s| + 1` when there is none. */
  function FirstMatch(s: string, i: nat): (j: nat)
    requires i <= |s|
    ensures i <= j <= |s| + 1
    ensures NoMatchBetween(s, i, j)
    ensures j <= |s| ==> MatchAt(s, j)
    decreases |s| - i
  {
    if MatchAt(s, i) then i
    else if i == |s| then |s| + 1
    else FirstMatch(s, i + 1)
  }

  /** `getSessionIdFromCookie(header)`: no header and the empty header give
      nothing; otherwise the greedy capture of the leftmost match, if any. */
  function GetSessionIdFromCookie(header: Option<string>): (r: Option<string>)
    ensures header.None? || header == Some("") ==> r.None?
    ensures r.Some? ==> r.value != "" && ';' !in r.value
    ensures r.Some? ==> exists i :: && 0 <= i <= |header.value| && MatchAt(header.value, i)
                                    && NoMatchBetween(header.value, 0, i)
                                    && r.value == header.value[i + |CookieKey|..ValueEnd(header.value, i + |CookieKey|)]
    ensures header.Some? && r.None? ==> NoMatchBetween(header.value, 0, |header.value| + 1)
  {
    match header
    case None => None
    case Some(h) =>
      if h == "" then None
      else
        var i := FirstMatch(h, 0);
        if i <= |h| then
          var j := ValueEnd(h, i + |CookieKey|);
          Some(h[i + |CookieKey|..j])
        else None
  }

  /** Round trip: a header that starts with the session cookie gives back its
      value, whatever other cookies follow the `;`. */
  lemma CookieRoundTrip(id: string, rest: string)
    requires id != "" && ';' !in id
    requires rest == "" || rest[0] == ';'
    ensures GetSessionIdFromCookie(Some(CookieKey + id + rest)) == Some(id)
  {
    var h := CookieKey + id + rest;
    assert h[..|CookieKey|] == CookieKey;
    assert OccursAt(h, CookieKey, 0);
    assert h[|CookieKey|] == id[0];
    assert FirstMatch(h, 0) == 0;
    var j := ValueEnd(h, |CookieKey|);
    forall k | |CookieKey| <= k < |CookieKey| + |id|
      ensures h[k] != ';'
    {
      assert h[k] == id[k - |CookieKey|];
    }
    ValueEndAt(h, |CookieKey|, |CookieKey| + |id|);
    assert h[|CookieKey|..|CookieKey| + |id|] == id;
  }

  /** The run ends at the first `;` or at the end. */
  lemma {:induction false} ValueEndAt(s: string, i: nat, j: nat)
    requires i <= j <= |s|
    requires forall k :: i <= k < j ==> s[k] != ';'
    requires j == |s| || s[j] == ';'
    ensures ValueEnd(s, i) == j
    decreases j - i
  {
    if i < j {
      ValueEndAt(s, i + 1, j);
    }
  }

  // ---------------------------------------------------------------- registry

  /** The registry: `clients`, and for every socket that got a close
      listener, the session id that listener captured. */
  datatype Registry = Registry(clients: map<string, nat>, closeKey: map<nat, string>)

  const EmptyRegistry := Registry(map[], map[])

  /** Two client maps hold the same sockets under every id but `id`. */
  ghost predicate AgreeExcept(a: map<string, nat>, b: map<string, nat>, id: string) {
    forall k :: k != id ==> (k in a <==> k in b) && (k in a ==> a[k] == b[k])
  }

  /** The `connection` handler for socket `ws` with the request's cookie
      header: a socket with a session id is stored under it, replacing any
      earlier socket, and gets a close listener for that id; a socket without
      one is not registered. */
  function OnConnection(reg: Registry, ws: nat, cookie: Option<string>): (r: Registry)
    ensures GetSessionIdFromCookie(cookie).None? ==> r == reg
    ensures GetSessionIdFromCookie(cookie).Some? ==>
              var id := GetSessionIdFromCookie(cookie).value;
              && id in r.clients && r.clients[id] == ws
              && r.closeKey == reg.closeKey[ws := id]
              && AgreeExcept(r.clients, reg.clients, id)
  {
    match GetSessionIdFromCookie(cookie)
    case None => reg
    case Some(id) => Registry(reg.clients[id := ws], reg.closeKey[ws := id])
  }

  /** The `close` event of socket `ws`: its listener deletes the entry of
      the id it captured, whichever socket that entry now holds. */
  function OnClose(reg: Registry, ws: nat): (r: Registry)
    ensures ws !in reg.closeKey ==> r == reg
    ensures ws in reg.closeKey ==> reg.closeKey[ws] !in r.clients && AgreeExcept(r.clients, reg.clients, reg.closeKey[ws])
    ensures r.closeKey == reg.closeKey
  {
    if ws in reg.closeKey then Registry(reg.clients - {reg.closeKey[ws]}, reg.closeKey) else reg
  }

  /** `notifyClient(sessionId, data)`: the socket the data is sent to, if
      any — only a registered socket that is open receives it. */
  function NotifyClient(reg: Registry, sessionId: string, isOpen: nat -> bool): (sent: Option<nat>)
    ensures sent.Some? <==> sessionId in reg.clients && isOpen(reg.clients[sessionId])
    ensures sent.Some? ==> sent.value == reg.clients[sessionId]
  {
    if sessionId in reg.clients && isOpen(reg.clients[sessionId]) then Some(reg.clients[sessionId]) else None
  }

  /** The close race: when a second socket connects under the same session
      and the first socket then closes, the entry is gone and notifications
      for the session reach neither socket, although the second is open. */
  lemma CloseRace(first: nat, second: nat, cookie: Option<string>, isOpen: nat -> bool)
    requires GetSessionIdFromCookie(cookie).Some? && first != second
    ensures var id := GetSessionIdFromCookie(cookie).value;
            var reg := OnClose(OnConnection(OnConnection(EmptyRegistry, first, cookie), second, cookie), first);
            id !in reg.clients && NotifyClient(reg, id, isOpen) == None
  {
  }

  /** Without the race, the latest socket of a session is the one notified
      while it is open. */
  lemma LatestSocketNotified(reg: Registry, ws: nat, cookie: Option<string>, isOpen: nat -> bool)
    requires GetSessionIdFromCookie(cookie).Some? && isOpen(ws)
    ensures NotifyClient(OnConnection(reg, ws, cookie), GetSessionIdFromCookie(cookie).value, isOpen) == Some(ws)
  {
  }
}
