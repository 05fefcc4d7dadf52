/**
 * The editor's side of collaboration: reading the session id from the page
 * path, and what the socket's `connect` handler does with the two flags
 * `currentSessionId` and `isCollaborating`. The server's answer to the
 * session lookup and the socket's connection state are inputs.
 */
module Collab {
  import opened Wrappers

  const Prefix := "/collaborate/"

  /** A character of the class `[a-f0-9-]`. */
  predicate IsIdChar(c: char) {
    ('a' <= c <= 'f') || ('0' <= c <= '9') || c == '-'
  }

  /** A string `([a-f0-9-]+)` matches in full. */
  predicate IsSessionId(s: string) {
    |s| >= 1 && forall i :: 0 <= i < |s| ==> IsIdChar(s[i])
  }

  /** The pattern `/collaborate/[a-f0-9-]+` matches starting at `p`. */
  predicate MatchesAt(path: string, p: int) {
    0 <= p && p + |Prefix| < |path| && path[p..p + |Prefix|] == Prefix && IsIdChar(path[p + |Prefix|])
  }

  /** The leftmost position at or after `from` where the pattern matches. */
  function FirstMatch(path: string, from: nat): (r: Option<nat>)
    ensures r.None? ==> forall p :: from <= p ==> !MatchesAt(path, p)
    ensures r.Some? ==> from <= r.value && MatchesAt(path, r.value)
    ensures r.Some? ==> forall p :: from <= p < r.value ==> !MatchesAt(path, p)
    decreases |path| - from
  {
    if from + |Prefix| >= |path| then None
    else if MatchesAt(path, from) then Some(from)
    else FirstMatch(path, from + 1)
  }

  /** Length of the longest prefix of `s` made of `[a-f0-9-]` characters (what the greedy `+` takes). */
  function IdRunLength(s: string): (n: nat)
    ensures n <= |s|
    ensures forall i :: 0 <= i < n ==> IsIdChar(s[i])
    ensures n < |s| ==> !IsIdChar(s[n])
  {
    if |s| > 0 && IsIdChar(s[0]) then 1 + IdRunLength(s[1..]) else 0
  }

  /**
   * `path.match(/\/collaborate\/([a-f0-9-]+)/)[1]`: the capture of the
   * leftmost match, or nothing when the pattern does not occur.
   */
  function SessionIdFromPath(path: string): (r: Option<string>)
    ensures r.None? <==> forall p :: 0 <= p ==> !MatchesAt(path, p)
    ensures r.Some? ==> IsSessionId(r.value)
    ensures r.Some? ==> exists p :: (
      && MatchesAt(path, p) && (forall q :: 0 <= q < p ==> !MatchesAt(path, q))
      && p + |Prefix| + |r.value| <= |path|
      && path[p + |Prefix|..p + |Prefix| + |r.value|] == r.value
      && (p + |Prefix| + |r.value| == |path| || !IsIdChar(path[p + |Prefix| + |r.value|])))
  {
    match FirstMatch(path, 0)
    case None => None
    case Some(p) =>
      var rest := path[p + |Prefix|..];
      var n := IdRunLength(rest);
      assert rest[0] == path[p + |Prefix|];
      assert rest[..n] == path[p + |Prefix|..p + |Prefix| + n];
      Some(rest[..n])
  }

  /** The two collaboration flags of the editor. */
  datatype Flags = Flags(currentSessionId: Option<string>, isCollaborating: bool)

  /** `currentSessionId` as a JavaScript condition: set and not empty. */
  predicate HasSession(f: Flags) {
    f.currentSessionId.Some? && f.currentSessionId.value != ""
  }

  /** The flags as the editor can reach them: a session id only ever comes from the path, and collaborating implies one. */
  predicate FlagsValid(f: Flags) {
    (f.currentSessionId.Some? ==> IsSessionId(f.currentSessionId.value))
    && (f.isCollaborating ==> f.currentSessionId.Some?)
  }

  /** `checkCollaborativeSession`: whether the page path names a session, and the flags afterwards. */
  function CheckSession(f: Flags, path: string): (r: (bool, Flags))
    ensures r.0 <==> SessionIdFromPath(path).Some?
    ensures r.0 ==> r.1 == f.(currentSessionId := SessionIdFromPath(path))
    ensures !r.0 ==> r.1 == f
    ensures FlagsValid(f) ==> FlagsValid(r.1)
  {
    match SessionIdFromPath(path)
    case Some(id) => (true, f.(currentSessionId := Some(id)))
    case None => (false, f)
  }

  /** What the editor sends over the network. */
  datatype Request =
    | FetchSession(sessionId: string)   // GET /api/collaborate/<id>
    | EmitJoin(sessionId: string)       // socket event `join-session`

  /** The outcome of `GET /api/collaborate/<id>`. */
  datatype Reply = Found | NotFound | Unreachable

  /**
   * `joinCollaborativeSession(id)`: fetch the session; when it exists, mark
   * the editor as collaborating in it and, if the socket is still
   * connected, send `join-session`.
   */
  function Join(f: Flags, id: string, reply: Reply, connected: bool): (r: (Flags, seq<Request>))
    ensures |r.1| >= 1 && r.1[0] == FetchSession(id)
    ensures EmitJoin(id) in r.1 <==> reply == Found && connected
    ensures |r.1| == if reply == Found && connected then 2 else 1
    ensures forall k :: 0 <= k < |r.1| ==> r.1[k].sessionId == id
    ensures reply == Found ==> r.0 == Flags(Some(id), true)
    ensures reply != Found ==> r.0 == f
  {
    if reply == Found then
      (Flags(Some(id), true), [FetchSession(id)] + (if connected then [EmitJoin(id)] else []))
    else (f, [FetchSession(id)])
  }

  /**
   * The socket's `connect` handler: a session seen in the path but not yet
   * joined is joined in full; a session already joined is re-attached by
   * sending `join-session` again; without a session nothing happens.
   */
  function OnConnect(f: Flags, reply: Reply, connected: bool): (r: (Flags, seq<Request>))
    ensures !HasSession(f) ==> r == (f, [])
    ensures HasSession(f) && f.isCollaborating ==> r == (f, [EmitJoin(f.currentSessionId.value)])
    ensures HasSession(f) && !f.isCollaborating ==>
      |r.1| >= 1 && r.1[0] == FetchSession(f.currentSessionId.value) && (r.0.isCollaborating <==> reply == Found)
    ensures HasSession(f) && !f.isCollaborating ==>
      && (EmitJoin(f.currentSessionId.value) in r.1 <==> reply == Found && connected)
      && |r.1| == if reply == Found && connected then 2 else 1
    ensures forall k :: 0 <= k < |r.1| ==> r.1[k].sessionId == f.currentSessionId.value
    ensures FlagsValid(f) ==> FlagsValid(r.0) && r.0.currentSessionId == f.currentSessionId
  {
    if HasSession(f) && !f.isCollaborating then Join(f, f.currentSessionId.value, reply, connected)
    else if HasSession(f) && f.isCollaborating then (f, [EmitJoin(f.currentSessionId.value)])
    else (f, [])
  }

  /** One `connect` event: the lookup reply and whether the socket is connected when it arrives. */
  datatype ConnectEvent = ConnectEvent(reply: Reply, connected: bool)

  /** The flags and the requests sent after a series of `connect` events. */
  function Connects(f: Flags, events: seq<ConnectEvent>): (Flags, seq<Request>)
    decreases |events|
  {
    if |events| == 0 then (f, [])
    else
      var (g, sent) := OnConnect(f, events[0].reply, events[0].connected);
      var (h, more) := Connects(g, events[1..]);
      (h, sent + more)
  }

  /**
   * Once a session is joined, every later reconnect re-attaches to that
   * same session by sending `join-session`, and nothing else is sent.
   */
  lemma {:induction false} JoinedClientReattaches(f: Flags, events: seq<ConnectEvent>)
    requires HasSession(f) && f.isCollaborating
    ensures Connects(f, events).0 == f
    ensures Connects(f, events).1 == seq(|events|, _ => EmitJoin(f.currentSessionId.value))
    decreases |events|
  {
    if |events| > 0 {
      JoinedClientReattaches(f, events[1..]);
    }
  }

  /**
   * A client that found a session keeps it: after a connect whose lookup
   * succeeded and arrived while connected, the client has fetched the
   * session, sent `join-session` for it, and is collaborating.
   */
  lemma FoundSessionIsJoined(f: Flags)
    requires FlagsValid(f) && HasSession(f) && !f.isCollaborating
    ensures OnConnect(f, Found, true) ==
      (f.(isCollaborating := true), [FetchSession(f.currentSessionId.value), EmitJoin(f.currentSessionId.value)])
  {
    var id := f.currentSessionId.value;
    assert [FetchSession(id)] + [EmitJoin(id)] == [FetchSession(id), EmitJoin(id)];
  }

  /** The editor's collaboration state, updated in place by the page's handlers. */
  class CollabClient {
    var currentSessionId: Option<string>
    var isCollaborating: bool

    function State(): Flags
      reads this
    {
      Flags(currentSessionId, isCollaborating)
    }

    constructor ()
      ensures State() == Flags(None, false) && FlagsValid(State())
    {
      currentSessionId := None;
      isCollaborating := false;
    }

    method CheckCollaborativeSession(path: string) returns (isCollab: bool)
      modifies this
      ensures (isCollab, State()) == CheckSession(old(State()), path)
      ensures FlagsValid(old(State())) ==> FlagsValid(State())
    {
      var m := SessionIdFromPath(path);
      if m.Some? {
        currentSessionId := m;
        return true;
      }
      return false;
    }

    method HandleConnect(reply: Reply, connected: bool) returns (sent: seq<Request>)
      modifies this
      ensures (State(), sent) == OnConnect(old(State()), reply, connected)
      ensures FlagsValid(old(State())) ==> FlagsValid(State())
    {
      sent := [];
      if HasSession(State()) && !isCollaborating {
        var id := currentSessionId.value;
        sent := [FetchSession(id)];
        if reply == Found {
          isCollaborating := true;
          currentSessionId := Some(id);
          if connected {
            sent := sent + [EmitJoin(id)];
          } else {
            assert sent == [FetchSession(id)] + [];
          }
        }
      } else if HasSession(State()) && isCollaborating {
        sent := [EmitJoin(currentSessionId.value)];
      }
    }
  }
}
