/** The in-memory socket hub of generated projects: connections, and the rooms they are in. */
module SocketHub {
  import opened Text
  import opened TwoWayIndex

  /** The live connections and who is in which room, as a plain relation of room names and connection ids. */
  datatype Hub = Hub(next: nat, live: set<string>, joined: set<(string, string)>)

  const EMPTY: Hub := Hub(1, {}, {})

  function ConnectionId(n: nat): string { "conn-" + PrintNat(n) }

  function Registered(h: Hub): Hub { Hub(h.next + 1, h.live + {ConnectionId(h.next)}, h.joined) }

  function Disconnected(h: Hub, id: string): Hub {
    Hub(h.next, h.live - {id}, set p | p in h.joined && p.1 != id)
  }

  /** Room names are stripped; a blank one is no room. */
  predicate CanJoin(h: Hub, room: string, id: string) { id in h.live && Strip(room) != "" }

  function Joined(h: Hub, room: string, id: string): Hub {
    if CanJoin(h, room, id) then h.(joined := h.joined + {(Strip(room), id)}) else h
  }

  function Left(h: Hub, room: string, id: string): Hub { h.(joined := h.joined - {(Strip(room), id)}) }

  /** Who is in the room of exactly this name. */
  function Members(h: Hub, room: string): set<string> { set p | p in h.joined && p.0 == room :: p.1 }

  function PairsOf(rooms: map<string, set<string>>): set<(string, string)> {
    set r, c | r in rooms && c in rooms[r] :: (r, c)
  }

  class InMemorySocketHub {
    var connections: set<string>
    var rooms: map<string, set<string>>
    var memberRooms: map<string, set<string>>
    var nextConnectionId: nat

    function State(): Hub
      reads this
    {
      Hub(nextConnectionId, connections, PairsOf(rooms))
    }

    /** The room and member maps mirror each other, and only live connections are in rooms with stripped names. */
    ghost predicate Valid()
      reads this
    {
      && Mirror(rooms, memberRooms)
      && (forall c :: c in memberRooms ==> c in connections)
      && (forall r :: r in rooms ==> r != "" && Strip(r) == r)
    }

    constructor ()
      ensures Valid() && State() == EMPTY
    {
      connections, rooms, memberRooms, nextConnectionId := {}, map[], map[], 1;
    }

    method Register() returns (id: string)
      requires Valid()
      modifies this
      ensures Valid() && State() == Registered(old(State())) && id == ConnectionId(old(nextConnectionId))
    {
      id := ConnectionId(nextConnectionId);
      nextConnectionId := nextConnectionId + 1;
      connections := connections + {id};
    }

    method JoinRoom(room: string, id: string) returns (ok: bool)
      requires Valid()
      modifies this
      ensures Valid() && State() == Joined(old(State()), room, id) && ok == CanJoin(old(State()), room, id)
    {
      if id !in connections {
        return false;
      }
      var normalized := Strip(room);
      if normalized == "" {
        return false;
      }
      InsertRelates(rooms, normalized, id);
      InsertRelates(memberRooms, id, normalized);
      StripTwice(room);
      ghost var before := rooms;
      rooms := Insert(rooms, normalized, id);
      memberRooms := Insert(memberRooms, id, normalized);
      SamePairs(rooms, PairsOf(before) + {(normalized, id)});
      return true;
    }

    method LeaveRoom(room: string, id: string) returns (ok: bool)
      requires Valid()
      modifies this`rooms, this`memberRooms
      ensures Valid() && State() == Left(old(State()), room, id)
      ensures ok == ((Strip(room), id) in old(State()).joined)
    {
      var normalized := Strip(room);
      if normalized == "" || normalized !in rooms || id !in rooms[normalized] {
        assert (normalized, id) !in PairsOf(rooms);
        assert State() == Left(State(), room, id);
        return false;
      }
      assert Related(rooms, normalized, id) && Related(memberRooms, id, normalized);
      DiscardRelates(rooms, normalized, id);
      DiscardRelates(memberRooms, id, normalized);
      ghost var before := rooms;
      rooms := Discard(rooms, normalized, id);
      memberRooms := Discard(memberRooms, id, normalized);
      SamePairs(rooms, PairsOf(before) - {(normalized, id)});
      return true;
    }

    method Disconnect(id: string) returns (existed: bool)
      requires Valid()
      modifies this
      ensures Valid() && State() == Disconnected(old(State()), id) && existed == (id in old(connections))
    {
      existed := id in connections;
      var todo := if id in memberRooms then memberRooms[id] else {};
      ghost var all := todo;
      assert forall r :: Related(rooms, r, id) <==> r in todo by {
        assert forall r :: Related(rooms, r, id) <==> Related(memberRooms, id, r);
      }
      while todo != {}
        invariant Valid() && todo <= all
        invariant forall r :: r in all ==> r != "" && Strip(r) == r
        invariant connections == old(connections) && nextConnectionId == old(nextConnectionId)
        invariant forall r, c :: Related(rooms, r, c) <==> Related(old(rooms), r, c) && !(c == id && r in all - todo)
        decreases todo
      {
        var room :| room in todo;
        ghost var before := rooms;
        var _ := LeaveRoom(room, id);
        OnePairLess(before, rooms, room, id);
        todo := todo - {room};
      }
      connections := connections - {id};
      assert forall r :: !Related(rooms, r, id);
      AbsentFromMirror(rooms, memberRooms, id);
      SamePairs(rooms, Disconnected(old(State()), id).joined);
    }

    /** `broadcast`: the connections that are sent the message, and how many they are. */
    method Broadcast(room: string, exclude: Option<string>) returns (sent: set<string>, delivered: nat)
      requires Valid()
      ensures sent == set c | c in Members(State(), room) && exclude != Some(c)
      ensures delivered == |sent| && sent <= connections
    {
      var members := if room in rooms then rooms[room] else {};
      assert members == Members(State(), room) by {
        forall c ensures c in members <==> c in Members(State(), room) {
          assert c in members <==> (room, c) in PairsOf(rooms);
        }
      }
      sent, delivered := {}, 0;
      var todo := members;
      while todo != {}
        invariant todo <= members && sent !! todo
        invariant sent == set c | c in members - todo && exclude != Some(c) && c in connections
        invariant delivered == |sent|
        decreases todo
      {
        var id :| id in todo;
        if exclude != Some(id) && id in connections {
          sent := sent + {id};
          delivered := delivered + 1;
        }
        todo := todo - {id};
      }
      forall c | c in members ensures c in connections {
        assert Related(rooms, room, c) && Related(memberRooms, c, room);
      }
    }
  }

  lemma SamePairs(rooms: map<string, set<string>>, pairs: set<(string, string)>)
    requires forall r, c :: Related(rooms, r, c) <==> (r, c) in pairs
    ensures PairsOf(rooms) == pairs
  {
    forall p ensures p in PairsOf(rooms) <==> p in pairs {
      assert Related(rooms, p.0, p.1) <==> (p.0, p.1) in pairs;
    }
  }

  lemma OnePairLess(before: map<string, set<string>>, after: map<string, set<string>>, room: string, id: string)
    requires PairsOf(after) == PairsOf(before) - {(room, id)}
    ensures forall r, c :: Related(after, r, c) <==> Related(before, r, c) && !(r == room && c == id)
  {
    forall r, c ensures Related(after, r, c) <==> Related(before, r, c) && !(r == room && c == id) {
      assert Related(after, r, c) <==> (r, c) in PairsOf(after);
      assert Related(before, r, c) <==> (r, c) in PairsOf(before);
    }
  }

  lemma StripTwice(s: string)
    ensures Strip(Strip(s)) == Strip(s)
  {
    var before, after := StripCutsWhitespace(s);
  }

  // ---- Whole runs ----

  datatype Event = Register | Disconnect(id: string) | Join(room: string, id: string) | Leave(room: string, id: string)

  /** A run of the hub, the last event outermost. */
  datatype History = Start | Then(before: History, event: Event)

  function After(h: History): Hub {
    match h
    case Start => EMPTY
    case Then(before, event) =>
      var hub := After(before);
      match event
      case Register => Registered(hub)
      case Disconnect(id) => Disconnected(hub, id)
      case Join(room, id) => Joined(hub, room, id)
      case Leave(room, id) => Left(hub, room, id)
  }

  predicate Extends(h: History, past: History) { h == past || (h.Then? && Extends(h.before, past)) }

  /** Ids in use were given out before; ids are never given out twice. */
  lemma {:induction false} IdsAreOld(h: History, id: string)
    ensures var hub := After(h);
            && (id in hub.live ==> exists n: nat :: n < hub.next && id == ConnectionId(n))
            && (forall p :: p in hub.joined ==> p.1 in hub.live && p.0 != "" && Strip(p.0) == p.0)
  {
    if h.Then? {
      IdsAreOld(h.before, id);
      if h.event.Join? {
        StripTwice(h.event.room);
      }
    }
  }

  lemma ConnectionIdsDiffer(m: nat, n: nat)
    requires ConnectionId(m) == ConnectionId(n)
    ensures m == n
  {
    assert ConnectionId(m)[5..] == PrintNat(m) && ConnectionId(n)[5..] == PrintNat(n);
    ParsePrintNat(m);
    ParsePrintNat(n);
  }

  /** A connection that has gone is in no room, and never is again however the run goes on. */
  lemma GoneForever(past: History, h: History, id: string)
    requires past.Then? && past.event == Disconnect(id) && id in After(past.before).live && Extends(h, past)
    ensures id !in After(h).live && forall room :: id !in Members(After(h), room)
  {
    StaysGone(past, h, id);
    IdsAreOld(h, id);
  }

  lemma {:induction false} StaysGone(past: History, h: History, id: string)
    requires past.Then? && past.event == Disconnect(id) && id in After(past.before).live && Extends(h, past)
    ensures id !in After(h).live && After(h).next >= After(past).next
  {
    if h != past {
      StaysGone(past, h.before, id);
      if h.event.Register? {
        IdsAreOld(past.before, id);
        var n: nat :| n < After(past.before).next && id == ConnectionId(n);
        if id == ConnectionId(After(h.before).next) {
          ConnectionIdsDiffer(n, After(h.before).next);
        }
      }
    }
  }

  /** A name that is not stripped is the name of no room, though joining under it joins the stripped one. */
  lemma UnstrippedRoomIsEmpty(h: History, room: string)
    requires Strip(room) != room
    ensures Members(After(h), room) == {}
  {
    IdsAreOld(h, "");
  }

  // ---- Who is connected and who is in a room, read off the run ----

  /** The connections made in a run. */
  function Made(h: History): nat {
    if h.Start? then 0 else Made(h.before) + if h.event.Register? then 1 else 0
  }

  /** Since `past`, connection `id` was not disconnected. */
  predicate StaysConnected(h: History, past: History, id: string) {
    h == past || (h.Then? && h.event != Disconnect(id) && StaysConnected(h.before, past, id))
  }

  /** Since `past`, connection `id` neither was disconnected nor left the room, under whatever spelling. */
  predicate StaysIn(h: History, past: History, room: string, id: string) {
    h == past ||
    (h.Then?
     && h.event != Disconnect(id)
     && !(h.event.Leave? && h.event.id == id && Strip(h.event.room) == room)
     && StaysIn(h.before, past, room, id))
  }

  /** `past` ends with making the connection `id`: the n-th connection is `conn-n`. */
  predicate Makes(past: History, id: string) {
    past.Then? && past.event.Register? && id == "conn-" + PrintNat(Made(past))
  }

  lemma {:induction false} NextIsMade(h: History)
    ensures After(h).next == Made(h) + 1
  {
    if h.Then? {
      NextIsMade(h.before);
    }
  }

  /** A connection is live exactly when it was made and was not disconnected since. */
  lemma {:induction false} LiveExactly(h: History, id: string)
    ensures id in After(h).live <==> exists past :: Makes(past, id) && StaysConnected(h, past, id)
  {
    if h.Then? {
      LiveExactly(h.before, id);
      NextIsMade(h.before);
      if Makes(h, id) {
        assert StaysConnected(h, h, id);
      }
      if id in After(h.before).live && h.event != Disconnect(id) {
        var past :| Makes(past, id) && StaysConnected(h.before, past, id);
        assert StaysConnected(h, past, id);
      }
    }
  }

  /** `past` ends with connection `id`, which is live, joining the room, under whatever spelling. */
  predicate Joins(past: History, room: string, id: string) {
    && past.Then? && past.event.Join? && past.event.id == id && Strip(past.event.room) == room
    && room != "" && id in After(past.before).live
  }

  /** A connection is in a room exactly when it joined it while live and neither left nor went since. */
  lemma {:induction false} MemberExactly(h: History, room: string, id: string)
    ensures id in Members(After(h), room) <==> exists past :: Joins(past, room, id) && StaysIn(h, past, room, id)
  {
    assert id in Members(After(h), room) <==> (room, id) in After(h).joined;
    if h.Then? {
      MemberExactly(h.before, room, id);
      assert id in Members(After(h.before), room) <==> (room, id) in After(h.before).joined;
      if Joins(h, room, id) {
        assert StaysIn(h, h, room, id);
      }
      if id in Members(After(h.before), room) && id in Members(After(h), room) && !Joins(h, room, id) {
        var past :| Joins(past, room, id) && StaysIn(h.before, past, room, id);
        assert StaysIn(h, past, room, id);
      }
    }
  }
}
