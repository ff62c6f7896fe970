/**
 What a room server receives from the gate server: the envelopes that DealWithData writes to a room's socket
 (gate_server/user_info_list.cpp:86-115), over whole runs of a connection and for any number of connections whose
 writes are interleaved.
 */
module Forwarding {
  import opened Bytes
  import opened Framing
  import opened Packs
  import opened Receivers
  import opened GateBounds

  /** A client packet cut off for the user with this key, and the rooms known then. */
  datatype Routed = Routed(key: int32, packet: Packet, rooms: map<int32, int>)

  // Packets that can have been cut off.
  predicate Cut(rs: seq<Routed>) {
    forall r | r in rs :: WellFormed(Client, r.packet) && Size(r.packet) <= READ
  }

  function RouteEach(rs: seq<Routed>): seq<Action>
    requires Cut(rs)
  {
    if rs == [] then [] else
      assert rs[0] in rs;
      Route(rs[0].rooms, rs[0].key, rs[0].packet) + RouteEach(rs[1..])
  }

  /** The bytes written to a socket, in order. */
  function BytesTo(sock: int, acts: seq<Action>): seq<byte> {
    if acts == [] then []
    else (if acts[0].Forward? && acts[0].sock == sock then acts[0].bytes else []) + BytesTo(sock, acts[1..])
  }

  /** The packets whose room has this socket. */
  function ForRoom(sock: int, rs: seq<Routed>): seq<Routed> {
    if rs == [] then []
    else (if rs[0].packet.word0 in rs[0].rooms && rs[0].rooms[rs[0].packet.word0] == sock then [rs[0]] else [])
         + ForRoom(sock, rs[1..])
  }

  /** The envelope that a room server is to get: the user's key, a gate key of 0 and the packet's own bytes. */
  function Expected(r: Routed): Packet
    requires WellFormed(Client, r.packet) && Size(r.packet) <= READ
  {
    Packet([49, 50, 51], r.key, 0, Size(r.packet), Serialize(r.packet), [52, 53, 54])
  }

  function Envelopes(rs: seq<Routed>): (es: seq<Packet>)
    requires Cut(rs)
    ensures |es| == |rs|
  {
    if rs == [] then [] else
      assert rs[0] in rs;
      [Expected(rs[0])] + Envelopes(rs[1..])
  }

  lemma {:induction false} BytesToAppend(sock: int, a: seq<Action>, b: seq<Action>)
    ensures BytesTo(sock, a + b) == BytesTo(sock, a) + BytesTo(sock, b)
  {
    if a == [] {
      assert a + b == b;
    } else {
      DropAppend(a, b, 1);
      BytesToAppend(sock, a[1..], b);
      var now := if a[0].Forward? && a[0].sock == sock then a[0].bytes else [];
      Assoc(now, BytesTo(sock, a[1..]), BytesTo(sock, b));
    }
  }

  lemma {:induction false} ForRoomCut(sock: int, rs: seq<Routed>)
    requires Cut(rs)
    ensures Cut(ForRoom(sock, rs))
  {
    if rs != [] {
      ForRoomCut(sock, rs[1..]);
      assert rs[0] in rs;
    }
  }

  lemma {:induction false} OneRoute(sock: int, r: Routed)
    requires WellFormed(Client, r.packet) && Size(r.packet) <= READ
    ensures BytesTo(sock, Route(r.rooms, r.key, r.packet)) ==
            if r.packet.word0 in r.rooms && r.rooms[r.packet.word0] == sock then
              Serialize(Expected(r))
            else []
  {
    var acts := Route(r.rooms, r.key, r.packet);
    if acts != [] {
      assert BytesTo(sock, acts[1..]) == [] by {
        assert |acts| == 2 ==> acts[1..][1..] == [];
      }
    }
  }

  lemma {:induction false} WrittenIs(sock: int, rs: seq<Routed>)
    requires Cut(rs)
    ensures Cut(ForRoom(sock, rs))
    ensures BytesTo(sock, RouteEach(rs)) == SerializeAll(Envelopes(ForRoom(sock, rs)))
  {
    ForRoomCut(sock, rs);
    if rs != [] {
      var r, more := rs[0], rs[1..];
      assert r in rs;
      WrittenIs(sock, more);
      BytesToAppend(sock, Route(r.rooms, r.key, r.packet), RouteEach(more));
      OneRoute(sock, r);
      if r.packet.word0 in r.rooms && r.rooms[r.packet.word0] == sock {
        var e, es := Expected(r), Envelopes(ForRoom(sock, more));
        assert ForRoom(sock, rs)[1..] == ForRoom(sock, more);
        assert Envelopes(ForRoom(sock, rs)) == [e] + es;
        assert ([e] + es)[1..] == es;
      } else {
        assert ForRoom(sock, rs) == ForRoom(sock, more);
      }
    }
  }

  lemma {:induction false} EnvelopeAt(rs: seq<Routed>, i: nat)
    requires Cut(rs) && i < |rs|
    ensures var e := Envelopes(rs)[i];
            && WellFormed(Envelope, e) && e.data != []
            && e == Packet([49, 50, 51], rs[i].key, 0, Size(rs[i].packet), Serialize(rs[i].packet), [52, 53, 54])
            && Parse(Client, e.data) == Parsed(rs[i].packet)
  {
    assert rs[i] in rs;
    if i == 0 {
      ParseSerialized(Client, rs[0].packet, []);
      Unit(Serialize(rs[0].packet));
    } else {
      EnvelopeAt(rs[1..], i - 1);
    }
  }

  /**
   A room server that drains what was written to its socket gets one envelope for each packet routed to its room, in
   the order written and whoever they are from, and nothing is left over.
   */
  lemma {:induction false} RoomReceives(sock: int, rs: seq<Routed>)
    requires Cut(rs)
    ensures Cut(ForRoom(sock, rs))
    ensures Drain(Envelope, BytesTo(sock, RouteEach(rs))) == Drained(Envelopes(ForRoom(sock, rs)), [])
    ensures var mine := ForRoom(sock, rs);
            forall i | 0 <= i < |mine| ::
              && Size(mine[i].packet) <= READ
              && Envelopes(mine)[i] == Packet([49, 50, 51], mine[i].key, 0, Size(mine[i].packet), Serialize(mine[i].packet), [52, 53, 54])
              && Parse(Client, Envelopes(mine)[i].data) == Parsed(mine[i].packet)
  {
    WrittenIs(sock, rs);
    var mine := ForRoom(sock, rs);
    var es := Envelopes(mine);
    forall e | e in es ensures WellFormed(Envelope, e) && e.data != [] {
      var i :| 0 <= i < |es| && es[i] == e;
      EnvelopeAt(mine, i);
    }
    DrainOfPackets(Envelope, es);
    forall i | 0 <= i < |mine|
      ensures Size(mine[i].packet) <= READ
              && es[i] == Packet([49, 50, 51], mine[i].key, 0, Size(mine[i].packet), Serialize(mine[i].packet), [52, 53, 54])
              && Parse(Client, es[i].data) == Parsed(mine[i].packet)
    {
      assert mine[i] in mine;
      EnvelopeAt(mine, i);
    }
  }

  // ---------- everything that is done ----------

  datatype Kind = Forwards | Queries | Parks

  predicate Is(kind: Kind, a: Action) {
    match kind
    case Forwards => a.Forward?
    case Queries => a.QueryRoom?
    case Parks => a.Park?
  }

  function Only(kind: Kind, acts: seq<Action>): seq<Action> {
    if acts == [] then [] else (if Is(kind, acts[0]) then [acts[0]] else []) + Only(kind, acts[1..])
  }

  lemma {:induction false} OnlyAppend(kind: Kind, a: seq<Action>, b: seq<Action>)
    ensures Only(kind, a + b) == Only(kind, a) + Only(kind, b)
  {
    if a == [] {
      assert a + b == b;
    } else {
      DropAppend(a, b, 1);
      OnlyAppend(kind, a[1..], b);
      Assoc(if Is(kind, a[0]) then [a[0]] else [], Only(kind, a[1..]), Only(kind, b));
    }
  }

  // The packets whose room is known, and the login requests (type 6001) whose room is not.
  function Known(rs: seq<Routed>): seq<Routed> {
    if rs == [] then [] else (if rs[0].packet.word0 in rs[0].rooms then [rs[0]] else []) + Known(rs[1..])
  }

  predicate Login(r: Routed) {
    r.packet.word0 !in r.rooms && r.packet.word2 == 6001
  }

  function Logins(rs: seq<Routed>): seq<Routed> {
    if rs == [] then [] else (if Login(rs[0]) then [rs[0]] else []) + Logins(rs[1..])
  }

  // Every packet parked follows a query for its room, and every query is for the packet parked next.
  predicate Asked(acts: seq<Action>) {
    && (forall i | 0 <= i < |acts| && acts[i].Park? :: i > 0 && acts[i - 1] == QueryRoom(acts[i].room))
    && (forall i | 0 <= i < |acts| && acts[i].QueryRoom? ::
          i + 1 < |acts| && acts[i + 1].Park? && acts[i + 1].room == acts[i].room)
  }

  lemma {:induction false} AskedAppend(a: seq<Action>, b: seq<Action>)
    requires Asked(a) && Asked(b)
    ensures Asked(a + b)
  {
    var all := a + b;
    forall i | 0 <= i < |all| && all[i].Park? ensures i > 0 && all[i - 1] == QueryRoom(all[i].room) {
      if i >= |a| {
        assert b[i - |a|].Park?;
      }
    }
    forall i | 0 <= i < |all| && all[i].QueryRoom?
      ensures i + 1 < |all| && all[i + 1].Park? && all[i + 1].room == all[i].room
    {
      if i >= |a| {
        assert b[i - |a|].QueryRoom?;
      } else {
        assert a[i].QueryRoom?;
      }
    }
  }

  // What is done for packets of known rooms, and for logins to unknown ones.
  function Sends(rs: seq<Routed>): seq<Action>
    requires Cut(rs)
  {
    if rs == [] then [] else
      assert rs[0] in rs;
      (if rs[0].packet.word0 in rs[0].rooms then [Forward(rs[0].rooms[rs[0].packet.word0], Serialize(Expected(rs[0])))] else [])
      + Sends(rs[1..])
  }

  function Parked(rs: seq<Routed>): (acts: seq<Action>)
    ensures |acts| == |rs|
    ensures forall i | 0 <= i < |rs| :: acts[i] == Park(Serialize(rs[i].packet), rs[i].packet.word0, rs[i].key)
  {
    seq(|rs|, i requires 0 <= i < |rs| => Park(Serialize(rs[i].packet), rs[i].packet.word0, rs[i].key))
  }

  lemma {:induction false} OneDone(r: Routed)
    requires WellFormed(Client, r.packet) && Size(r.packet) <= READ
    ensures Cut([r])
    ensures var acts := Route(r.rooms, r.key, r.packet);
            && Only(Forwards, acts) == Sends([r])
            && Only(Parks, acts) == Parked(Logins([r]))
            && Asked(acts)
            && |acts| == |Known([r])| + 2 * |Logins([r])|
  {
    var acts := Route(r.rooms, r.key, r.packet);
    assert r in [r] && [r][1..] == [];
    Unit([r]);
    if r.packet.word0 in r.rooms {
      var a := Forward(r.rooms[r.packet.word0], Serialize(Expected(r)));
      assert acts == [a];
      OnlyOne(Forwards, a);
      OnlyOne(Parks, a);
      Unit([a]);
    } else if Login(r) {
      var q, a := QueryRoom(r.packet.word0), Park(Serialize(r.packet), r.packet.word0, r.key);
      assert acts == [q] + [a];
      OnlyAppend(Forwards, [q], [a]);
      OnlyAppend(Parks, [q], [a]);
      OnlyOne(Forwards, q);
      OnlyOne(Forwards, a);
      OnlyOne(Parks, q);
      OnlyOne(Parks, a);
      Unit([a]);
      assert Parked([r]) == [a];
    } else {
      assert acts == [];
    }
    assert Only(Parks, acts) == Parked(Logins([r]));
  }

  lemma {:induction false} OnlyOne(kind: Kind, a: Action)
    ensures Only(kind, [a]) == if Is(kind, a) then [a] else []
  {
    assert [a][1..] == [];
    Unit([a]);
  }

  lemma {:induction false} OneOf(r: Routed)
    requires Cut([r])
    ensures r in [r]
    ensures Known([r]) == if r.packet.word0 in r.rooms then [r] else []
    ensures Logins([r]) == if Login(r) then [r] else []
    ensures Sends([r]) == if r.packet.word0 in r.rooms then [Forward(r.rooms[r.packet.word0], Serialize(Expected(r)))] else []
  {
    assert [r][1..] == [];
    assert r in [r];
    Unit(if r.packet.word0 in r.rooms then [r] else []);
    Unit(if Login(r) then [r] else []);
    Unit(if r.packet.word0 in r.rooms then [Forward(r.rooms[r.packet.word0], Serialize(Expected(r)))] else []);
  }

  lemma {:induction false} ConsDone(r: Routed, more: seq<Routed>)
    requires Cut([r]) && Cut(more)
    ensures Cut([r] + more)
    ensures RouteEach([r] + more) == Route(r.rooms, r.key, r.packet) + RouteEach(more)
    ensures Sends([r] + more) == Sends([r]) + Sends(more)
    ensures Known([r] + more) == Known([r]) + Known(more)
    ensures Logins([r] + more) == Logins([r]) + Logins(more)
    ensures Parked(Logins([r] + more)) == Parked(Logins([r])) + Parked(Logins(more))
  {
    OneOf(r);
    assert ([r] + more)[0] == r && ([r] + more)[1..] == more;
    ParkedAppend(Logins([r]), Logins(more));
  }

  lemma {:induction false} ParkedAppend(a: seq<Routed>, b: seq<Routed>)
    ensures Parked(a + b) == Parked(a) + Parked(b)
  {}

  /**
   For any packets cut off, from any number of connections: those whose room is known are forwarded to it, in order;
   the logins to unknown rooms are parked, in order, each with its bytes, its room and its connection's
   key, right after a query for that room; and nothing else is done.
   */
  lemma {:induction false} AllDone(rs: seq<Routed>)
    requires Cut(rs)
    ensures var acts := RouteEach(rs);
            && Only(Forwards, acts) == Sends(rs)
            && Only(Parks, acts) == Parked(Logins(rs))
            && Asked(acts)
            && |acts| == |Known(rs)| + 2 * |Logins(rs)|
  {
    if rs == [] {
      assert Parked([]) == [];
    } else {
      var r, more := rs[0], rs[1..];
      assert r in rs;
      HeadTail(rs);
      AllDone(more);
      OneDone(r);
      ConsDone(r, more);
      OnlyAppend(Forwards, Route(r.rooms, r.key, r.packet), RouteEach(more));
      OnlyAppend(Parks, Route(r.rooms, r.key, r.packet), RouteEach(more));
      AskedAppend(Route(r.rooms, r.key, r.packet), RouteEach(more));
    }
  }

  // ---------- whole runs of one connection ----------

  /** A read, and the rooms known while its packets are cut off. */
  datatype Received = Received(chunk: seq<byte>, rooms: map<int32, int>)

  function Chunks(received: seq<Received>): (cs: seq<seq<byte>>)
    ensures |cs| == |received| && forall i | 0 <= i < |received| :: cs[i] == received[i].chunk
  {
    seq(|received|, i requires 0 <= i < |received| => received[i].chunk)
  }

  function CutNow(r: Reader, chunk: seq<byte>): seq<Packet> {
    GateDrain(Gathered(r.residue, chunk)).packets
  }

  /** The actions of UserInfoEx.DealWithData, read after read. */
  function RunActions(key: int32, r: Reader, received: seq<Received>): seq<Action>
    decreases |received|
  {
    if received == [] then []
    else RouteAll(received[0].rooms, key, CutNow(r, received[0].chunk)) + RunActions(key, GateRead(r, received[0].chunk), received[1..])
  }

  function Each(key: int32, rooms: map<int32, int>, ps: seq<Packet>): (rs: seq<Routed>)
    ensures |rs| == |ps| && forall i | 0 <= i < |ps| :: rs[i] == Routed(key, ps[i], rooms)
  {
    seq(|ps|, i requires 0 <= i < |ps| => Routed(key, ps[i], rooms))
  }

  function RunRouted(key: int32, r: Reader, received: seq<Received>): seq<Routed>
    decreases |received|
  {
    if received == [] then []
    else Each(key, received[0].rooms, CutNow(r, received[0].chunk)) + RunRouted(key, GateRead(r, received[0].chunk), received[1..])
  }

  function Packets(rs: seq<Routed>): (ps: seq<Packet>)
    ensures |ps| == |rs| && forall i | 0 <= i < |rs| :: ps[i] == rs[i].packet
  {
    seq(|rs|, i requires 0 <= i < |rs| => rs[i].packet)
  }

  lemma {:induction false} GateCuts(b: seq<byte>)
    ensures forall p | p in GateDrain(b).packets :: WellFormed(Client, p) && |Serialize(p)| == Size(p) <= READ
    decreases |b|
  {
    if OVERHEAD < |b| && Parse(Client, b).Parsed? {
      SerializeParsed(Client, b);
      var p := Parse(Client, b).packet;
      if Size(p) <= READ {
        GateCuts(Shifted(b, Size(p)));
      }
    }
  }

  lemma {:induction false} EachRouted(key: int32, rooms: map<int32, int>, ps: seq<Packet>)
    requires forall p | p in ps :: WellFormed(Client, p) && |Serialize(p)| == Size(p) <= READ
    ensures Cut(Each(key, rooms, ps)) && RouteEach(Each(key, rooms, ps)) == RouteAll(rooms, key, ps)
  {
    if ps != [] {
      EachRouted(key, rooms, ps[1..]);
      assert ps[0] in ps;
      assert Each(key, rooms, ps)[1..] == Each(key, rooms, ps[1..]);
    }
  }

  lemma {:induction false} RouteEachAppend(a: seq<Routed>, b: seq<Routed>)
    requires Cut(a) && Cut(b)
    ensures Cut(a + b) && RouteEach(a + b) == RouteEach(a) + RouteEach(b)
  {
    if a == [] {
      assert a + b == b;
    } else {
      DropAppend(a, b, 1);
      RouteEachAppend(a[1..], b);
      assert a[0] in a;
      Assoc(Route(a[0].rooms, a[0].key, a[0].packet), RouteEach(a[1..]), RouteEach(b));
    }
  }

  lemma {:induction false} RunRoutes(key: int32, r: Reader, received: seq<Received>)
    ensures Cut(RunRouted(key, r, received)) && RunActions(key, r, received) == RouteEach(RunRouted(key, r, received))
    ensures forall x | x in RunRouted(key, r, received) :: x.key == key
    decreases |received|
  {
    if received != [] {
      var ps, r' := CutNow(r, received[0].chunk), GateRead(r, received[0].chunk);
      GateCuts(Gathered(r.residue, received[0].chunk));
      EachRouted(key, received[0].rooms, ps);
      RunRoutes(key, r', received[1..]);
      RouteEachAppend(Each(key, received[0].rooms, ps), RunRouted(key, r', received[1..]));
    }
  }

  lemma {:induction false} EachThenMore(key: int32, rooms: map<int32, int>, ps: seq<Packet>, more: seq<Routed>)
    ensures Packets(Each(key, rooms, ps) + more) == ps + Packets(more)
  {}

  lemma {:induction false} RunDelivers(key: int32, r: Reader, received: seq<Received>)
    ensures GateReadAll(r, Chunks(received)).delivered == r.delivered + Packets(RunRouted(key, r, received))
    decreases |received|
  {
    if received == [] {
      Unit(r.delivered);
    } else {
      var ps, r' := CutNow(r, received[0].chunk), GateRead(r, received[0].chunk);
      RunDelivers(key, r', received[1..]);
      assert Chunks(received)[1..] == Chunks(received[1..]);
      var more := RunRouted(key, r', received[1..]);
      EachThenMore(key, received[0].rooms, ps, more);
      Assoc(r.delivered, ps, Packets(more));
    }
  }

  /**
   From the client's stream to the room server's packets: over every run of a connection within the sizes that the gate
   server cuts right, whichever rooms are known at each read, the packets routed are those of the stream, and what is
   written to a room's socket drains to one envelope for each packet of that room, with the user's key
   and, as its data, bytes that parse to the packet.
   */
  lemma {:induction false} StreamReachesRooms(key: int32, received: seq<Received>, ps: seq<Packet>, longest: nat, read: nat, sock: int)
    requires OVERHEAD < longest <= READ && GateRight(longest, read) && GateBounds.Within(ps, Chunks(received), longest, read)
    ensures Packets(RunRouted(key, Reader([], []), received)) <= ps
    ensures Packets(RunRouted(key, Reader([], []), received)) == Drain(Client, Concat(Chunks(received))).packets
    ensures var mine := ForRoom(sock, RunRouted(key, Reader([], []), received));
            && Cut(mine)
            && Drain(Envelope, BytesTo(sock, RunActions(key, Reader([], []), received))) == Drained(Envelopes(mine), [])
            && forall i | 0 <= i < |mine| ::
                 && Size(mine[i].packet) <= READ
                 && Envelopes(mine)[i] == Packet([49, 50, 51], key, 0, Size(mine[i].packet), Serialize(mine[i].packet), [52, 53, 54])
                 && Parse(Client, Envelopes(mine)[i].data) == Parsed(mine[i].packet)
  {
    var r := Reader([], []);
    var rs := RunRouted(key, r, received);
    var mine := ForRoom(sock, rs);
    Unit(Concat(Chunks(received)));
    RunRight(r, [], Chunks(received), ps, longest, read);
    RunDelivers(key, r, received);
    Unit(Packets(rs));
    RunRoutes(key, r, received);
    RoomReceives(sock, rs);
    forall i | 0 <= i < |mine| ensures mine[i].key == key {
      ForRoomIn(sock, rs, mine[i]);
    }
  }

  /** The same for everything a connection's reads make the gate server do, whatever the sizes. */
  lemma {:induction false} RunDone(key: int32, received: seq<Received>)
    ensures var rs := RunRouted(key, Reader([], []), received);
            var acts := RunActions(key, Reader([], []), received);
            && Cut(rs) && (forall r | r in rs :: r.key == key)
            && Packets(rs) == GateReadAll(Reader([], []), Chunks(received)).delivered
            && Only(Forwards, acts) == Sends(rs)
            && Only(Parks, acts) == Parked(Logins(rs))
            && Asked(acts)
            && |acts| == |Known(rs)| + 2 * |Logins(rs)|
  {
    RunRoutes(key, Reader([], []), received);
    RunDelivers(key, Reader([], []), received);
    Unit(Packets(RunRouted(key, Reader([], []), received)));
    AllDone(RunRouted(key, Reader([], []), received));
  }

  lemma {:induction false} ForRoomIn(sock: int, rs: seq<Routed>, r: Routed)
    requires r in ForRoom(sock, rs)
    ensures r in rs
  {
    if rs != [] && r != rs[0] {
      ForRoomIn(sock, rs[1..], r);
    }
  }
}
