/**
 The whole way of a login request for a room that is not known yet: cut off by the gate server's receive buffer,
 parked with its sender's key, and sent on by the worker once the room is resolved.
 */
module LoginPath {
  import opened Bytes
  import opened Framing
  import opened Packs
  import opened SlotRing
  import opened Receivers
  import Forwarding
  import Parking

  // What the connections parked is what the parking machine was handed, in order.
  ghost predicate HandsOver(acts: seq<Action>, es: seq<Parking.Event>) {
    var parks, handed := Forwarding.Only(Forwarding.Parks, acts), Parking.Handed(es);
    && |parks| == |handed|
    && forall i | 0 <= i < |parks| :: parks[i].Park? && handed[i] == Parking.Park(parks[i].bytes, parks[i].room, parks[i].key)
  }

  lemma {:induction false} HandedIsLogin(rs: seq<Forwarding.Routed>, es: seq<Parking.Event>, i: nat)
    requires Forwarding.Cut(rs) && HandsOver(Forwarding.RouteEach(rs), es) && i < |Parking.Handed(es)|
    ensures i < |Forwarding.Logins(rs)|
    ensures var r := Forwarding.Logins(rs)[i];
            Parking.Handed(es)[i] == Parking.Park(Serialize(r.packet), r.packet.word0, r.key)
  {
    Forwarding.AllDone(rs);
  }

  lemma {:induction false} LoginsIn(rs: seq<Forwarding.Routed>, r: Forwarding.Routed)
    requires r in Forwarding.Logins(rs)
    ensures r in rs && r.packet.word2 == 6001 && r.packet.word0 !in r.rooms
  {
    if rs != [] && r !in Forwarding.Logins(rs[1..]) {
      assert r == rs[0];
    } else if rs != [] {
      LoginsIn(rs[1..], r);
    }
  }

  // The ring's copy leaves the header of a packet alone.
  lemma {:induction false} HeaderKept(msg: seq<byte>)
    requires 22 <= |msg|
    ensures Parking.BytesIn(Stored(msg))[3..7] == msg[3..7]
  {
    var got, want := Parking.BytesIn(Stored(msg))[3..7], msg[3..7];
    forall i | 0 <= i < 4 ensures got[i] == want[i] {
      assert Stored(msg)[3 + i] == msg[3 + i];
    }
  }

  lemma {:induction false} NamedRoom(b: seq<byte>, room: int32)
    requires Parking.Names(b, room)
    ensures 18 <= |b| && IntAt(b, 3, room)
  {
    ParsedIff(Client, b, Parse(Client, b).packet);
  }

  lemma {:induction false} RoomKept(p: Packet, msg: seq<byte>, room: int32)
    requires WellFormed(Client, p) && |msg| == Size(p) + 4 && msg[..Size(p)] == Serialize(p)
    requires Parking.Names(Parking.BytesIn(Stored(msg)), room)
    ensures room == p.word0
  {
    var b := Parking.BytesIn(Stored(msg));
    NamedRoom(b, room);
    SerializedLies(p);
    HeaderKept(msg);
    assert msg[..Size(p)][3..7] == msg[3..7];
    GetIntIff(b, 3, room);
    GetIntIff(Serialize(p), 3, p.word0);
  }

  lemma {:induction false} KeptWhole(p: Packet, key: int32, room: int32, msg: seq<byte>, f: Parking.Sent)
    requires WellFormed(Client, p) && Size(p) + 4 <= SLOT
    requires Parking.MessageOf(msg, Parking.Park(Serialize(p), room, key))
    requires f.key == Parking.KeyIn(Stored(msg)) && f.bytes == Parking.BytesIn(Stored(msg))
    ensures f.key == key && f.bytes == Serialize(p) && Parse(Client, f.bytes) == Parsed(p)
  {
    StoredIntactIff(|msg|);
    assert Stored(msg) == msg;
    var n := |Serialize(p)|;
    assert msg[n..n + 4] == msg[n..];
    GetIntIff(msg, n, key);
    ParseSerialized(Client, p, []);
    Unit(Serialize(p));
  }

  /**
   Over every run of any connections' reads and of the parking machine they feed: whatever is sent on is one of the
   logins that were cut off for a room not known then. It goes to the room it names and, if packet and key fit a
   slot, carries its sender's key and its own bytes, which parse to the packet cut off.
   */
  lemma {:induction false} LoginReachesRoom(rs: seq<Forwarding.Routed>, capacity: nat, es: seq<Parking.Event>, f: Parking.Sent)
    requires Forwarding.Cut(rs) && HandsOver(Forwarding.RouteEach(rs), es)
    requires f in Parking.Run(Parking.Start(capacity), es).forwarded
    ensures f.id < |Forwarding.Logins(rs)|
    ensures var r := Forwarding.Logins(rs)[f.id];
            && r in rs && r.packet.word2 == 6001 && r.packet.word0 !in r.rooms
            && f.room == r.packet.word0
            && (Size(r.packet) + 4 <= 0x1000 ==>
                  f.key == r.key && f.bytes == Serialize(r.packet) && Parse(Client, f.bytes) == Parsed(r.packet))
  {
    var s := Parking.Run(Parking.Start(capacity), es);
    Parking.RunFaithful(Parking.Start(capacity), es);
    Parking.SentToOwnRoom(Parking.Start(capacity), es);
    Parking.OriginalIs(capacity, es);
    HandedIsLogin(rs, es, f.id);
    var r := Forwarding.Logins(rs)[f.id];
    assert r in Forwarding.Logins(rs);
    LoginsIn(rs, r);
    assert |Serialize(r.packet)| == Size(r.packet);
    RoomKept(r.packet, s.original[f.id], f.room);
    if Size(r.packet) + 4 <= SLOT {
      KeptWhole(r.packet, r.key, r.packet.word0, s.original[f.id], f);
    }
  }

  /** And if the ring never overflows, every login cut off stays queued, in hand, sent on or discarded: none is lost. */
  lemma {:induction false} NoLoginLost(rs: seq<Forwarding.Routed>, capacity: nat, es: seq<Parking.Event>, id: nat)
    requires Forwarding.Cut(rs) && HandsOver(Forwarding.RouteEach(rs), es) && id < |Forwarding.Logins(rs)|
    requires Parking.FitsThroughout(Parking.Start(capacity), es)
    ensures var s := Parking.Run(Parking.Start(capacity), es);
            && s.lost == [] && s.Places(id) == 1
  {
    Forwarding.AllDone(rs);
    Parking.OriginalIs(capacity, es);
    Parking.StartAccounted(capacity);
    Parking.RunAccounts(Parking.Start(capacity), es);
    Parking.NothingLost(Parking.Start(capacity), es);
  }
}
