/**
 The parking of login packets whose chat room is not known yet, as a state machine over the steps of
 gate_server/cl_processor.cpp. A packet waits in a slot ring, followed by the four bytes of its sender's key;
 one worker takes it, looks at the room under the list lock, and either queues it again or sends it on.
 */
module Parking {
  import opened Bytes
  import opened Options
  import opened SlotRing
  import opened Framing
  import opened Packs

  // The size of the buffers on both sides of the ring.
  const BUFF := 0x2000

  /** One parked message, and which packet it is. */
  datatype Parked = Parked(id: nat, msg: seq<byte>)

  function MsgOf(bytes: seq<byte>, key: int32): seq<byte> {
    bytes + PutInt(key)
  }

  function KeyIn(msg: seq<byte>): int32
    requires 4 <= |msg|
  {
    GetInt(msg[|msg| - 4..])
  }

  function BytesIn(msg: seq<byte>): seq<byte>
    requires 4 <= |msg|
  {
    msg[..|msg| - 4]
  }

  datatype Sent = Sent(id: nat, room: int32, sock: int, key: int32, bytes: seq<byte>)

  /** What the worker holds between its atomic steps. */
  datatype Hand = Nothing | Taken(p: Parked, room: int32) | Waits(p: Parked, room: int32) | Goes(p: Parked, room: int32)

  datatype State = State(
    capacity: nat,
    queue: seq<Parked>,
    pending: set<int32>,
    hand: Hand,
    original: seq<seq<byte>>,  // the message of every packet stored so far, by id
    forwarded: seq<Sent>,
    discarded: seq<nat>,       // unreadable, room unknown after all, or not written
    lost: seq<nat>)            // the ring was full, or the packet too long for it
  {
    function Ring(): Ring {
      SlotRing.Ring(capacity, Msgs(queue))
    }

    // How often packet `id` is somewhere.
    ghost function Places(id: nat): nat {
      multiset(Ids(queue))[id]
      + (if hand.Nothing? || hand.p.id != id then 0 else 1)
      + multiset(SentIds(forwarded))[id]
      + multiset(discarded)[id]
      + multiset(lost)[id]
    }

    // The slots taken by what is queued and by what is in hand.
    function Load(): nat {
      Used(Msgs(queue)) + (if hand.Nothing? then 0 else SlotCount(|hand.p.msg|))
    }
  }

  function Msgs(q: seq<Parked>): (r: seq<seq<byte>>)
    ensures |r| == |q|
    ensures forall i | 0 <= i < |q| :: r[i] == q[i].msg
  {
    seq(|q|, i requires 0 <= i < |q| => q[i].msg)
  }

  function Ids(q: seq<Parked>): (r: seq<nat>)
    ensures |r| == |q|
    ensures forall i | 0 <= i < |q| :: r[i] == q[i].id
  {
    seq(|q|, i requires 0 <= i < |q| => q[i].id)
  }

  function SentIds(q: seq<Sent>): (r: seq<nat>)
    ensures |r| == |q|
    ensures forall i | 0 <= i < |q| :: r[i] == q[i].id
  {
    seq(|q|, i requires 0 <= i < |q| => q[i].id)
  }

  datatype Event =
    | Park(bytes: seq<byte>, room: int32, key: int32)
    | DeleteRoom(room: int32)
    | Take
    | Check
    | Requeue
    | Finish(sock: Option<int>, writeOk: bool)

  /** AddBuffer, for the message of packet p. */
  function Enqueue(s: State, p: Parked): State {
    if s.Ring().HasRoom(|p.msg|) then
      s.(queue := s.queue + [p.(msg := Stored(p.msg))])
    else
      s.(lost := s.lost + [p.id])
  }

  /** Only a room with a number other than 0 counts as pending: its own number is the mark in the list. */
  function Mark(pending: set<int32>, room: int32): set<int32> {
    if room == 0 then pending else pending + {room}
  }

  function Step(s: State, e: Event): State {
    match e
    case Park(bytes, room, key) =>
      var id, msg := |s.original|, MsgOf(bytes, key);
      var s1 := s.(pending := Mark(s.pending, room), original := s.original + [msg]);
      if |bytes| < BUFF - 4 then Enqueue(s1, Parked(id, msg)) else s1.(lost := s.lost + [id])
    case DeleteRoom(room) =>
      s.(pending := s.pending - {room})
    case Take =>
      if s.hand.Nothing? && s.Ring().CanTake(BUFF) then
        var p, s1 := s.queue[0], s.(queue := s.queue[1..]);
        match Parse(Client, if 4 <= |p.msg| then BytesIn(p.msg) else [])
        case Parsed(packet) => s1.(hand := Taken(p, packet.word0))
        case _ => s1.(discarded := s.discarded + [p.id])
      else
        s
    case Check =>
      if s.hand.Taken? then
        s.(hand := if s.hand.room in s.pending then Waits(s.hand.p, s.hand.room) else Goes(s.hand.p, s.hand.room))
      else
        s
    case Requeue =>
      if s.hand.Waits? then Enqueue(s.(hand := Nothing), s.hand.p) else s
    case Finish(sock, writeOk) =>
      if s.hand.Goes? && 4 <= |s.hand.p.msg| then
        var p := s.hand.p;
        if sock.Some? && writeOk then
          s.(hand := Nothing,
             forwarded := s.forwarded + [Sent(p.id, s.hand.room, sock.value, KeyIn(p.msg), BytesIn(p.msg))])
        else
          s.(hand := Nothing, discarded := s.discarded + [p.id])
      else
        s
  }

  function Run(s: State, es: seq<Event>): State
    decreases |es|
  {
    if es == [] then s else Run(Step(s, es[0]), es[1..])
  }

  function Start(capacity: nat): State {
    State(capacity, [], {}, Nothing, [], [], [], [])
  }

  // ---------- conservation ----------

  /** Every stored packet is in exactly one place, and nothing else is anywhere. */
  ghost predicate Accounted(s: State) {
    forall id: nat :: s.Places(id) == if id < |s.original| then 1 else 0
  }

  lemma {:induction false} IdsSnoc(q: seq<Parked>, p: Parked)
    ensures multiset(Ids(q + [p])) == multiset(Ids(q)) + multiset{p.id}
  {
    assert Ids(q + [p]) == Ids(q) + [p.id];
  }

  lemma {:induction false} IdsTail(q: seq<Parked>)
    requires q != []
    ensures multiset(Ids(q)) == multiset{q[0].id} + multiset(Ids(q[1..]))
  {
    assert Ids(q) == [q[0].id] + Ids(q[1..]);
  }

  lemma {:induction false} SentIdsSnoc(q: seq<Sent>, p: Sent)
    ensures multiset(SentIds(q + [p])) == multiset(SentIds(q)) + multiset{p.id}
  {
    assert SentIds(q + [p]) == SentIds(q) + [p.id];
  }

  lemma {:induction false} EnqueueMoves(s: State, p: Parked, id: nat)
    ensures Enqueue(s, p).Places(id) == s.Places(id) + if id == p.id then 1 else 0
  {
    IdsSnoc(s.queue, p.(msg := Stored(p.msg)));
  }

  lemma {:induction false} ParkMoves(s: State, bytes: seq<byte>, room: int32, key: int32, id: nat)
    ensures Step(s, Park(bytes, room, key)).Places(id) == s.Places(id) + if id == |s.original| then 1 else 0
  {
    var s1 := s.(pending := Mark(s.pending, room), original := s.original + [MsgOf(bytes, key)]);
    assert s1.Places(id) == s.Places(id);
    EnqueueMoves(s1, Parked(|s.original|, MsgOf(bytes, key)), id);
  }

  lemma {:induction false} TakeMoves(s: State, id: nat)
    ensures Step(s, Take).Places(id) == s.Places(id)
  {
    if s.queue != [] {
      IdsTail(s.queue);
    }
  }

  lemma {:induction false} RequeueMoves(s: State, id: nat)
    ensures Step(s, Requeue).Places(id) == s.Places(id)
  {
    if s.hand.Waits? {
      EnqueueMoves(s.(hand := Nothing), s.hand.p, id);
    }
  }

  lemma {:induction false} FinishMoves(s: State, sock: Option<int>, writeOk: bool, id: nat)
    ensures Step(s, Finish(sock, writeOk)).Places(id) == s.Places(id)
  {
    if s.hand.Goes? && 4 <= |s.hand.p.msg| && sock.Some? {
      SentIdsSnoc(s.forwarded, Sent(s.hand.p.id, s.hand.room, sock.value, KeyIn(s.hand.p.msg), BytesIn(s.hand.p.msg)));
    }
  }

  lemma {:induction false} StepMoves(s: State, e: Event, id: nat)
    ensures Step(s, e).Places(id) == s.Places(id) + if e.Park? && id == |s.original| then 1 else 0
  {
    match e
    case Park(bytes, room, key) => ParkMoves(s, bytes, room, key, id);
    case DeleteRoom(_) =>
    case Take => TakeMoves(s, id);
    case Check =>
    case Requeue => RequeueMoves(s, id);
    case Finish(sock, writeOk) => FinishMoves(s, sock, writeOk, id);
  }

  /**
   Parked-packet conservation: in every run each stored packet is in exactly one of the queue, the worker's
   hand, forwarded, discarded or lost; in particular it is forwarded at most once.
   */
  lemma {:induction false} RunAccounts(s: State, es: seq<Event>)
    requires Accounted(s)
    ensures Accounted(Run(s, es))
    decreases |es|
  {
    if es != [] {
      forall id: nat ensures Step(s, es[0]).Places(id) == if id < |Step(s, es[0]).original| then 1 else 0 {
        StepMoves(s, es[0], id);
      }
      RunAccounts(Step(s, es[0]), es[1..]);
    }
  }

  lemma {:induction false} StartAccounted(capacity: nat)
    ensures Accounted(Start(capacity))
  {}

  // ---------- contents ----------

  /** Every message queued, held or sent is what one pass through the ring makes of the original. */
  ghost predicate Faithful(s: State) {
    && (forall p | p in s.queue :: p.id < |s.original| && p.msg == Stored(s.original[p.id]))
    && (!s.hand.Nothing? ==> s.hand.p.id < |s.original| && s.hand.p.msg == Stored(s.original[s.hand.p.id]))
    && (forall f | f in s.forwarded :: f.id < |s.original| && 4 <= |s.original[f.id]|
          && f.key == KeyIn(Stored(s.original[f.id])) && f.bytes == BytesIn(Stored(s.original[f.id])))
  }

  lemma {:induction false} EnqueueFaithful(s: State, p: Parked)
    requires Faithful(s) && p.id < |s.original|
    requires Stored(p.msg) == Stored(s.original[p.id])
    ensures Faithful(Enqueue(s, p))
  {}

  lemma {:induction false} OriginalGrows(s: State, msg: seq<byte>, pending: set<int32>)
    requires Faithful(s)
    ensures Faithful(s.(pending := pending, original := s.original + [msg]))
  {}

  lemma {:induction false} StepFaithful(s: State, e: Event)
    requires Faithful(s)
    ensures Faithful(Step(s, e))
  {
    match e
    case Park(bytes, room, key) =>
      var msg := MsgOf(bytes, key);
      OriginalGrows(s, msg, Mark(s.pending, room));
      EnqueueFaithful(s.(pending := Mark(s.pending, room), original := s.original + [msg]), Parked(|s.original|, msg));
    case DeleteRoom(_) =>
    case Take =>
      if s.queue != [] {
        assert s.queue[0] in s.queue;
      }
    case Check =>
    case Requeue =>
      if s.hand.Waits? {
        StoredIdempotent(s.original[s.hand.p.id]);
        EnqueueFaithful(s.(hand := Nothing), s.hand.p);
      }
    case Finish(_, _) =>
  }

  lemma {:induction false} RunFaithful(s: State, es: seq<Event>)
    requires Faithful(s)
    ensures Faithful(Run(s, es))
    decreases |es|
  {
    if es != [] {
      StepFaithful(s, es[0]);
      RunFaithful(Step(s, es[0]), es[1..]);
    }
  }

  lemma {:induction false} MsgParts(bytes: seq<byte>, key: int32)
    ensures BytesIn(MsgOf(bytes, key)) == bytes && KeyIn(MsgOf(bytes, key)) == key
  {
    GetAfterPut(key);
    assert MsgOf(bytes, key)[|bytes|..] == PutInt(key);
  }

  lemma {:induction false} ParkedIntact(bytes: seq<byte>, key: int32)
    requires |bytes| + 4 <= SLOT
    ensures BytesIn(Stored(MsgOf(bytes, key))) == bytes && KeyIn(Stored(MsgOf(bytes, key))) == key
  {
    StoredIntactIff(|bytes| + 4);
    MsgParts(bytes, key);
  }

  /** Every longer client packet has senders whose key it loses: its last byte is overwritten by one of the packet's. */
  lemma {:induction false} KeyDamaged(p: Packet) returns (key: int32)
    requires WellFormed(Client, p) && SLOT < Size(p) + 4
    ensures KeyIn(Stored(MsgOf(Serialize(p), key))) != key
  {
    var bytes := Serialize(p);
    assert |bytes| == Size(p);
    var last := |bytes| + 3;
    var at := last % SLOT;
    assert at < |bytes|;
    key := if bytes[at] == 0 then -1 else 0;
    var m := MsgOf(bytes, key);
    assert m[last] == PutInt(key)[3] != bytes[at];
    assert Stored(m)[last] == m[at] == bytes[at];
    assert Stored(m)[|m| - 4..][3] == Stored(m)[last];
    if KeyIn(Stored(m)) == key {
      PutAfterGet(Stored(m)[|m| - 4..]);
    }
  }

  /**
   However often it was queued again, every client packet of a size is sent on with its own bytes and its own
   sender's key exactly when it leaves room for the four key bytes in one slot; up to 0x1000 bytes are parked.
   */
  lemma {:induction false} ParkedIntactIff(len: nat)
    requires 18 <= len <= MAX_INT
    ensures (forall p: Packet, key: int32 | WellFormed(Client, p) && Size(p) == len :: Recovered(p, key))
            <==> len + 4 <= 0x1000
  {
    if len + 4 <= SLOT {
      forall p: Packet, key: int32 | WellFormed(Client, p) && Size(p) == len ensures Recovered(p, key) {
        ParkedIntact(Serialize(p), key);
      }
    } else {
      var p := Packet(HEAD, 0, len - OVERHEAD, 0, seq(len - OVERHEAD, _ => 0), TAIL);
      assert WellFormed(Client, p) && Size(p) == len;
      var key := KeyDamaged(p);
      assert !Recovered(p, key);
    }
  }

  predicate Recovered(p: Packet, key: int32) {
    var m := Stored(MsgOf(Serialize(p), key));
    BytesIn(m) == Serialize(p) && KeyIn(m) == key
  }

  /** Every packet sent on in a run carries the bytes and the key of the packet stored under its number. */
  lemma {:induction false} ForwardedAsParked(capacity: nat, es: seq<Event>, f: Sent, bytes: seq<byte>, key: int32)
    requires f in Run(Start(capacity), es).forwarded && f.id < |Run(Start(capacity), es).original|
    requires Run(Start(capacity), es).original[f.id] == MsgOf(bytes, key) && |bytes| + 4 <= SLOT
    ensures f.bytes == bytes && f.key == key
  {
    RunFaithful(Start(capacity), es);
    ParkedIntact(bytes, key);
  }

  // ---------- rooms ----------

  // The room in hand, and the room a packet was sent to, is the one its bytes name.
  ghost predicate RoomsTrue(s: State) {
    && (!s.hand.Nothing? ==> 4 <= |s.hand.p.msg| && Names(BytesIn(s.hand.p.msg), s.hand.room))
    && (forall f | f in s.forwarded :: Names(f.bytes, f.room))
  }

  predicate Names(bytes: seq<byte>, room: int32) {
    Parse(Client, bytes).Parsed? && Parse(Client, bytes).packet.word0 == room
  }

  /** Every packet sent on in a run is sent to the room it names. */
  lemma {:induction false} SentToOwnRoom(s: State, es: seq<Event>)
    requires RoomsTrue(s)
    ensures RoomsTrue(Run(s, es))
    decreases |es|
  {
    if es != [] {
      SentToOwnRoom(Step(s, es[0]), es[1..]);
    }
  }

  // The room was named by a stored packet and not resolved since.
  ghost predicate AskedFor(es: seq<Event>, room: int32) {
    exists i | 0 <= i < |es| :: es[i].Park? && es[i].room == room && forall j | i < j < |es| :: es[j] != DeleteRoom(room)
  }

  lemma {:induction false} AskedForSnoc(es: seq<Event>, e: Event, room: int32)
    ensures AskedFor(es + [e], room) <==> (e.Park? && e.room == room) || (AskedFor(es, room) && e != DeleteRoom(room))
  {
    var all := es + [e];
    if AskedFor(all, room) {
      var i :| 0 <= i < |all| && all[i].Park? && all[i].room == room && forall j | i < j < |all| :: all[j] != DeleteRoom(room);
      assert all[|es|] == e;
      assert i < |es| ==> es[i] == all[i] && forall j | i < j < |es| :: es[j] == all[j];
    }
    if AskedFor(es, room) && e != DeleteRoom(room) {
      var i :| 0 <= i < |es| && es[i].Park? && es[i].room == room && forall j | i < j < |es| :: es[j] != DeleteRoom(room);
      assert all[i] == es[i];
    }
    if e.Park? && e.room == room {
      assert all[|es|] == e;
    }
  }

  lemma {:induction false} RunSnoc(s: State, es: seq<Event>, e: Event)
    ensures Run(s, es + [e]) == Step(Run(s, es), e)
    decreases |es|
  {
    if es == [] {
      assert es + [e] == [e];
      assert Run(s, [e]) == Run(Step(s, e), []);
    } else {
      DropAppend(es, [e], 1);
      RunSnoc(Step(s, es[0]), es[1..], e);
    }
  }

  lemma {:induction false} StepPending(s: State, e: Event, room: int32)
    ensures room in Step(s, e).pending <==>
            (room != 0 && e.Park? && e.room == room) || (room in s.pending && e != DeleteRoom(room))
  {}

  /** The list of rooms holds exactly the rooms asked for and not resolved; room 0 is never in it. */
  lemma {:induction false} PendingIs(capacity: nat, es: seq<Event>, room: int32)
    ensures room in Run(Start(capacity), es).pending <==> room != 0 && AskedFor(es, room)
    decreases |es|
  {
    if es != [] {
      var n := |es| - 1;
      assert es == es[..n] + [es[n]];
      PendingIs(capacity, es[..n], room);
      RunSnoc(Start(capacity), es[..n], es[n]);
      StepPending(Run(Start(capacity), es[..n]), es[n], room);
      AskedForSnoc(es[..n], es[n], room);
    }
  }

  /** At the look under the lock, a packet is let through exactly when its room is 0 or is not being asked for. */
  lemma {:induction false} LetThroughIff(capacity: nat, es: seq<Event>)
    requires Run(Start(capacity), es).hand.Taken?
    ensures var s := Run(Start(capacity), es);
            Run(Start(capacity), es + [Check]).hand
            == if s.hand.room != 0 && AskedFor(es, s.hand.room) then Waits(s.hand.p, s.hand.room) else Goes(s.hand.p, s.hand.room)
  {
    RunSnoc(Start(capacity), es, Check);
    PendingIs(capacity, es, Run(Start(capacity), es).hand.room);
  }

  // ---------- room in the ring ----------

  // Every packet of the run is short enough, and finds its slots free even if the one in hand comes back.
  predicate FitsThroughout(s: State, es: seq<Event>)
    decreases |es|
  {
    es == []
    || ((es[0].Park? ==> |es[0].bytes| < BUFF - 4 && s.Load() + SlotCount(|es[0].bytes| + 4) <= s.capacity)
        && FitsThroughout(Step(s, es[0]), es[1..]))
  }

  lemma {:induction false} MsgsSnoc(q: seq<Parked>, p: Parked)
    ensures Used(Msgs(q + [p])) == Used(Msgs(q)) + SlotCount(|p.msg|)
  {
    assert Msgs(q + [p]) == Msgs(q) + [p.msg];
    AllFragmentsSnoc(Msgs(q), p.msg);
  }

  lemma {:induction false} MsgsTail(q: seq<Parked>)
    requires q != []
    ensures Msgs(q[1..]) == Msgs(q)[1..]
    ensures Used(Msgs(q)) == SlotCount(|q[0].msg|) + Used(Msgs(q[1..]))
  {
    assert Msgs(q[1..]) == Msgs(q)[1..];
  }

  lemma {:induction false} EnqueueLoads(s: State, p: Parked)
    requires s.hand.Nothing? && Used(Msgs(s.queue)) + SlotCount(|p.msg|) <= s.capacity
    ensures Enqueue(s, p).lost == s.lost && Enqueue(s, p).hand.Nothing? && Enqueue(s, p).capacity == s.capacity
    ensures Enqueue(s, p).Load() == s.Load() + SlotCount(|p.msg|)
  {
    MsgsSnoc(s.queue, p.(msg := Stored(p.msg)));
  }

  lemma {:induction false} StepLoads(s: State, e: Event)
    requires s.Load() <= s.capacity && FitsThroughout(s, [e])
    ensures Step(s, e).Load() <= s.capacity == Step(s, e).capacity && Step(s, e).lost == s.lost
  {
    match e
    case Park(bytes, room, key) =>
      var msg := MsgOf(bytes, key);
      MsgsSnoc(s.queue, Parked(|s.original|, Stored(msg)));
    case Take =>
      if s.queue != [] {
        MsgsTail(s.queue);
      }
    case Requeue =>
      if s.hand.Waits? {
        EnqueueLoads(s.(hand := Nothing), s.hand.p);
      }
    case _ =>
  }

  /** Nothing is lost while the queue and the packet in hand stay within the ring. */
  lemma {:induction false} NothingLost(s: State, es: seq<Event>)
    requires s.Load() <= s.capacity && FitsThroughout(s, es)
    ensures Run(s, es).lost == s.lost
    decreases |es|
  {
    if es != [] {
      StepLoads(s, es[0]);
      NothingLost(Step(s, es[0]), es[1..]);
    }
  }

  // ---------- what becomes of a packet ----------

  // The worker has let packet f.id through and writes it, with success.
  ghost predicate SendsNow(s: State, e: Event, f: Sent) {
    && s.hand.Goes? && e == Finish(Some(f.sock), true) && f.id == s.hand.p.id && f.room == s.hand.room
    && var n := |s.hand.p.msg| - 4;
    0 <= n && f.bytes == s.hand.p.msg[..n] && IntAt(s.hand.p.msg, n, f.key)
  }

  predicate Unreadable(msg: seq<byte>) {
    |msg| < 4 || !Parse(Client, msg[..|msg| - 4]).Parsed?
  }

  // Its room turns out not to be known or its write fails, or it is taken and does not parse.
  ghost predicate DropsNow(s: State, e: Event, id: nat) {
    || (s.hand.Goes? && 4 <= |s.hand.p.msg| && s.hand.p.id == id && e.Finish? && (e.sock == None || !e.writeOk))
    || (s.hand.Nothing? && e == Take && s.queue != [] && |s.queue[0].msg| < 0x2000 && s.queue[0].id == id
        && Unreadable(s.queue[0].msg))
  }

  // It comes, or comes back, when the ring has too few slots left, or is too long.
  ghost predicate LosesNow(s: State, e: Event, id: nat) {
    || (e.Park? && id == |s.original| && (|e.bytes| >= 0x1FFC || s.capacity - Used(Msgs(s.queue)) < SlotCount(|e.bytes| + 4)))
    || (e == Requeue && s.hand.Waits? && s.hand.p.id == id && s.capacity - Used(Msgs(s.queue)) < SlotCount(|s.hand.p.msg|))
  }

  // The state before event i of a run, and that event, whether or not the run goes on.
  function Before(capacity: nat, es: seq<Event>, i: nat): (State, Event)
    requires i < |es|
  {
    (Run(Start(capacity), es[..i]), es[i])
  }

  lemma {:induction false} BeforeStays(capacity: nat, es: seq<Event>, n: nat, i: nat)
    requires i < n <= |es|
    ensures Before(capacity, es[..n], i) == Before(capacity, es, i)
  {
    assert es[..n][..i] == es[..i];
  }

  // Something happens at some step of a run.
  ghost predicate Sometime(capacity: nat, es: seq<Event>, what: (State, Event) -> bool) {
    exists i | 0 <= i < |es| :: what(Before(capacity, es, i).0, Before(capacity, es, i).1)
  }

  lemma {:induction false} SometimeSnoc(capacity: nat, es: seq<Event>, what: (State, Event) -> bool)
    requires es != []
    ensures var n := |es| - 1;
            Sometime(capacity, es, what) <==> Sometime(capacity, es[..n], what) || what(Run(Start(capacity), es[..n]), es[n])
  {
    var n := |es| - 1;
    forall i: nat | i < n ensures Before(capacity, es[..n], i) == Before(capacity, es, i) {
      BeforeStays(capacity, es, n, i);
    }
    assert Before(capacity, es, n) == (Run(Start(capacity), es[..n]), es[n]);
    if Sometime(capacity, es[..n], what) {
      var i :| 0 <= i < n && what(Before(capacity, es[..n], i).0, Before(capacity, es[..n], i).1);
      assert what(Before(capacity, es, i).0, Before(capacity, es, i).1);
    }
  }

  lemma {:induction false} StepForwards(s: State, e: Event, f: Sent)
    ensures f in Step(s, e).forwarded <==> f in s.forwarded || SendsNow(s, e, f)
  {
    if s.hand.Goes? && 4 <= |s.hand.p.msg| {
      var msg := s.hand.p.msg;
      assert msg[|msg| - 4..|msg| - 4 + 4] == msg[|msg| - 4..];
      GetIntIff(msg, |msg| - 4, f.key);
    }
  }

  /** Over every run: what is recorded as sent on is exactly what was written with success while let through. */
  lemma {:induction false} ForwardedIff(capacity: nat, es: seq<Event>, f: Sent)
    ensures f in Run(Start(capacity), es).forwarded <==> Sometime(capacity, es, (s, e) => SendsNow(s, e, f))
    decreases |es|
  {
    if es != [] {
      var n := |es| - 1;
      ForwardedIff(capacity, es[..n], f);
      StepForwards(Run(Start(capacity), es[..n]), es[n], f);
      LastStep(capacity, es);
      SometimeSnoc(capacity, es, (s, e) => SendsNow(s, e, f));
    }
  }

  lemma {:induction false} LastStep(capacity: nat, es: seq<Event>)
    requires es != []
    ensures Run(Start(capacity), es) == Step(Run(Start(capacity), es[..|es| - 1]), es[|es| - 1])
  {
    assert es == es[..|es| - 1] + [es[|es| - 1]];
    RunSnoc(Start(capacity), es[..|es| - 1], es[|es| - 1]);
  }

  lemma {:induction false} StepDiscards(s: State, e: Event, id: nat)
    ensures id in Step(s, e).discarded <==> id in s.discarded || DropsNow(s, e, id)
  {}

  lemma {:induction false} DiscardedIff(capacity: nat, es: seq<Event>, id: nat)
    ensures id in Run(Start(capacity), es).discarded <==> Sometime(capacity, es, (s, e) => DropsNow(s, e, id))
    decreases |es|
  {
    if es != [] {
      var n := |es| - 1;
      DiscardedIff(capacity, es[..n], id);
      StepDiscards(Run(Start(capacity), es[..n]), es[n], id);
      LastStep(capacity, es);
      SometimeSnoc(capacity, es, (s, e) => DropsNow(s, e, id));
    }
  }

  lemma {:induction false} StepLoses(s: State, e: Event, id: nat)
    ensures id in Step(s, e).lost <==> id in s.lost || LosesNow(s, e, id)
  {}

  lemma {:induction false} LostIff(capacity: nat, es: seq<Event>, id: nat)
    ensures id in Run(Start(capacity), es).lost <==> Sometime(capacity, es, (s, e) => LosesNow(s, e, id))
    decreases |es|
  {
    if es != [] {
      var n := |es| - 1;
      LostIff(capacity, es[..n], id);
      StepLoses(Run(Start(capacity), es[..n]), es[n], id);
      LastStep(capacity, es);
      SometimeSnoc(capacity, es, (s, e) => LosesNow(s, e, id));
    }
  }

  /** The packets handed over, in order. */
  function Handed(es: seq<Event>): seq<Event> {
    if es == [] then [] else (if es[0].Park? then [es[0]] else []) + Handed(es[1..])
  }

  lemma {:induction false} HandedSnoc(es: seq<Event>, e: Event)
    ensures Handed(es + [e]) == Handed(es) + if e.Park? then [e] else []
  {
    if es == [] {
      assert es + [e] == [e] && [e][1..] == [];
    } else {
      DropAppend(es, [e], 1);
      HandedSnoc(es[1..], e);
      Assoc(if es[0].Park? then [es[0]] else [], Handed(es[1..]), if e.Park? then [e] else []);
    }
  }

  // The message is these bytes, and then the four of the key.
  predicate MessageOf(msg: seq<byte>, e: Event) {
    e.Park? && |msg| == |e.bytes| + 4 && msg[..|e.bytes|] == e.bytes && IntAt(msg, |e.bytes|, e.key)
  }

  lemma {:induction false} MsgIs(e: Event)
    requires e.Park?
    ensures MessageOf(MsgOf(e.bytes, e.key), e)
  {
    PutIntIs(e.key);
    var msg, n := MsgOf(e.bytes, e.key), |e.bytes|;
    assert msg[n] == PutInt(e.key)[0] && msg[n + 1] == PutInt(e.key)[1] && msg[n + 2] == PutInt(e.key)[2] && msg[n + 3] == PutInt(e.key)[3];
  }

  ghost predicate Originals(original: seq<seq<byte>>, handed: seq<Event>) {
    |original| == |handed| && forall i | 0 <= i < |handed| :: MessageOf(original[i], handed[i])
  }

  /** Packet i of the run is the i-th handed over: its bytes, then its sender's key. */
  lemma {:induction false} OriginalIs(capacity: nat, es: seq<Event>)
    ensures Originals(Run(Start(capacity), es).original, Handed(es))
    decreases |es|
  {
    if es != [] {
      var n := |es| - 1;
      OriginalIs(capacity, es[..n]);
      LastStep(capacity, es);
      assert es == es[..n] + [es[n]];
      HandedSnoc(es[..n], es[n]);
      OriginalStep(Run(Start(capacity), es[..n]), es[n], Handed(es[..n]));
    }
  }

  lemma {:induction false} OriginalStep(s: State, e: Event, handed: seq<Event>)
    requires Originals(s.original, handed)
    ensures Originals(Step(s, e).original, handed + if e.Park? then [e] else [])
  {
    if e.Park? {
      MsgIs(e);
    } else {
      Unit(handed);
    }
  }

  // ---------- client packets ----------

  // The packets parked are client packets of at most `longest` bytes.
  predicate ParksPackets(es: seq<Event>, longest: nat) {
    forall e | e in es && e.Park? :: IsPacket(e.bytes, longest)
  }

  predicate IsPacket(bytes: seq<byte>, longest: nat) {
    |bytes| <= longest && Parse(Client, bytes).Parsed? && Size(Parse(Client, bytes).packet) == |bytes|
  }

  // A message that the worker can read: a whole client packet and a key, short enough for its buffers.
  predicate Readable(msg: seq<byte>, longest: nat) {
    4 <= |msg| <= longest + 4 && Parse(Client, BytesIn(msg)).Parsed?
  }

  ghost predicate AllReadable(s: State, longest: nat) {
    (forall p | p in s.queue :: Readable(p.msg, longest)) && (!s.hand.Nothing? ==> Readable(s.hand.p.msg, longest))
  }

  // The ring's copy leaves the first 0x1000 bytes, and so the length field, alone.
  lemma {:induction false} StoredReadable(msg: seq<byte>, longest: nat)
    requires Readable(msg, longest)
    ensures Readable(Stored(msg), longest)
  {
    var a, b := BytesIn(msg), BytesIn(Stored(msg));
    assert |a| == |b| && forall i | 0 <= i < 15 :: b[i] == a[i];
    assert b[7..11] == a[7..11];
  }

  lemma {:induction false} StepReadable(s: State, e: Event, longest: nat)
    requires AllReadable(s, longest) && (e.Park? ==> IsPacket(e.bytes, longest))
    ensures AllReadable(Step(s, e), longest)
  {
    match e
    case Park(bytes, room, key) =>
      MsgParts(bytes, key);
      StoredReadable(MsgOf(bytes, key), longest);
    case Take =>
      if s.queue != [] {
        assert s.queue[0] in s.queue;
      }
    case Requeue =>
      if s.hand.Waits? {
        StoredReadable(s.hand.p.msg, longest);
      }
    case _ =>
  }

  /** While client packets are parked, the worker never meets a message that it cannot read. */
  lemma {:induction false} RunReadable(s: State, es: seq<Event>, longest: nat)
    requires AllReadable(s, longest) && ParksPackets(es, longest)
    ensures AllReadable(Run(s, es), longest)
    decreases |es|
  {
    if es != [] {
      assert es[0] in es;
      StepReadable(s, es[0], longest);
      assert forall e | e in es[1..] :: e in es;
      RunReadable(Step(s, es[0]), es[1..], longest);
    }
  }

  /**
   Parked client packets of at most 0x1000 bytes, which is all the gate server cuts off, meet what the steps of the
   worker ask for in every run: the message to take parses, and the envelope of the one in hand fits its buffer.
   */
  lemma {:induction false} WorkerNeverStuck(capacity: nat, es: seq<Event>)
    requires ParksPackets(es, 0x1000)
    ensures var s := Run(Start(capacity), es);
            && (s.queue != [] ==> 4 <= |s.queue[0].msg| && Parse(Client, BytesIn(s.queue[0].msg)).Parsed?)
            && (!s.hand.Nothing? ==> 4 <= |s.hand.p.msg| && |s.hand.p.msg| - 4 + OVERHEAD <= 0x2000)
  {
    RunReadable(Start(capacity), es, SLOT);
    var s := Run(Start(capacity), es);
    assert s.queue != [] ==> s.queue[0] in s.queue;
  }
}
