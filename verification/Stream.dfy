/**
 The path of a byte stream from a connector, through the slot ring, into the reassembly buffer of
 the reader and out as packets: gate_server/rs_connector.cpp and gate_server/rs_processor.cpp,
 as a state machine whose steps are the arrival of a chunk and one turn of the reader.
 */
module Stream {
  import opened Bytes
  import opened SlotRing
  import opened Framing

  // MaxDealBuffLen
  const BUFFER := 0x4000

  // The connector reads at most this much at a time (common/connector.cpp:166).
  const CHUNK := 0x2000

  datatype Pipe = Pipe(ring: Ring, residue: seq<byte>, delivered: seq<Packet>) {
    function Limit(): int {
      BUFFER - |residue|
    }

    // The bytes taken from the ring so far.
    function Consumed(): seq<byte> {
      SerializeAll(delivered) + residue
    }

    // Every byte that entered: delivered, waiting in the buffer, or waiting in the ring.
    function Total(): seq<byte> {
      Consumed() + Concat(ring.queue)
    }

    // The reader stands exactly where draining all it consumed at once would leave it.
    ghost predicate Valid() {
      && |residue| < BUFFER
      && ring.Valid()
      && Drain(Envelope, Consumed()) == Drained(delivered, residue)
    }
  }

  function Empty(capacity: nat): Pipe {
    Pipe(Ring(capacity, []), [], [])
  }

  function Turn(p: Pipe): Pipe {
    if p.ring.CanTake(p.Limit()) then
      var d := Drain(Envelope, p.residue + p.ring.queue[0]);
      Pipe(Take(p.ring, p.Limit()), d.rest, p.delivered + d.packets)
    else
      p
  }

  datatype Event = Arrive(chunk: seq<byte>) | ReaderTurn

  function Step(how: Copying, p: Pipe, e: Event): Pipe {
    match e
    case Arrive(chunk) => p.(ring := Offer(how, p.ring, chunk))
    case ReaderTurn => Turn(p)
  }

  function Run(how: Copying, p: Pipe, es: seq<Event>): Pipe
    decreases |es|
  {
    if es == [] then p else Run(how, Step(how, p, es[0]), es[1..])
  }

  /** The chunks that found room in the ring. */
  function Accepted(how: Copying, p: Pipe, es: seq<Event>): seq<seq<byte>>
    decreases |es|
  {
    if es == [] then [] else
      (if es[0].Arrive? && p.ring.HasRoom(|es[0].chunk|) then [es[0].chunk] else [])
      + Accepted(how, Step(how, p, es[0]), es[1..])
  }

  // ---------- one step ----------

  lemma {:induction false} TurnAccounts(p: Pipe)
    requires p.ring.CanTake(p.Limit())
    ensures Turn(p).Consumed() == p.Consumed() + p.ring.queue[0]
    ensures |Turn(p).residue| < BUFFER
  {
    var m := p.ring.queue[0];
    var d := Drain(Envelope, p.residue + m);
    DrainConserves(Envelope, p.residue + m);
    SerializeAllAppend(p.delivered, d.packets);
    Assoc(SerializeAll(p.delivered), SerializeAll(d.packets), d.rest);
    Assoc(SerializeAll(p.delivered), p.residue, m);
  }

  lemma {:induction false} TurnKeeps(p: Pipe)
    requires p.Valid()
    ensures Turn(p).Valid() && Turn(p).Total() == p.Total()
  {
    if p.ring.CanTake(p.Limit()) {
      var m := p.ring.queue[0];
      TurnAccounts(p);
      DrainSplit(Envelope, p.Consumed(), m);
      Assoc(p.Consumed(), m, Concat(p.ring.queue[1..]));
    }
  }

  lemma {:induction false} ArriveKeeps(how: Copying, p: Pipe, chunk: seq<byte>)
    requires p.Valid()
    ensures Step(how, p, Arrive(chunk)).Valid()
    ensures Step(how, p, Arrive(chunk)).Total() ==
            p.Total() + (if p.ring.HasRoom(|chunk|) then Kept(how, chunk) else [])
  {
    if p.ring.HasRoom(|chunk|) {
      AllFragmentsSnoc(p.ring.queue, Kept(how, chunk));
      ConcatSnoc(p.ring.queue, Kept(how, chunk));
      Assoc(p.Consumed(), Concat(p.ring.queue), Kept(how, chunk));
    }
  }

  // ---------- whole runs ----------

  lemma {:induction false} KeptConcat(how: Copying, chunks: seq<seq<byte>>, later: seq<seq<byte>>)
    ensures Concat(KeptAll(how, chunks + later)) == Concat(KeptAll(how, chunks)) + Concat(KeptAll(how, later))
  {
    assert KeptAll(how, chunks + later) == KeptAll(how, chunks) + KeptAll(how, later);
    ConcatAppend(KeptAll(how, chunks), KeptAll(how, later));
  }

  /** Conservation: in every run the bytes accepted are those delivered, buffered and queued, in order. */
  lemma {:induction false} RunConserves(how: Copying, p: Pipe, es: seq<Event>)
    requires p.Valid()
    ensures Run(how, p, es).Valid()
    ensures Run(how, p, es).Total() == p.Total() + Concat(KeptAll(how, Accepted(how, p, es)))
    decreases |es|
  {
    if es == [] {
      Unit(p.Total());
    } else {
      var p' := Step(how, p, es[0]);
      var here := if es[0].Arrive? && p.ring.HasRoom(|es[0].chunk|) then [es[0].chunk] else [];
      match es[0] {
        case Arrive(chunk) => ArriveKeeps(how, p, chunk);
        case ReaderTurn => TurnKeeps(p);
      }
      KeptHere(how, p, p', es[0], here);
      RunConserves(how, p', es[1..]);
      KeptConcat(how, here, Accepted(how, p', es[1..]));
      Assoc(p.Total(), Concat(KeptAll(how, here)), Concat(KeptAll(how, Accepted(how, p', es[1..]))));
    }
  }

  lemma {:induction false} KeptHere(how: Copying, p: Pipe, p': Pipe, e: Event, here: seq<seq<byte>>)
    requires here == if e.Arrive? && p.ring.HasRoom(|e.chunk|) then [e.chunk] else []
    requires p'.Total() == p.Total() + (if e.Arrive? && p.ring.HasRoom(|e.chunk|) then Kept(how, e.chunk) else [])
    ensures p'.Total() == p.Total() + Concat(KeptAll(how, here))
  {
    if here != [] {
      assert KeptAll(how, here) == [Kept(how, e.chunk)];
      assert Concat([Kept(how, e.chunk)]) == Kept(how, e.chunk) + Concat([]);
    }
  }

  lemma {:induction false} StartsEmpty(capacity: nat, stream: seq<byte>)
    ensures Empty(capacity).Valid() && Empty(capacity).Total() + stream == stream
  {}

  lemma {:induction false} ValidFidelity(p: Pipe)
    requires p.Valid()
    ensures p.delivered <= Drain(Envelope, p.Total()).packets
    ensures p.ring.queue == [] ==> Drain(Envelope, p.Total()) == Drained(p.delivered, p.residue)
  {
    DrainSplit(Envelope, p.Consumed(), Concat(p.ring.queue));
    if p.ring.queue == [] {
      Unit(p.Consumed());
    }
  }

  /**
   Fidelity: however the stream was split into chunks and whenever the reader ran, the packets
   delivered are a prefix of what the whole stream decodes to, and all of it once the ring is empty.
   */
  lemma {:induction false} StreamFidelity(how: Copying, capacity: nat, es: seq<Event>)
    ensures var p := Run(how, Empty(capacity), es);
            var stream := Concat(KeptAll(how, Accepted(how, Empty(capacity), es)));
            && p.Total() == stream
            && p.delivered <= Drain(Envelope, stream).packets
            && (p.ring.queue == [] ==> Drain(Envelope, stream) == Drained(p.delivered, p.residue))
  {
    RunConserves(how, Empty(capacity), es);
    StartsEmpty(capacity, Concat(KeptAll(how, Accepted(how, Empty(capacity), es))));
    ValidFidelity(Run(how, Empty(capacity), es));
  }

  lemma {:induction false} AcceptedFit(how: Copying, p: Pipe, es: seq<Event>, bound: nat)
    requires forall e | e in es && e.Arrive? :: |e.chunk| <= bound
    ensures forall c | c in Accepted(how, p, es) :: |c| <= bound
    decreases |es|
  {
    if es != [] {
      AcceptedFit(how, Step(how, p, es[0]), es[1..], bound);
    }
  }

  // The ring keeps every chunk of the run intact.
  predicate KeepsChunks(how: Copying, es: seq<Event>) {
    how.Advancing? || forall e | e in es && e.Arrive? :: |e.chunk| <= 0x1000
  }

  /** With chunks of at most one slot, the stream that is decoded is the stream that was sent. */
  lemma {:induction false} SentIsDecoded(how: Copying, p: Pipe, es: seq<Event>)
    requires KeepsChunks(how, es)
    ensures KeptAll(how, Accepted(how, p, es)) == Accepted(how, p, es)
  {
    var a := Accepted(how, p, es);
    if how.FromStart? {
      AcceptedFit(how, p, es, SLOT);
    }
    KeptAllIntactIff(how, seq(|a|, i requires 0 <= i < |a| => |a[i]|));
  }

  /**
   Two runs that took in the same bytes, split and interleaved in any two ways whose chunks the ring keeps
   intact, deliver the same and are left with the same.
   */
  lemma {:induction false} SplitDoesNotMatter(how: Copying, c0: nat, es0: seq<Event>, c1: nat, es1: seq<Event>)
    requires KeepsChunks(how, es0) && KeepsChunks(how, es1)
    requires Concat(Accepted(how, Empty(c0), es0)) == Concat(Accepted(how, Empty(c1), es1))
    requires Run(how, Empty(c0), es0).ring.queue == [] == Run(how, Empty(c1), es1).ring.queue
    ensures Run(how, Empty(c0), es0).delivered == Run(how, Empty(c1), es1).delivered
    ensures Run(how, Empty(c0), es0).residue == Run(how, Empty(c1), es1).residue
  {
    SentIsDecoded(how, Empty(c0), es0);
    SentIsDecoded(how, Empty(c1), es1);
    StreamFidelity(how, c0, es0);
    StreamFidelity(how, c1, es1);
  }

  // ---------- the reader is never stuck ----------

  /** A stream of packets of at most `longest` bytes. */
  predicate Sendable(ps: seq<Packet>, longest: nat) {
    forall p | p in ps :: WellFormed(Envelope, p) && Size(p) <= longest
  }

  predicate ChunksFit(q: seq<seq<byte>>, bound: nat) {
    forall m | m in q :: |m| <= bound
  }

  // A packet less a byte and a chunk fit the buffer, short of the last byte that the ring's strict size test leaves free.
  predicate Roomy(longest: nat, bound: nat) {
    18 < longest && longest - 1 + bound < 0x4000
  }

  /** The next chunk, if there is one, can be taken, and the loop meets no length field out of range. */
  predicate GoesOn(p: Pipe) {
    p.ring.queue != [] ==> p.ring.CanTake(p.Limit()) && Defined(Envelope, p.residue + p.ring.queue[0])
  }

  lemma {:induction false} StoredGoesOn(p: Pipe, ps: seq<Packet>, longest: nat, bound: nat)
    requires Roomy(longest, bound) && p.Valid() && Sendable(ps, longest) && ChunksFit(p.ring.queue, bound)
    requires p.Total() <= SerializeAll(ps)
    ensures |p.residue| < longest && p.delivered <= ps && GoesOn(p)
  {
    PrefixSplit(p.Total(), p.Consumed(), Concat(p.ring.queue));
    PrefixTrans(p.Consumed(), p.Total(), SerializeAll(ps));
    ResidueBound(Envelope, p.Consumed(), ps, longest);
    if p.ring.queue != [] {
      var m := p.ring.queue[0];
      assert m in p.ring.queue;
      Assoc(p.Consumed(), m, Concat(p.ring.queue[1..]));
      PrefixTrans(p.Consumed() + m, p.Total(), SerializeAll(ps));
      ResidueBound(Envelope, p.Consumed() + m, ps, longest);
      DrainSplit(Envelope, p.Consumed(), m);
    }
  }

  lemma {:induction false} QueueFits(how: Copying, p: Pipe, es: seq<Event>, bound: nat)
    requires ChunksFit(p.ring.queue, bound) && forall e | e in es && e.Arrive? :: |e.chunk| <= bound
    ensures ChunksFit(Run(how, p, es).ring.queue, bound)
    decreases |es|
  {
    if es != [] {
      QueueFits(how, Step(how, p, es[0]), es[1..], bound);
    }
  }

  function Turns(n: nat): (es: seq<Event>)
    ensures |es| == n
  {
    if n == 0 then [] else [ReaderTurn] + Turns(n - 1)
  }

  lemma {:induction false} StoredCatchUp(how: Copying, p: Pipe, ps: seq<Packet>, longest: nat, bound: nat)
    requires Roomy(longest, bound) && p.Valid() && Sendable(ps, longest) && ChunksFit(p.ring.queue, bound)
    requires p.Total() <= SerializeAll(ps)
    ensures var q := Run(how, p, Turns(|p.ring.queue|));
            && q.ring.queue == []
            && Drain(Envelope, p.Total()) == Drained(q.delivered, q.residue)
    decreases |p.ring.queue|
  {
    var n := |p.ring.queue|;
    if n == 0 {
      ValidFidelity(p);
    } else {
      StoredGoesOn(p, ps, longest, bound);
      TurnKeeps(p);
      StoredCatchUp(how, Turn(p), ps, longest, bound);
      assert Turns(n)[1..] == Turns(n - 1);
    }
  }

  /** A run whose accepted chunks, as sent, are of at most `bound` bytes and begin a stream of packets of at most `longest`. */
  predicate Sends(how: Copying, capacity: nat, es: seq<Event>, ps: seq<Packet>, longest: nat, bound: nat) {
    && Sendable(ps, longest) && (forall e | e in es && e.Arrive? :: |e.chunk| <= bound)
    && Concat(Accepted(how, Empty(capacity), es)) <= SerializeAll(ps)
  }

  // Such a run whose chunks the ring keeps intact, of sizes that fit the buffer.
  predicate SendsKept(how: Copying, capacity: nat, es: seq<Event>, ps: seq<Packet>, longest: nat, bound: nat) {
    Roomy(longest, bound) && KeepsChunks(how, es) && Sends(how, capacity, es, ps, longest, bound)
  }

  lemma {:induction false} SentIsTotal(how: Copying, capacity: nat, es: seq<Event>, bound: nat)
    requires KeepsChunks(how, es) && forall e | e in es && e.Arrive? :: |e.chunk| <= bound
    ensures var p := Run(how, Empty(capacity), es);
            p.Valid() && ChunksFit(p.ring.queue, bound) && p.Total() == Concat(Accepted(how, Empty(capacity), es))
  {
    SentIsDecoded(how, Empty(capacity), es);
    StreamFidelity(how, capacity, es);
    RunValid(how, capacity, es);
    QueueFits(how, Empty(capacity), es, bound);
  }

  /**
   Over every run whose chunks the ring keeps intact, in terms of the bytes as they were sent: less than one packet
   stays buffered, the packets delivered are the first of the stream, and no chunk is ever refused.
   */
  lemma {:induction false} NeverJams(how: Copying, capacity: nat, es: seq<Event>, ps: seq<Packet>, longest: nat, bound: nat)
    requires SendsKept(how, capacity, es, ps, longest, bound)
    ensures var p := Run(how, Empty(capacity), es);
            |p.residue| < longest && p.delivered <= ps && GoesOn(p)
  {
    SentIsTotal(how, capacity, es, bound);
    StoredGoesOn(Run(how, Empty(capacity), es), ps, longest, bound);
  }

  /** After such a run as many turns as there are chunks waiting deliver every packet that is complete. */
  lemma {:induction false} CatchUp(how: Copying, capacity: nat, es: seq<Event>, ps: seq<Packet>, longest: nat, bound: nat)
    requires SendsKept(how, capacity, es, ps, longest, bound)
    ensures var p := Run(how, Empty(capacity), es);
            var q := Run(how, p, Turns(|p.ring.queue|));
            && q.ring.queue == []
            && Drain(Envelope, Concat(Accepted(how, Empty(capacity), es))) == Drained(q.delivered, q.residue)
  {
    SentIsTotal(how, capacity, es, bound);
    StoredCatchUp(how, Run(how, Empty(capacity), es), ps, longest, bound);
  }

  /**
   Everything sent arrives: after any such run whose accepted chunks make up whole packets, as many turns as there
   are chunks waiting deliver exactly those packets, provided the last one carries data.
   */
  lemma {:induction false} EverythingArrives(how: Copying, capacity: nat, es: seq<Event>, ps: seq<Packet>, longest: nat, bound: nat)
    requires SendsKept(how, capacity, es, ps, longest, bound)
    requires Concat(Accepted(how, Empty(capacity), es)) == SerializeAll(ps) && (ps == [] || ps[|ps| - 1].data != [])
    ensures var p := Run(how, Empty(capacity), es);
            var q := Run(how, p, Turns(|p.ring.queue|));
            q.ring.queue == [] && q.delivered == ps
  {
    CatchUp(how, capacity, es, ps, longest, bound);
    DrainOfPackets(Envelope, ps);
  }

  lemma {:induction false} RunValid(how: Copying, capacity: nat, es: seq<Event>)
    ensures Run(how, Empty(capacity), es).Valid()
  {
    RunConserves(how, Empty(capacity), es);
  }

  // ---------- the code as written ----------

  /**
   A packet of n bytes that arrives as one chunk is delivered as it was sent, whatever is in it,
   exactly when n is at most 0x1000 (or the copy advances). Up to 0x2000 bytes can arrive at once.
   */
  lemma {:induction false} SingleChunkIntactIff(how: Copying, n: nat)
    requires 18 < n < 0x4000
    ensures (forall p | WellFormed(Envelope, p) && Size(p) == n ::
               Run(how, Empty(SlotCount(n)), [Arrive(Serialize(p)), ReaderTurn]).delivered == [p])
            <==> how.Advancing? || n <= 0x1000
  {
    if how.Advancing? || n <= SLOT {
      forall p | WellFormed(Envelope, p) && Size(p) == n
        ensures Run(how, Empty(SlotCount(n)), [Arrive(Serialize(p)), ReaderTurn]).delivered == [p]
      {
        StoredIntactIff(n);
        OneChunk(how, p);
        DrainOfPackets(Envelope, [p]);
        OneOnWire(p);
      }
    } else {
      OneChunk(how, Tailed(n));
      TailedDamaged(n);
    }
  }

  lemma {:induction false} DeliveredIsPrefix(s: seq<byte>, p: Packet)
    requires Drain(Envelope, s).packets == [p]
    ensures |Serialize(p)| <= |s| && forall i | 0 <= i < |Serialize(p)| :: s[i] == Serialize(p)[i]
  {
    DrainConserves(Envelope, s);
    OneOnWire(p);
  }

  lemma {:induction false} OneChunk(how: Copying, p: Packet)
    requires WellFormed(Envelope, p) && Size(p) < BUFFER
    ensures Run(how, Empty(SlotCount(Size(p))), [Arrive(Serialize(p)), ReaderTurn]).delivered
         == Drain(Envelope, Kept(how, Serialize(p))).packets
  {
    var p0 := Empty(SlotCount(Size(p)));
    var es := [Arrive(Serialize(p)), ReaderTurn];
    var p1 := Step(how, p0, es[0]);
    assert p1.ring.queue == [Kept(how, Serialize(p))];
    Unit(p1.ring.queue[0]);
    var p2 := Step(how, p1, es[1]);
    assert es[1..] == [ReaderTurn] && es[1..][1..] == [];
    assert Run(how, p0, es) == Run(how, p1, es[1..]) == Run(how, p2, []) == p2;
  }

  // A packet of n bytes that starts with "123" and goes on with other bytes.
  function Tailed(n: nat): (p: Packet)
    requires OVERHEAD < n < BUFFER
    ensures WellFormed(Envelope, p) && Size(p) == n
  {
    Packet([49, 50, 51], 0, 0, n - OVERHEAD, seq(n - OVERHEAD, _ => 0), [52, 53, 54])
  }

  lemma {:induction false} TailedDiffers(n: nat)
    requires SLOT < n < BUFFER
    ensures Serialize(Tailed(n))[0] == 49 != Serialize(Tailed(n))[SLOT]
  {
    var p := Tailed(n);
    var front := p.head + PutInt(p.word0) + PutInt(p.word1) + PutInt(p.word2);
    assert Serialize(p) == front + p.data + p.tail;
    assert |front| == HEADER && front[0] == 49;
  }

  lemma {:induction false} RunAppend(how: Copying, p: Pipe, es1: seq<Event>, es2: seq<Event>)
    ensures Run(how, p, es1 + es2) == Run(how, Run(how, p, es1), es2)
    decreases |es1|
  {
    if es1 == [] {
      assert es1 + es2 == es2;
    } else {
      DropAppend(es1, es2, 1);
      RunAppend(how, Step(how, p, es1[0]), es1[1..], es2);
    }
  }

  lemma {:induction false} AcceptedAppend(how: Copying, p: Pipe, es1: seq<Event>, es2: seq<Event>)
    ensures Accepted(how, p, es1 + es2) == Accepted(how, p, es1) + Accepted(how, Run(how, p, es1), es2)
    decreases |es1|
  {
    var later := Accepted(how, Run(how, p, es1), es2);
    if es1 == [] {
      assert es1 + es2 == es2;
      Unit(later);
    } else {
      DropAppend(es1, es2, 1);
      var p' := Step(how, p, es1[0]);
      AcceptedAppend(how, p', es1[1..], es2);
      var here := if es1[0].Arrive? && p.ring.HasRoom(|es1[0].chunk|) then [es1[0].chunk] else [];
      Assoc(here, Accepted(how, p', es1[1..]), later);
    }
  }

  lemma {:induction false} TurnsAcceptNothing(how: Copying, p: Pipe, n: nat)
    ensures Accepted(how, p, Turns(n)) == []
    decreases n
  {
    if n > 0 {
      assert Turns(n)[1..] == Turns(n - 1);
      TurnsAcceptNothing(how, Step(how, p, ReaderTurn), n - 1);
    }
  }

  lemma {:induction false} OneArrival(how: Copying, p: Pipe, chunk: seq<byte>)
    requires p.ring.HasRoom(|chunk|)
    ensures Run(how, p, [Arrive(chunk)]) == p.(ring := p.ring.(queue := p.ring.queue + [Kept(how, chunk)]))
    ensures Accepted(how, p, [Arrive(chunk)]) == [chunk]
  {
    var p' := Step(how, p, Arrive(chunk));
    assert [Arrive(chunk)][1..] == [];
    assert Run(how, p', []) == p' && Accepted(how, p', []) == [];
  }

  // The bytes of a packet as one chunk, and the same bytes as two chunks of at most a slot.
  function Whole(s: seq<byte>): seq<Event> {
    [Arrive(s)] + Turns(1)
  }

  function Halves(s: seq<byte>): seq<Event>
    requires SLOT < |s|
  {
    ([Arrive(s[..SLOT])] + [Arrive(s[SLOT..])]) + Turns(2)
  }

  lemma {:induction false} WholeIs(how: Copying, s: seq<byte>)
    requires SLOT < |s| <= CHUNK
    ensures Accepted(how, Empty(2), Whole(s)) == [s] && Run(how, Empty(2), Whole(s)).ring.queue == []
    ensures Run(how, Empty(2), Whole(s)).delivered == Drain(Envelope, Kept(how, s)).packets
  {
    var p := Run(how, Empty(2), [Arrive(s)]);
    OneArrival(how, Empty(2), s);
    RunAppend(how, Empty(2), [Arrive(s)], Turns(1));
    AcceptedAppend(how, Empty(2), [Arrive(s)], Turns(1));
    TurnsAcceptNothing(how, p, 1);
    assert p.ring.queue == [Kept(how, s)];
    Unit(Kept(how, s));
    assert Turns(1) == [ReaderTurn] + Turns(0);
    assert Turns(1)[1..] == [];
    assert Run(how, p, Turns(1)) == Run(how, Step(how, p, ReaderTurn), []);
  }

  lemma {:induction false} HalvesArrive(how: Copying, s: seq<byte>)
    requires SLOT < |s| <= CHUNK
    ensures var es := [Arrive(s[..SLOT])] + [Arrive(s[SLOT..])];
            Accepted(how, Empty(2), es) == [s[..SLOT]] + [s[SLOT..]] && |Run(how, Empty(2), es).ring.queue| == 2
  {
    var a, b := s[..SLOT], s[SLOT..];
    OneArrival(how, Empty(2), a);
    var p := Run(how, Empty(2), [Arrive(a)]);
    assert p.ring.queue == [Kept(how, a)];
    assert Used(p.ring.queue) == 1 + Used([]);
    OneArrival(how, p, b);
    RunAppend(how, Empty(2), [Arrive(a)], [Arrive(b)]);
    AcceptedAppend(how, Empty(2), [Arrive(a)], [Arrive(b)]);
  }

  /**
   As written, splitting does matter beyond that: for every length of more than a slot that one read can have, there
   is a packet that arrives in two chunks and does not arrive in one.
   */
  lemma {:induction false} SplitMatters(n: nat)
    requires 0x1000 < n <= 0x2000
    ensures var p := Tailed(n);
            && Size(p) == n && |Serialize(p)| == n
            && Concat(Accepted(FromStart, Empty(2), Whole(Serialize(p)))) == Serialize(p)
            && Concat(Accepted(FromStart, Empty(2), Halves(Serialize(p)))) == Serialize(p)
            && Run(FromStart, Empty(2), Whole(Serialize(p))).ring.queue == []
            && Run(FromStart, Empty(2), Halves(Serialize(p))).ring.queue == []
            && Run(FromStart, Empty(2), Halves(Serialize(p))).delivered == [p]
            && Run(FromStart, Empty(2), Whole(Serialize(p))).delivered != [p]
  {
    var p := Tailed(n);
    var s := Serialize(p);
    var es := [Arrive(s[..SLOT])] + [Arrive(s[SLOT..])];
    var q := Run(FromStart, Empty(2), es);
    WholeIs(FromStart, s);
    HalvesArrive(FromStart, s);
    RunAppend(FromStart, Empty(2), es, Turns(2));
    AcceptedAppend(FromStart, Empty(2), es, Turns(2));
    TurnsAcceptNothing(FromStart, q, 2);
    OneOnWire(p);
    Rejoin(s);
    EverythingArrives(FromStart, 2, es, [p], CHUNK, SLOT);
    TailedDamaged(n);
  }

  lemma {:induction false} Rejoin(s: seq<byte>)
    requires SLOT < |s|
    ensures Concat([s]) == s && Concat([s[..SLOT]] + [s[SLOT..]]) == s
    ensures [s[..SLOT]] + [s[SLOT..]] + [] == [s[..SLOT]] + [s[SLOT..]]
  {
    ConcatSnoc([], s);
    ConcatSnoc([s[..SLOT]], s[SLOT..]);
    ConcatSnoc([], s[..SLOT]);
    assert [] + [s] == [s] && [] + s == s;
    assert [] + [s[..SLOT]] == [s[..SLOT]] && [] + s[..SLOT] == s[..SLOT];
  }

  lemma {:induction false} TailedDamaged(n: nat)
    requires SLOT < n < BUFFER
    ensures Drain(Envelope, Stored(Serialize(Tailed(n)))).packets != [Tailed(n)]
  {
    var p := Tailed(n);
    var s := Stored(Serialize(p));
    TailedDiffers(n);
    assert s[SLOT] == Serialize(p)[0];
    if Drain(Envelope, s).packets == [p] {
      DeliveredIsPrefix(s, p);
    }
  }
}
