/**
 The path of a client's packets through the center server: cut off in ClientInfoEx::DealWithData, queued in the slot
 ring, taken by the reader of center_server/rs_processor.cpp:98-133. The steps are reads of the socket and
 turns of that reader.
 */
module CenterPath {
  import opened Bytes
  import opened Framing
  import opened Packs
  import opened SlotRing
  import opened Receivers

  // The size that the reader passes to GetBuffer.
  const TAKE := 0x2000

  /** Where a queued packet's bytes are taken from: `LastRead` is the code, `ReceiveBuffer` the repair. */
  datatype Source = LastRead | ReceiveBuffer

  datatype Path = Path(reader: Reader, ring: Ring)

  datatype Event = Chunk(bytes: seq<byte>) | ReaderTurn

  function Begin(capacity: nat): Path {
    Path(Reader([], []), Ring(capacity, []))
  }

  // The packets that the loop cuts off after a read.
  function Cut(r: Reader, chunk: seq<byte>): seq<Packet> {
    Drain(Client, Gathered(r.residue, chunk)).packets
  }

  function Message(source: Source, chunk: seq<byte>, p: Packet): seq<byte> {
    if source.LastRead? then QueuedFor(chunk, Size(p)) else Serialize(p)
  }

  function Messages(source: Source, chunk: seq<byte>, ps: seq<Packet>): seq<seq<byte>> {
    if ps == [] then [] else [Message(source, chunk, ps[0])] + Messages(source, chunk, ps[1..])
  }

  function OfferEach(how: Copying, ring: Ring, ms: seq<seq<byte>>): Ring
    decreases |ms|
  {
    if ms == [] then ring else OfferEach(how, Offer(how, ring, ms[0]), ms[1..])
  }

  /** With the last read as the source these are the offers that ClientInfoEx::DealWithData makes. */
  lemma {:induction false} AsWritten(ring: Ring, chunk: seq<byte>, ps: seq<Packet>)
    ensures OfferAll(ring, chunk, ps) == OfferEach(FromStart, ring, Messages(LastRead, chunk, ps))
    decreases |ps|
  {
    if ps != [] {
      AsWritten(Offer(FromStart, ring, QueuedFor(chunk, Size(ps[0]))), chunk, ps[1..]);
    }
  }

  function Step(source: Source, how: Copying, s: Path, e: Event): Path {
    match e
    case Chunk(bytes) =>
      Path(Read(s.reader, bytes), OfferEach(how, s.ring, Messages(source, bytes, Cut(s.reader, bytes))))
    case ReaderTurn => s.(ring := Take(s.ring, TAKE))
  }

  function Run(source: Source, how: Copying, s: Path, es: seq<Event>): Path
    decreases |es|
  {
    if es == [] then s else Run(source, how, Step(source, how, s, es[0]), es[1..])
  }

  /** The messages that the reader got, in order. */
  function Taken(source: Source, how: Copying, s: Path, es: seq<Event>): seq<seq<byte>>
    decreases |es|
  {
    if es == [] then [] else
      (if es[0].ReaderTurn? && s.ring.CanTake(TAKE) then [s.ring.queue[0]] else [])
      + Taken(source, how, Step(source, how, s, es[0]), es[1..])
  }

  /** The chunks read, and the packets cut off them. */
  function Chunks(es: seq<Event>): seq<seq<byte>> {
    if es == [] then [] else (if es[0].Chunk? then [es[0].bytes] else []) + Chunks(es[1..])
  }

  function CutInRun(r: Reader, chunks: seq<seq<byte>>): seq<Packet>
    decreases |chunks|
  {
    if chunks == [] then [] else Cut(r, chunks[0]) + CutInRun(Read(r, chunks[0]), chunks[1..])
  }

  function MessagesInRun(source: Source, r: Reader, chunks: seq<seq<byte>>): seq<seq<byte>>
    decreases |chunks|
  {
    if chunks == [] then []
    else Messages(source, chunks[0], Cut(r, chunks[0])) + MessagesInRun(source, Read(r, chunks[0]), chunks[1..])
  }

  // Every message of the run finds room when it is offered.
  predicate Fits(source: Source, how: Copying, s: Path, es: seq<Event>)
    decreases |es|
  {
    es == []
    || ((es[0].Chunk? ==>
           Used(s.ring.queue) + Used(Messages(source, es[0].bytes, Cut(s.reader, es[0].bytes))) <= s.ring.capacity)
        && Fits(source, how, Step(source, how, s, es[0]), es[1..]))
  }

  // ---------- one packet, one message ----------

  lemma {:induction false} OfferEachFits(how: Copying, ring: Ring, ms: seq<seq<byte>>)
    requires Used(ring.queue) + Used(ms) <= ring.capacity
    ensures OfferEach(how, ring, ms) == ring.(queue := ring.queue + KeptAll(how, ms))
    decreases |ms|
  {
    if ms == [] {
      Unit(ring.queue);
    } else {
      var m, rest := ms[0], ms[1..];
      AllFragmentsSnoc(ring.queue, Kept(how, m));
      OfferEachFits(how, Offer(how, ring, m), rest);
      assert ms == [m] + rest;
      KeptAllCons(how, m, rest);
      Assoc(ring.queue, [Kept(how, m)], KeptAll(how, rest));
    }
  }

  lemma {:induction false} KeptAllAppend(how: Copying, a: seq<seq<byte>>, b: seq<seq<byte>>)
    ensures KeptAll(how, a + b) == KeptAll(how, a) + KeptAll(how, b)
  {}

  lemma {:induction false} StepFifo(how: Copying, ring: Ring, ms: seq<seq<byte>>, taken: seq<seq<byte>>, left: seq<seq<byte>>,
                                    later: seq<seq<byte>>)
    requires Used(ring.queue) + Used(ms) <= ring.capacity
    requires taken + left == OfferEach(how, ring, ms).queue + KeptAll(how, later)
    ensures taken + left == ring.queue + KeptAll(how, ms + later)
  {
    OfferEachFits(how, ring, ms);
    KeptAllAppend(how, ms, later);
    Assoc(ring.queue, KeptAll(how, ms), KeptAll(how, later));
  }

  /** While they fit, what the reader took and what is queued are the messages of the packets cut off, in order. */
  lemma {:induction false} RunFifo(source: Source, how: Copying, s: Path, es: seq<Event>)
    requires Fits(source, how, s, es)
    ensures Taken(source, how, s, es) + Run(source, how, s, es).ring.queue
         == s.ring.queue + KeptAll(how, MessagesInRun(source, s.reader, Chunks(es)))
    decreases |es|
  {
    if es == [] {
      assert [] + s.ring.queue == s.ring.queue + KeptAll(how, []);
    } else {
      var s' := Step(source, how, s, es[0]);
      var taken, left := Taken(source, how, s', es[1..]), Run(source, how, s, es).ring.queue;
      var later := MessagesInRun(source, s'.reader, Chunks(es[1..]));
      RunFifo(source, how, s', es[1..]);
      match es[0]
      case Chunk(bytes) =>
        assert Chunks(es) == [bytes] + Chunks(es[1..]);
        StepFifo(how, s.ring, Messages(source, bytes, Cut(s.reader, bytes)), taken, left, later);
        Unit(taken);
      case ReaderTurn =>
        assert Chunks(es) == Chunks(es[1..]);
        FifoGet(s.ring, TAKE, taken, left, KeptAll(how, later));
    }
  }

  lemma {:induction false} RunReads(source: Source, how: Copying, s: Path, es: seq<Event>)
    ensures Run(source, how, s, es).reader == ReadAll(s.reader, Chunks(es))
    ensures Run(source, how, s, es).ring.capacity == s.ring.capacity
    decreases |es|
  {
    if es != [] {
      RunReads(source, how, Step(source, how, s, es[0]), es[1..]);
      match es[0]
      case Chunk(bytes) =>
        assert Chunks(es) == [bytes] + Chunks(es[1..]);
        CapacityStays(how, s.ring, Messages(source, bytes, Cut(s.reader, bytes)));
      case ReaderTurn =>
        assert Chunks(es) == Chunks(es[1..]);
    }
  }

  lemma {:induction false} CapacityStays(how: Copying, ring: Ring, ms: seq<seq<byte>>)
    ensures OfferEach(how, ring, ms).capacity == ring.capacity
    decreases |ms|
  {
    if ms != [] {
      CapacityStays(how, Offer(how, ring, ms[0]), ms[1..]);
    }
  }

  lemma {:induction false} CutIsDelivered(r: Reader, chunks: seq<seq<byte>>)
    ensures ReadAll(r, chunks).delivered == r.delivered + CutInRun(r, chunks)
    decreases |chunks|
  {
    if chunks == [] {
      Unit(r.delivered);
    } else {
      CutIsDelivered(Read(r, chunks[0]), chunks[1..]);
      Assoc(r.delivered, Cut(r, chunks[0]), CutInRun(Read(r, chunks[0]), chunks[1..]));
    }
  }

  // ---------- the repair ----------

  /** The packets as they are on the wire, one message each. */
  function Wires(ps: seq<Packet>): (ms: seq<seq<byte>>)
    ensures |ms| == |ps| && forall i | 0 <= i < |ps| :: ms[i] == Serialize(ps[i])
  {
    seq(|ps|, i requires 0 <= i < |ps| => Serialize(ps[i]))
  }

  lemma {:induction false} MessagesAreWires(chunk: seq<byte>, ps: seq<Packet>)
    ensures Messages(ReceiveBuffer, chunk, ps) == Wires(ps)
  {
    if ps != [] {
      MessagesAreWires(chunk, ps[1..]);
    }
  }

  lemma {:induction false} RunIsWires(r: Reader, chunks: seq<seq<byte>>)
    ensures MessagesInRun(ReceiveBuffer, r, chunks) == Wires(CutInRun(r, chunks))
    decreases |chunks|
  {
    if chunks != [] {
      var more := CutInRun(Read(r, chunks[0]), chunks[1..]);
      RunIsWires(Read(r, chunks[0]), chunks[1..]);
      MessagesAreWires(chunks[0], Cut(r, chunks[0]));
      WiresAppend(Cut(r, chunks[0]), more);
    }
  }

  lemma {:induction false} WiresAppend(ps: seq<Packet>, qs: seq<Packet>)
    ensures Wires(ps + qs) == Wires(ps) + Wires(qs)
  {}

  lemma {:induction false} WiresKept(how: Copying, ps: seq<Packet>)
    requires forall p | p in ps :: WellFormed(Client, p) && (how.Advancing? || Size(p) <= SLOT)
    ensures KeptAll(how, Wires(ps)) == Wires(ps)
  {
    forall i | 0 <= i < |ps| ensures KeptAll(how, Wires(ps))[i] == Wires(ps)[i] {
      assert ps[i] in ps;
      assert |Serialize(ps[i])| == Size(ps[i]);
      StoredIntactIff(Size(ps[i]));
    }
  }

  /** Reads of a stream of packets within the sizes, each of whose messages finds room. */
  predicate Within(source: Source, how: Copying, capacity: nat, es: seq<Event>, ps: seq<Packet>, longest: nat, read: nat) {
    && longest - 1 + read < RECV && ReadsOf(Chunks(es), ps, longest, read)
    && Fits(source, how, Begin(capacity), es)
  }

  lemma {:induction false} ReaderStands(source: Source, how: Copying, capacity: nat, es: seq<Event>, ps: seq<Packet>,
                                        longest: nat, read: nat)
    requires Within(source, how, capacity, es, ps, longest, read)
    ensures var r := Run(source, how, Begin(capacity), es).reader;
            Stands(r, Concat(Chunks(es))) && r.delivered <= ps && r.delivered == CutInRun(Reader([], []), Chunks(es))
  {
    var r := Reader([], []);
    RunReads(source, how, Begin(capacity), es);
    Unit(Concat(Chunks(es)));
    NothingDiscarded(r, [], Chunks(es), ps, longest, read);
    CutIsDelivered(r, Chunks(es));
    Unit(CutInRun(r, Chunks(es)));
  }

  /**
   With the repair, over every run: what the reader took, then what is queued, is exactly the packets of the stream
   that are complete, one message each, in order, if the ring keeps them intact: as written for packets
   of at most a slot, always if its copy advances.
   */
  lemma {:induction false} RepairDelivers(how: Copying, capacity: nat, es: seq<Event>, ps: seq<Packet>, longest: nat, read: nat)
    requires Within(ReceiveBuffer, how, capacity, es, ps, longest, read) && (how.Advancing? || longest <= 0x1000)
    ensures var s := Run(ReceiveBuffer, how, Begin(capacity), es);
            && Taken(ReceiveBuffer, how, Begin(capacity), es) + s.ring.queue == Wires(s.reader.delivered)
            && s.reader.delivered <= ps && Stands(s.reader, Concat(Chunks(es)))
  {
    ReaderStands(ReceiveBuffer, how, capacity, es, ps, longest, read);
    RunFifo(ReceiveBuffer, how, Begin(capacity), es);
    var cut := CutInRun(Reader([], []), Chunks(es));
    RunIsWires(Reader([], []), Chunks(es));
    assert forall p | p in cut :: p in ps;
    WiresKept(how, cut);
    Unit(Wires(cut));
  }

  /** So message i that the reader takes parses to packet i of the stream. */
  lemma {:induction false} TakenParses(how: Copying, capacity: nat, es: seq<Event>, ps: seq<Packet>, longest: nat, read: nat, i: nat)
    requires Within(ReceiveBuffer, how, capacity, es, ps, longest, read) && (how.Advancing? || longest <= SLOT)
    ensures var taken := Taken(ReceiveBuffer, how, Begin(capacity), es);
            i < |taken| ==> i < |ps| && Parse(Client, taken[i]) == Parsed(ps[i])
  {
    RepairDelivers(how, capacity, es, ps, longest, read);
    var s := Run(ReceiveBuffer, how, Begin(capacity), es);
    var taken := Taken(ReceiveBuffer, how, Begin(capacity), es);
    if i < |taken| {
      assert taken[i] == (taken + s.ring.queue)[i] == Serialize(s.reader.delivered[i]);
      assert ps[i] in ps;
      ParseSerialized(Client, ps[i], []);
      Unit(Serialize(ps[i]));
    }
  }

  // ---------- messages that the reader refuses ----------

  /** A message of 0x2000 bytes or more at the head blocks its client's ring for good, whatever comes after it. */
  lemma {:induction false} BlockedForGood(source: Source, how: Copying, s: Path, es: seq<Event>)
    requires s.ring.queue != [] && |s.ring.queue[0]| >= 0x2000
    ensures Taken(source, how, s, es) == []
    ensures var q := Run(source, how, s, es).ring.queue;
            q != [] && q[0] == s.ring.queue[0]
    decreases |es|
  {
    if es != [] {
      match es[0] {
        case Chunk(bytes) => HeadStays(how, s.ring, Messages(source, bytes, Cut(s.reader, bytes)));
        case ReaderTurn =>
      }
      BlockedForGood(source, how, Step(source, how, s, es[0]), es[1..]);
    }
  }

  lemma {:induction false} HeadStays(how: Copying, ring: Ring, ms: seq<seq<byte>>)
    requires ring.queue != []
    ensures var q := OfferEach(how, ring, ms).queue;
            q != [] && q[0] == ring.queue[0]
    decreases |ms|
  {
    if ms != [] {
      HeadStays(how, Offer(how, ring, ms[0]), ms[1..]);
    }
  }

  function Turns(n: nat): (es: seq<Event>)
    ensures |es| == n
  {
    if n == 0 then [] else [ReaderTurn] + Turns(n - 1)
  }

  lemma {:induction false} TurnsAreGets(source: Source, how: Copying, s: Path, n: nat)
    ensures Run(source, how, s, Turns(n)).ring == SlotRing.Run(how, s.ring, Gets(TAKE, n))
    decreases n
  {
    if n > 0 {
      assert Turns(n)[1..] == Turns(n - 1) && Gets(TAKE, n)[1..] == Gets(TAKE, n - 1);
      TurnsAreGets(source, how, Step(source, how, s, ReaderTurn), n - 1);
    }
  }

  /** As many turns as there are messages empty the ring. */
  predicate Empties(source: Source, how: Copying, s: Path) {
    Run(source, how, s, Turns(|s.ring.queue|)).ring.queue == []
  }

  lemma {:induction false} EmptiesIff(source: Source, how: Copying, s: Path)
    ensures Empties(source, how, s) <==> forall m | m in s.ring.queue :: |m| < TAKE
  {
    TurnsAreGets(source, how, s, |s.ring.queue|);
    EmptiedIff(how, s.ring, TAKE);
  }

  lemma {:induction false} MessagesShort(source: Source, r: Reader, chunks: seq<seq<byte>>, longest: nat)
    requires forall p | p in CutInRun(r, chunks) :: |Serialize(p)| == Size(p) <= longest
    ensures forall m | m in MessagesInRun(source, r, chunks) :: |m| <= longest
    decreases |chunks|
  {
    if chunks != [] {
      var now, more := Cut(r, chunks[0]), CutInRun(Read(r, chunks[0]), chunks[1..]);
      assert CutInRun(r, chunks) == now + more;
      assert forall p | p in more :: p in now + more;
      assert forall p | p in now :: p in now + more;
      MessagesShort(source, Read(r, chunks[0]), chunks[1..], longest);
      EachShort(source, chunks[0], now, longest);
    }
  }

  lemma {:induction false} EachShort(source: Source, chunk: seq<byte>, ps: seq<Packet>, longest: nat)
    requires forall p | p in ps :: |Serialize(p)| == Size(p) <= longest
    ensures forall m | m in Messages(source, chunk, ps) :: |m| <= longest
  {
    if ps != [] {
      assert ps[0] in ps;
      EachShort(source, chunk, ps[1..], longest);
    }
  }

  lemma {:induction false} ShortEmpties(source: Source, how: Copying, capacity: nat, es: seq<Event>, ps: seq<Packet>,
                                        longest: nat, read: nat)
    requires Within(source, how, capacity, es, ps, longest, read) && longest < TAKE
    ensures Empties(source, how, Run(source, how, Begin(capacity), es))
  {
    var s := Run(source, how, Begin(capacity), es);
    CutIsShort(source, how, capacity, es, ps, longest, read);
    MessagesShort(source, Reader([], []), Chunks(es), longest);
    RunFifo(source, how, Begin(capacity), es);
    var ms := MessagesInRun(source, Reader([], []), Chunks(es));
    QueueShort(how, Taken(source, how, Begin(capacity), es), s.ring.queue, ms, longest);
    EmptiesIff(source, how, s);
  }

  lemma {:induction false} CutIsShort(source: Source, how: Copying, capacity: nat, es: seq<Event>, ps: seq<Packet>,
                                      longest: nat, read: nat)
    requires Within(source, how, capacity, es, ps, longest, read)
    ensures forall p | p in CutInRun(Reader([], []), Chunks(es)) :: |Serialize(p)| == Size(p) <= longest
  {
    ReaderStands(source, how, capacity, es, ps, longest, read);
    assert forall p | p in CutInRun(Reader([], []), Chunks(es)) :: p in ps;
  }

  lemma {:induction false} QueueShort(how: Copying, taken: seq<seq<byte>>, queue: seq<seq<byte>>, ms: seq<seq<byte>>, longest: nat)
    requires taken + queue == [] + KeptAll(how, ms) && forall m | m in ms :: |m| <= longest
    ensures forall m | m in queue :: |m| <= longest
  {
    forall m | m in queue ensures |m| <= longest {
      assert m in taken + queue;
      var i :| 0 <= i < |ms| && KeptAll(how, ms)[i] == m;
      assert ms[i] in ms;
    }
  }

  // ---------- the run that shows it ----------

  function ReadsOnly(chunks: seq<seq<byte>>): seq<Event> {
    if chunks == [] then [] else [Chunk(chunks[0])] + ReadsOnly(chunks[1..])
  }

  lemma {:induction false} HeldRun(source: Source, how: Copying, b: seq<byte>, more: seq<byte>, ring: Ring, last: Event)
    requires Held(Client, b, more) && |b| + |more| < RECV && Used(ring.queue) <= ring.capacity
    ensures var s, es, end := Path(Reader(b, []), ring), ReadsOnly(Singles(more)) + [last], Path(Reader(b + more, []), ring);
            && Run(source, how, s, es) == Step(source, how, end, last)
            && (Fits(source, how, s, es) <==> Fits(source, how, end, [last]))
            && Chunks(es) == Singles(more) + Chunks([last])
    decreases |more|
  {
    var s := Path(Reader(b, []), ring);
    if more == [] {
      assert b + [] == b && [] + [last] == [last];
      assert Run(source, how, s, [last]) == Run(source, how, Step(source, how, s, last), []);
    } else {
      var c := [more[0]];
      HeldNext(Client, b, more);
      var s' := Path(Reader(b + c, []), ring);
      assert Step(source, how, s, Chunk(c)) == s';
      HeldRun(source, how, b + c, more[1..], ring, last);
      Assoc(b, c, more[1..]);
      assert c + more[1..] == more;
      var later := ReadsOnly(Singles(more[1..])) + [last];
      assert Singles(more)[0] == c && Singles(more)[1..] == Singles(more[1..]);
      Assoc([Chunk(c)], ReadsOnly(Singles(more[1..])), [last]);
      FirstRead(source, how, s, c, later);
      Assoc([c], Singles(more[1..]), Chunks([last]));
    }
  }

  lemma {:induction false} FirstRead(source: Source, how: Copying, s: Path, c: seq<byte>, later: seq<Event>)
    requires Cut(s.reader, c) == [] && Used(s.ring.queue) <= s.ring.capacity
    ensures Run(source, how, s, [Chunk(c)] + later) == Run(source, how, Step(source, how, s, Chunk(c)), later)
    ensures Fits(source, how, s, [Chunk(c)] + later) <==> Fits(source, how, Step(source, how, s, Chunk(c)), later)
    ensures Chunks([Chunk(c)] + later) == [c] + Chunks(later)
  {
    assert ([Chunk(c)] + later)[1..] == later;
  }

  /** One packet of 0x2000 bytes or more, read a byte at a time, is cut off, queued and never taken. */
  lemma {:induction false} LongBlocks(source: Source, how: Copying, longest: nat, read: nat)
    returns (capacity: nat, es: seq<Event>, ps: seq<Packet>)
    requires TAKE <= longest <= MAX_INT && 0 < read && longest - 1 + read < RECV
    ensures Within(source, how, capacity, es, ps, longest, read)
    ensures !Empties(source, how, Run(source, how, Begin(capacity), es))
  {
    var p := Plain(Client, longest);
    var all := Serialize(p);
    var s, c := all[..longest - 1], [all[longest - 1]];
    ps, capacity := [p], SlotCount(longest);
    OneOnWire(p);
    BeginningHeld(Client, [p], longest - 1);
    assert s + c == all;
    es := LongRun(source, how, p, s, c, capacity);
    SinglesConcat(s);
    ConcatSnoc(Singles(s), c);
  }

  lemma {:induction false} LongRun(source: Source, how: Copying, p: Packet, s: seq<byte>, c: seq<byte>, capacity: nat)
    returns (es: seq<Event>)
    requires WellFormed(Client, p) && p.data != [] && s + c == Serialize(p) && |Serialize(p)| < RECV
    requires capacity == SlotCount(Size(p)) && Size(p) >= TAKE && Held(Client, [], s)
    ensures Chunks(es) == Singles(s) + [c] && Fits(source, how, Begin(capacity), es)
    ensures !Empties(source, how, Run(source, how, Begin(capacity), es))
  {
    es := ReadsOnly(Singles(s)) + [Chunk(c)];
    HeldRun(source, how, [], s, Ring(capacity, []), Chunk(c));
    Unit(s);
    LastByte(source, how, s, c, p, capacity);
    assert Chunks([Chunk(c)]) == [c] + Chunks([]);
    EmptiesIff(source, how, Run(source, how, Begin(capacity), es));
  }

  lemma {:induction false} LastByte(source: Source, how: Copying, s: seq<byte>, c: seq<byte>, p: Packet, capacity: nat)
    requires WellFormed(Client, p) && p.data != [] && s + c == Serialize(p) && |Serialize(p)| < RECV
    requires capacity == SlotCount(Size(p)) && Size(p) >= TAKE
    ensures var end := Path(Reader(s, []), Ring(capacity, []));
            && Fits(source, how, end, [Chunk(c)])
            && exists m :: m in Step(source, how, end, Chunk(c)).ring.queue && |m| >= TAKE
  {
    var end := Path(Reader(s, []), Ring(capacity, []));
    DrainOfOne(Client, p);
    assert Cut(end.reader, c) == [p];
    var m := Message(source, c, p);
    assert [p][1..] == [];
    assert Messages(source, c, [p]) == [m] + Messages(source, c, []);
    assert [m][1..] == [];
    assert Used([m]) == SlotCount(|m|) + Used([]);
    OfferEachFits(how, end.ring, [m]);
    var q := Step(source, how, end, Chunk(c)).ring.queue;
    assert q == [] + KeptAll(how, [m]);
    assert q[0] in q && |q[0]| == |m|;
    assert Fits(source, how, Step(source, how, end, Chunk(c)), []);
  }

  /**
   As written and repaired alike, the reader can empty every client's ring, whatever is sent and read within the sizes,
   exactly when packets are shorter than 0x2000 bytes; the receive buffer lets through longer ones.
   */
  lemma {:induction false} EmptiesAlwaysIff(source: Source, how: Copying, longest: nat, read: nat)
    requires 18 < longest <= MAX_INT && 0 < read && longest - 1 + read < 0x4000
    ensures (forall capacity: nat, es, ps | Within(source, how, capacity, es, ps, longest, read) ::
               Empties(source, how, Run(source, how, Begin(capacity), es)))
            <==> longest < 0x2000
  {
    if longest < TAKE {
      forall capacity: nat, es, ps | Within(source, how, capacity, es, ps, longest, read)
        ensures Empties(source, how, Run(source, how, Begin(capacity), es))
      {
        ShortEmpties(source, how, capacity, es, ps, longest, read);
      }
    } else {
      var capacity, es, ps := LongBlocks(source, how, longest, read);
    }
  }
}
