/**
 For which packet and chunk sizes the reader of gate_server/rs_processor.cpp:81-105 never gets stuck, over whole
 runs and in terms of the bytes as they were sent.
 */
module Jams {
  import opened Bytes
  import opened SlotRing
  import opened Framing
  import opened Packs
  import opened Stream

  /** A chunk waits that the reader refuses. */
  predicate Jammed(p: Pipe) {
    p.ring.queue != [] && !p.ring.CanTake(p.Limit())
  }

  /** It refuses it for good: nothing that arrives and no further turn changes what it holds or delivers. */
  lemma {:induction false} JammedForGood(how: Copying, p: Pipe, es: seq<Event>)
    requires Jammed(p)
    ensures var q := Stream.Run(how, p, es);
            Jammed(q) && q.residue == p.residue && q.delivered == p.delivered
    decreases |es|
  {
    if es != [] {
      JammedForGood(how, Step(how, p, es[0]), es[1..]);
    }
  }

  // ---------- runs that take one chunk at a time ----------

  function Fed(chunks: seq<seq<byte>>): seq<Event> {
    if chunks == [] then [] else [Arrive(chunks[0])] + ([ReaderTurn] + Fed(chunks[1..]))
  }

  // The ring is empty, and has room for the chunk, and the buffer has too.
  predicate Takes(p: Pipe, chunk: seq<byte>) {
    p.ring.queue == [] && SlotCount(|chunk|) <= p.ring.capacity && |chunk| < p.Limit()
  }

  function After(how: Copying, p: Pipe, chunk: seq<byte>): Pipe {
    var d := Drain(Envelope, p.residue + Kept(how, chunk));
    Pipe(p.ring, d.rest, p.delivered + d.packets)
  }

  lemma {:induction false} FedOne(how: Copying, p: Pipe, chunk: seq<byte>, es: seq<Event>)
    requires Takes(p, chunk)
    ensures Stream.Run(how, p, [Arrive(chunk)] + ([ReaderTurn] + es)) == Stream.Run(how, After(how, p, chunk), es)
    ensures Stream.Accepted(how, p, [Arrive(chunk)] + ([ReaderTurn] + es)) == [chunk] + Stream.Accepted(how, After(how, p, chunk), es)
  {
    var p1 := Step(how, p, Arrive(chunk));
    assert Used(p.ring.queue) == 0;
    assert p1.ring.queue == [Kept(how, chunk)] && p1.ring.queue[1..] == [];
    var p2 := Step(how, p1, ReaderTurn);
    assert p2 == After(how, p, chunk);
    var later := [ReaderTurn] + es;
    assert ([Arrive(chunk)] + later)[1..] == later && later[1..] == es;
    assert Stream.Accepted(how, p1, later) == [] + Stream.Accepted(how, p2, es);
  }

  lemma {:induction false} FedHeld(how: Copying, p: Pipe, s: seq<byte>)
    requires p.ring.queue == [] && 1 <= p.ring.capacity && |p.residue| + |s| < BUFFER && Held(Envelope, p.residue, s)
    ensures Stream.Run(how, p, Fed(Singles(s))) == p.(residue := p.residue + s)
    ensures Stream.Accepted(how, p, Fed(Singles(s))) == Singles(s)
    decreases |s|
  {
    if s == [] {
      Unit(p.residue);
    } else {
      var c, rest := [s[0]], s[1..];
      StoredIntactIff(1);
      HeldNext(Envelope, p.residue, s);
      var p' := p.(residue := p.residue + c);
      Unit(p.delivered);
      assert After(how, p, c) == p';
      FedHeld(how, p', rest);
      assert Singles(s)[1..] == Singles(rest);
      FedOne(how, p, c, Fed(Singles(rest)));
      Assoc(p.residue, c, rest);
      HeadTail(s);
    }
  }

  lemma {:induction false} FedShort(chunks: seq<seq<byte>>, bound: nat)
    requires forall c | c in chunks :: |c| <= bound
    ensures forall e | e in Fed(chunks) && e.Arrive? :: |e.chunk| <= bound
  {
    if chunks != [] {
      FedShort(chunks[1..], bound);
      assert chunks[0] in chunks;
    }
  }

  lemma {:induction false} AllBytes(chunks: seq<seq<byte>>, s: seq<byte>, c: seq<byte>)
    ensures Concat((chunks + Singles(s)) + [c]) == Concat(chunks) + s + c
  {
    ConcatSnoc(chunks + Singles(s), c);
    ConcatAppend(chunks, Singles(s));
    SinglesConcat(s);
  }

  /** A run that ends in a state where nothing is cut off goes on byte by byte until the reader is stuck. */
  lemma {:induction false} FillUp(how: Copying, capacity: nat, es: seq<Event>, s: seq<byte>, c: seq<byte>, bound: nat)
    returns (all: seq<Event>)
    requires var p := Stream.Run(how, Empty(capacity), es);
             p.ring == Ring(capacity, []) && Held(Envelope, p.residue, s) && |p.residue| + |s| < BUFFER <= |p.residue| + |s| + |c|
    requires SlotCount(|c|) <= capacity && 0 < |c| <= bound && forall e | e in es && e.Arrive? :: |e.chunk| <= bound
    ensures Jammed(Stream.Run(how, Empty(capacity), all)) && forall e | e in all && e.Arrive? :: |e.chunk| <= bound
    ensures Concat(Stream.Accepted(how, Empty(capacity), all)) == Concat(Stream.Accepted(how, Empty(capacity), es)) + s + c
  {
    var p0, more, last := Empty(capacity), Fed(Singles(s)), [Arrive(c)];
    var p := Stream.Run(how, p0, es);
    FedHeld(how, p, s);
    OneArrival(how, Stream.Run(how, p, more), c);
    RunAppend(how, p0, es, more);
    RunAppend(how, p0, es + more, last);
    AcceptedAppend(how, p0, es, more);
    AcceptedAppend(how, p0, es + more, last);
    all := (es + more) + last;
    AllBytes(Stream.Accepted(how, p0, es), s, c);
    FedShort(Singles(s), bound);
  }

  // ---------- a buffer too small ----------

  /** Most of a long packet, and then a chunk that no longer fits. */
  lemma {:induction false} JamsIfNotRoomy(how: Copying, longest: nat, bound: nat)
    returns (capacity: nat, es: seq<Event>, ps: seq<Packet>)
    requires OVERHEAD < longest <= MAX_INT && 0 < bound && !Roomy(longest, bound)
    ensures Sends(how, capacity, es, ps, longest, bound) && Jammed(Stream.Run(how, Empty(capacity), es))
  {
    var s, c;
    ps, s, c := LongStream(Envelope, longest, BUFFER);
    capacity := SlotCount(|c|);
    es := FillUp(how, capacity, [], s, c, bound);
    Unit(s);
  }

  // ---------- a damaged length ----------

  // A packet of 19 bytes for the user with key 1.
  const KEYED := Packet(HEAD, 1, 0, 1, [0], TAIL)

  lemma {:induction false} KeyedBytes()
    ensures WellFormed(Envelope, KEYED) && Size(KEYED) == |Serialize(KEYED)| == 19
    ensures Serialize(KEYED)[3] == 1 && Serialize(KEYED)[11..14] == [1, 0, 0]
  {
    var s := Serialize(KEYED);
    assert s == HEAD + PutInt(1) + PutInt(0) + PutInt(1) + [0] + TAIL;
    assert PutInt(1) == [1, 0, 0, 0];
    assert s[11..14] == PutInt(1)[..3];
  }

  // The bytes of a header whose length field says more than the buffer can ever hold.
  predicate Waiting(b: seq<byte>) {
    HEADER <= |b| && BUFFER <= LengthAt(Envelope, b) <= MAX_INT - OVERHEAD
  }

  lemma {:induction false} WaitingHeld(b: seq<byte>, more: seq<byte>)
    requires Waiting(b) && |b| + |more| < BUFFER
    ensures Held(Envelope, b, more)
  {
    forall k | 0 <= k <= |more| ensures Drain(Envelope, b + more[..k]) == Drained([], b + more[..k]) {
      assert (b + more[..k])[11..15] == b[11..15];
    }
  }

  // One byte over a slot: the last one becomes a copy of the first.
  lemma {:induction false} OneByteOver(c: seq<byte>)
    requires |c| == SLOT + 1
    ensures Stored(c) == c[..SLOT] + [c[0]]
  {
    var got, want := Stored(c), c[..SLOT] + [c[0]];
    forall i | 0 <= i < |got| ensures got[i] == want[i] {
      assert i % SLOT == if i < SLOT then i else 0;
    }
  }

  // The first three bytes, and the next 0x1001 as the ring stores them, are the first 4099 and a copy of the fourth.
  lemma {:induction false} Overlaid(all: seq<byte>)
    requires 4100 <= |all|
    ensures all[..3] + Stored(all[3..4100]) == all[..4099] + [all[3]]
  {
    OneByteOver(all[3..4100]);
    assert all[3..4100][0] == all[3];
    assert all[3..4100][..SLOT] == all[3..4099];
    assert all[..3] + all[3..4099] == all[..4099];
    Assoc(all[..3], all[3..4099], [all[3]]);
  }

  // What is left of the 216th packet: its header, but that the top byte of its length is 1.
  function Left(): (b: seq<byte>)
    ensures |b| == 15
  {
    KeyedBytes();
    Serialize(KEYED)[..14] + [1]
  }

  lemma {:induction false} LeftWaits()
    ensures Waiting(Left()) && Drain(Envelope, Left()) == Drained([], Left())
  {
    KeyedBytes();
    assert Left()[11..15] == Serialize(KEYED)[11..14] + [1];
  }

  lemma {:induction false} DamagedRest(all: seq<byte>)
    requires all == SerializeAll(Copies(KEYED, 1100)) && 4100 <= |all|
    ensures Drain(Envelope, all[..3] + Stored(all[3..4100])) == Drained(Copies(KEYED, 215), Left())
  {
    KeyedBytes();
    CopiesSplit(KEYED, 215, 885);
    CopiesLength(KEYED, 215);
    BeginsWith(SerializeAll(Copies(KEYED, 215)), KEYED, SerializeAll(Copies(KEYED, 885)), 885);
    FirstByteOfKey(all, 1100);
    Overlaid(all);
    LeftThrough(all, SerializeAll(Copies(KEYED, 215)), Copies(KEYED, 215));
  }

  lemma {:induction false} LeftThrough(all: seq<byte>, whole: seq<byte>, ps: seq<Packet>)
    requires 4100 <= |all| && all[3] == 1 && whole == SerializeAll(ps) && forall p | p in ps :: WellFormed(Envelope, p)
    requires |Serialize(KEYED)| >= 14 && all[..4099] == whole + Serialize(KEYED)[..14]
    ensures Drain(Envelope, all[..4099] + [all[3]]) == Drained(ps, Left())
  {
    Assoc(whole, Serialize(KEYED)[..14], [1]);
    LeftWaits();
    DrainThrough(Envelope, ps, Left());
    Unit(ps);
  }

  /** The head of the first packet, then a chunk whose last byte lands in the length field of the 216th. */
  lemma {:induction false} Damaging(all: seq<byte>) returns (es: seq<Event>)
    requires all == SerializeAll(Copies(KEYED, 1100)) && 4100 <= |all|
    ensures Stream.Run(FromStart, Empty(2), es) == Pipe(Ring(2, []), Left(), Copies(KEYED, 215))
    ensures Concat(Stream.Accepted(FromStart, Empty(2), es)) == all[..4100]
    ensures forall e | e in es && e.Arrive? :: |e.chunk| <= SLOT + 1
  {
    var c0, c1 := all[..3], all[3..4100];
    var p1 := Pipe(Ring(2, []), c0, []);
    AfterHead(c0);
    DamagedRest(all);
    AfterDamage(p1, c1, Left(), Copies(KEYED, 215));
    es := FedTwo(Empty(2), c0, p1, c1);
    ConcatTwo(c0, c1);
    ThreeParts(all, 0, 3, 4100);
    Unit(c0);
  }

  lemma {:induction false} AfterHead(c: seq<byte>)
    requires |c| == 3
    ensures After(FromStart, Empty(2), c) == Pipe(Ring(2, []), c, [])
  {
    StoredIntactIff(3);
    Unit(c);
  }

  lemma {:induction false} AfterDamage(p: Pipe, c: seq<byte>, left: seq<byte>, ps: seq<Packet>)
    requires p.delivered == [] && Drain(Envelope, p.residue + Stored(c)) == Drained(ps, left)
    ensures After(FromStart, p, c) == Pipe(p.ring, left, ps)
  {
    Unit(ps);
  }

  lemma {:induction false} FedTwo(p: Pipe, c0: seq<byte>, p1: Pipe, c1: seq<byte>) returns (es: seq<Event>)
    requires Takes(p, c0) && After(FromStart, p, c0) == p1 && Takes(p1, c1) && |c0| <= SLOT + 1 && |c1| <= SLOT + 1
    ensures Stream.Run(FromStart, p, es) == After(FromStart, p1, c1)
    ensures Stream.Accepted(FromStart, p, es) == [c0] + [c1]
    ensures forall e | e in es && e.Arrive? :: |e.chunk| <= SLOT + 1
  {
    var later := [Arrive(c1)] + ([ReaderTurn] + []);
    es := [Arrive(c0)] + ([ReaderTurn] + later);
    FedOne(FromStart, p1, c1, []);
    FedOne(FromStart, p, c0, later);
    Unit([c1]);
  }

  lemma {:induction false} ConcatTwo(a: seq<byte>, b: seq<byte>)
    ensures Concat([a] + [b]) == a + b
  {
    ConcatSnoc([a], b);
    ConcatSnoc([], a);
    Unit([a]);
    Unit(a);
  }

  lemma {:induction false} BeginsWith(whole: seq<byte>, p: Packet, tail: seq<byte>, n: nat)
    requires 0 < n && tail == SerializeAll(Copies(p, n)) && |Serialize(p)| >= 14
    ensures |whole| + 14 <= |whole + tail| && (whole + tail)[..|whole| + 14] == whole + Serialize(p)[..14]
  {
    assert tail[..14] == Serialize(p)[..14];
    assert (whole + tail)[..|whole| + 14] == whole + tail[..14];
  }

  lemma {:induction false} FirstByteOfKey(all: seq<byte>, n: nat)
    requires 0 < n && all == SerializeAll(Copies(KEYED, n))
    ensures 3 < |all| && all[3] == 1
  {
    KeyedBytes();
  }

  lemma {:induction false} ThreeParts(all: seq<byte>, i: nat, j: nat, k: nat)
    requires i <= j <= k <= |all|
    ensures all[..i] + all[i..j] + all[j..k] == all[..k] <= all
  {}

  /** As written: a chunk of one byte more than a slot is enough. */
  lemma {:induction false} JamsIfNotKept(longest: nat, bound: nat) returns (es: seq<Event>, ps: seq<Packet>)
    requires OVERHEAD < longest && SLOT < bound
    ensures Sends(FromStart, 2, es, ps, longest, bound) && Jammed(Stream.Run(FromStart, Empty(2), es))
  {
    ps := Copies(KEYED, 1100);
    KeyedBytes();
    CopiesLength(KEYED, 1100);
    var all := SerializeAll(ps);
    var es1 := Damaging(all);
    var s, c := all[4100..20468], all[20468..20469];
    LeftWaits();
    WaitingHeld(Left(), s);
    es := FillUp(FromStart, 2, es1, s, c, bound);
    ThreeParts(all, 4100, 20468, 20469);
  }

  /**
   The reader never jams, whatever is sent in packets of at most `longest` and chunks of at most `bound` bytes and
   whenever it runs, exactly for these sizes.
   */
  lemma {:induction false} NeverJamsIff(how: Copying, longest: nat, bound: nat)
    requires 18 < longest <= MAX_INT && 0 < bound
    ensures (forall capacity: nat, es, ps | Sends(how, capacity, es, ps, longest, bound) :: GoesOn(Stream.Run(how, Empty(capacity), es)))
            <==> longest - 1 + bound < 0x4000 && (how.Advancing? || bound <= 0x1000)
  {
    if Roomy(longest, bound) && (how.Advancing? || bound <= SLOT) {
      forall capacity: nat, es, ps | Sends(how, capacity, es, ps, longest, bound)
        ensures GoesOn(Stream.Run(how, Empty(capacity), es))
      {
        NeverJams(how, capacity, es, ps, longest, bound);
      }
    } else if !Roomy(longest, bound) {
      var capacity, es, ps := JamsIfNotRoomy(how, longest, bound);
      assert !GoesOn(Stream.Run(how, Empty(capacity), es));
    } else {
      var es, ps := JamsIfNotKept(longest, bound);
      assert !GoesOn(Stream.Run(how, Empty(2), es));
    }
  }
}
