/**
 The two hand-written packet formats and the cutting of packets out of a byte stream.

 Both formats are three head bytes, three integers, the data and three tail bytes. They differ
 in which of the three integers announces the length of the data: the second one in a
 client packet (packet/cyt_packet.pb.cpp), the third one in the envelope that gate and room
 servers exchange (packet/gs_rs_packet.pb.cpp).
 */
module Framing {
  import opened Bytes

  datatype Layout = Client | Envelope

  datatype Packet = Packet(head: seq<byte>, word0: int32, word1: int32, word2: int32, data: seq<byte>, tail: seq<byte>)

  // Head, three integers; tail.
  const HEADER := 15
  const OVERHEAD := 18

  function LengthField(layout: Layout, p: Packet): int32 {
    if layout.Client? then p.word1 else p.word2
  }

  /** The packets that the senders build: three-byte ends, and a length field that tells the truth. */
  predicate WellFormed(layout: Layout, p: Packet) {
    && |p.head| == 3 && |p.tail| == 3
    && LengthField(layout, p) == |p.data| <= MAX_INT - OVERHEAD
  }

  function Size(p: Packet): nat {
    OVERHEAD + |p.data|
  }

  /**
   `Overflow` is the outcome of a length field above 2^31-19, for which `ByteSize()` overflows a
   signed int. C++ gives that no meaning, so nothing is claimed past it.
   */
  datatype ParseResult = Refused | Overflow | Parsed(packet: Packet)

  function Word(b: seq<byte>, i: nat): int32
    requires i < 3 && HEADER <= |b|
  {
    GetInt(b[3 + 4 * i..7 + 4 * i])
  }

  function LengthAt(layout: Layout, b: seq<byte>): int32
    requires HEADER <= |b|
  {
    Word(b, if layout.Client? then 1 else 2)
  }

  function Parse(layout: Layout, b: seq<byte>): ParseResult {
    if |b| < OVERHEAD then
      Refused
    else
      var n := LengthAt(layout, b);
      if n < 0 then Refused
      else if n > MAX_INT - OVERHEAD then Overflow
      else if |b| < OVERHEAD + n then Refused
      else Parsed(Packet(b[..3], Word(b, 0), Word(b, 1), Word(b, 2),
                         b[HEADER..HEADER + n], b[HEADER + n..OVERHEAD + n]))
  }

  function Serialize(p: Packet): seq<byte> {
    p.head + PutInt(p.word0) + PutInt(p.word1) + PutInt(p.word2) + p.data + p.tail
  }

  function SerializeAll(ps: seq<Packet>): seq<byte> {
    if ps == [] then [] else Serialize(ps[0]) + SerializeAll(ps[1..])
  }

  // ---------- one packet ----------

  lemma {:induction false} WordsOfSerialized(p: Packet, b: seq<byte>)
    requires |p.head| == 3 && Serialize(p) <= b
    ensures HEADER <= |b| && b[..3] == p.head
    ensures Word(b, 0) == p.word0 && Word(b, 1) == p.word1 && Word(b, 2) == p.word2
  {
    assert b[..|Serialize(p)|] == Serialize(p);
    assert b[3..7] == PutInt(p.word0) && b[7..11] == PutInt(p.word1) && b[11..15] == PutInt(p.word2);
    GetAfterPut(p.word0);
    GetAfterPut(p.word1);
    GetAfterPut(p.word2);
  }

  /** A serialized packet parses back to itself, whatever bytes follow it. */
  lemma {:induction false} ParseSerialized(layout: Layout, p: Packet, rest: seq<byte>)
    requires WellFormed(layout, p)
    ensures Parse(layout, Serialize(p) + rest) == Parsed(p)
  {
    var b := Serialize(p) + rest;
    WordsOfSerialized(p, b);
    assert b[HEADER..HEADER + |p.data|] == p.data;
    assert b[HEADER + |p.data|..OVERHEAD + |p.data|] == p.tail;
  }

  /** A parsed packet serializes to exactly the bytes it was cut from. */
  lemma {:induction false} SerializeParsed(layout: Layout, b: seq<byte>)
    requires Parse(layout, b).Parsed?
    ensures var p := Parse(layout, b).packet;
            WellFormed(layout, p) && Size(p) <= |b| && Serialize(p) == b[..Size(p)]
  {
    var p := Parse(layout, b).packet;
    PutAfterGet(b[3..7]);
    PutAfterGet(b[7..11]);
    PutAfterGet(b[11..15]);
    assert b[..Size(p)] == b[..3] + b[3..7] + b[7..11] + b[11..15] + p.data + p.tail;
  }

  /** A decision taken on a prefix of the stream stands when more bytes arrive. */
  lemma {:induction false} ParseStable(layout: Layout, a: seq<byte>, b: seq<byte>)
    requires !Parse(layout, a).Refused?
    ensures Parse(layout, a + b) == Parse(layout, a)
  {
    assert (a + b)[..|a|] == a;
    assert forall i: nat | i < 3 :: (a + b)[3 + 4 * i..7 + 4 * i] == a[3 + 4 * i..7 + 4 * i];
    if Parse(layout, a).Parsed? {
      var n := LengthAt(layout, a);
      assert (a + b)[..3] == a[..3];
      assert (a + b)[HEADER..HEADER + n] == a[HEADER..HEADER + n];
      assert (a + b)[HEADER + n..OVERHEAD + n] == a[HEADER + n..OVERHEAD + n];
    }
  }

  // ---------- where the fields lie ----------

  /**
   The wire form, byte by byte: three bytes of head, three integers, the data, three bytes of tail. This is how the
   formats are described, whatever writes and reads them.
   */
  predicate LaidOut(b: seq<byte>, p: Packet) {
    var n := |p.data|;
    && |p.head| == 3 && |p.tail| == 3 && 18 + n <= |b|
    && b[..3] == p.head
    && IntAt(b, 3, p.word0) && IntAt(b, 7, p.word1) && IntAt(b, 11, p.word2)
    && b[15..15 + n] == p.data
    && b[15 + n..18 + n] == p.tail
  }

  /** A serialized packet is the one string of its length that is laid out so. */
  lemma {:induction false} SerializedIff(p: Packet, b: seq<byte>)
    requires |p.head| == 3 && |p.tail| == 3 && |b| == 18 + |p.data|
    ensures b == Serialize(p) <==> LaidOut(b, p)
  {
    SerializedLies(p);
    if LaidOut(b, p) {
      IntAtUnique(b, 3, Serialize(p), 3, p.word0);
      IntAtUnique(b, 7, Serialize(p), 7, p.word1);
      IntAtUnique(b, 11, Serialize(p), 11, p.word2);
      SixParts(b, |p.data|);
      SixParts(Serialize(p), |p.data|);
    }
  }

  lemma {:induction false} SixParts(b: seq<byte>, n: nat)
    requires |b| == 18 + n
    ensures b == b[..3] + b[3..7] + b[7..11] + b[11..15] + b[15..15 + n] + b[15 + n..18 + n]
  {}

  lemma {:induction false} SerializedLies(p: Packet)
    requires |p.head| == 3 && |p.tail| == 3
    ensures LaidOut(Serialize(p), p)
  {
    var b, n := Serialize(p), |p.data|;
    WordsOfSerialized(p, b);
    GetIntIff(b, 3, p.word0);
    GetIntIff(b, 7, p.word1);
    GetIntIff(b, 11, p.word2);
    assert b[15..15 + n] == p.data;
    assert b[15 + n..18 + n] == p.tail;
  }

  // Where the length of the data stands: the second integer of a client packet, the third of an envelope.
  function LengthOffset(layout: Layout): nat {
    match layout
    case Client => 7
    case Envelope => 11
  }

  /** A parse succeeds with exactly the packet that lies at the front of the bytes, if its length field is that of its data. */
  lemma {:induction false} ParsedIff(layout: Layout, b: seq<byte>, p: Packet)
    ensures Parse(layout, b) == Parsed(p) <==>
            LaidOut(b, p) && IntAt(b, LengthOffset(layout), |p.data|) && |p.data| <= MAX_INT - 18
  {
    if 18 <= |b| {
      GetIntIff(b, 3, p.word0);
      GetIntIff(b, 7, p.word1);
      GetIntIff(b, 11, p.word2);
      if |p.data| <= MAX_INT {
        GetIntIff(b, LengthOffset(layout), |p.data|);
      }
    }
  }

  /** It refuses exactly bytes too few for a packet, and for the data that the length field announces, and negative lengths. */
  lemma {:induction false} RefusedIff(layout: Layout, b: seq<byte>, n: int32)
    requires 18 <= |b| ==> IntAt(b, LengthOffset(layout), n)
    ensures Parse(layout, b) == Refused <==> |b| < 18 || n < 0 || (n <= MAX_INT - 18 && |b| < 18 + n)
  {
    if 18 <= |b| {
      GetIntIff(b, LengthOffset(layout), n);
    }
  }

  // ---------- the stream ----------

  datatype Drained = Drained(packets: seq<Packet>, rest: seq<byte>)

  /**
   Cuts packets off the front until 18 or fewer bytes are buffered or the parse does not
   succeed: the inner loop of the readers, as a function of the bytes buffered.
   */
  function Drain(layout: Layout, b: seq<byte>): Drained
    decreases |b|
  {
    if |b| <= OVERHEAD then
      Drained([], b)
    else
      match Parse(layout, b)
      case Parsed(p) =>
        var d := Drain(layout, b[Size(p)..]);
        Drained([p] + d.packets, d.rest)
      case _ => Drained([], b)
  }

  /** The drain stops at a length field whose `ByteSize()` is representable. */
  predicate Defined(layout: Layout, b: seq<byte>) {
    var rest := Drain(layout, b).rest;
    |rest| <= OVERHEAD || Parse(layout, rest) != Overflow
  }

  // A loop that set out to drain `all` has cut off `got` and has b left.
  predicate CutSoFar(layout: Layout, all: seq<byte>, got: seq<Packet>, b: seq<byte>) {
    var d := Drain(layout, b);
    Drain(layout, all) == Drained(got + d.packets, d.rest) && Defined(layout, b)
  }

  lemma {:induction false} CutNothing(layout: Layout, all: seq<byte>)
    requires Defined(layout, all)
    ensures CutSoFar(layout, all, [], all)
  {
    Unit(Drain(layout, all).packets);
  }

  lemma {:induction false} CutNext(layout: Layout, all: seq<byte>, got: seq<Packet>, b: seq<byte>, p: Packet)
    requires CutSoFar(layout, all, got, b) && OVERHEAD < |b| && Parse(layout, b) == Parsed(p) && Size(p) <= |b|
    ensures CutSoFar(layout, all, got + [p], b[Size(p)..]) && |got| < |Drain(layout, all).packets|
  {
    Assoc(got, [p], Drain(layout, b[Size(p)..]).packets);
  }

  lemma {:induction false} CutAll(layout: Layout, all: seq<byte>, got: seq<Packet>, b: seq<byte>)
    requires CutSoFar(layout, all, got, b) && !(OVERHEAD < |b| && Parse(layout, b).Parsed?)
    ensures Drain(layout, all) == Drained(got, b)
  {
    Unit(got);
  }

  /** Chunk independence: draining at every arrival delivers what draining once at the end does. */
  lemma {:induction false} DrainSplit(layout: Layout, a: seq<byte>, b: seq<byte>)
    ensures var d := Drain(layout, a);
            var e := Drain(layout, d.rest + b);
            Drain(layout, a + b) == Drained(d.packets + e.packets, e.rest)
    decreases |a|
  {
    if |a| <= OVERHEAD || !Parse(layout, a).Parsed? {
      assert Drain(layout, a) == Drained([], a);
    } else {
      var p := Parse(layout, a).packet;
      ParseStable(layout, a, b);
      SerializeParsed(layout, a);
      DrainSplit(layout, a[Size(p)..], b);
      DropAppend(a, b, Size(p));
      var d := Drain(layout, a[Size(p)..]);
      Assoc([p], d.packets, Drain(layout, d.rest + b).packets);
    }
  }

  lemma {:induction false} Prepended(layout: Layout, p: Packet, d: Drained, left: seq<byte>)
    requires WellFormed(layout, p) && SerializeAll(d.packets) + d.rest == left
    requires forall q | q in d.packets :: WellFormed(layout, q)
    ensures SerializeAll([p] + d.packets) + d.rest == Serialize(p) + left
    ensures forall q | q in [p] + d.packets :: WellFormed(layout, q)
  {
    assert ([p] + d.packets)[1..] == d.packets;
    Assoc(Serialize(p), SerializeAll(d.packets), d.rest);
  }

  /** No byte is lost, reordered or made up: packets and rest are the bytes drained. */
  lemma {:induction false} DrainConserves(layout: Layout, b: seq<byte>)
    ensures var d := Drain(layout, b);
            && SerializeAll(d.packets) + d.rest == b
            && (forall p | p in d.packets :: WellFormed(layout, p))
    decreases |b|
  {
    if |b| > OVERHEAD && Parse(layout, b).Parsed? {
      var p := Parse(layout, b).packet;
      SerializeParsed(layout, b);
      var left := b[Size(p)..];
      SplitAt(b, Size(p));
      DrainConserves(layout, left);
      Prepended(layout, p, Drain(layout, left), left);
    }
  }

  /** The rest is final: draining it again, with nothing new, delivers nothing. */
  lemma {:induction false} DrainIdempotent(layout: Layout, b: seq<byte>)
    ensures Drain(layout, Drain(layout, b).rest) == Drained([], Drain(layout, b).rest)
    decreases |b|
  {
    if |b| > OVERHEAD && Parse(layout, b).Parsed? {
      DrainIdempotent(layout, b[Size(Parse(layout, b).packet)..]);
    }
  }

  lemma {:induction false} SerializeAllAppend(ps: seq<Packet>, qs: seq<Packet>)
    ensures SerializeAll(ps + qs) == SerializeAll(ps) + SerializeAll(qs)
  {
    if ps == [] {
      assert ps + qs == qs;
    } else {
      SerializeAllAppend(ps[1..], qs);
      DropAppend(ps, qs, 1);
      Assoc(Serialize(ps[0]), SerializeAll(ps[1..]), SerializeAll(qs));
    }
  }

  /** Unique framing: two lists of packets with the same bytes on the wire are the same list. */
  lemma {:induction false} UniqueFraming(layout: Layout, ps: seq<Packet>, qs: seq<Packet>)
    requires forall p | p in ps + qs :: WellFormed(layout, p)
    requires SerializeAll(ps) == SerializeAll(qs)
    ensures ps == qs
  {
    if ps == [] || qs == [] {
      assert forall r: seq<Packet> | r != [] && WellFormed(layout, r[0]) :: |SerializeAll(r)| >= OVERHEAD;
      assert forall p | p in ps :: p in ps + qs;
      assert forall p | p in qs :: p in ps + qs;
    } else {
      assert ps[0] in ps + qs && qs[0] in ps + qs;
      ParseSerialized(layout, ps[0], SerializeAll(ps[1..]));
      ParseSerialized(layout, qs[0], SerializeAll(qs[1..]));
      assert ps[0] == qs[0];
      var n := |Serialize(ps[0])|;
      assert SerializeAll(ps[1..]) == SerializeAll(ps)[n..];
      assert SerializeAll(qs[1..]) == SerializeAll(qs)[n..];
      forall p | p in ps[1..] + qs[1..] ensures WellFormed(layout, p) {
        assert p in ps + qs;
      }
      UniqueFraming(layout, ps[1..], qs[1..]);
    }
  }

  lemma {:induction false} DrainCons(layout: Layout, p: Packet, more: seq<byte>)
    requires WellFormed(layout, p) && OVERHEAD < Size(p) + |more|
    ensures var d := Drain(layout, more);
            Drain(layout, Serialize(p) + more) == Drained([p] + d.packets, d.rest)
  {
    ParseSerialized(layout, p, more);
    assert (Serialize(p) + more)[Size(p)..] == more;
  }

  lemma {:induction false} DrainOfOne(layout: Layout, p: Packet)
    requires WellFormed(layout, p)
    ensures Drain(layout, Serialize(p)) == if p.data == [] then Drained([], Serialize(p)) else Drained([p], [])
  {
    Unit(Serialize(p));
    if p.data != [] {
      DrainCons(layout, p, []);
      assert [p] + Drain(layout, []).packets == [p];
    }
  }

  // What the drain delivers of a whole list, and what it holds back: an 18-byte packet at the end.
  function Deliverable(ps: seq<Packet>): Drained {
    if ps != [] && ps[|ps| - 1].data == [] then
      Drained(ps[..|ps| - 1], Serialize(ps[|ps| - 1]))
    else
      Drained(ps, [])
  }

  lemma {:induction false} DeliverableCons(p: Packet, ps: seq<Packet>)
    requires ps != []
    ensures Deliverable([p] + ps) == Drained([p] + Deliverable(ps).packets, Deliverable(ps).rest)
  {
    var all := [p] + ps;
    assert all[|all| - 1] == ps[|ps| - 1];
    assert all[..|all| - 1] == [p] + ps[..|ps| - 1];
  }

  lemma {:induction false} WireNotEmpty(layout: Layout, ps: seq<Packet>)
    requires ps != [] && WellFormed(layout, ps[0])
    ensures OVERHEAD <= |SerializeAll(ps)|
  {}

  /**
   A whole list of packets on the wire is delivered as that list, except that an 18-byte packet
   (one with no data) at the very end is held back by the `<= 18` test.
   */
  lemma {:induction false} DrainOfPackets(layout: Layout, ps: seq<Packet>)
    requires forall p | p in ps :: WellFormed(layout, p)
    ensures Drain(layout, SerializeAll(ps)) == Deliverable(ps)
  {
    if |ps| == 1 {
      DrainOfOne(layout, ps[0]);
      OneOnWire(ps[0]);
      assert ps == [ps[0]];
      assert ps[..0] == [];
    } else if |ps| > 1 {
      var p, rest := ps[0], ps[1..];
      assert ps == [p] + rest;
      WireNotEmpty(layout, rest);
      DrainOfPackets(layout, rest);
      DrainCons(layout, p, SerializeAll(rest));
      DeliverableCons(p, rest);
    }
  }

  lemma {:induction false} OneOnWire(p: Packet)
    ensures SerializeAll([p]) == Serialize(p)
  {
    assert SerializeAll([p]) == Serialize(p) + SerializeAll([]);
  }

  /** Everything sent is delivered if and only if the last packet carries data. */
  lemma {:induction false} DeliveredInFullIff(layout: Layout, ps: seq<Packet>)
    requires forall p | p in ps :: WellFormed(layout, p)
    ensures Drain(layout, SerializeAll(ps)).packets == ps <==> ps == [] || ps[|ps| - 1].data != []
  {
    DrainOfPackets(layout, ps);
  }

  /** A packet of which some bytes are missing is refused. */
  lemma {:induction false} IncompleteRefused(layout: Layout, p: Packet, b: seq<byte>, more: seq<byte>)
    requires WellFormed(layout, p) && b <= Serialize(p) + more && |b| < Size(p)
    ensures Parse(layout, b) == Refused
  {
    if OVERHEAD <= |b| {
      WordsOfSerialized(p, Serialize(p));
      forall i: nat | i < 3 ensures Word(b, i) == Word(Serialize(p), i) {
        assert b[3 + 4 * i..7 + 4 * i] == Serialize(p)[3 + 4 * i..7 + 4 * i];
      }
    }
  }

  /**
   On any prefix of a stream of packets of at most `bound` bytes, the drain delivers a prefix of
   those packets, never overflows, and holds back less than one packet.
   */
  lemma {:induction false} ResidueBound(layout: Layout, b: seq<byte>, ps: seq<Packet>, bound: nat)
    requires OVERHEAD < bound
    requires forall p | p in ps :: WellFormed(layout, p) && Size(p) <= bound
    requires b <= SerializeAll(ps)
    ensures Drain(layout, b).packets <= ps
    ensures Defined(layout, b) && |Drain(layout, b).rest| < bound
  {
    if |b| > OVERHEAD {
      assert ps != [];
      var p := ps[0];
      var n := Size(p);
      if n <= |b| {
        PrefixSplit(b, Serialize(p), SerializeAll(ps[1..]));
        DrainCons(layout, p, b[n..]);
        ResidueBound(layout, b[n..], ps[1..], bound);
        assert ps == [p] + ps[1..];
      } else {
        IncompleteRefused(layout, p, b, SerializeAll(ps[1..]));
      }
    }
  }

  // ---------- streams for witnesses ----------

  // Whatever part of `more` has arrived, nothing is cut off.
  ghost predicate Held(layout: Layout, b: seq<byte>, more: seq<byte>) {
    forall k | 0 <= k <= |more| :: Drain(layout, b + more[..k]) == Drained([], b + more[..k])
  }

  lemma {:induction false} HeldNext(layout: Layout, b: seq<byte>, more: seq<byte>)
    requires Held(layout, b, more) && more != []
    ensures Drain(layout, b + [more[0]]) == Drained([], b + [more[0]]) && Held(layout, b + [more[0]], more[1..])
  {
    assert more[..1] == [more[0]];
    forall k | 0 <= k <= |more[1..]|
      ensures Drain(layout, (b + [more[0]]) + more[1..][..k]) == Drained([], (b + [more[0]]) + more[1..][..k])
    {
      assert (b + [more[0]]) + more[1..][..k] == b + more[..k + 1];
    }
  }

  lemma {:induction false} BeginningHeld(layout: Layout, ps: seq<Packet>, m: nat)
    requires ps != [] && WellFormed(layout, ps[0]) && m < Size(ps[0])
    ensures m <= |SerializeAll(ps)| && Held(layout, [], SerializeAll(ps)[..m])
  {
    var s := SerializeAll(ps)[..m];
    forall k | 0 <= k <= |s| ensures Drain(layout, [] + s[..k]) == Drained([], [] + s[..k]) {
      var b := [] + s[..k];
      assert b == SerializeAll(ps)[..k];
      IncompleteRefused(layout, ps[0], b, SerializeAll(ps[1..]));
    }
  }

  function Copies(p: Packet, n: nat): (ps: seq<Packet>)
    ensures |ps| == n && forall q | q in ps :: q == p
  {
    if n == 0 then [] else [p] + Copies(p, n - 1)
  }

  lemma {:induction false} CopiesCons(p: Packet, n: nat)
    requires 0 < n
    ensures SerializeAll(Copies(p, n)) == Serialize(p) + SerializeAll(Copies(p, n - 1))
  {
    assert Copies(p, n)[1..] == Copies(p, n - 1);
  }

  lemma {:induction false} CopiesLength(p: Packet, n: nat)
    ensures |SerializeAll(Copies(p, n))| == |Serialize(p)| * n
  {
    if n > 0 {
      CopiesLength(p, n - 1);
      CopiesCons(p, n);
      OneTimeMore(|Serialize(p)|, n);
    }
  }

  lemma {:induction false} OneTimeMore(a: nat, n: nat)
    requires 0 < n
    ensures a * n == a + a * (n - 1)
  {}

  lemma {:induction false} CopiesSplit(p: Packet, m: nat, n: nat)
    ensures SerializeAll(Copies(p, m + n)) == SerializeAll(Copies(p, m)) + SerializeAll(Copies(p, n))
  {
    if m == 0 {
      Unit(SerializeAll(Copies(p, n)));
    } else {
      CopiesSplit(p, m - 1, n);
      CopiesCons(p, m + n);
      CopiesCons(p, m);
      Assoc(Serialize(p), SerializeAll(Copies(p, m - 1)), SerializeAll(Copies(p, n)));
    }
  }

  /** Whole packets in front of some bytes are all cut off before them. */
  lemma {:induction false} DrainThrough(layout: Layout, ps: seq<Packet>, more: seq<byte>)
    requires (forall p | p in ps :: WellFormed(layout, p)) && more != []
    ensures var d := Drain(layout, more);
            Drain(layout, SerializeAll(ps) + more) == Drained(ps + d.packets, d.rest)
  {
    if ps == [] {
      assert [] + more == more && [] + Drain(layout, more).packets == Drain(layout, more).packets;
    } else {
      assert ps[0] in ps;
      DrainThrough(layout, ps[1..], more);
      ThroughCons(layout, ps[0], ps[1..], SerializeAll(ps[1..]), more, Drain(layout, more));
      assert ps == [ps[0]] + ps[1..];
    }
  }

  lemma {:induction false} ThroughCons(layout: Layout, p: Packet, ps: seq<Packet>, wire: seq<byte>, more: seq<byte>, d: Drained)
    requires WellFormed(layout, p) && more != [] && Drain(layout, wire + more) == Drained(ps + d.packets, d.rest)
    ensures Drain(layout, (Serialize(p) + wire) + more) == Drained(([p] + ps) + d.packets, d.rest)
  {
    DrainCons(layout, p, wire + more);
    Assoc(Serialize(p), wire, more);
    Assoc([p], ps, d.packets);
  }
}
