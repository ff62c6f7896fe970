/**
 For which packet and read sizes the gate server's receive buffer (gate_server/user_info_list.cpp:53-118)
 cuts every stream right, over whole runs from a new connection.
 */
module GateBounds {
  import opened Bytes
  import opened Framing
  import opened Packs
  import opened Receivers

  predicate Bounded(ps: seq<Packet>, longest: nat) {
    forall p | p in ps :: WellFormed(Client, p) && Size(p) <= longest
  }

  predicate Within(ps: seq<Packet>, chunks: seq<seq<byte>>, longest: nat, read: nat) {
    Bounded(ps, longest) && (forall c | c in chunks :: |c| <= read) && Concat(chunks) <= SerializeAll(ps)
  }

  /**
   One packet less a byte and one read fit 0x1000 bytes; or they pass it by one or two, in the two cases
   where the bytes that are then not moved are the two high bytes of the next length field, which
   are 0 like those they should be replaced by.
   */
  predicate GateRight(longest: nat, read: nat) {
    longest - 1 + read <= 0x1000 || (0xFF6 <= longest <= 0xFF7 && read <= 12)
  }

  // ---------- within the bounds every read is cut right ----------

  // The two high bytes of the length field.
  lemma {:induction false} HighLengthBytes(p: Packet, i: nat)
    requires WellFormed(Client, p) && Size(p) <= READ && 9 <= i <= 10
    ensures i < |Serialize(p)| && Serialize(p)[i] == 0
  {
    var front := p.head + PutInt(p.word0) + PutInt(p.word1);
    assert Serialize(p)[..11] == front;
    assert front[i] == PutInt(p.word1)[i - 7];
    assert p.word1 < 0x1_0000;
  }

  lemma {:induction false} SecondHighLengthBytes(b: seq<byte>, p: Packet, ps: seq<Packet>, i: nat)
    requires WellFormed(Client, p) && Bounded(ps, READ) && b <= Serialize(p) + SerializeAll(ps)
    requires 9 <= i <= 10 && Size(p) + i < |b|
    ensures b[Size(p) + i] == 0
  {
    PrefixSplit(b, Serialize(p), SerializeAll(ps));
    assert b[Size(p)..] <= SerializeAll(ps);
    assert ps != [];
    assert ps[0] in ps;
    HighLengthBytes(ps[0], i);
    assert b[Size(p)..][i] == SerializeAll(ps)[i] == Serialize(ps[0])[i];
  }

  lemma {:induction false} CornerShift(b: seq<byte>, p: Packet, ps: seq<Packet>)
    requires WellFormed(Client, p) && Bounded(ps, READ) && b <= Serialize(p) + SerializeAll(ps)
    requires READ - 10 <= Size(p) <= READ - 9 && READ < |b| <= Size(p) + 11
    ensures Shifted(b, Size(p)) == b[Size(p)..]
  {
    var n := Size(p);
    var now, want := Shifted(b, n), b[n..];
    forall i | 0 <= i < |now| ensures now[i] == want[i] {
      if i >= READ - n {
        HighLengthBytes(p, i);
        SecondHighLengthBytes(b, p, ps, i);
        assert b[i] == (Serialize(p) + SerializeAll(ps))[i] == Serialize(p)[i];
      }
    }
  }

  // What is buffered begins the packets not yet delivered.
  lemma {:induction false} Remaining(delivered: seq<Packet>, residue: seq<byte>, chunk: seq<byte>, ps: seq<Packet>)
    requires delivered <= ps && SerializeAll(delivered) + residue + chunk <= SerializeAll(ps)
    ensures residue + chunk <= SerializeAll(ps[|delivered|..])
  {
    var more := ps[|delivered|..];
    assert ps == delivered + more;
    SerializeAllAppend(delivered, more);
    Assoc(SerializeAll(delivered), residue, chunk);
    PrefixSplit(SerializeAll(delivered) + (residue + chunk), SerializeAll(delivered), SerializeAll(more));
    assert (SerializeAll(delivered) + (residue + chunk))[|SerializeAll(delivered)|..] == residue + chunk;
  }

  // A drained rest is shorter than the packet it begins.
  lemma {:induction false} RestIsShort(residue: seq<byte>, p: Packet, more: seq<byte>)
    requires WellFormed(Client, p) && residue <= Serialize(p) + more && OVERHEAD < |residue|
    requires Drain(Client, residue) == Drained([], residue)
    ensures |residue| < Size(p)
  {
    if Size(p) <= |residue| {
      PrefixSplit(residue, Serialize(p), more);
      DrainCons(Client, p, residue[Size(p)..]);
    }
  }

  lemma {:induction false} CornerCut(b: seq<byte>, p: Packet, ps: seq<Packet>)
    requires WellFormed(Client, p) && Bounded(ps, READ) && b <= Serialize(p) + SerializeAll(ps)
    requires READ - 10 <= Size(p) <= READ - 9 && READ < |b| <= Size(p) + 11
    ensures GateDrain(b) == Drain(Client, b)
  {
    PrefixSplit(b, Serialize(p), SerializeAll(ps));
    ParseSerialized(Client, p, b[Size(p)..]);
    CornerShift(b, p, ps);
    ShiftRight(b[Size(p)..]);
  }

  lemma {:induction false} CornerRead(residue: seq<byte>, chunk: seq<byte>, ps: seq<Packet>, longest: nat)
    requires READ - 10 <= longest <= READ - 9 && |chunk| <= 12 && READ < |residue| + |chunk|
    requires Bounded(ps, longest) && residue + chunk <= SerializeAll(ps)
    requires Drain(Client, residue) == Drained([], residue) && |residue| < longest
    ensures GateDrain(residue + chunk) == Drain(Client, residue + chunk)
  {
    var b := residue + chunk;
    assert ps != [];
    assert ps[0] in ps;
    var p, more := ps[0], ps[1..];
    assert Bounded(more, READ) by { assert forall q | q in more :: q in ps; }
    PrefixTrans(residue, b, Serialize(p) + SerializeAll(more));
    RestIsShort(residue, p, SerializeAll(more));
    if |b| < Size(p) {
      IncompleteRefused(Client, p, b, SerializeAll(more));
    } else {
      CornerCut(b, p, more);
    }
  }

  /** Within the bounds, no read is discarded and the loop leaves what the stream says. */
  lemma {:induction false} ReadRight(r: Reader, stream: seq<byte>, chunk: seq<byte>, ps: seq<Packet>, longest: nat, read: nat)
    requires OVERHEAD < longest <= READ && GateRight(longest, read) && |chunk| <= read
    requires Stands(r, stream) && Bounded(ps, longest) && stream + chunk <= SerializeAll(ps)
    ensures |r.residue| + |chunk| < RECV && GateDefined(r.residue + chunk)
    ensures Stands(GateRead(r, chunk), stream + chunk)
    ensures r.delivered <= ps
  {
    PrefixTrans(stream, stream + chunk, SerializeAll(ps));
    ResidueBound(Client, stream, ps, longest);
    DrainConserves(Client, stream);
    Remaining(r.delivered, r.residue, chunk, ps);
    var b, left := r.residue + chunk, ps[|r.delivered|..];
    assert Bounded(left, longest) by { assert forall q | q in left :: q in ps; }
    if |b| <= READ {
      ShiftRight(b);
    } else {
      DrainIdempotent(Client, stream);
      CornerRead(r.residue, chunk, left, longest);
    }
    ResidueBound(Client, b, left, longest);
    DrainIdempotent(Client, b);
    ReadKeeps(r, stream, chunk);
  }

  /** No read of the run is discarded or meets a packet that the code has no meaning for. */
  predicate AllMeaningful(r: Reader, chunks: seq<seq<byte>>)
    decreases |chunks|
  {
    chunks == []
    || (|r.residue| + |chunks[0]| < RECV && GateDefined(r.residue + chunks[0]) && AllMeaningful(GateRead(r, chunks[0]), chunks[1..]))
  }

  lemma {:induction false} RunRight(r: Reader, stream: seq<byte>, chunks: seq<seq<byte>>, ps: seq<Packet>, longest: nat, read: nat)
    requires OVERHEAD < longest <= READ && GateRight(longest, read)
    requires Stands(r, stream) && Bounded(ps, longest) && stream + Concat(chunks) <= SerializeAll(ps)
    requires forall c | c in chunks :: |c| <= read
    ensures Stands(GateReadAll(r, chunks), stream + Concat(chunks))
    ensures AllMeaningful(r, chunks) && GateReadAll(r, chunks).delivered <= ps
    decreases |chunks|
  {
    if chunks == [] {
      Unit(stream);
      ResidueBound(Client, stream, ps, longest);
    } else {
      assert chunks[0] in chunks;
      Assoc(stream, chunks[0], Concat(chunks[1..]));
      PrefixTrans(stream + chunks[0], stream + Concat(chunks), SerializeAll(ps));
      ReadRight(r, stream, chunks[0], ps, longest, read);
      RunRight(GateRead(r, chunks[0]), stream + chunks[0], chunks[1..], ps, longest, read);
    }
  }

  // ---------- beyond them a stream is cut wrong ----------

  // An empty packet, and one with a single byte of data.
  const EMPTY := Packet(HEAD, 0, 0, 0, [], TAIL)
  const TINY := Packet(HEAD, 0, 1, 0, [0], TAIL)

  lemma {:induction false} CopiesBounded(p: Packet, n: nat)
    requires WellFormed(Client, p)
    ensures |SerializeAll(Copies(p, n))| == Size(p) * n
    ensures forall longest: nat | Size(p) <= longest :: Bounded(Copies(p, n), longest)
  {
    CopiesLength(p, n);
  }

  /** Packets of 18 and 19 bytes fill any stretch of at least 306 bytes. */
  lemma {:induction false} Filler(len: nat) returns (ps: seq<Packet>)
    requires 306 <= len
    ensures Bounded(ps, 19) && |SerializeAll(ps)| == len
  {
    var b := len % 18;
    var a := len / 18 - b;
    assert 18 * a + 19 * b == len;
    ps := Copies(TINY, b) + Copies(EMPTY, a);
    CopiesBounded(TINY, b);
    CopiesBounded(EMPTY, a);
    SerializeAllAppend(Copies(TINY, b), Copies(EMPTY, a));
    SmallOnes();
    BoundedAppend(Copies(TINY, b), Copies(EMPTY, a), 19);
  }

  lemma {:induction false} SmallOnes()
    ensures WellFormed(Client, TINY) && Size(TINY) == 19
    ensures WellFormed(Client, EMPTY) && Size(EMPTY) == 18
  {}

  lemma {:induction false} BoundedAppend(ps: seq<Packet>, qs: seq<Packet>, longest: nat)
    requires Bounded(ps, longest) && Bounded(qs, longest)
    ensures Bounded(ps + qs, longest)
  {}

  /** Any byte outside the length field can be another: the result is the wire form of another packet of that size. */
  lemma {:induction false} Altered(p: Packet, i: nat, x: byte) returns (q: Packet)
    requires WellFormed(Client, p) && i < Size(p) && !(7 <= i < 11)
    ensures WellFormed(Client, q) && Size(q) == Size(p)
    ensures |Serialize(p)| == Size(p) && Serialize(q) == Serialize(p)[i := x]
  {
    var b := Serialize(p);
    ParseSerialized(Client, p, []);
    Unit(b);
    var c := b[i := x];
    assert c[7..11] == b[7..11];
    q := Parse(Client, c).packet;
    SerializeParsed(Client, c);
    assert c[..Size(p)] == c;
  }

  lemma {:induction false} LowLengthBytes(n: nat, i: nat)
    requires READ - 8 <= n <= READ - 7 && i == READ - n
    ensures Serialize(Plain(Client, n))[i] != 0 && Serialize(EMPTY)[i] == 0
  {
    var p := Plain(Client, n);
    var front := p.head + PutInt(p.word0) + PutInt(p.word1);
    assert Serialize(p)[..11] == front;
    assert front[i] == PutInt(p.word1)[i - 7];
    var front' := EMPTY.head + PutInt(EMPTY.word0) + PutInt(EMPTY.word1);
    assert Serialize(EMPTY)[..11] == front';
    assert front'[i] == PutInt(EMPTY.word1)[i - 7];
  }

  // Byte i of the bytes after the first packet, when `before` comes before packet q there.
  lemma {:induction false} ByteAfter(p: Packet, before: seq<Packet>, q: Packet, after: seq<Packet>, i: nat)
    requires WellFormed(Client, p) && |SerializeAll(before)| <= i < |SerializeAll(before)| + |Serialize(q)|
    ensures var s := SerializeAll([p] + (before + ([q] + after)));
            Size(p) + i < |s| && s[Size(p) + i] == Serialize(q)[i - |SerializeAll(before)|]
  {
    var rest := before + ([q] + after);
    SerializeAllAppend(before, [q] + after);
    SerializeAllAppend([q], after);
    SerializeAllAppend([p], rest);
    OneOnWire(q);
    OneOnWire(p);
    assert SerializeAll(rest)[i] == (Serialize(q) + SerializeAll(after))[i - |SerializeAll(before)|];
  }

  /**
   A stream of packets within the bound, the first of them as long as it allows, in which the byte i places into
   the second packet's stretch differs from the one i places into the stream.
   */
  lemma {:induction false} Witness(longest: nat, read: nat, i: nat) returns (ps: seq<Packet>)
    requires OVERHEAD < longest <= READ && 0 < read
    requires READ - longest <= i <= READ - OVERHEAD && !(9 <= i <= 10) && (i == READ - longest || i == 11)
    requires i >= longest ==> i == READ - longest
    ensures Bounded(ps, longest) && ps != [] && ps[0] == Plain(Client, longest)
    ensures longest - 1 + read <= |SerializeAll(ps)| && longest + i < |SerializeAll(ps)|
    ensures SerializeAll(ps)[i] != SerializeAll(ps)[longest + i]
  {
    var p, after := Plain(Client, longest), Copies(EMPTY, read);
    var before, q := SecondStretch(longest, i);
    SmallOnes();
    CopiesBounded(EMPTY, read);
    var rest := before + ([q] + after);
    ps := [p] + rest;
    BoundedAppend([q], after, longest);
    BoundedAppend(before, [q] + after, longest);
    BoundedAppend([p], rest, longest);
    ByteAfter(p, before, q, after, i);
    LongEnough(p, before, q, after, read);
    FirstStretch(p, before, [q] + after, i);
  }

  // Byte i of a stream that starts with packet p and then `before`.
  function ByteAt(p: Packet, before: seq<Packet>, i: nat): byte
    requires WellFormed(Client, p) && i < Size(p) + |SerializeAll(before)|
  {
    (Serialize(p) + SerializeAll(before))[i]
  }

  lemma {:induction false} FirstStretch(p: Packet, before: seq<Packet>, after: seq<Packet>, i: nat)
    requires WellFormed(Client, p) && i < Size(p) + |SerializeAll(before)|
    ensures i < |SerializeAll([p] + (before + after))|
    ensures SerializeAll([p] + (before + after))[i] == ByteAt(p, before, i)
  {
    SerializeAllAppend(before, after);
    SerializeAllAppend([p], before + after);
    OneOnWire(p);
    Assoc(Serialize(p), SerializeAll(before), SerializeAll(after));
  }

  lemma {:induction false} LongEnough(p: Packet, before: seq<Packet>, q: Packet, after: seq<Packet>, read: nat)
    requires |SerializeAll(after)| >= read
    ensures |SerializeAll([p] + (before + ([q] + after)))| >= |Serialize(p)| + read
  {
    SerializeAllAppend(before, [q] + after);
    SerializeAllAppend([q], after);
    SerializeAllAppend([p], before + ([q] + after));
    OneOnWire(p);
  }

  lemma {:induction false} SecondStretch(longest: nat, i: nat) returns (before: seq<Packet>, q: Packet)
    requires OVERHEAD < longest <= READ
    requires READ - longest <= i <= READ - OVERHEAD && !(9 <= i <= 10) && (i == READ - longest || i == 11)
    ensures Bounded(before, longest) && Bounded([q], longest)
    ensures |SerializeAll(before)| <= i < |SerializeAll(before)| + |Serialize(q)| && i < longest + |SerializeAll(before)|
    ensures Serialize(q)[i - |SerializeAll(before)|] != ByteAt(Plain(Client, longest), before, i)
  {
    var p := Plain(Client, longest);
    if i < longest {
      before := [];
      assert ByteAt(p, [], i) == Serialize(p)[i];
      if 7 <= i <= 8 {
        q := EMPTY;
        SmallOnes();
        LowLengthBytes(longest, i);
      } else {
        q := Altered(p, i, Other(Serialize(p)[i]));
      }
    } else {
      before := Filler(i);
      SmallOnes();
      q := Altered(EMPTY, 0, Other(ByteAt(p, before, i)));
    }
  }

  // ---------- the run that shows it ----------

  lemma {:induction false} GateReadAllSnoc(r: Reader, chunks: seq<seq<byte>>, c: seq<byte>)
    ensures GateReadAll(r, chunks + [c]) == GateRead(GateReadAll(r, chunks), c)
    decreases |chunks|
  {
    if chunks == [] {
      assert chunks + [c] == [c];
      assert GateReadAll(r, [c]) == GateReadAll(GateRead(r, c), []);
    } else {
      GateReadAllSnoc(GateRead(r, chunks[0]), chunks[1..], c);
      DropAppend(chunks, [c], 1);
    }
  }

  lemma {:induction false} CutsOff(b: seq<byte>, p: Packet)
    requires OVERHEAD < |b| && Parse(Client, b) == Parsed(p) && Size(p) <= READ && Size(p) <= |b|
    ensures GateDrain(b) == Prepend(p, GateDrain(Shifted(b, Size(p))))
    ensures Drain(Client, b) == Prepend(p, Drain(Client, b[Size(p)..]))
  {}

  function Prepend(p: Packet, d: Drained): Drained {
    Drained([p] + d.packets, d.rest)
  }

  // The first packet is cut off well, and what is left is not what the stream goes on with.
  lemma {:induction false} CutWrong(b: seq<byte>, p: Packet, i: nat)
    requires OVERHEAD < |b| && Parse(Client, b) == Parsed(p) && Size(p) <= READ < |b| <= Size(p) + READ
    requires READ - Size(p) <= i < |b| - Size(p) && b[i] != b[Size(p) + i]
    ensures GateDrain(b) != Drain(Client, b)
  {
    CutsOff(b, p);
    ShiftedAt(b, Size(p), i);
    assert b[Size(p)..][i] == b[Size(p) + i];
    LeftDiffers(p, Shifted(b, Size(p)), b[Size(p)..], i);
  }

  lemma {:induction false} LeftDiffers(p: Packet, now: seq<byte>, want: seq<byte>, i: nat)
    requires |now| <= READ && i < |now| && i < |want| && now[i] != want[i]
    ensures Prepend(p, GateDrain(now)) != Prepend(p, Drain(Client, want))
  {
    ShiftRight(now);
    DrainDiffers(now, want, i);
    CutDiffers(p, Drain(Client, now), Drain(Client, want));
  }

  lemma {:induction false} DrainDiffers(a: seq<byte>, b: seq<byte>, i: nat)
    requires i < |a| && i < |b| && a[i] != b[i]
    ensures Drain(Client, a) != Drain(Client, b)
  {
    DrainConserves(Client, a);
    DrainConserves(Client, b);
  }

  lemma {:induction false} CutDiffers(p: Packet, d: Drained, e: Drained)
    requires d != e
    ensures Prepend(p, d) != Prepend(p, e)
  {
    assert ([p] + d.packets)[1..] == d.packets;
    assert ([p] + e.packets)[1..] == e.packets;
  }

  // Reading the first packet but for one byte, a byte at a time, leaves it all buffered.
  lemma {:induction false} BufferedAlmost(ps: seq<Packet>, n: nat)
    requires ps != [] && Bounded(ps, n) && Size(ps[0]) == n && OVERHEAD < n <= READ
    ensures n <= |SerializeAll(ps)|
    ensures var s := SerializeAll(ps)[..n - 1];
            GateReadAll(Reader([], []), Singles(s)) == Reader(s, [])
  {
    assert ps[0] in ps;
    var s := SerializeAll(ps)[..n - 1];
    SinglesConcat(s);
    Unit(s);
    RunRight(Reader([], []), [], Singles(s), ps, n, 1);
    IncompleteRefused(Client, ps[0], s, SerializeAll(ps[1..]));
    assert Drain(Client, s) == Drained([], s);
  }

  lemma {:induction false} LastRead(ps: seq<Packet>, n: nat, s: seq<byte>, c: seq<byte>, i: nat)
    requires ps != [] && Bounded(ps, n) && Size(ps[0]) == n && OVERHEAD < n <= READ && |c| <= READ
    requires s + c <= SerializeAll(ps) && |s| == n - 1 && READ - n <= i < |c| - 1
    requires (s + c)[i] != (s + c)[n + i]
    ensures !Stands(GateRead(Reader(s, []), c), s + c)
  {
    assert ps[0] in ps;
    var b := s + c;
    PrefixSplit(b, Serialize(ps[0]), SerializeAll(ps[1..]));
    ParseSerialized(Client, ps[0], b[n..]);
    CutWrong(b, ps[0], i);
    Unit(GateDrain(b).packets);
  }

  lemma {:induction false} RunWrong(ps: seq<Packet>, n: nat, read: nat, i: nat) returns (chunks: seq<seq<byte>>)
    requires ps != [] && Bounded(ps, n) && Size(ps[0]) == n && OVERHEAD < n <= READ && 0 < read <= READ
    requires n - 1 + read <= |SerializeAll(ps)| && READ - n <= i < read - 1
    requires SerializeAll(ps)[i] != SerializeAll(ps)[n + i]
    ensures Within(ps, chunks, n, read) && !Stands(GateReadAll(Reader([], []), chunks), Concat(chunks))
  {
    var s, c := TwoPieces(SerializeAll(ps), n - 1, read);
    BufferedAlmost(ps, n);
    LastRead(ps, n, s, c, i);
    chunks := WrongAtLast(s, c);
  }

  lemma {:induction false} WrongAtLast(s: seq<byte>, c: seq<byte>) returns (chunks: seq<seq<byte>>)
    requires GateReadAll(Reader([], []), Singles(s)) == Reader(s, []) && !Stands(GateRead(Reader(s, []), c), s + c)
    ensures Concat(chunks) == s + c && (forall d | d in chunks :: |d| == 1 || d == c)
    ensures !Stands(GateReadAll(Reader([], []), chunks), s + c)
  {
    chunks := Singles(s) + [c];
    SinglesConcat(s);
    ConcatSnoc(Singles(s), c);
    GateReadAllSnoc(Reader([], []), Singles(s), c);
  }

  lemma {:induction false} TwoPieces(all: seq<byte>, m: nat, n: nat) returns (s: seq<byte>, c: seq<byte>)
    requires m + n <= |all|
    ensures s == all[..m] && |c| == n && s + c <= all && forall i | 0 <= i < m + n :: (s + c)[i] == all[i]
  {
    s, c := all[..m], all[m..m + n];
  }

  /**
   Every stream of packets of at most `longest` bytes, read at most `read` bytes at a time by a new connection,
   is cut as it should be exactly for these bounds.
   */
  lemma {:induction false} GateRightIff(longest: nat, read: nat)
    requires 18 < longest <= 0x1000 && 0 < read <= 0x1000
    ensures (forall ps: seq<Packet>, chunks: seq<seq<byte>> | Within(ps, chunks, longest, read) ::
               Stands(GateReadAll(Reader([], []), chunks), Concat(chunks)))
            <==> longest - 1 + read <= 0x1000 || (0xFF6 <= longest <= 0xFF7 && read <= 12)
  {
    if GateRight(longest, read) {
      forall ps: seq<Packet>, chunks: seq<seq<byte>> | Within(ps, chunks, longest, read)
        ensures Stands(GateReadAll(Reader([], []), chunks), Concat(chunks))
      {
        Unit(Concat(chunks));
        RunRight(Reader([], []), [], chunks, ps, longest, read);
      }
    } else {
      var i := if READ - 10 <= longest <= READ - 9 then 11 else READ - longest;
      var ps := Witness(longest, read, i);
      var chunks := RunWrong(ps, longest, read, i);
    }
  }
}
