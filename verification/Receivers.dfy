/**
 The receive buffers that cut client packets out of what a socket delivers:
 UserInfoEx in gate_server/user_info_list.cpp and ClientInfoEx in center_server/client_info_list.cpp.
 */
module Receivers {
  import opened Bytes
  import opened Options
  import opened SlotRing
  import opened Framing
  import opened Packs
  import opened CircleLists

  // MaxRecvBuffLen, and the size of one read.
  const RECV := 0x4000
  const READ := 0x1000

  /** The buffered bytes once a chunk was read: appended, or alone when both do not fit. */
  function Gathered(residue: seq<byte>, chunk: seq<byte>): seq<byte> {
    if |residue| + |chunk| < RECV then residue + chunk else chunk
  }

  datatype Reader = Reader(residue: seq<byte>, delivered: seq<Packet>)

  function Read(r: Reader, chunk: seq<byte>): Reader {
    var d := Drain(Client, Gathered(r.residue, chunk));
    Reader(d.rest, r.delivered + d.packets)
  }

  function ReadAll(r: Reader, chunks: seq<seq<byte>>): Reader
    decreases |chunks|
  {
    if chunks == [] then r else ReadAll(Read(r, chunks[0]), chunks[1..])
  }

  // How often in a run of reads the buffered bytes are thrown away.
  function Discards(r: Reader, chunks: seq<seq<byte>>): nat
    decreases |chunks|
  {
    if chunks == [] then 0
    else (if |r.residue| + |chunks[0]| < RECV then 0 else 1) + Discards(Read(r, chunks[0]), chunks[1..])
  }

  // No read of the run meets a length field out of range.
  predicate AllDefined(r: Reader, chunks: seq<seq<byte>>)
    decreases |chunks|
  {
    chunks == [] || (Defined(Client, Gathered(r.residue, chunks[0])) && AllDefined(Read(r, chunks[0]), chunks[1..]))
  }

  // The reader stands where draining `stream` at once would leave it.
  predicate Stands(r: Reader, stream: seq<byte>) {
    Drain(Client, stream) == Drained(r.delivered, r.residue)
  }

  lemma {:induction false} ReadKeeps(r: Reader, stream: seq<byte>, chunk: seq<byte>)
    requires Stands(r, stream) && |r.residue| + |chunk| < RECV
    ensures Stands(Read(r, chunk), stream + chunk)
  {
    DrainSplit(Client, stream, chunk);
  }

  predicate StreamOf(stream: seq<byte>, ps: seq<Packet>, bound: nat) {
    && OVERHEAD < bound
    && (forall p | p in ps :: WellFormed(Client, p) && Size(p) <= bound)
    && stream <= SerializeAll(ps)
  }

  /**
   The discard branch is unreachable while a packet less a byte and a read fit the buffer: no byte is thrown
   away, and the packets cut off are consecutive pieces of the stream.
   */
  lemma {:induction false} NothingDiscarded(r: Reader, stream: seq<byte>, chunks: seq<seq<byte>>, ps: seq<Packet>,
                                            longest: nat, read: nat)
    requires longest - 1 + read < RECV && Stands(r, stream) && StreamOf(stream + Concat(chunks), ps, longest)
    requires forall c | c in chunks :: |c| <= read
    ensures Stands(ReadAll(r, chunks), stream + Concat(chunks))
    ensures ReadAll(r, chunks).delivered <= ps && Discards(r, chunks) == 0 && AllDefined(r, chunks)
    decreases |chunks|
  {
    if chunks == [] {
      Unit(stream);
      ResidueBound(Client, stream, ps, longest);
    } else {
      Assoc(stream, chunks[0], Concat(chunks[1..]));
      PrefixTrans(stream, stream + Concat(chunks), SerializeAll(ps));
      ResidueBound(Client, stream, ps, longest);
      assert chunks[0] in chunks;
      PrefixTrans(stream + chunks[0], stream + Concat(chunks), SerializeAll(ps));
      ResidueBound(Client, stream + chunks[0], ps, longest);
      DrainSplit(Client, stream, chunks[0]);
      ReadKeeps(r, stream, chunks[0]);
      NothingDiscarded(Read(r, chunks[0]), stream + chunks[0], chunks[1..], ps, longest, read);
    }
  }

  lemma {:induction false} DiscardsSnoc(r: Reader, chunks: seq<seq<byte>>, c: seq<byte>)
    ensures Discards(r, chunks + [c])
         == Discards(r, chunks) + if |ReadAll(r, chunks).residue| + |c| < RECV then 0 else 1
    decreases |chunks|
  {
    if chunks == [] {
      assert chunks + [c] == [c];
      assert Discards(r, [c]) == (if |r.residue| + |c| < RECV then 0 else 1) + Discards(Read(r, c), []);
    } else {
      DropAppend(chunks, [c], 1);
      DiscardsSnoc(Read(r, chunks[0]), chunks[1..], c);
    }
  }

  lemma {:induction false} ReadHeld(b: seq<byte>, more: seq<byte>)
    requires Held(Client, b, more) && |b| + |more| < RECV
    ensures ReadAll(Reader(b, []), Singles(more)) == Reader(b + more, [])
    decreases |more|
  {
    if more == [] {
      Unit(b);
    } else {
      var c := [more[0]];
      HeldNext(Client, b, more);
      assert Read(Reader(b, []), c) == Reader(b + c, []);
      ReadHeld(b + c, more[1..]);
      assert Singles(more)[0] == c && Singles(more)[1..] == Singles(more[1..]);
      Assoc(b, c, more[1..]);
      assert c + more[1..] == more;
    }
  }

  // Reads of at most `read` bytes, of a stream of packets of at most `longest`.
  predicate ReadsOf(chunks: seq<seq<byte>>, ps: seq<Packet>, longest: nat, read: nat) {
    StreamOf(Concat(chunks), ps, longest) && forall c | c in chunks :: |c| <= read
  }

  lemma {:induction false} DiscardsAt(s: seq<byte>, c: seq<byte>) returns (chunks: seq<seq<byte>>)
    requires Held(Client, [], s) && |s| < RECV <= |s| + |c|
    ensures Discards(Reader([], []), chunks) > 0 && Concat(chunks) == s + c
    ensures forall d | d in chunks :: |d| == 1 || d == c
  {
    ReadHeld([], s);
    Unit(s);
    chunks := Singles(s) + [c];
    DiscardsSnoc(Reader([], []), Singles(s), c);
    SinglesConcat(s);
    ConcatSnoc(Singles(s), c);
  }

  /** Most of a long packet, a byte at a time, and then a read that no longer fits. */
  lemma {:induction false} DiscardsIfTooLong(longest: nat, read: nat) returns (ps: seq<Packet>, chunks: seq<seq<byte>>)
    requires OVERHEAD < longest <= MAX_INT && 0 < read && longest - 1 + read >= RECV
    ensures ReadsOf(chunks, ps, longest, read) && Discards(Reader([], []), chunks) > 0
  {
    var s, c;
    ps, s, c := LongStream(Client, longest, RECV);
    chunks := DiscardsAt(s, c);
  }

  /** No run of a new connection throws anything away exactly for these packet and read sizes. */
  lemma {:induction false} NothingDiscardedIff(longest: nat, read: nat)
    requires 18 < longest <= MAX_INT && 0 < read <= 0x1000
    ensures (forall ps: seq<Packet>, chunks: seq<seq<byte>> | ReadsOf(chunks, ps, longest, read) ::
               Discards(Reader([], []), chunks) == 0)
            <==> longest - 1 + read < 0x4000
  {
    if longest - 1 + read < RECV {
      forall ps: seq<Packet>, chunks: seq<seq<byte>> | ReadsOf(chunks, ps, longest, read)
        ensures Discards(Reader([], []), chunks) == 0
      {
        Unit(Concat(chunks));
        NothingDiscarded(Reader([], []), [], chunks, ps, longest, read);
      }
    } else {
      var ps, chunks := DiscardsIfTooLong(longest, read);
    }
  }

  // ---------- after a discard ----------

  // The reader goes on as a new one would, with these packets delivered before.
  predicate GoesOnAs(r: Reader, before: seq<Packet>, other: Reader) {
    r == Reader(other.residue, before + other.delivered)
  }

  lemma {:induction false} ReadsAlike(r: Reader, before: seq<Packet>, other: Reader, chunks: seq<seq<byte>>)
    requires GoesOnAs(r, before, other)
    ensures GoesOnAs(ReadAll(r, chunks), before, ReadAll(other, chunks))
    decreases |chunks|
  {
    if chunks != [] {
      Assoc(before, other.delivered, Drain(Client, Gathered(other.residue, chunks[0])).packets);
      ReadsAlike(Read(r, chunks[0]), before, Read(other, chunks[0]), chunks[1..]);
    }
  }

  /** A read that does not fit throws away what was buffered, and only that: from then on all is as with a new reader. */
  lemma {:induction false} StartsOver(r: Reader, chunk: seq<byte>, chunks: seq<seq<byte>>)
    requires |r.residue| + |chunk| >= 0x4000 && |chunk| < 0x4000
    ensures GoesOnAs(ReadAll(Read(r, chunk), chunks), r.delivered, ReadAll(Read(Reader([], []), chunk), chunks))
    ensures Drain(Client, chunk) == Drained(Read(Reader([], []), chunk).delivered, Read(Reader([], []), chunk).residue)
  {
    Unit(chunk);
    Unit(Drain(Client, chunk).packets);
    ReadsAlike(Read(r, chunk), r.delivered, Read(Reader([], []), chunk), chunks);
  }

  // ---------- the gate server's shift ----------

  /**
   What is buffered after the gate server shifts a packet of n bytes out: it moves 0x1000 - n bytes
   down, however many are buffered (user_info_list.cpp:84).
   */
  function Shifted(b: seq<byte>, n: nat): (r: seq<byte>)
    requires n <= READ && n <= |b|
    ensures |r| == |b| - n
  {
    if |b| <= READ then b[n..] else b[n..READ] + b[READ - n..|b| - n]
  }

  lemma {:induction false} ShiftedIs(b: seq<byte>, n: nat, now: seq<byte>)
    requires n <= READ <= |now| && n <= |b| <= |now|
    requires forall i | 0 <= i < |b| - n :: now[i] == if i < READ - n then b[n + i] else b[i]
    ensures now[..|b| - n] == Shifted(b, n)
  {
    var got, want := now[..|b| - n], Shifted(b, n);
    forall i | 0 <= i < |got| ensures got[i] == want[i] {
      ShiftedAt(b, n, i);
    }
  }

  lemma {:induction false} ShiftedAt(b: seq<byte>, n: nat, i: nat)
    requires n <= READ && n <= |b| && i < |b| - n
    ensures Shifted(b, n)[i] == if i < READ - n then b[n + i] else b[i]
  {}

  /** The gate server's loop. A packet longer than its 0x1000-byte scratch buffer has no meaning in C++. */
  function GateDrain(b: seq<byte>): Drained
    decreases |b|
  {
    if |b| <= OVERHEAD then
      Drained([], b)
    else
      match Parse(Client, b)
      case Parsed(p) =>
        if Size(p) <= READ && Size(p) <= |b| then
          var d := GateDrain(Shifted(b, Size(p)));
          Drained([p] + d.packets, d.rest)
        else
          Drained([], b)
      case _ => Drained([], b)
  }

  /** With at most 0x1000 bytes buffered the loop does what the stream says. */
  lemma {:induction false} ShiftRight(b: seq<byte>)
    requires |b| <= READ
    ensures GateDrain(b) == Drain(Client, b)
    decreases |b|
  {
    if |b| > OVERHEAD && Parse(Client, b).Parsed? {
      SerializeParsed(Client, b);
      ShiftRight(b[Size(Parse(Client, b).packet)..]);
    }
  }

  function GateRead(r: Reader, chunk: seq<byte>): Reader {
    var d := GateDrain(Gathered(r.residue, chunk));
    Reader(d.rest, r.delivered + d.packets)
  }

  function GateReadAll(r: Reader, chunks: seq<seq<byte>>): Reader
    decreases |chunks|
  {
    if chunks == [] then r else GateReadAll(GateRead(r, chunks[0]), chunks[1..])
  }

  /** The same for the gate server's reader. */
  lemma {:induction false} GateReadsAlike(r: Reader, before: seq<Packet>, other: Reader, chunks: seq<seq<byte>>)
    requires GoesOnAs(r, before, other)
    ensures GoesOnAs(GateReadAll(r, chunks), before, GateReadAll(other, chunks))
    decreases |chunks|
  {
    if chunks != [] {
      Assoc(before, other.delivered, GateDrain(Gathered(other.residue, chunks[0])).packets);
      GateReadsAlike(GateRead(r, chunks[0]), before, GateRead(other, chunks[0]), chunks[1..]);
    }
  }

  lemma {:induction false} GateStartsOver(r: Reader, chunk: seq<byte>, chunks: seq<seq<byte>>)
    requires |r.residue| + |chunk| >= 0x4000 && |chunk| < 0x4000
    ensures GoesOnAs(GateReadAll(GateRead(r, chunk), chunks), r.delivered, GateReadAll(GateRead(Reader([], []), chunk), chunks))
    ensures GateDrain(chunk) == Drained(GateRead(Reader([], []), chunk).delivered, GateRead(Reader([], []), chunk).residue)
  {
    Unit(chunk);
    Unit(GateDrain(chunk).packets);
    GateReadsAlike(GateRead(r, chunk), r.delivered, GateRead(Reader([], []), chunk), chunks);
  }

  // ---------- where the gate server sends a packet ----------

  // The message type of a login request (packet/package_define.proto:24).
  const E_USER_LOGIN_RQ: int32 := 6001

  datatype Action =
    | Forward(sock: int, bytes: seq<byte>)
    | QueryRoom(room: int32)
    | Park(bytes: seq<byte>, room: int32, key: int32)

  function Route(rooms: map<int32, int>, key: int32, p: Packet): seq<Action>
    requires |Serialize(p)| <= MAX_INT - OVERHEAD
  {
    if p.word0 in rooms then [Forward(rooms[p.word0], Serialize(Wrapped(key, Serialize(p))))]
    else if p.word2 == E_USER_LOGIN_RQ then [QueryRoom(p.word0), Park(Serialize(p), p.word0, key)]
    else []
  }

  // GateDrain delivers nothing longer than READ.
  function RouteAll(rooms: map<int32, int>, key: int32, ps: seq<Packet>): seq<Action> {
    if ps == [] then []
    else (if |Serialize(ps[0])| <= READ then Route(rooms, key, ps[0]) else []) + RouteAll(rooms, key, ps[1..])
  }

  lemma {:induction false} RouteAllSnoc(rooms: map<int32, int>, key: int32, ps: seq<Packet>, p: Packet)
    requires |Serialize(p)| <= READ
    ensures RouteAll(rooms, key, ps + [p]) == RouteAll(rooms, key, ps) + Route(rooms, key, p)
  {
    if ps == [] {
      assert ps + [p] == [p];
      assert RouteAll(rooms, key, [p]) == Route(rooms, key, p) + RouteAll(rooms, key, []);
    } else {
      RouteAllSnoc(rooms, key, ps[1..], p);
      DropAppend(ps, [p], 1);
      var first := if |Serialize(ps[0])| <= READ then Route(rooms, key, ps[0]) else [];
      Assoc(first, RouteAll(rooms, key, ps[1..]), Route(rooms, key, p));
    }
  }

  lemma {:induction false} RoutedNext(acts: seq<Action>, rooms: map<int32, int>, key: int32, ps: seq<Packet>, p: Packet)
    requires |Serialize(p)| <= READ
    ensures (acts + RouteAll(rooms, key, ps)) + Route(rooms, key, p) == acts + RouteAll(rooms, key, ps + [p])
  {
    RouteAllSnoc(rooms, key, ps, p);
    Assoc(acts, RouteAll(rooms, key, ps), Route(rooms, key, p));
  }

  // The loop ends at a packet that is not complete, not at one that has no meaning.
  predicate GateDefined(b: seq<byte>) {
    var rest := GateDrain(b).rest;
    |rest| <= OVERHEAD || Parse(Client, rest).Refused?
  }

  // A loop that set out to drain `all` has cut off `got` and has b left.
  predicate GateCutSoFar(all: seq<byte>, got: seq<Packet>, b: seq<byte>) {
    var d := GateDrain(b);
    GateDrain(all) == Drained(got + d.packets, d.rest) && GateDefined(b)
  }

  lemma {:induction false} GateCutNothing(all: seq<byte>)
    requires GateDefined(all)
    ensures GateCutSoFar(all, [], all)
  {
    Unit(GateDrain(all).packets);
  }

  lemma {:induction false} GateCutNext(all: seq<byte>, got: seq<Packet>, b: seq<byte>, p: Packet)
    requires GateCutSoFar(all, got, b)
    requires OVERHEAD < |b| && Parse(Client, b) == Parsed(p) && Size(p) <= READ && Size(p) <= |b|
    ensures GateCutSoFar(all, got + [p], Shifted(b, Size(p)))
  {
    Assoc(got, [p], GateDrain(Shifted(b, Size(p))).packets);
  }

  lemma {:induction false} GateCutAll(all: seq<byte>, got: seq<Packet>, b: seq<byte>)
    requires GateCutSoFar(all, got, b) && !(OVERHEAD < |b| && Parse(Client, b).Parsed?)
    ensures GateDrain(all) == Drained(got, b)
  {
    Unit(got);
  }

  /** The receiving side of a slot's object. */
  class UserInfoEx {
    const recvedBuff: array<byte>
    var validBuffLen: int
    var hashKey: int32
    ghost var delivered: seq<Packet>
    ghost var actions: seq<Action>

    ghost predicate Ready()
      reads this, recvedBuff
    {
      recvedBuff.Length == RECV && 0 <= validBuffLen < RECV
    }

    ghost function Abs(): Reader
      requires Ready()
      reads this, recvedBuff
    {
      Reader(recvedBuff[..validBuffLen], delivered)
    }

    constructor (hashKey: int32)
      ensures Ready() && Abs() == Reader([], []) && this.hashKey == hashKey && actions == [] && fresh(recvedBuff)
    {
      recvedBuff := new byte[RECV];
      validBuffLen, this.hashKey, delivered, actions := 0, hashKey, [], [];
    }

    method Gather(chunk: seq<byte>)
      requires Ready() && |chunk| <= READ
      modifies this`validBuffLen, recvedBuff
      ensures Ready() && recvedBuff[..validBuffLen] == Gathered(old(recvedBuff[..validBuffLen]), chunk)
    {
      if validBuffLen + |chunk| < RECV {
        forall i | 0 <= i < |chunk| {
          recvedBuff[validBuffLen + i] := chunk[i];
        }
        validBuffLen := validBuffLen + |chunk|;
      } else {
        forall i | 0 <= i < |chunk| {
          recvedBuff[i] := chunk[i];
        }
        validBuffLen := |chunk|;
      }
    }

    // One turn of the loop. `rooms` maps the rooms that are known to the sockets of their servers.
    method CutPacket(tmpCytPack: Pack, rooms: map<int32, int>) returns (cut: bool)
      requires Ready() && GateDefined(recvedBuff[..validBuffLen]) && tmpCytPack.layout == Client
      modifies this`validBuffLen, this`delivered, this`actions, recvedBuff, tmpCytPack
      ensures Ready()
      ensures var b := old(recvedBuff[..validBuffLen]);
              && cut == (|b| > OVERHEAD && Parse(Client, b).Parsed?)
              && (cut ==> var p := Parse(Client, b).packet;
                          && Size(p) <= READ && Size(p) <= |b| && recvedBuff[..validBuffLen] == Shifted(b, Size(p))
                          && |Serialize(p)| <= READ
                          && delivered == old(delivered) + [p]
                          && actions == old(actions) + Route(rooms, hashKey, p))
              && (!cut ==> recvedBuff[..validBuffLen] == b && delivered == old(delivered) && actions == old(actions))
    {
      ghost var b := recvedBuff[..validBuffLen];
      var tmpResult := tmpCytPack.ParseBuffered(recvedBuff, validBuffLen);
      if !tmpResult {
        return false;
      }
      ghost var p := Parse(Client, b).packet;
      var tmpCurrentPackLen := tmpCytPack.ByteSize();
      var tmpPackData := recvedBuff[..tmpCurrentPackLen];
      SliceOfTake(recvedBuff[..], |b|, 0, tmpCurrentPackLen);
      assert tmpPackData == Serialize(p);
      validBuffLen := validBuffLen - tmpCurrentPackLen;
      ShiftBuffer(tmpCurrentPackLen, b);
      SendOn(tmpCytPack.Value(), tmpPackData, rooms);
      return true;
    }

    // Wrap the packet for its room's server, or ask for the room and park the packet.
    method SendOn(p: Packet, tmpPackData: seq<byte>, rooms: map<int32, int>)
      requires tmpPackData == Serialize(p) && 0 < |tmpPackData| <= READ
      modifies this`delivered, this`actions
      ensures delivered == old(delivered) + [p]
      ensures actions == old(actions) + Route(rooms, hashKey, p)
    {
      delivered := delivered + [p];
      var tmpRoomId := p.word0;
      if tmpRoomId !in rooms {
        if p.word2 == E_USER_LOGIN_RQ {
          actions := actions + [QueryRoom(tmpRoomId), Park(tmpPackData, tmpRoomId, hashKey)];
        } else {
          Unit(actions);
        }
        return;
      }
      var tmpSendBuff := new byte[0x2000];
      var len := Packs.Wrap(hashKey, tmpPackData, tmpSendBuff);
      actions := actions + [Forward(rooms[tmpRoomId], tmpSendBuff[..len])];
    }

    method ShiftBuffer(n: nat, ghost b: seq<byte>)
      requires n <= READ && n <= |b| <= RECV == recvedBuff.Length && recvedBuff[..|b|] == b
      modifies recvedBuff
      ensures recvedBuff[..|b| - n] == Shifted(b, n)
    {
      MoveDown(recvedBuff, n, READ - n);
      ShiftedIs(b, n, recvedBuff[..]);
    }

    method DealWithData(chunk: seq<byte>, rooms: map<int32, int>)
      requires Ready() && |chunk| <= READ
      requires GateDefined(Gathered(Abs().residue, chunk))
      modifies this`validBuffLen, this`delivered, this`actions, recvedBuff
      ensures Ready() && Abs() == GateRead(old(Abs()), chunk)
      ensures actions == old(actions)
                       + RouteAll(rooms, hashKey, GateDrain(Gathered(old(Abs()).residue, chunk)).packets)
    {
      Gather(chunk);
      ghost var all, got := recvedBuff[..validBuffLen], [];
      var tmpCytPack := new Pack(Client, 0);
      GateCutNothing(all);
      while true
        invariant Ready() && tmpCytPack.layout == Client && GateCutSoFar(all, got, recvedBuff[..validBuffLen])
        invariant delivered == old(delivered) + got
        invariant actions == old(actions) + RouteAll(rooms, hashKey, got)
        decreases validBuffLen
      {
        ghost var b := recvedBuff[..validBuffLen];
        var cut := CutPacket(tmpCytPack, rooms);
        if !cut {
          GateCutAll(all, got, b);
          break;
        }
        ghost var p := Parse(Client, b).packet;
        GateCutNext(all, got, b, p);
        Assoc(old(delivered), got, [p]);
        RoutedNext(old(actions), rooms, hashKey, got, p);
        got := got + [p];
      }
    }
  }

  // ---------- what the center server queues ----------

  /** The read buffer: zeroed, then filled from the front. */
  function ReadBuffer(chunk: seq<byte>): (r: seq<byte>)
    ensures |r| == if |chunk| < READ then READ else |chunk|
  {
    if |chunk| < READ then chunk + seq(READ - |chunk|, _ => 0) else chunk
  }

  /**
   The message queued for a packet of n bytes. It is taken from the read buffer instead of the
   receive buffer (client_info_list.cpp:77). AddBuffer never looks past the first 0x1000 bytes it
   is given, so any message that repeats those stands for the pointer.
   */
  function QueuedFor(chunk: seq<byte>, n: nat): (m: seq<byte>)
    ensures |m| == n
  {
    seq(n, i requires 0 <= i < n => ReadBuffer(chunk)[i % READ])
  }

  /** Byte i of it is byte i % 0x1000 of the last read, and 0 beyond that read. */
  lemma {:induction false} QueuedBytes(chunk: seq<byte>, n: nat, i: nat)
    requires |chunk| <= 0x1000 && i < n
    ensures QueuedFor(chunk, n)[i] == if i % 0x1000 < |chunk| then chunk[i % 0x1000] else 0
  {
    assert QueuedFor(chunk, n)[i] == ReadBuffer(chunk)[i % READ];
  }

  function OfferAll(ring: Ring, chunk: seq<byte>, ps: seq<Packet>): Ring
    decreases |ps|
  {
    if ps == [] then ring
    else OfferAll(Offer(FromStart, ring, QueuedFor(chunk, Size(ps[0]))), chunk, ps[1..])
  }

  lemma {:induction false} OfferAllSnoc(ring: Ring, chunk: seq<byte>, ps: seq<Packet>, p: Packet)
    ensures OfferAll(ring, chunk, ps + [p])
         == Offer(FromStart, OfferAll(ring, chunk, ps), QueuedFor(chunk, Size(p)))
    decreases |ps|
  {
    if ps == [] {
      assert ps + [p] == [p];
    } else {
      DropAppend(ps, [p], 1);
      OfferAllSnoc(Offer(FromStart, ring, QueuedFor(chunk, Size(ps[0]))), chunk, ps[1..], p);
    }
  }

  // Among the packets that the loop cuts off the buffered bytes, one of n bytes starts at `at`.
  predicate CutAt(b: seq<byte>, at: nat, n: nat)
    decreases |b|
  {
    && OVERHEAD < |b| && Parse(Client, b).Parsed?
    && var size := Size(Parse(Client, b).packet);
    && size <= |b|
    && if at == 0 then size == n else size <= at && CutAt(b[size..], at - size, n)
  }

  // The buffer after a read: the first bytes are a rest of earlier reads, and the loop gets to this packet.
  predicate Arrives(b: seq<byte>, residueLen: nat, at: nat, n: nat) {
    && residueLen <= |b| && Drain(Client, b[..residueLen]) == Drained([], b[..residueLen])
    && CutAt(b, at, n)
  }

  // Packet j of ps has n bytes, and they are those of b from `at`, which is where the packets before it end.
  predicate LiesAt(b: seq<byte>, ps: seq<Packet>, j: nat, at: nat, n: nat) {
    && j < |ps| && |SerializeAll(ps[..j])| == at && Size(ps[j]) == n
    && at + n <= |b| && b[at..at + n] == Serialize(ps[j])
  }

  // A packet of n bytes comes after `at` bytes of packets.
  predicate StartsAt(ps: seq<Packet>, at: nat, n: nat)
    decreases |ps|
  {
    ps != [] && if at == 0 then Size(ps[0]) == n else Size(ps[0]) <= at && StartsAt(ps[1..], at - Size(ps[0]), n)
  }

  lemma {:induction false} CutStarts(b: seq<byte>, at: nat, n: nat)
    requires CutAt(b, at, n)
    ensures StartsAt(Drain(Client, b).packets, at, n)
    decreases |b|
  {
    var p := Parse(Client, b).packet;
    var more := Drain(Client, b[Size(p)..]).packets;
    assert Drain(Client, b).packets == [p] + more;
    if at > 0 {
      CutStarts(b[Size(p)..], at - Size(p), n);
      StartsLater(p, more, at - Size(p), n);
    }
  }

  lemma {:induction false} StartsLater(p: Packet, qs: seq<Packet>, at: nat, n: nat)
    requires StartsAt(qs, at, n) && 0 < Size(p)
    ensures StartsAt([p] + qs, Size(p) + at, n)
  {
    assert ([p] + qs)[1..] == qs;
  }

  lemma {:induction false} StartsIndex(ps: seq<Packet>, at: nat, n: nat) returns (j: nat)
    requires StartsAt(ps, at, n) && forall p | p in ps :: |Serialize(p)| == Size(p)
    ensures j < |ps| && |SerializeAll(ps[..j])| == at && Size(ps[j]) == n
    decreases |ps|
  {
    if at == 0 {
      j := 0;
    } else {
      assert ps[0] in ps;
      var i := StartsIndex(ps[1..], at - Size(ps[0]), n);
      j := i + 1;
      assert ps[..j][1..] == ps[1..][..i];
    }
  }

  lemma {:induction false} LiesInAll(ps: seq<Packet>, rest: seq<byte>, j: nat)
    requires j < |ps| && |Serialize(ps[j])| == Size(ps[j])
    ensures LiesAt(SerializeAll(ps) + rest, ps, j, |SerializeAll(ps[..j])|, Size(ps[j]))
  {
    var before, p, after := SerializeAll(ps[..j]), Serialize(ps[j]), SerializeAll(ps[j + 1..]);
    SplitAt(ps, j);
    SerializeAllAppend(ps[..j], ps[j..]);
    Assoc(before, p + after, rest);
    Assoc(p, after, rest);
    Middle(before, p, after + rest);
  }

  lemma {:induction false} Middle(a: seq<byte>, m: seq<byte>, c: seq<byte>)
    ensures |a| + |m| <= |a + (m + c)| && (a + (m + c))[|a|..|a| + |m|] == m
  {}

  /** The packet there is the next one delivered after those whose bytes come before it. */
  lemma {:induction false} CutAtIsDelivered(b: seq<byte>, at: nat, n: nat) returns (j: nat)
    requires CutAt(b, at, n)
    ensures LiesAt(b, Drain(Client, b).packets, j, at, n)
  {
    var ps, rest := CutApart(b, at, n);
    j := StartsIndex(ps, at, n);
    LiesInAll(ps, rest, j);
  }

  lemma {:induction false} CutApart(b: seq<byte>, at: nat, n: nat) returns (ps: seq<Packet>, rest: seq<byte>)
    requires CutAt(b, at, n)
    ensures ps == Drain(Client, b).packets && StartsAt(ps, at, n) && b == SerializeAll(ps) + rest
    ensures forall p | p in ps :: |Serialize(p)| == Size(p)
  {
    ps, rest := Drain(Client, b).packets, Drain(Client, b).rest;
    CutStarts(b, at, n);
    DrainConserves(Client, b);
  }

  predicate QueuedRight(b: seq<byte>, residueLen: nat, at: nat, n: nat)
    requires residueLen <= |b| && at + n <= |b|
  {
    QueuedFor(b[residueLen..], n) == b[at..at + n]
  }

  lemma {:induction false} QueuedAtStart(b: seq<byte>, at: nat, n: nat)
    requires at + n <= |b| && |b| - at <= READ
    ensures QueuedRight(b, at, at, n)
  {
    var got, want := QueuedFor(b[at..], n), b[at..at + n];
    forall i | 0 <= i < n ensures got[i] == want[i] {
      assert i % READ == i;
      assert got[i] == ReadBuffer(b[at..])[i] == b[at..][i] == b[at + i];
    }
  }

  // What is queued starts with the first byte of the last read.
  lemma {:induction false} FirstQueued(b: seq<byte>, residueLen: nat, at: nat, n: nat)
    requires 0 < n && at + n <= |b| && residueLen <= |b|
    ensures QueuedRight(b, residueLen, at, n) ==> b[at] == if residueLen < |b| then b[residueLen] else 0
  {
    assert QueuedFor(b[residueLen..], n)[0] == ReadBuffer(b[residueLen..])[0];
    assert b[at..at + n][0] == b[at];
  }

  // ---------- the first byte of a packet decides nothing ----------

  lemma {:induction false} HeadByteFree(b: seq<byte>, x: byte)
    requires OVERHEAD <= |b|
    ensures Parse(Client, b[0 := x]).Parsed? <==> Parse(Client, b).Parsed?
    ensures Parse(Client, b).Parsed? ==> Size(Parse(Client, b[0 := x]).packet) == Size(Parse(Client, b).packet)
  {
    assert b[0 := x][7..11] == b[7..11];
  }

  lemma {:induction false} SamePacket(b: seq<byte>, c: seq<byte>, p: Packet)
    requires Parse(Client, b) == Parsed(p) && Size(p) <= |c| && Size(p) <= |b| && c[..Size(p)] == b[..Size(p)]
    ensures Parse(Client, c) == Parsed(p)
  {
    SerializeParsed(Client, b);
    ParseSerialized(Client, p, c[Size(p)..]);
    SplitAt(c, Size(p));
  }

  lemma {:induction false} CutAtAltered(b: seq<byte>, at: nat, n: nat, x: byte)
    requires CutAt(b, at, n)
    ensures at < |b| && CutAt(b[at := x], at, n)
    decreases |b|
  {
    var p := Parse(Client, b).packet;
    if at == 0 {
      HeadByteFree(b, x);
    } else {
      CutAtAltered(b[Size(p)..], at - Size(p), n, x);
      SamePacket(b, b[at := x], p);
      assert b[at := x][Size(p)..] == b[Size(p)..][at - Size(p) := x];
    }
  }

  lemma {:induction false} RestBeginsFirst(b: seq<byte>, residueLen: nat, at: nat, n: nat)
    requires Arrives(b, residueLen, at, n) && at < residueLen
    ensures at == 0
  {
    if at > 0 {
      var p := Parse(Client, b).packet;
      assert OVERHEAD <= Size(p) by { SerializeParsed(Client, b); }
      SamePacket(b, b[..residueLen], p);
    }
  }

  lemma {:induction false} ArrivesAltered(b: seq<byte>, residueLen: nat, at: nat, n: nat, x: byte)
    requires Arrives(b, residueLen, at, n) && at != residueLen
    ensures at < |b| && Arrives(b[at := x], residueLen, at, n)
  {
    CutAtAltered(b, at, n, x);
    var c := b[at := x];
    if at < residueLen {
      RestBeginsFirst(b, residueLen, at, n);
      assert c[..residueLen] == b[..residueLen][0 := x];
      if OVERHEAD <= residueLen {
        HeadByteFree(b[..residueLen], x);
      }
    } else {
      assert c[..residueLen] == b[..residueLen];
    }
  }

  lemma {:induction false} ArrivesInside(b: seq<byte>, residueLen: nat, at: nat, n: nat)
    requires Arrives(b, residueLen, at, n)
    ensures OVERHEAD <= n && at + n <= |b|
  {
    var j := CutAtIsDelivered(b, at, n);
  }

  /**
   The center server queues the packet that it cut off, whatever its bytes and those around it, exactly
   when the packet starts where the last read starts: never one whose first bytes came with an earlier
   read, and never the second of two that came together. The sizes are any that can occur.
   */
  lemma {:induction false} CenterQueuesRightIff(residueLen: nat, chunkLen: nat, at: nat, n: nat)
    requires chunkLen <= 0x1000
    requires exists b: seq<byte> :: |b| == residueLen + chunkLen && Arrives(b, residueLen, at, n)
    ensures (forall b: seq<byte> | |b| == residueLen + chunkLen && Arrives(b, residueLen, at, n) ::
               at + n <= |b| && QueuedRight(b, residueLen, at, n))
            <==> at == residueLen
  {
    if at == residueLen {
      forall b: seq<byte> | |b| == residueLen + chunkLen && Arrives(b, residueLen, at, n)
        ensures at + n <= |b| && QueuedRight(b, residueLen, at, n)
      {
        ArrivesInside(b, residueLen, at, n);
        QueuedAtStart(b, at, n);
      }
    } else {
      var b: seq<byte> :| |b| == residueLen + chunkLen && Arrives(b, residueLen, at, n);
      ArrivesInside(b, residueLen, at, n);
      var c := b[at := Other(b[at])];
      ArrivesAltered(b, residueLen, at, n, Other(b[at]));
      FirstQueued(b, residueLen, at, n);
      FirstQueued(c, residueLen, at, n);
      assert !QueuedRight(b, residueLen, at, n) || !QueuedRight(c, residueLen, at, n);
    }
  }

  /** The receiving side of the center server's slot object. */
  class ClientInfoEx {
    const recvedBuff: array<byte>
    const list: CircleList  // of rs_processor_
    var validBuffLen: int
    ghost var delivered: seq<Packet>

    ghost predicate Ready()
      reads this, recvedBuff, list, list.data
    {
      && recvedBuff.Length == RECV && 0 <= validBuffLen < RECV
      && list.Valid() && (list.data == null || list.HasSlots())
    }

    ghost function Abs(): Reader
      requires Ready()
      reads this, recvedBuff, list, list.data
    {
      Reader(recvedBuff[..validBuffLen], delivered)
    }

    constructor (list: CircleList)
      requires list.Valid() && (list.data == null || list.HasSlots())
      ensures Ready() && Abs() == Reader([], []) && this.list == list && fresh(recvedBuff)
    {
      recvedBuff := new byte[RECV];
      this.list := list;
      validBuffLen, delivered := 0, [];
    }

    method Gather(chunk: seq<byte>)
      requires Ready() && |chunk| <= READ
      modifies this`validBuffLen, recvedBuff
      ensures Ready() && recvedBuff[..validBuffLen] == Gathered(old(recvedBuff[..validBuffLen]), chunk)
    {
      if validBuffLen + |chunk| >= RECV {
        validBuffLen := 0;
      }
      forall i | 0 <= i < |chunk| {
        recvedBuff[validBuffLen + i] := chunk[i];
      }
      validBuffLen := validBuffLen + |chunk|;
    }

    // One turn of the loop: the packet is taken out of the buffer and a message of its length queued.
    method CutPacket(tmpPackage: Pack, chunk: seq<byte>) returns (cut: bool)
      requires Ready() && Defined(Client, recvedBuff[..validBuffLen]) && tmpPackage.layout == Client
      modifies this`validBuffLen, this`delivered, recvedBuff, tmpPackage
      modifies list`endPosIndex, list`usingSize, list.data
      ensures Ready()
      ensures var b := old(recvedBuff[..validBuffLen]);
              && cut == (|b| > OVERHEAD && Parse(Client, b).Parsed?)
              && (cut ==> var p := Parse(Client, b).packet;
                          && Size(p) <= |b| && recvedBuff[..validBuffLen] == b[Size(p)..]
                          && delivered == old(delivered) + [p]
                          && list.Abs() == Offer(FromStart, old(list.Abs()), QueuedFor(chunk, Size(p))))
              && (!cut ==> recvedBuff[..validBuffLen] == b && delivered == old(delivered) && list.Abs() == old(list.Abs()))
    {
      ghost var b := recvedBuff[..validBuffLen];
      var tmpResult := tmpPackage.ParseBuffered(recvedBuff, validBuffLen);
      if !tmpResult {
        return false;
      }
      var tmpCurrentPackLen := tmpPackage.ByteSize();
      QueueAndShift(tmpCurrentPackLen, chunk);
      delivered := delivered + [Parse(Client, b).packet];
      return true;
    }

    // AddBuffer's reply is only logged.
    method QueueAndShift(n: nat, chunk: seq<byte>)
      requires Ready() && n <= validBuffLen
      modifies this`validBuffLen, recvedBuff
      modifies list`endPosIndex, list`usingSize, list.data
      ensures Ready() && recvedBuff[..validBuffLen] == old(recvedBuff[..validBuffLen])[n..]
      ensures list.Abs() == Offer(FromStart, old(list.Abs()), QueuedFor(chunk, n))
    {
      ghost var b := recvedBuff[..validBuffLen];
      validBuffLen := validBuffLen - n;
      var tmpRet := list.AddBuffer(QueuedFor(chunk, n));
      assert recvedBuff[n..n + validBuffLen] == b[n..];
      MoveDown(recvedBuff, n, validBuffLen);
    }

    method DealWithData(chunk: seq<byte>)
      requires Ready() && |chunk| <= READ && Defined(Client, Gathered(Abs().residue, chunk))
      modifies this`validBuffLen, this`delivered, recvedBuff
      modifies list`endPosIndex, list`usingSize, list.data
      ensures Ready() && Abs() == Read(old(Abs()), chunk)
      ensures list.Abs() == OfferAll(old(list.Abs()), chunk, Drain(Client, Gathered(old(Abs()).residue, chunk)).packets)
    {
      Gather(chunk);
      ghost var all, got := recvedBuff[..validBuffLen], [];
      var tmpPackage := new Pack(Client, 0);
      CutNothing(Client, all);
      while true
        invariant Ready() && tmpPackage.layout == Client
        invariant CutSoFar(Client, all, got, recvedBuff[..validBuffLen])
        invariant delivered == old(delivered) + got
        invariant list.Abs() == OfferAll(old(list.Abs()), chunk, got)
        decreases validBuffLen
      {
        ghost var b := recvedBuff[..validBuffLen];
        var cut := CutPacket(tmpPackage, chunk);
        if !cut {
          CutAll(Client, all, got, b);
          break;
        }
        ghost var p := Parse(Client, b).packet;
        CutNext(Client, all, got, b, p);
        Assoc(old(delivered), got, [p]);
        OfferAllSnoc(old(list.Abs()), chunk, got, p);
        got := got + [p];
      }
    }
  }
}
