/**
 The packet objects. GateRoomServerPack (packet/gs_rs_packet.pb.cpp) and StruCytPacket
 (packet/cyt_packet.pb.cpp) are the same code over differently named fields; they differ in which
 of the three integers ParseFromArray and ByteSize take for the length of the data. One class
 with that choice as a constant stands for both.
 */
module Packs {
  import opened Bytes
  import opened Framing

  // "123" and "456", the ends that every sender in the repository sets.
  const HEAD: seq<byte> := [49, 50, 51]
  const TAIL: seq<byte> := [52, 53, 54]

  /** A packet of n bytes with nothing in it but its length. */
  function Plain(layout: Layout, n: nat): (p: Packet)
    requires OVERHEAD < n <= MAX_INT
    ensures WellFormed(layout, p) && Size(p) == n
  {
    var len := n - OVERHEAD;
    Packet(HEAD, 0, if layout.Client? then len else 0, if layout.Client? then 0 else len, seq(len, _ => 0), TAIL)
  }

  /** A stream of packets of n bytes that begins with most of a packet and fills `room` bytes with what comes next. */
  lemma {:induction false} LongStream(layout: Layout, n: nat, room: nat) returns (ps: seq<Packet>, s: seq<byte>, c: seq<byte>)
    requires OVERHEAD < n <= MAX_INT && 0 < room
    ensures forall p | p in ps :: WellFormed(layout, p) && Size(p) == n
    ensures |s| == (if n < room then n - 1 else room - 1) && |s| + |c| == room
    ensures Held(layout, [], s) && s + c <= SerializeAll(ps)
  {
    ps := Copies(Plain(layout, n), room);
    var all, m := SerializeAll(ps), if n < room then n - 1 else room - 1;
    CopiesLength(Plain(layout, n), room);
    AtLeast(n, room);
    BeginningHeld(layout, ps, m);
    s, c := all[..m], all[m..room];
    assert s + c == all[..room];
  }

  lemma {:induction false} AtLeast(n: nat, room: nat)
    requires 0 < n
    ensures n * room >= room
  {
    assert n * room == (n - 1) * room + room;
    assert (n - 1) * room >= 0;
  }

  /** A packet whose words were read and whose data and tail are still those of `was`. */
  function HeaderRead(b: seq<byte>, was: Packet): Packet
    requires HEADER <= |b|
  {
    Packet(b[..3], Word(b, 0), Word(b, 1), Word(b, 2), was.data, was.tail)
  }

  class Pack {
    const layout: Layout
    var strHead: seq<byte>
    var word0: int32  // user_hashkey, room_id
    var word1: int32  // gs_hashkey, msg_len
    var word2: int32  // data_len, msg_type
    var dataMsg: seq<byte>
    var strTail: seq<byte>

    function Value(): Packet
      reads this
    {
      Packet(strHead, word0, word1, word2, dataMsg, strTail)
    }

    // The integers of a fresh object are whatever was in memory.
    constructor (layout: Layout, garbage: int32)
      ensures this.layout == layout && strHead == [] == dataMsg && strTail == []
    {
      this.layout := layout;
      strHead, word0, word1, word2, dataMsg, strTail := [], garbage, garbage, garbage, [], [];
    }

    function ByteSize(): int
      reads this
    {
      3 + 4 + 4 + 4 + LengthField(layout, Value()) + 3
    }

    // set_data_msg leaves the data of an earlier packet in place when given nothing.
    method SetDataMsg(data: seq<byte>)
      modifies this`dataMsg
      ensures dataMsg == if data != [] then data else old(dataMsg)
    {
      if |data| > 0 {
        dataMsg := data;
      }
    }

    // A refused parse has already overwritten the head and the three integers.
    method ParseFromArray(data: array<byte>, dataLen: int) returns (ok: bool)
      requires dataLen <= data.Length
      requires dataLen >= OVERHEAD ==> Parse(layout, data[..dataLen]) != Overflow
      modifies this
      ensures ok == (dataLen >= OVERHEAD && Parse(layout, data[..dataLen]).Parsed?)
      ensures ok ==> Value() == Parse(layout, data[..dataLen]).packet
      ensures ok ==> LaidOut(data[..dataLen], Value()) && IntAt(data[..dataLen], LengthOffset(layout), |dataMsg|)
      ensures !ok ==> Value() == if dataLen < OVERHEAD then old(Value()) else HeaderRead(data[..dataLen], old(Value()))
      ensures !ok && dataLen >= OVERHEAD ==>
                && strHead == data[..3] && dataMsg == old(dataMsg) && strTail == old(strTail)
                && IntAt(data[..dataLen], 3, word0) && IntAt(data[..dataLen], 7, word1) && IntAt(data[..dataLen], 11, word2)
    {
      if dataLen < OVERHEAD {
        return false;
      }
      ReadHeader(data, dataLen);
      var n := LengthField(layout, Value());
      if n < 0 || dataLen < ByteSize() {
        return false;
      }
      SliceOfTake(data[..], dataLen, HEADER, HEADER + n);
      SliceOfTake(data[..], dataLen, HEADER + n, OVERHEAD + n);
      dataMsg := data[HEADER..HEADER + n];
      strTail := data[HEADER + n..HEADER + n + 3];
      ParsedIff(layout, data[..dataLen], Value());
      return true;
    }

    method ReadHeader(data: array<byte>, ghost dataLen: nat)
      requires HEADER <= dataLen <= data.Length
      modifies this`strHead, this`word0, this`word1, this`word2
      ensures strHead == data[..3] == data[..dataLen][..3]
      ensures word0 == Word(data[..dataLen], 0) && word1 == Word(data[..dataLen], 1) && word2 == Word(data[..dataLen], 2)
      ensures IntAt(data[..dataLen], 3, word0) && IntAt(data[..dataLen], 7, word1) && IntAt(data[..dataLen], 11, word2)
    {
      ghost var b := data[..][..dataLen];
      IntsLie(b);
      assert b == data[..dataLen];
      assert b[3..7] == data[3..7] && b[7..11] == data[7..11] && b[11..15] == data[11..15];
      strHead := data[..3];
      word0, word1, word2 := GetInt(data[3..7]), GetInt(data[7..11]), GetInt(data[11..15]);
    }

    // How each receive loop starts: nothing is cut off 18 bytes or fewer, or off what does not parse.
    method ParseBuffered(data: array<byte>, dataLen: nat) returns (ok: bool)
      requires dataLen <= data.Length
      requires dataLen > OVERHEAD ==> Parse(layout, data[..dataLen]) != Overflow
      modifies this
      ensures ok == (dataLen > OVERHEAD && Parse(layout, data[..dataLen]).Parsed?)
      ensures ok ==> var p := Parse(layout, data[..dataLen]).packet;
                     && Value() == p && 0 < ByteSize() == Size(p) == |Serialize(p)| <= dataLen
                     && data[..dataLen][..Size(p)] == Serialize(p)
    {
      if dataLen <= OVERHEAD {
        return false;
      }
      ok := ParseFromArray(data, dataLen);
      if ok {
        SerializeParsed(layout, data[..dataLen]);
      }
    }

    // What is written: three bytes of each end, whatever their length, and the data itself.
    function Written(): Packet
      requires 3 <= |strHead| && 3 <= |strTail|
      reads this
    {
      Value().(head := strHead[..3], tail := strTail[..3])
    }

    // The caller's array must have room for the data itself, not for what the length field says.
    method SerializeToArray(data: array<byte>, dataLen: int) returns (ok: bool)
      requires 3 <= |strHead| && 3 <= |strTail|
      requires dataLen >= ByteSize() ==> Size(Value()) <= data.Length
      modifies data
      ensures ok == (dataLen >= ByteSize())
      ensures ok ==> LaidOut(data[..], Value().(head := strHead[..3], tail := strTail[..3]))
      ensures ok ==> Size(Value()) <= data.Length
                     && data[..Size(Value())] == Serialize(Written()) && data[Size(Value())..] == old(data[Size(Value())..])
      ensures !ok ==> data[..] == old(data[..])
    {
      if dataLen < ByteSize() {
        return false;
      }
      var bytes := strHead[..3] + PutInt(word0) + PutInt(word1) + PutInt(word2) + dataMsg + strTail[..3];
      PutFront(data, bytes);
      SerializedLies(Written());
      LaidOutLonger(bytes, data[..], Written());
      return true;
    }
  }

  lemma {:induction false} IntsLie(b: seq<byte>)
    requires HEADER <= |b|
    ensures IntAt(b, 3, Word(b, 0)) && IntAt(b, 7, Word(b, 1)) && IntAt(b, 11, Word(b, 2))
  {
    GetIntIff(b, 3, Word(b, 0));
    GetIntIff(b, 7, Word(b, 1));
    GetIntIff(b, 11, Word(b, 2));
  }

  lemma {:induction false} LaidOutLonger(b: seq<byte>, c: seq<byte>, p: Packet)
    requires LaidOut(b, p) && b <= c
    ensures LaidOut(c, p)
  {
    var n := |p.data|;
    assert c[..|b|] == b;
    assert c[..3] == b[..3] && c[15..15 + n] == b[15..15 + n] && c[15 + n..18 + n] == b[15 + n..18 + n];
  }

  method PutFront(a: array<byte>, bytes: seq<byte>)
    requires |bytes| <= a.Length
    modifies a
    ensures a[..|bytes|] == bytes && a[|bytes|..] == old(a[|bytes|..])
  {
    forall i | 0 <= i < |bytes| {
      a[i] := bytes[i];
    }
  }

  /** memmove(a, a + from, n) */
  method MoveDown(a: array<byte>, from: nat, n: nat)
    requires from + n <= a.Length
    modifies a
    ensures a[..n] == old(a[from..from + n])
    ensures a[n..] == old(a[n..])
  {
    forall i | 0 <= i < n {
      a[i] := a[from + i];
    }
  }

  /** The envelope that carries `data` for the user with this key (user_info_list.cpp:100-106). */
  function Wrapped(key: int32, data: seq<byte>): Packet
    requires |data| <= MAX_INT - OVERHEAD
  {
    Packet(HEAD, key, 0, |data|, data, TAIL)
  }

  method Wrap(key: int32, data: seq<byte>, sendBuff: array<byte>) returns (len: nat)
    requires 0 < |data| <= MAX_INT - OVERHEAD && OVERHEAD + |data| <= sendBuff.Length
    modifies sendBuff
    ensures len == OVERHEAD + |data| <= sendBuff.Length && sendBuff[..len] == Serialize(Wrapped(key, data))
    ensures LaidOut(sendBuff[..], Packet([49, 50, 51], key, 0, |data|, data, [52, 53, 54]))
  {
    var tmpPackage := new Pack(Envelope, 0);
    tmpPackage.strHead := HEAD;
    tmpPackage.word0 := key;
    tmpPackage.word1 := 0;
    tmpPackage.word2 := |data|;
    tmpPackage.SetDataMsg(data);
    tmpPackage.strTail := TAIL;
    assert tmpPackage.Written() == Wrapped(key, data);
    len := tmpPackage.ByteSize();
    var ok := tmpPackage.SerializeToArray(sendBuff, len);
  }

  /**
   Transparent envelope: the room server unwraps the key, a gate key of 0 and the very bytes of the client packet,
   which parse to the packet the client sent.
   */
  lemma {:induction false} EnvelopeTransparent(key: int32, p: Packet, rest: seq<byte>, more: seq<byte>)
    requires WellFormed(Client, p) && Size(p) <= MAX_INT - OVERHEAD
    ensures var carried := Parse(Envelope, Serialize(Wrapped(key, Serialize(p))) + rest);
            && carried.Parsed?
            && carried.packet == Packet([49, 50, 51], key, 0, Size(p), Serialize(p), [52, 53, 54])
            && Parse(Client, carried.packet.data + more) == Parsed(p)
  {
    ParseSerialized(Envelope, Wrapped(key, Serialize(p)), rest);
    ParseSerialized(Client, p, more);
  }
}
