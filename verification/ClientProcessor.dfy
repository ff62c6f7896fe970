/**
 The object of gate_server/cl_processor.cpp: producers park packets and resolve rooms, one worker thread
 rotates them. Each method is one atomic section of the source, and takes one step of `Parking`.
 */
module ClientProcessors {
  import opened Bytes
  import opened Options
  import opened SlotRing
  import opened Framing
  import opened Packs
  import opened CircleLists
  import opened Parking

  // One write() to a room server, and whether it wrote everything.
  datatype Write = Write(sock: int, bytes: seq<byte>, ok: bool)

  function Succeeded(ws: seq<Write>): seq<Write> {
    if ws == [] then [] else (if ws[0].ok then [ws[0]] else []) + Succeeded(ws[1..])
  }

  lemma {:induction false} SucceededSnoc(ws: seq<Write>, w: Write)
    ensures Succeeded(ws + [w]) == Succeeded(ws) + if w.ok then [w] else []
  {
    if ws == [] {
      assert ws + [w] == [w] && [w][1..] == [];
    } else {
      DropAppend(ws, [w], 1);
      SucceededSnoc(ws[1..], w);
      Assoc(if ws[0].ok then [ws[0]] else [], Succeeded(ws[1..]), if w.ok then [w] else []);
    }
  }

  // The write is for this packet: its socket, and the envelope with its key and bytes.
  predicate WriteOf(w: Write, f: Sent) {
    && w.ok && w.sock == f.sock && |f.bytes| <= BUFF && |w.bytes| == 18 + |f.bytes|
    && LaidOut(w.bytes, Packet([49, 50, 51], f.key, 0, |f.bytes|, f.bytes, [52, 53, 54]))
  }

  /** What is recorded as sent on is what was written with success, write by write. */
  predicate Logged(sent: seq<Sent>, ws: seq<Write>) {
    |sent| == |Succeeded(ws)| && forall i | 0 <= i < |sent| :: WriteOf(Succeeded(ws)[i], sent[i])
  }

  lemma {:induction false} LoggedNext(sent: seq<Sent>, ws: seq<Write>, f: Sent, w: Write)
    requires Logged(sent, ws)
    ensures w.ok && WriteOf(w, f) ==> Logged(sent + [f], ws + [w])
    ensures !w.ok ==> Logged(sent, ws + [w])
  {
    SucceededSnoc(ws, w);
    Unit(Succeeded(ws));
  }

  // Every queued message ends in the four bytes of a key.
  predicate LongEnough(q: seq<Parked>) {
    forall p | p in q :: 4 <= |p.msg|
  }

  lemma {:induction false} EnqueueStep(s: State, p: Parked)
    requires LongEnough(s.queue) && 4 <= |p.msg|
    ensures var s' := Parking.Enqueue(s, p);
            && LongEnough(s'.queue) && s'.pending == s.pending && s'.hand == s.hand
            && s'.Ring() == Offer(FromStart, s.Ring(), p.msg)
  {
    assert Msgs(s.queue + [p.(msg := Stored(p.msg))]) == Msgs(s.queue) + [Stored(p.msg)];
  }

  lemma {:induction false} TakeStep(s: State)
    requires s.hand.Nothing? && s.Ring().CanTake(BUFF) && LongEnough(s.queue)
    ensures var s', p := Step(s, Take), s.queue[0];
            && 4 <= |p.msg| && LongEnough(s'.queue) && s'.pending == s.pending
            && s'.Ring() == SlotRing.Take(s.Ring(), BUFF)
            && s'.hand == match Parse(Client, BytesIn(p.msg)) case Parsed(packet) => Taken(p, packet.word0) case _ => Nothing
  {
    assert s.queue[0] in s.queue;
    MsgsTail(s.queue);
  }

  lemma {:induction false} FinishStep(s: State, sock: Option<int>, writeOk: bool)
    requires s.hand.Goes? && 4 <= |s.hand.p.msg|
    ensures var s', p := Step(s, Finish(sock, writeOk)), s.hand.p;
            && s'.Ring() == s.Ring() && s'.queue == s.queue && s'.pending == s.pending && s'.hand.Nothing?
            && s'.forwarded == if sock.Some? && writeOk
                 then s.forwarded + [Sent(p.id, s.hand.room, sock.value, KeyIn(p.msg), BytesIn(p.msg))] else s.forwarded
  {}

  lemma {:induction false} WriteStep(s: State, ws: seq<Write>, f: Sent, w: Write)
    requires s.hand.Goes? && 4 <= |s.hand.p.msg| && Logged(s.forwarded, ws) && WriteOf(w.(ok := true), f)
    requires f == Sent(s.hand.p.id, s.hand.room, w.sock, KeyIn(s.hand.p.msg), BytesIn(s.hand.p.msg))
    ensures var s' := Step(s, Finish(Some(w.sock), w.ok));
            && s'.Ring() == s.Ring() && s'.queue == s.queue && s'.pending == s.pending && s'.hand.Nothing?
            && Logged(s'.forwarded, ws + [w])
  {
    FinishStep(s, Some(w.sock), w.ok);
    LoggedNext(s.forwarded, ws, f, w);
    assert w.ok ==> w == w.(ok := true);
  }

  class ClientProcessor {
    const list: CircleList
    // uncreated rooms; operator[] leaves a 0 for a room that was only looked up, which counts as absent
    var roomList: map<int32, int32>
    // locals of the worker thread
    const tmpOutBuff: array<byte>
    var tmpOutLen: int
    const tmpCytPack: Pack
    ghost var state: State
    ghost var writes: seq<Write>

    ghost predicate Ready()
      reads this, tmpOutBuff, tmpCytPack, list, list.data
    {
      && list.Valid() && (list.data == null || list.HasSlots())
      && list.Abs() == state.Ring() && RoomsMatch() && LongEnough(state.queue) && HandMatches()
      && Logged(state.forwarded, writes)
    }

    ghost predicate RoomsMatch()
      reads this
    {
      forall r :: r in state.pending <==> r in roomList && roomList[r] != 0
    }

    ghost predicate HandMatches()
      reads this, tmpOutBuff, tmpCytPack
    {
      && tmpOutBuff.Length == BUFF && tmpCytPack.layout == Client
      && (!state.hand.Nothing? ==>
            && OVERHEAD <= |state.hand.p.msg| - 4 < BUFF && tmpOutLen == |state.hand.p.msg| <= BUFF
            && tmpOutBuff[..tmpOutLen] == state.hand.p.msg
            && state.hand.room == tmpCytPack.word0)
    }

    constructor (list: CircleList)
      requires list.Valid() && (list.data == null || list.HasSlots()) && list.Abs().queue == []
      ensures Ready() && this.list == list && state == Start(list.Abs().capacity) && writes == []
      ensures fresh(tmpOutBuff) && fresh(tmpCytPack)
    {
      this.list := list;
      roomList := map[];
      tmpOutBuff := new byte[BUFF](_ => 0);
      tmpOutLen := 0;
      tmpCytPack := new Pack(Client, 0);
      state, writes := Start(list.Abs().capacity), [];
    }

    // AddBuffer for the message of packet p, whose outcome nobody looks at.
    method Enqueue(msg: seq<byte>, ghost p: Parked)
      requires list.Valid() && (list.data == null || list.HasSlots())
      requires list.Abs() == state.Ring() && LongEnough(state.queue) && 4 <= |msg| && p.msg == msg
      modifies this`state, list`endPosIndex, list`usingSize, list.data
      ensures list.Valid() && list.Abs() == state.Ring() && LongEnough(state.queue)
      ensures state == Parking.Enqueue(old(state), p) && state.pending == old(state.pending) && state.hand == old(state.hand)
    {
      EnqueueStep(state, p);
      var _ := list.AddBuffer(msg);
      state := Parking.Enqueue(state, p);
    }

    method MarkRoom(roomId: int32)
      requires RoomsMatch()
      modifies this`roomList, this`state
      ensures RoomsMatch() && state == old(state).(pending := Mark(old(state).pending, roomId))
    {
      if roomId !in roomList || roomList[roomId] == 0 {
        roomList := roomList[roomId := roomId];
      }
      state := state.(pending := Mark(state.pending, roomId));
    }

    method AddOneUndealPack(buff: seq<byte>, roomId: int32, userHashkey: int32) returns (ok: bool)
      requires Ready()
      modifies this`roomList, this`state, list`endPosIndex, list`usingSize, list.data
      ensures Ready() && ok && state == Step(old(state), Park(buff, roomId, userHashkey))
    {
      MarkRoom(roomId);
      ghost var id := |state.original|;
      state := state.(original := state.original + [MsgOf(buff, userHashkey)]);
      if |buff| < BUFF - 4 {
        Enqueue(buff + PutInt(userHashkey), Parked(id, MsgOf(buff, userHashkey)));
      } else {
        state := state.(lost := state.lost + [id]);
      }
      return true;
    }

    method DeleteRoom(roomId: int32)
      requires Ready()
      modifies this`roomList, this`state
      ensures Ready() && state == Step(old(state), Parking.DeleteRoom(roomId))
    {
      roomList := roomList - {roomId};
      state := Step(state, Parking.DeleteRoom(roomId));
    }

    // Take a message and read its room. Parking.WorkerNeverStuck gives the requirement for client packets.
    method TakePack() returns (taken: bool)
      requires Ready() && state.hand.Nothing?
      requires state.queue != [] ==> Parse(Client, BytesIn(state.queue[0].msg)) != Overflow
      modifies this`state, this`tmpOutLen, tmpOutBuff, tmpCytPack, list`startPosIndex, list`usingSize, list.data
      ensures Ready() && state == Step(old(state), Take)
      ensures taken == state.hand.Taken?
    {
      ghost var s := state;
      var ok := Fetch();
      if !ok {
        return false;
      }
      TakeStep(s);
      state := Step(s, Take);
      taken := ReadRoom(s.queue[0].msg);
    }

    method Fetch() returns (ok: bool)
      requires list.Valid() && (list.data == null || list.HasSlots()) && tmpOutBuff.Length == BUFF
      modifies this`tmpOutLen, tmpOutBuff, list`startPosIndex, list`usingSize, list.data
      ensures list.Valid() && (list.data == null || list.HasSlots())
      ensures ok == old(list.Abs()).CanTake(BUFF) && list.Abs() == SlotRing.Take(old(list.Abs()), BUFF)
      ensures ok ==> tmpOutLen == |old(list.Abs()).queue[0]| <= BUFF && tmpOutBuff[..tmpOutLen] == old(list.Abs()).queue[0]
      ensures !ok ==> tmpOutLen == old(tmpOutLen) && tmpOutBuff[..] == old(tmpOutBuff[..])
    {
      var len;
      ok, len := list.GetBuffer(tmpOutBuff, 0, BUFF);
      if ok {
        tmpOutLen := len;
        assert tmpOutBuff[..tmpOutLen] == old(list.Abs()).queue[0];
      }
    }

    // Parse the message without the key at its end.
    method ReadRoom(ghost msg: seq<byte>) returns (ok: bool)
      requires 4 <= tmpOutLen <= tmpOutBuff.Length && tmpOutBuff[..tmpOutLen] == msg
      requires tmpCytPack.layout == Client && Parse(Client, BytesIn(msg)) != Overflow
      modifies tmpCytPack
      ensures ok == Parse(Client, BytesIn(msg)).Parsed?
      ensures ok ==> OVERHEAD <= |msg| - 4 && tmpCytPack.word0 == Parse(Client, BytesIn(msg)).packet.word0
    {
      assert tmpOutBuff[..tmpOutLen - 4] == BytesIn(msg);
      ok := tmpCytPack.ParseFromArray(tmpOutBuff, tmpOutLen - 4);
      assert ok ==> tmpCytPack.Value().word0 == tmpCytPack.word0;
    }

    method CheckRoom() returns (isDeal: bool)
      requires Ready() && state.hand.Taken?
      modifies this`state
      ensures Ready() && state == Step(old(state), Check)
      ensures isDeal == state.hand.Goes?
    {
      isDeal := !(tmpCytPack.word0 in roomList && roomList[tmpCytPack.word0] != 0);
      state := Step(state, Check);
    }

    method Requeue()
      requires Ready() && state.hand.Waits?
      modifies this`state, list`endPosIndex, list`usingSize, list.data
      ensures Ready() && state == Step(old(state), Parking.Requeue)
    {
      ghost var p := state.hand.p;
      state := state.(hand := Nothing);
      Enqueue(tmpOutBuff[..tmpOutLen], p);
    }

    // The envelope is built in a buffer of 0x2000 bytes, which must hold it: see Parking.WorkerNeverStuck.
    method Finish(rooms: map<int32, int>, writeOk: bool)
      requires Ready() && state.hand.Goes? && |state.hand.p.msg| - 4 + OVERHEAD <= BUFF
      modifies this`state, this`writes
      ensures Ready()
      ensures var room := old(state).hand.room;
              state == Step(old(state), Parking.Finish(if room in rooms then Some(rooms[room]) else None, writeOk))
      ensures var hand := old(state).hand;
              writes == old(writes) + if hand.room in rooms
                then [Write(rooms[hand.room], Serialize(Wrapped(KeyIn(hand.p.msg), BytesIn(hand.p.msg))), writeOk)] else []
    {
      var tmpRoomId := tmpCytPack.word0;
      if tmpRoomId in rooms {
        SendOn(rooms[tmpRoomId], writeOk);
      } else {
        FinishStep(state, None, writeOk);
        state := Step(state, Parking.Finish(None, writeOk));
      }
    }

    // Its room is known: take key and bytes apart and write them to the room's socket.
    method SendOn(sock: int, writeOk: bool)
      requires Ready() && state.hand.Goes? && |state.hand.p.msg| - 4 + OVERHEAD <= BUFF
      modifies this`state, this`writes
      ensures Ready() && state == Step(old(state), Parking.Finish(Some(sock), writeOk))
      ensures var msg := old(state).hand.p.msg;
              writes == old(writes) + [Write(sock, Serialize(Wrapped(KeyIn(msg), BytesIn(msg))), writeOk)]
    {
      ghost var p := state.hand.p;
      var tmpUserHashkey, bytes := TakeApart(p.msg);
      var tmpSendBuff := BuildEnvelope(tmpUserHashkey, bytes);
      RecordWrite(Write(sock, tmpSendBuff, writeOk), Sent(p.id, state.hand.room, sock, tmpUserHashkey, bytes));
    }

    // The write of w, for the packet f in hand.
    method RecordWrite(w: Write, ghost f: Sent)
      requires Ready() && state.hand.Goes? && 4 <= |state.hand.p.msg| && WriteOf(w.(ok := true), f)
      requires f == Sent(state.hand.p.id, state.hand.room, w.sock, KeyIn(state.hand.p.msg), BytesIn(state.hand.p.msg))
      modifies this`state, this`writes
      ensures Ready() && state == Step(old(state), Parking.Finish(Some(w.sock), w.ok)) && writes == old(writes) + [w]
    {
      WriteStep(state, writes, f, w);
      state, writes := Step(state, Parking.Finish(Some(w.sock), w.ok)), writes + [w];
    }

    // The key is the last four bytes of the message; the rest is what is sent on.
    method TakeApart(ghost msg: seq<byte>) returns (key: int32, bytes: seq<byte>)
      requires 4 <= |msg| == tmpOutLen <= tmpOutBuff.Length && tmpOutBuff[..tmpOutLen] == msg
      ensures key == KeyIn(msg) && bytes == BytesIn(msg) && |bytes| == |msg| - 4
    {
      assert tmpOutBuff[tmpOutLen - 4..tmpOutLen] == msg[|msg| - 4..];
      key, bytes := GetInt(tmpOutBuff[tmpOutLen - 4..tmpOutLen]), tmpOutBuff[..tmpOutLen - 4];
    }

    method BuildEnvelope(key: int32, bytes: seq<byte>) returns (envelope: seq<byte>)
      requires 0 < |bytes| <= BUFF - OVERHEAD
      ensures envelope == Serialize(Wrapped(key, bytes)) && |envelope| == 18 + |bytes|
      ensures LaidOut(envelope, Packet([49, 50, 51], key, 0, |bytes|, bytes, [52, 53, 54]))
    {
      var tmpSendBuff := new byte[BUFF];
      var len := Packs.Wrap(key, bytes, tmpSendBuff);
      envelope := tmpSendBuff[..len];
      SerializedLies(Packet([49, 50, 51], key, 0, |bytes|, bytes, [52, 53, 54]));
    }
  }
}
