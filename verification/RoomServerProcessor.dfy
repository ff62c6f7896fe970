/**
 The reader thread of gate_server/rs_processor.cpp, one turn of its outer loop at a time. The
 bytes come from the slot ring, are gathered in deal_buff_, and each packet cut off is written to
 the client that its key names. Every processor has exactly one such thread, and other threads accept and
 release sessions all the while: what this thread sees of them is an input to each of its accesses.
 */
module RoomServerProcessors {
  import opened Bytes
  import opened Options
  import opened SlotRing
  import opened Framing
  import opened Packs
  import opened CircleLists
  import Stream
  import Session

  // One write() to a client.
  datatype Send = Send(sock: int, bytes: seq<byte>)

  /** What the thread sees for one packet: the user list under its lock, and the slots' objects later. */
  datatype View = View(userList: map<int32, nat>, users: seq<Session.UserInfo>)

  function Reply(v: View, p: Packet): seq<Send> {
    match Session.SockFor(v.userList, v.users, p.word0)
    case Some(sock) => [Send(sock, p.data)]
    case None => []
  }

  function Replies(vs: seq<View>, ps: seq<Packet>): seq<Send>
    requires |ps| <= |vs|
  {
    if ps == [] then [] else Reply(vs[0], ps[0]) + Replies(vs[1..], ps[1..])
  }

  lemma {:induction false} RepliesSnoc(vs: seq<View>, ps: seq<Packet>, p: Packet)
    requires |ps| < |vs|
    ensures Replies(vs, ps + [p]) == Replies(vs, ps) + Reply(vs[|ps|], p)
    decreases |ps|
  {
    if ps == [] {
      assert ps + [p] == [p];
      assert Replies(vs, [p]) == Reply(vs[0], p) + Replies(vs[1..], []);
    } else {
      RepliesSnoc(vs[1..], ps[1..], p);
      DropAppend(ps, [p], 1);
      Assoc(Reply(vs[0], ps[0]), Replies(vs[1..], ps[1..]), Reply(vs[|ps|], p));
    }
  }

  class RoomServerProcessor {
    const list: CircleList
    const dealBuff: array<byte>
    var validBuffLen: int
    ghost var delivered: seq<Packet>
    ghost var sends: seq<Send>

    ghost predicate Ready()
      reads this, dealBuff, list, list.data
    {
      list.Valid() && dealBuff.Length == Stream.BUFFER && 0 <= validBuffLen < Stream.BUFFER
    }

    ghost function Abs(): Stream.Pipe
      requires Ready()
      reads this, dealBuff, list, list.data
    {
      Stream.Pipe(list.Abs(), dealBuff[..validBuffLen], delivered)
    }

    constructor (list: CircleList)
      requires list.Valid()
      ensures Ready() && fresh(dealBuff) && this.list == list
      ensures Abs() == Stream.Pipe(list.Abs(), [], []) && sends == []
    {
      this.list := list;
      dealBuff := new byte[Stream.BUFFER];
      validBuffLen, delivered, sends := 0, [], [];
    }

    // One turn of the inner loop: parse, shift the buffer, look the key up, write.
    method CutPacket(tmpRgPack: Pack, view: View) returns (cut: bool)
      requires Ready() && Defined(Envelope, dealBuff[..validBuffLen])
      requires tmpRgPack.layout == Envelope
      requires forall k | k in view.userList :: view.userList[k] < |view.users|
      modifies this`validBuffLen, this`delivered, this`sends, dealBuff, tmpRgPack
      ensures Ready()
      ensures var b := old(dealBuff[..validBuffLen]);
              && cut == (|b| > OVERHEAD && Parse(Envelope, b).Parsed?)
              && (cut ==> var p := Parse(Envelope, b).packet;
                          && Size(p) <= |b| && dealBuff[..validBuffLen] == b[Size(p)..]
                          && delivered == old(delivered) + [p]
                          && sends == old(sends) + Reply(view, p))
              && (!cut ==> dealBuff[..validBuffLen] == b && delivered == old(delivered) && sends == old(sends))
    {
      ghost var b := dealBuff[..validBuffLen];
      var tmpReturn := tmpRgPack.ParseBuffered(dealBuff, validBuffLen);
      if !tmpReturn {
        return false;
      }
      var tmpThisPackLen := tmpRgPack.ByteSize();
      Shift(tmpThisPackLen);
      Deliver(tmpRgPack.Value(), view);
      return true;
    }

    method Shift(n: nat)
      requires 0 <= validBuffLen <= dealBuff.Length && n <= validBuffLen
      modifies this`validBuffLen, dealBuff
      ensures validBuffLen == old(validBuffLen) - n
      ensures dealBuff[..validBuffLen] == old(dealBuff[..validBuffLen])[n..]
    {
      ghost var b := dealBuff[..validBuffLen];
      validBuffLen := validBuffLen - n;
      assert dealBuff[n..n + validBuffLen] == b[n..];
      MoveDown(dealBuff, n, validBuffLen);
    }

    // Look the key up, then read the descriptor of the slot found and write to it.
    method Deliver(p: Packet, view: View)
      requires forall k | k in view.userList :: view.userList[k] < |view.users|
      modifies this`delivered, this`sends
      ensures delivered == old(delivered) + [p]
      ensures sends == old(sends) + Reply(view, p)
    {
      delivered := delivered + [p];
      var tmpUser := if p.word0 in view.userList then Some(view.userList[p.word0]) else None;
      if tmpUser.Some? {
        sends := sends + [Send(view.users[tmpUser.value].userSock, p.data)];
      } else {
        Unit(sends);
      }
    }

    // The inner loop: packets are cut off until no whole one is left. views[i] is for the i-th of them.
    method CutPackets(views: seq<View>)
      requires Ready() && Defined(Envelope, dealBuff[..validBuffLen])
      requires |Drain(Envelope, dealBuff[..validBuffLen]).packets| < |views| && ViewsOk(views)
      modifies this`validBuffLen, this`delivered, this`sends, dealBuff
      ensures Ready()
      ensures var d := Drain(Envelope, old(dealBuff[..validBuffLen]));
              && dealBuff[..validBuffLen] == d.rest
              && delivered == old(delivered) + d.packets
              && sends == old(sends) + Replies(views, d.packets)
    {
      ghost var all, got := dealBuff[..validBuffLen], [];
      var tmpRgPack := new Pack(Envelope, 0);
      var n := 0;
      CutNothing(Envelope, all);
      while true
        invariant Ready() && tmpRgPack.layout == Envelope
        invariant CutSoFar(Envelope, all, got, dealBuff[..validBuffLen])
        invariant n == |got| < |views|
        invariant delivered == old(delivered) + got && sends == old(sends) + Replies(views, got)
        decreases validBuffLen
      {
        ghost var b := dealBuff[..validBuffLen];
        var cut := CutPacket(tmpRgPack, views[n]);
        if !cut {
          CutAll(Envelope, all, got, b);
          break;
        }
        ghost var p := Parse(Envelope, b).packet;
        CutNext(Envelope, all, got, b, p);
        Assoc(old(delivered), got, [p]);
        RepliesSnoc(views, got, p);
        Assoc(old(sends), Replies(views, got), Reply(views[n], p));
        got := got + [p];
        n := n + 1;
      }
    }

    // A refused GetBuffer makes the thread sleep and try again.
    method Turn(views: seq<View>)
      requires Ready() && ViewsOk(views)
      requires Abs().ring.CanTake(Abs().Limit()) ==>
                 var b := Abs().residue + Abs().ring.queue[0];
                 Defined(Envelope, b) && |Drain(Envelope, b).packets| < |views|
      modifies this`validBuffLen, this`delivered, this`sends, dealBuff, list`startPosIndex, list`usingSize, list.data
      ensures Ready() && Abs() == Stream.Turn(old(Abs()))
      ensures var now := delivered[|old(delivered)|..];
              |now| <= |views| && sends == old(sends) + Replies(views, now)
    {
      ghost var p := Abs();
      var ok := Fetch();
      if !ok {
        assert delivered[|old(delivered)|..] == [];
        return;
      }
      CutPackets(views);
      assert delivered[|old(delivered)|..] == Drain(Envelope, p.residue + p.ring.queue[0]).packets;
    }

    // Take a chunk from the ring, behind what is buffered.
    method Fetch() returns (ok: bool)
      requires Ready()
      modifies this`validBuffLen, dealBuff, list`startPosIndex, list`usingSize, list.data
      ensures Ready()
      ensures ok == old(Abs()).ring.CanTake(old(Abs()).Limit())
      ensures ok ==> dealBuff[..validBuffLen] == old(Abs()).residue + old(Abs()).ring.queue[0]
                     && list.Abs() == Take(old(list.Abs()), old(Abs()).Limit())
      ensures !ok ==> dealBuff[..validBuffLen] == old(dealBuff[..validBuffLen]) && list.Abs() == old(list.Abs())
    {
      var tmpOutLen;
      ghost var was := dealBuff[..];
      ok, tmpOutLen := list.GetBuffer(dealBuff, validBuffLen, Stream.BUFFER - validBuffLen);
      if ok {
        HoldsPrefix(dealBuff[..], was, validBuffLen, old(Abs()).ring.queue[0]);
        validBuffLen := validBuffLen + tmpOutLen;
      }
    }
  }

  // A slot in the list is a slot of the block.
  predicate ViewsOk(views: seq<View>) {
    forall i, k | 0 <= i < |views| && k in views[i].userList :: views[i].userList[k] < |views[i].users|
  }

  // ---------- where the replies go ----------

  /** The look, what other threads do before the descriptor is read, and what they do before the write. */
  datatype Moment = Moment(looked: Session.History, beforeRead: seq<Session.Event>, beforeWrite: seq<Session.Event>)

  ghost predicate Possible(m: Moment) {
    m.looked.Valid() && Session.CanRun(m.looked, m.beforeRead)
    && Session.CanRun(Session.Run(m.looked, m.beforeRead), m.beforeWrite)
  }

  ghost function Seen(m: Moment): View
    requires Possible(m)
  {
    View(m.looked.reg.userList, Session.Run(m.looked, m.beforeRead).reg.users)
  }

  // The descriptor of the slot that the packet's key found is open, and is not closed before the write.
  ghost predicate Undisturbed(m: Moment, p: Packet) {
    match Session.Lookup(m.looked.reg, p.word0)
    case None => true
    case Some(slot) => slot !in m.looked.reg.closing && Session.Close(slot) !in m.beforeRead + m.beforeWrite
  }

  // At the write, the connection the packet's key was issued to has this descriptor, and no other served one.
  ghost predicate Reaches(m: Moment, p: Packet, sock: int)
    requires Possible(m)
  {
    var end := Session.Run(Session.Run(m.looked, m.beforeRead), m.beforeWrite);
    Session.Gets(end, sock, p.word0) && Session.OnlyServes(end, sock, p.word0)
  }

  /**
   A packet is answered exactly if its key finds a slot, and the answer reaches the connection that key was issued
   to, and no other, exactly when the slot's descriptor is open at the look and not closed before the write.
   */
  lemma {:induction false} ReplyReachesOwnerIff(m: Moment, p: Packet)
    requires Possible(m)
    ensures Reply(Seen(m), p) == [] <==> Session.Lookup(m.looked.reg, p.word0).None?
    ensures forall sock :: Reply(Seen(m), p) == [Send(sock, p.data)] ==> (Reaches(m, p, sock) <==> Undisturbed(m, p))
  {
    match Session.Lookup(m.looked.reg, p.word0)
    case None =>
    case Some(slot) =>
      SlotInRange(m, p.word0, slot);
      Session.ReplyReachesOwnerIff(m.looked, m.beforeRead, m.beforeWrite, p.word0, slot);
  }

  lemma {:induction false} SlotInRange(m: Moment, key: int32, slot: nat)
    requires Possible(m) && Session.Lookup(m.looked.reg, key) == Some(slot)
    ensures slot < |Session.Run(m.looked, m.beforeRead).reg.users|
  {
    Session.BlockStays(m.looked, m.beforeRead);
  }

  ghost predicate AllPossible(ms: seq<Moment>) {
    forall i | 0 <= i < |ms| :: Possible(ms[i])
  }

  ghost function AllSeen(ms: seq<Moment>): (vs: seq<View>)
    requires AllPossible(ms)
    ensures |vs| == |ms| && forall i | 0 <= i < |ms| :: vs[i] == Seen(ms[i])
  {
    seq(|ms|, i requires 0 <= i < |ms| => Seen(ms[i]))
  }

  /** The replies as they should be: one for each packet whose key finds a slot, to the descriptor of the key's connection. */
  ghost function OwnersReplies(ms: seq<Moment>, ps: seq<Packet>): seq<Send>
    requires |ps| <= |ms|
  {
    if ps == [] then [] else
      (if Owned(ms[0].looked, ps[0]) then [Send(ms[0].looked.clientOf[ms[0].looked.acceptedAs[ps[0].word0]].sock, ps[0].data)] else [])
      + OwnersReplies(ms[1..], ps[1..])
  }

  // The packet's key was issued, and the connection it was issued to is being served.
  ghost predicate Owned(h: Session.History, p: Packet) {
    p.word0 in h.acceptedAs && h.acceptedAs[p.word0] in h.clientOf && exists slot: nat :: h.Serves(slot, p.word0)
  }

  /** While no slot looked up is closed before its write, the replies of a turn are these, in order. */
  lemma {:induction false} RepliesReachOwners(ms: seq<Moment>, ps: seq<Packet>)
    requires AllPossible(ms) && AllUndisturbed(ms, ps)
    ensures Replies(AllSeen(ms), ps) == OwnersReplies(ms, ps)
    decreases |ps|
  {
    if ps != [] {
      UndisturbedTail(ms, ps);
      OwnerReply(ms[0], ps[0]);
      MomentsTail(ms);
      RepliesReachOwners(ms[1..], ps[1..]);
    }
  }

  lemma {:induction false} MomentsTail(ms: seq<Moment>)
    requires AllPossible(ms) && ms != []
    ensures AllPossible(ms[1..]) && AllSeen(ms)[1..] == AllSeen(ms[1..])
  {
    assert forall i | 0 <= i < |ms| - 1 :: ms[1..][i] == ms[i + 1];
  }

  ghost predicate AllUndisturbed(ms: seq<Moment>, ps: seq<Packet>) {
    |ps| <= |ms| && forall i | 0 <= i < |ps| :: Undisturbed(ms[i], ps[i])
  }

  lemma {:induction false} UndisturbedTail(ms: seq<Moment>, ps: seq<Packet>)
    requires AllUndisturbed(ms, ps) && ps != []
    ensures Undisturbed(ms[0], ps[0]) && AllUndisturbed(ms[1..], ps[1..])
  {
    forall i | 0 <= i < |ps[1..]| ensures Undisturbed(ms[1..][i], ps[1..][i]) {
      assert Undisturbed(ms[i + 1], ps[i + 1]);
    }
  }

  lemma {:induction false} OwnerReply(m: Moment, p: Packet)
    requires Possible(m) && Undisturbed(m, p)
    ensures Reply(Seen(m), p) ==
            if Owned(m.looked, p) then [Send(m.looked.clientOf[m.looked.acceptedAs[p.word0]].sock, p.data)] else []
  {
    var h := m.looked;
    forall slot: nat
      ensures Session.Lookup(h.reg, p.word0) == Some(slot) && slot !in h.reg.closing <==> h.Serves(slot, p.word0)
    {
      Session.LookupFindsOwner(h, p.word0, slot);
    }
    if p.word0 in h.reg.userList {
      var slot := h.reg.userList[p.word0];
      assert Session.Lookup(h.reg, p.word0) == Some(slot);
      assert h.Serves(slot, p.word0);
      assert Session.Close(slot) !in m.beforeRead;
      Session.ServesUntilClosed(h, m.beforeRead, p.word0, slot);
      Session.DescriptorStays(h, m.beforeRead, p.word0, slot);
    }
  }
}
