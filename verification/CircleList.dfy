/**
 The slot ring of common/circle_list.cpp. Each public method holds the one lock of the object
 for its whole body, so each is one atomic step here.
 */
module CircleLists {
  import opened Bytes
  import opened SlotRing

  // UnitStruct
  datatype Slot = Slot(buff: seq<byte>, len: int, hasChild: bool) {
    predicate Ok() {
      |buff| == SLOT && 0 <= len <= SLOT
    }

    function View(): Fragment
      requires Ok()
    {
      Fragment(buff[..len], hasChild)
    }
  }

  function BlankBuff(): (b: seq<byte>)
    ensures |b| == SLOT
  {
    seq(SLOT, _ => 0)
  }

  /** The slot after `memcpy(slot.buff, src, |src|)`, with its length and chain mark set. */
  function Filled(s: Slot, src: seq<byte>, hasChild: bool): (r: Slot)
    requires s.Ok() && |src| <= SLOT
    ensures r.Ok() && r.View() == Fragment(src, hasChild)
  {
    Slot(src + s.buff[|src|..], |src|, hasChild)
  }

  function Wrap(i: int, n: int): int {
    if i >= n then i - n else i
  }

  predicate AllOk(slots: seq<Slot>) {
    forall i | 0 <= i < |slots| :: slots[i].Ok()
  }

  /** The j-th slot of the ring, counted from `start` and wrapping round. */
  function At(slots: seq<Slot>, start: nat, j: nat): Slot
    requires start < |slots| && j <= |slots|
  {
    slots[Wrap(start + j, |slots|)]
  }

  /** The `count` slots in use, oldest first. */
  function Live(slots: seq<Slot>, start: nat, count: nat): (fs: seq<Fragment>)
    requires AllOk(slots) && start < |slots| && count <= |slots|
    ensures |fs| == count
  {
    seq(count, j requires 0 <= j < count => At(slots, start, j).View())
  }

  lemma {:induction false} LivePush(slots: seq<Slot>, start: nat, count: nat, s: Slot)
    requires AllOk(slots) && s.Ok() && start < |slots| && count < |slots|
    ensures AllOk(slots[Wrap(start + count, |slots|) := s])
    ensures Live(slots[Wrap(start + count, |slots|) := s], start, count + 1) == Live(slots, start, count) + [s.View()]
  {
    var slots' := slots[Wrap(start + count, |slots|) := s];
    forall j | 0 <= j < count ensures At(slots', start, j) == At(slots, start, j) {
      assert Wrap(start + j, |slots|) != Wrap(start + count, |slots|);
    }
    assert At(slots', start, count) == s;
  }

  /** The slots that stay in use decode as before when the first k are given up. */
  lemma {:induction false} LiveDrop(slots: seq<Slot>, slots': seq<Slot>, start: nat, count: nat, k: nat)
    requires AllOk(slots) && AllOk(slots') && |slots'| == |slots| && start < |slots| && k <= count <= |slots|
    requires SameFrom(slots', slots, start, count, k)
    requires k == |slots| ==> count == k
    ensures Live(slots', Wrap(start + k, |slots|), count - k) == Live(slots, start, count)[k..]
  {
    var kept, all := Live(slots', Wrap(start + k, |slots|), count - k), Live(slots, start, count);
    forall j | 0 <= j < |kept| ensures kept[j] == all[k..][j] {
      assert At(slots', start, k + j) == At(slots, start, k + j);
      assert Wrap(Wrap(start + k, |slots|) + j, |slots|) == Wrap(start + (k + j), |slots|);
    }
  }

  /** The slots of a message at the front of the ring. */
  lemma {:induction false} HeadSlot(slots: seq<Slot>, start: nat, count: nat, m: seq<byte>, more: seq<Fragment>, i: nat)
    requires AllOk(slots) && start < |slots| && count <= |slots| && i < SlotCount(|m|)
    requires Live(slots, start, count) == Fragments(m) + more
    ensures SlotCount(|m|) <= count
    ensures var slot := At(slots, start, i);
            if i < SlotCount(|m|) - 1 then
              slot.len == SLOT && slot.hasChild && SLOT * (i + 1) < |m| && slot.buff[..SLOT] == m[SLOT * i..SLOT * (i + 1)]
            else
              SLOT * i <= |m| && slot.len == |m| - SLOT * i && !slot.hasChild && slot.buff[..slot.len] == m[SLOT * i..]
  {
    FragmentAt(m, i);
    var slot := At(slots, start, i);
    assert slot.Ok();
    assert Live(slots, start, count)[i] == Fragments(m)[i];
    assert |slot.View().bytes| == slot.len;
  }

  class CircleList {
    var maxStruSize: int
    var usingSize: int
    var startPosIndex: int
    var endPosIndex: int
    // data_ptr_; null until a size is given
    var data: array?<Slot>

    predicate HasSlots()
      reads this
    {
      data != null && data.Length > 0
    }

    ghost predicate Shape()
      reads this, data
    {
      if data == null || data.Length == 0 then
        usingSize == 0 && startPosIndex == endPosIndex && (data != null ==> maxStruSize == 0)
      else
        && maxStruSize == data.Length
        && 0 <= startPosIndex < maxStruSize
        && 0 <= usingSize <= maxStruSize
        && endPosIndex == Wrap(startPosIndex + usingSize, maxStruSize)
        && AllOk(data[..])
    }

    ghost function Fragments(): seq<Fragment>
      requires Shape()
      reads this, data
    {
      if HasSlots() then Live(data[..], startPosIndex, usingSize) else []
    }

    // The slots in use are whole messages.
    ghost predicate Valid()
      reads this, data
    {
      Shape() && Fragments() == AllFragments(Decode(Fragments()))
    }

    // The bounded queue of messages that the object stands for.
    ghost function Abs(): Ring
      requires Shape()
      reads this, data
    {
      Ring(if data == null then 0 else data.Length, Decode(Fragments()))
    }

    lemma {:induction false} UsedSlots()
      requires Valid()
      ensures Used(Abs().queue) == usingSize
    {
      UsedIsLength(Abs().queue);
    }

    // Any queue whose fragments are in the slots is the queue of the object.
    lemma {:induction false} AbsIs(q: seq<seq<byte>>)
      requires Shape() && Fragments() == AllFragments(q)
      ensures Valid() && Abs().queue == q
    {
      DecodeAll(q);
    }

    constructor (struSize: int)
      ensures Valid() && Abs() == Ring(if struSize > 0 then struSize else 0, [])
      ensures data != null ==> fresh(data)
    {
      maxStruSize := struSize;
      usingSize, startPosIndex, endPosIndex := 0, 0, 0;
      data := null;
      if struSize > 0 {
        data := new Slot[struSize](_ => Slot(BlankBuff(), 0, false));
      }
    }

    // A negative size makes the allocation fail.
    method InitBuffer(maxSize: int)
      requires maxSize >= 0
      modifies this
      ensures Valid() && Abs() == Ring(maxSize, [])
      ensures data != null && fresh(data)
    {
      maxStruSize := maxSize;
      data := new Slot[maxSize](_ => Slot(BlankBuff(), 0, false));
      usingSize, startPosIndex, endPosIndex := 0, 0, 0;
    }

    method ReleaseBuffer()
      requires Valid()
      modifies this
      ensures Valid() && data == old(data) && Abs() == old(Abs()).(queue := [])
    {
      usingSize, startPosIndex, endPosIndex := 0, 0, 0;
    }

    // Fills the slot at the tail and moves the tail: what every branch of AddBuffer does.
    method PutSlot(src: seq<byte>, hasChild: bool)
      requires Shape() && HasSlots() && usingSize < maxStruSize && |src| <= SLOT
      modifies this`endPosIndex, this`usingSize, data
      ensures Shape() && usingSize == old(usingSize) + 1
      ensures Fragments() == old(Fragments()) + [Fragment(src, hasChild)]
    {
      LivePush(data[..], startPosIndex, usingSize, Filled(data[endPosIndex], src, hasChild));
      data[endPosIndex] := Filled(data[endPosIndex], src, hasChild);
      endPosIndex := endPosIndex + 1;
      if endPosIndex >= maxStruSize {
        endPosIndex := 0;
      }
      usingSize := usingSize + 1;
    }

    // The loop of AddBuffer for a message that one slot cannot hold. As in the source, every
    // slot is filled from the start of the message.
    method PutParts(buff: seq<byte>, apartPackCount: nat, lastLittlePackLen: nat)
      requires Shape() && HasSlots() && SLOT < |buff|
      requires apartPackCount == SlotCount(|buff|) && lastLittlePackLen == |buff| % SLOT
      requires usingSize + apartPackCount <= maxStruSize
      modifies this`endPosIndex, this`usingSize, data
      ensures Shape()
      ensures Fragments() == old(Fragments()) + SlotRing.Fragments(Stored(buff))
    {
      ghost var parts := SlotRing.Fragments(Stored(buff));
      FragmentCount(Stored(buff));
      var i := 0;
      while i < apartPackCount
        invariant 0 <= i <= apartPackCount
        invariant Shape() && usingSize == old(usingSize) + i
        invariant Fragments() == old(Fragments()) + parts[..i]
      {
        StoredFragment(buff, i);
        if i < apartPackCount - 1 {
          PutSlot(buff[..SLOT], true);
        } else if lastLittlePackLen == 0 {
          PutSlot(buff[..SLOT], false);
        } else {
          PutSlot(buff[..lastLittlePackLen], false);
        }
        assert parts[..i + 1] == parts[..i] + [parts[i]];
        i := i + 1;
      }
    }

    // On a block of no slots a short message would be written outside it; all callers pass 1000.
    method AddBuffer(buff: seq<byte>) returns (ok: bool)
      requires Valid()
      requires data != null && data.Length == 0 ==> SLOT < |buff|
      modifies this`endPosIndex, this`usingSize, data
      ensures Valid()
      ensures Abs() == Offer(FromStart, old(Abs()), buff)
      ensures ok == Reports(FromStart, old(Abs()), buff)
    {
      if data == null {
        return false;
      }
      var len := |buff|;
      ghost var q, m := Abs().queue, Stored(buff);
      UsedSlots();
      if len > SLOT {
        var apartPackCount := len / SLOT;
        var lastLittlePackLen := len % SLOT;
        if 0 != lastLittlePackLen {
          apartPackCount := apartPackCount + 1;
        }
        if maxStruSize - usingSize < apartPackCount {
          return false;
        }
        PutParts(buff, apartPackCount, lastLittlePackLen);
        AllFragmentsSnoc(q, m);
        AbsIs(q + [m]);
      } else {
        if startPosIndex != endPosIndex || usingSize == 0 {
          StoredIntactIff(len);
          AllFragmentsSnoc(q, m);
          PutSlot(buff, false);
          AbsIs(q + [m]);
          return true;
        } else if startPosIndex == endPosIndex && usingSize > 0 {
          return false;
        }
      }
      return false;
    }

    method PutPartsAdvancing(buff: seq<byte>, apartPackCount: nat)
      requires Shape() && HasSlots()
      requires apartPackCount == SlotCount(|buff|) && usingSize + apartPackCount <= maxStruSize
      modifies this`endPosIndex, this`usingSize, data
      ensures Shape()
      ensures Fragments() == old(Fragments()) + SlotRing.Fragments(buff)
    {
      ghost var parts := SlotRing.Fragments(buff);
      FragmentCount(buff);
      var i := 0;
      while i < apartPackCount
        invariant 0 <= i <= apartPackCount
        invariant Shape() && usingSize == old(usingSize) + i
        invariant Fragments() == old(Fragments()) + parts[..i]
      {
        FragmentAt(buff, i);
        if i < apartPackCount - 1 {
          PutSlot(buff[SLOT * i..SLOT * (i + 1)], true);
        } else {
          PutSlot(buff[SLOT * i..], false);
        }
        assert parts[..i + 1] == parts[..i] + [parts[i]];
        i := i + 1;
      }
    }

    // The repair of AddBuffer: the source pointer advances by one slot per fragment, and the
    // long path reports its success. Everything else is as above.
    method AddBufferAdvancing(buff: seq<byte>) returns (ok: bool)
      requires Valid()
      modifies this`endPosIndex, this`usingSize, data
      ensures Valid()
      ensures Abs() == Offer(Advancing, old(Abs()), buff)
      ensures ok == Reports(Advancing, old(Abs()), buff)
      ensures ok ==> Abs().queue == old(Abs().queue) + [buff]
      ensures !ok ==> Abs() == old(Abs())
    {
      if data == null {
        return false;
      }
      ghost var q := Abs().queue;
      UsedSlots();
      var apartPackCount := SlotCount(|buff|);
      if maxStruSize - usingSize < apartPackCount {
        return false;
      }
      PutPartsAdvancing(buff, apartPackCount);
      AllFragmentsSnoc(q, buff);
      AbsIs(q + [buff]);
      return true;
    }

    // The first loop of GetBuffer measures the message; the index may count from a negative base.
    method MeasureHead(ghost m: seq<byte>, ghost more: seq<Fragment>) returns (outLen: nat, packCount: nat)
      requires Shape() && HasSlots() && Fragments() == SlotRing.Fragments(m) + more
      ensures outLen == |m| && packCount == SlotCount(|m|)
    {
      ghost var slots, k := data[..], SlotCount(|m|);
      HeadSlot(slots, startPosIndex, usingSize, m, more, 0);
      var tmpOutLen := 0;
      var tmpIndex := -1;
      var tmpStart := startPosIndex;
      while true
        invariant -1 <= tmpIndex < k - 1
        invariant tmpStart == if startPosIndex + tmpIndex < maxStruSize then startPosIndex else startPosIndex - maxStruSize
        invariant tmpOutLen == SLOT * (tmpIndex + 1)
        decreases k - tmpIndex
      {
        tmpIndex := tmpIndex + 1;
        if tmpStart + tmpIndex == maxStruSize {
          tmpStart := 0 - tmpIndex;
        }
        HeadSlot(slots, startPosIndex, usingSize, m, more, tmpIndex);
        assert data[tmpStart + tmpIndex] == At(slots, startPosIndex, tmpIndex);
        if data[tmpStart + tmpIndex].len <= 0 {
          break;
        }
        tmpOutLen := tmpOutLen + data[tmpStart + tmpIndex].len;
        if !data[tmpStart + tmpIndex].hasChild {
          break;
        }
      }
      outLen, packCount := tmpOutLen, tmpIndex + 1;
    }

    // One turn of the second loop: copies slot i of the message out, behind the n bytes already
    // there, and blanks the slot; its chain mark stays.
    method TakeSlot(at: nat, out: array<byte>, off: nat, n: nat,
                    ghost i: nat, ghost m: seq<byte>, ghost slots: seq<Slot>, ghost out0: seq<byte>)
      requires Shape() && HasSlots() && i < usingSize && at == Wrap(startPosIndex + i, maxStruSize)
      requires |slots| == data.Length && SameFrom(data[..], slots, startPosIndex, usingSize, i)
      requires data[at].len <= |m| - n && data[at].buff[..data[at].len] == m[n..n + data[at].len]
      requires Holds(out[..], out0, off, m[..n]) && off + |m| <= |out0|
      modifies data, out
      ensures AllOk(data[..]) && SameFrom(data[..], slots, startPosIndex, usingSize, i + 1)
      ensures data[at].hasChild == old(data[at].hasChild)
      ensures Holds(out[..], out0, off, m[..n + old(data[at].len)])
    {
      var src := data[at].buff[..data[at].len];
      ghost var mid, out1 := data[..], out[..];
      forall j | 0 <= j < |src| {
        out[off + n + j] := src[j];
      }
      HoldsMore(out[..], out1, out0, off, m, n, src);
      data[at] := data[at].(buff := BlankBuff(), len := 0);
      SameFromNext(data[..], mid, slots, startPosIndex, usingSize, i, data[at]);
    }

    // One turn of the second loop: the slot is copied out and blanked, and says whether more follow.
    method CopySlot(at: nat, out: array<byte>, off: nat, n: nat, ghost i: nat, ghost m: seq<byte>, ghost more: seq<Fragment>,
                    ghost slots: seq<Slot>, ghost out0: seq<byte>) returns (len: nat, goOn: bool)
      requires Shape() && HasSlots() && i < SlotCount(|m|) <= usingSize && at == Wrap(startPosIndex + i, maxStruSize)
      requires AllOk(slots) && |slots| == data.Length && SameFrom(data[..], slots, startPosIndex, usingSize, i)
      requires Live(slots, startPosIndex, usingSize) == SlotRing.Fragments(m) + more
      requires n == SLOT * i <= |m| && Holds(out[..], out0, off, m[..n]) && off + |m| <= |out0|
      modifies data, out
      ensures AllOk(data[..]) && SameFrom(data[..], slots, startPosIndex, usingSize, i + 1)
      ensures goOn == (i < SlotCount(|m|) - 1)
      ensures goOn ==> len == SLOT && SLOT * (i + 1) <= |m| && Holds(out[..], out0, off, m[..SLOT * (i + 1)])
      ensures !goOn ==> Holds(out[..], out0, off, m)
    {
      HeadSlot(slots, startPosIndex, usingSize, m, more, i);
      assert At(data[..], startPosIndex, i) == At(slots, startPosIndex, i) == data[at];
      if data[at].len <= 0 {
        assert m[..n] == m;
        return 0, false;
      }
      len, goOn := data[at].len, data[at].hasChild;
      TakeSlot(at, out, off, n, i, m, slots, out0);
      if !goOn {
        assert m[..n + len] == m;
      }
    }

    // The second loop visits the same slots, copies them out and blanks them.
    method CopyHead(out: array<byte>, off: nat, ghost m: seq<byte>, ghost more: seq<Fragment>) returns (last: int)
      requires Shape() && HasSlots() && Fragments() == SlotRing.Fragments(m) + more
      requires off + |m| <= out.Length
      modifies data, out
      ensures SlotCount(|m|) <= usingSize && AllOk(data[..])
      ensures last == Wrap(startPosIndex + SlotCount(|m|) - 1, maxStruSize)
      ensures SameFrom(data[..], old(data[..]), startPosIndex, usingSize, SlotCount(|m|))
      ensures Holds(out[..], old(out[..]), off, m)
    {
      ghost var slots, out0, k := data[..], out[..], SlotCount(|m|);
      HeadSlot(slots, startPosIndex, usingSize, m, more, 0);
      var tmpOutLen := 0;
      var tmpIndex := -1;
      var tmpStart := startPosIndex;
      var goOn := true;
      while goOn
        invariant -1 <= tmpIndex < k && (goOn ==> tmpIndex < k - 1) && (!goOn ==> tmpIndex == k - 1)
        invariant tmpStart == if startPosIndex + tmpIndex < maxStruSize then startPosIndex else startPosIndex - maxStruSize
        invariant goOn ==> tmpOutLen == SLOT * (tmpIndex + 1) <= |m|
        invariant AllOk(data[..]) && SameFrom(data[..], slots, startPosIndex, usingSize, tmpIndex + 1)
        invariant Holds(out[..], out0, off, if goOn then m[..tmpOutLen] else m)
        decreases k - tmpIndex
      {
        tmpIndex := tmpIndex + 1;
        if tmpStart + tmpIndex == maxStruSize {
          tmpStart := 0 - tmpIndex;
        }
        var len;
        len, goOn := CopySlot(tmpStart + tmpIndex, out, off, tmpOutLen, tmpIndex, m, more, slots, out0);
        tmpOutLen := tmpOutLen + len;
      }
      last := tmpStart + tmpIndex;
    }

    // The second half of GetBuffer: copy the message out and give up its slots.
    method ReadHead(out: array<byte>, off: nat, packCount: nat, ghost m: seq<byte>, ghost more: seq<Fragment>)
      requires Shape() && HasSlots() && Fragments() == SlotRing.Fragments(m) + more
      requires packCount == SlotCount(|m|) && off + |m| <= out.Length
      modifies this`startPosIndex, this`usingSize, data, out
      ensures Shape() && Fragments() == more
      ensures usingSize == old(usingSize) - packCount && Holds(out[..], old(out[..]), off, m)
    {
      ghost var slots := data[..];
      var last := CopyHead(out, off, m, more);
      FragmentCount(m);
      LiveDrop(slots, data[..], startPosIndex, usingSize, packCount);
      startPosIndex := last + 1;
      if startPosIndex == maxStruSize {
        startPosIndex := 0;
      }
      usingSize := usingSize - packCount;
    }

    // `out` is the caller's buffer and `off` where in it the copy goes. A refused read leaves
    // the caller's length alone; outLen is then 0 here and means nothing.
    method GetBuffer(out: array<byte>, off: nat, maxBuffLen: int) returns (ok: bool, outLen: nat)
      requires Valid()
      requires off + maxBuffLen <= out.Length
      modifies this`startPosIndex, this`usingSize, data, out
      ensures Valid()
      ensures ok == old(Abs()).CanTake(maxBuffLen)
      ensures Abs() == Take(old(Abs()), maxBuffLen)
      ensures ok ==> var m := old(Abs()).queue[0];
                     && outLen == |m| && Holds(out[..], old(out[..]), off, m)
                     && usingSize == old(usingSize) - SlotCount(|m|)
      ensures !ok ==> out[..] == old(out[..]) && data == old(data) && (data != null ==> data[..] == old(data[..]))
    {
      if data == null {
        return false, 0;
      }
      UsedSlots();
      if startPosIndex == endPosIndex && usingSize == 0 {
        return false, 0;
      }
      ghost var q := Abs().queue;
      assert q != [];
      ghost var m, more := q[0], AllFragments(q[1..]);
      var tmpOutLen, tmpPackCount := MeasureHead(m, more);
      if tmpOutLen >= maxBuffLen {
        return false, 0;
      }
      ReadHead(out, off, tmpPackCount, m, more);
      AbsIs(q[1..]);
      return true, tmpOutLen;
    }
  }

  /** `now` is the buffer `was` after m was copied to position `at`. */
  predicate Holds(now: seq<byte>, was: seq<byte>, at: nat, m: seq<byte>) {
    && |now| == |was| && at + |m| <= |was|
    && (forall i | 0 <= i < |was| :: now[i] == if at <= i < at + |m| then m[i - at] else was[i])
  }

  lemma {:induction false} HoldsMore(now: seq<byte>, mid: seq<byte>, was: seq<byte>, at: nat, m: seq<byte>, n: nat, part: seq<byte>)
    requires n + |part| <= |m| && part == m[n..n + |part|]
    requires Holds(mid, was, at, m[..n]) && Holds(now, mid, at + n, part)
    ensures Holds(now, was, at, m[..n + |part|])
  {}

  lemma {:induction false} HoldsPrefix(now: seq<byte>, was: seq<byte>, at: nat, m: seq<byte>)
    requires Holds(now, was, at, m)
    ensures at + |m| <= |now| && now[..at + |m|] == was[..at] + m
  {}

  /** Slots k and later of the part in use are as they were. */
  predicate SameFrom(now: seq<Slot>, was: seq<Slot>, start: nat, count: nat, k: nat)
    requires |now| == |was| && start < |was| && count <= |was|
  {
    forall j | k <= j < count :: At(now, start, j) == At(was, start, j)
  }

  lemma {:induction false} SameFromNext(now: seq<Slot>, mid: seq<Slot>, was: seq<Slot>, start: nat, count: nat, i: nat, s: Slot)
    requires |mid| == |was| && start < |was| && i < count <= |was|
    requires AllOk(mid) && s.Ok() && now == mid[Wrap(start + i, |was|) := s]
    requires SameFrom(mid, was, start, count, i)
    ensures AllOk(now) && SameFrom(now, was, start, count, i + 1)
  {
    forall j | i < j < count ensures At(now, start, j) == At(was, start, j) {
      assert Wrap(start + i, |was|) != Wrap(start + j, |was|);
      assert At(mid, start, j) == At(was, start, j);
    }
  }

  /** Slot i of a long message, as AddBuffer fills it, is slot i of the stored message. */
  lemma {:induction false} StoredFragment(buff: seq<byte>, i: nat)
    requires |buff| > SLOT && i < SlotCount(|buff|)
    ensures |SlotRing.Fragments(Stored(buff))| == SlotCount(|buff|)
    ensures SlotRing.Fragments(Stored(buff))[i] ==
            if i < SlotCount(|buff|) - 1 then Fragment(buff[..SLOT], true)
            else Fragment(buff[..if |buff| % SLOT == 0 then SLOT else |buff| % SLOT], false)
  {
    FragmentAt(Stored(buff), i);
    forall k | SLOT * i <= k < |buff| && k < SLOT * (i + 1) ensures Stored(buff)[k] == buff[k - SLOT * i] {
      assert k % SLOT == k - SLOT * i;
    }
  }
}
