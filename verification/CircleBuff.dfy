/**
 The byte ring of common/circle_buff.cpp. Pointers into the buffer are offsets from its start; a
 header or tail may stand one past the end, because only one of the four assignments normalises it.
 */
module CircleBuffs {
  import opened Bytes

  /** The fields of the object, and the bytes in its buffer. */
  datatype Buff = Buff(bytes: seq<byte>, header: int, tail: int, remainLen: int) {
    function Stored(): int {
      |bytes| - remainLen
    }

    ghost predicate Valid() {
      && 0 < |bytes| && 0 <= header <= |bytes| && 0 <= tail <= |bytes| && 0 <= remainLen <= |bytes|
      && (Stored() == 0 ==> header == 0 && tail == 0)
      && (|| tail == header + Stored()
          || tail == header + Stored() - |bytes|
          || (header == |bytes| && tail == 0 && remainLen == 0))
    }

    // The bytes that the ring holds, oldest first.
    ghost function Contents(): (c: seq<byte>)
      requires Valid()
      ensures |c| == Stored()
    {
      seq(Stored(), i requires 0 <= i < Stored() => bytes[Wrap(header + i, |bytes|)])
    }
  }

  function Wrap(i: int, n: int): int {
    if i >= n then i - n else i
  }

  function Overwrite(s: seq<byte>, at: nat, src: seq<byte>): (r: seq<byte>)
    requires at + |src| <= |s|
    ensures |r| == |s|
    ensures forall i | 0 <= i < |s| :: r[i] == if at <= i < at + |src| then src[i - at] else s[i]
  {
    s[..at] + src + s[at + |src|..]
  }

  /** AddBuff, case by case. */
  function Add(b: Buff, data: seq<byte>): Buff
    requires b.Valid()
  {
    var n := |b.bytes|;
    if |data| > n || b.remainLen < |data| then
      b
    else if b.tail >= b.header then
      var end := n - b.tail;
      if end >= |data| then
        Buff(Overwrite(b.bytes, b.tail, data), b.header,
             if b.tail + |data| == n then 0 else b.tail + |data|, b.remainLen - |data|)
      else
        Buff(Overwrite(Overwrite(b.bytes, b.tail, data[..end]), 0, data[end..]), b.header,
             |data| - end, b.remainLen - |data|)
    else
      Buff(Overwrite(b.bytes, b.tail, data), b.header, b.tail + |data|, b.remainLen - |data|)
  }

  /**
   A read that asks for less than is stored, on a full ring whose two pointers coincide, runs past the
   end of the buffer if its header is too close to it. C++ gives that no meaning.
   */
  predicate ReadInside(b: Buff, lenIn: nat) {
    b.Stored() > lenIn && b.tail >= b.header ==> b.header + lenIn <= |b.bytes|
  }

  function Taken(b: Buff, lenIn: nat): int {
    if b.Stored() > lenIn then lenIn else b.Stored()
  }

  /** What GetBuff leaves of the ring. */
  function Get(b: Buff, lenIn: nat): Buff {
    if b.Stored() > lenIn then
      var end := |b.bytes| - b.header;
      b.(header := if b.tail >= b.header || end >= lenIn then b.header + lenIn else lenIn - end,
         remainLen := b.remainLen + lenIn)
    else
      Reset(b)
  }

  function Reset(b: Buff): Buff {
    Buff(b.bytes, 0, 0, |b.bytes|)
  }

  /** What GetBuff leaves in the caller's buffer, as written: the second copy of a wrapped read-all lands at its start. */
  function Copied(b: Buff, lenIn: nat, out: seq<byte>): (r: seq<byte>)
    requires b.Valid() && ReadInside(b, lenIn) && Taken(b, lenIn) <= |out|
    ensures |r| == |out|
  {
    var end := |b.bytes| - b.header;
    if b.Stored() > lenIn then
      if b.tail >= b.header || end >= lenIn then
        Overwrite(out, 0, b.bytes[b.header..b.header + lenIn])
      else
        Overwrite(Overwrite(out, 0, b.bytes[b.header..]), end, b.bytes[..lenIn - end])
    else if b.tail >= b.header then
      Overwrite(out, 0, b.bytes[b.header..b.tail])
    else
      Overwrite(Overwrite(out, 0, b.bytes[b.header..]), 0, b.bytes[..b.tail])
  }

  // ---------- the ring is a bounded byte queue ----------

  lemma {:induction false} AddValid(b: Buff, data: seq<byte>)
    requires b.Valid()
    ensures Add(b, data).Valid() && |Add(b, data).bytes| == |b.bytes| && Add(b, data).header == b.header
    ensures Add(b, data).remainLen == if |data| <= b.remainLen then b.remainLen - |data| else b.remainLen
  {}

  // The byte of the buffer that is i-th from the header, after AddBuff accepted `data`.
  lemma {:induction false} AddAt(b: Buff, data: seq<byte>, i: nat)
    requires b.Valid() && |data| <= b.remainLen && i < b.Stored() + |data|
    ensures |Add(b, data).bytes| == |b.bytes|
    ensures Add(b, data).bytes[Wrap(b.header + i, |b.bytes|)] ==
            if i < b.Stored() then b.bytes[Wrap(b.header + i, |b.bytes|)] else data[i - b.Stored()]
  {
    var n := |b.bytes|;
    var at := Wrap(b.header + i, n);
    if b.tail >= b.header && n - b.tail < |data| {
      var end := n - b.tail;
      var once := Overwrite(b.bytes, b.tail, data[..end]);
      assert Add(b, data).bytes[at] == if at < |data| - end then data[end..][at] else once[at];
    }
  }

  /** AddBuff appends all of its bytes or none, across the wrap and at the full and empty states. */
  lemma {:induction false} AddAppends(b: Buff, data: seq<byte>)
    requires b.Valid()
    ensures Add(b, data).Valid()
    ensures Add(b, data).Contents() == if |data| <= b.remainLen then b.Contents() + data else b.Contents()
  {
    AddValid(b, data);
    if |data| <= b.remainLen {
      var now, then' := Add(b, data).Contents(), b.Contents() + data;
      forall i | 0 <= i < |now| ensures now[i] == then'[i] {
        AddAt(b, data, i);
      }
    }
  }

  /** GetBuff takes a prefix off the ring, whatever it copies out. */
  lemma {:induction false} GetRemoves(b: Buff, lenIn: nat)
    requires b.Valid() && ReadInside(b, lenIn)
    ensures Get(b, lenIn).Valid()
    ensures Get(b, lenIn).Contents() == b.Contents()[Taken(b, lenIn)..]
  {
    var r, k := Get(b, lenIn), Taken(b, lenIn);
    if b.Stored() > lenIn {
      forall i | 0 <= i < r.Stored() ensures r.Contents()[i] == b.Contents()[k..][i] {
        assert Wrap(r.header + i, |b.bytes|) == Wrap(b.header + (k + i), |b.bytes|);
      }
    }
  }

  // ---------- what a read copies ----------

  /** The states and requests for which GetBuff copies the right bytes. */
  predicate CopiesRight(b: Buff, lenIn: nat) {
    || b.Stored() > lenIn
    || b.Stored() == 0
    || b.tail > b.header
    || (b.tail < b.header && (b.tail == 0) != (b.header == |b.bytes|))
  }

  lemma {:induction false} CopiedAt(b: Buff, lenIn: nat, out: seq<byte>, i: nat)
    requires b.Valid() && ReadInside(b, lenIn) && Taken(b, lenIn) <= |out| && CopiesRight(b, lenIn) && i < |out|
    ensures Copied(b, lenIn, out)[i] == if i < Taken(b, lenIn) then b.bytes[Wrap(b.header + i, |b.bytes|)] else out[i]
  {
    if b.Stored() > lenIn {
      SomeCopiedAt(b, lenIn, out, i);
    } else if b.tail >= b.header {
      StraightCopiedAt(b, lenIn, out, i);
    } else {
      WrappedCopiedAt(b, lenIn, out, i);
    }
  }

  lemma {:induction false} SomeCopiedAt(b: Buff, lenIn: nat, out: seq<byte>, i: nat)
    requires b.Valid() && ReadInside(b, lenIn) && b.Stored() > lenIn && lenIn <= |out| && i < |out|
    ensures Copied(b, lenIn, out)[i] == if i < lenIn then b.bytes[Wrap(b.header + i, |b.bytes|)] else out[i]
  {}

  lemma {:induction false} StraightCopiedAt(b: Buff, lenIn: nat, out: seq<byte>, i: nat)
    requires b.Valid() && b.header <= b.tail && b.Stored() <= lenIn && b.Stored() <= |out| && CopiesRight(b, lenIn) && i < |out|
    ensures Copied(b, lenIn, out)[i] == if i < b.Stored() then b.bytes[Wrap(b.header + i, |b.bytes|)] else out[i]
  {}

  lemma {:induction false} WrappedCopiedAt(b: Buff, lenIn: nat, out: seq<byte>, i: nat)
    requires b.Valid() && b.tail < b.header && b.Stored() <= lenIn && b.Stored() <= |out| && CopiesRight(b, lenIn) && i < |out|
    ensures Copied(b, lenIn, out)[i] == if i < b.Stored() then b.bytes[Wrap(b.header + i, |b.bytes|)] else out[i]
  {}

  lemma {:induction false} CopyIsRight(b: Buff, lenIn: nat, out: seq<byte>)
    requires b.Valid() && ReadInside(b, lenIn) && Taken(b, lenIn) <= |out| && CopiesRight(b, lenIn)
    ensures Copied(b, lenIn, out) == Overwrite(out, 0, b.Contents()[..Taken(b, lenIn)])
  {
    var got, want := Copied(b, lenIn, out), Overwrite(out, 0, b.Contents()[..Taken(b, lenIn)]);
    forall i | 0 <= i < |got| ensures got[i] == want[i] {
      CopiedAt(b, lenIn, out, i);
    }
  }

  // A wrong read leaves the last byte it owes unwritten.
  lemma {:induction false} LastNotCopied(b: Buff, lenIn: nat, out: seq<byte>)
    requires b.Valid() && ReadInside(b, lenIn) && Taken(b, lenIn) <= |out| && !CopiesRight(b, lenIn)
    ensures 0 < Taken(b, lenIn)
    ensures Copied(b, lenIn, out)[Taken(b, lenIn) - 1] == out[Taken(b, lenIn) - 1]
  {}

  /**
   GetBuff hands over the oldest bytes, whatever they are and whatever was in the caller's buffer,
   exactly in these states: it leaves something behind, or nothing is stored, or what is stored
   does not wrap, or it wraps but one of its two parts is empty and the other is not. A full ring
   read whole copies nothing; a wrapped one read whole loses its first part.
   */
  lemma {:induction false} GetBuffRightIff(b: Buff, lenIn: nat, room: nat)
    requires b.Valid() && ReadInside(b, lenIn) && Taken(b, lenIn) <= room
    ensures (forall bytes: seq<byte>, out: seq<byte> | |bytes| == |b.bytes| && |out| == room ::
               HandsOver(b.(bytes := bytes), lenIn, out))
            <==> CopiesRight(b, lenIn)
  {
    if CopiesRight(b, lenIn) {
      forall bytes: seq<byte>, out: seq<byte> | |bytes| == |b.bytes| && |out| == room
        ensures HandsOver(b.(bytes := bytes), lenIn, out)
      {
        CopyIsRight(b.(bytes := bytes), lenIn, out);
      }
    } else {
      var bytes: seq<byte>, out: seq<byte> := seq(|b.bytes|, _ => 1), seq(room, _ => 0);
      WrongCopy(b.(bytes := bytes), lenIn, out);
    }
  }

  ghost predicate HandsOver(b: Buff, lenIn: nat, out: seq<byte>)
    requires b.Valid() && ReadInside(b, lenIn) && Taken(b, lenIn) <= |out|
  {
    Copied(b, lenIn, out) == Overwrite(out, 0, b.Contents()[..Taken(b, lenIn)])
  }

  lemma {:induction false} WrongCopy(b: Buff, lenIn: nat, out: seq<byte>)
    requires b.Valid() && ReadInside(b, lenIn) && Taken(b, lenIn) <= |out| && !CopiesRight(b, lenIn)
    requires (forall i | 0 <= i < |b.bytes| :: b.bytes[i] == 1) && (forall i | 0 <= i < |out| :: out[i] == 0)
    ensures !HandsOver(b, lenIn, out)
  {
    var k, c := Taken(b, lenIn), b.Contents();
    var got, want := Copied(b, lenIn, out), Overwrite(out, 0, c[..k]);
    LastNotCopied(b, lenIn, out);
    assert c[k - 1] == b.bytes[Wrap(b.header + (k - 1), |b.bytes|)];
    assert want[k - 1] == c[k - 1];
    assert got[k - 1] != want[k - 1];
  }

  /**
   What it hands over in the other states: from a full ring whose pointers coincide nothing, and from a wrapped one the
   part behind the header, with the part before the tail copied over its beginning.
   */
  lemma {:induction false} WrongCopyIs(b: Buff, lenIn: nat, out: seq<byte>, i: nat)
    requires b.Valid() && ReadInside(b, lenIn) && Taken(b, lenIn) <= |out| && !CopiesRight(b, lenIn) && i < |out|
    ensures b.tail == b.header ==> Copied(b, lenIn, out)[i] == out[i]
    ensures b.tail != b.header ==>
              b.tail < b.header
              && Copied(b, lenIn, out)[i] ==
                 if i < b.tail then b.bytes[i] else if i < |b.bytes| - b.header then b.bytes[b.header + i] else out[i]
  {}

  // ---------- the repaired read ----------

  /** The ring after a read that wraps when what it takes does, and only then. */
  function GetRepaired(b: Buff, lenIn: nat): Buff {
    if b.Stored() > lenIn then
      var end := |b.bytes| - b.header;
      b.(header := if end >= lenIn then b.header + lenIn else lenIn - end, remainLen := b.remainLen + lenIn)
    else
      Reset(b)
  }

  /** What that read copies: up to the end of the buffer, then the rest behind it. */
  function CopiedRepaired(b: Buff, lenIn: nat, out: seq<byte>): (r: seq<byte>)
    requires b.Valid() && Taken(b, lenIn) <= |out|
    ensures |r| == |out|
  {
    var k, end := Taken(b, lenIn), |b.bytes| - b.header;
    if end >= k then
      Overwrite(out, 0, b.bytes[b.header..b.header + k])
    else
      Overwrite(Overwrite(out, 0, b.bytes[b.header..]), end, b.bytes[..k - end])
  }

  /** The repaired read hands over the oldest bytes and takes them off the ring, in every state. */
  lemma {:induction false} RepairIsRight(b: Buff, lenIn: nat, out: seq<byte>)
    requires b.Valid() && Taken(b, lenIn) <= |out|
    ensures CopiedRepaired(b, lenIn, out) == Overwrite(out, 0, b.Contents()[..Taken(b, lenIn)])
    ensures GetRepaired(b, lenIn).Valid()
    ensures GetRepaired(b, lenIn).Contents() == b.Contents()[Taken(b, lenIn)..]
  {
    var got, want := CopiedRepaired(b, lenIn, out), Overwrite(out, 0, b.Contents()[..Taken(b, lenIn)]);
    forall i | 0 <= i < |got| ensures got[i] == want[i] {
      RepairedAt(b, lenIn, out, i);
    }
    RepairRemoves(b, lenIn);
  }

  lemma {:induction false} RepairedAt(b: Buff, lenIn: nat, out: seq<byte>, i: nat)
    requires b.Valid() && Taken(b, lenIn) <= |out| && i < |out|
    ensures CopiedRepaired(b, lenIn, out)[i] == if i < Taken(b, lenIn) then b.bytes[Wrap(b.header + i, |b.bytes|)] else out[i]
  {}

  lemma {:induction false} RepairRemoves(b: Buff, lenIn: nat)
    requires b.Valid()
    ensures GetRepaired(b, lenIn).Valid()
    ensures GetRepaired(b, lenIn).Contents() == b.Contents()[Taken(b, lenIn)..]
  {
    var r, k := GetRepaired(b, lenIn), Taken(b, lenIn);
    if b.Stored() > lenIn {
      forall i | 0 <= i < r.Stored() ensures r.Contents()[i] == b.Contents()[k..][i] {
        SameByte(b, lenIn, i);
        assert b.Contents()[k..][i] == b.Contents()[k + i] == b.bytes[Wrap(b.header + (k + i), |b.bytes|)];
      }
    }
  }

  lemma {:induction false} SameByte(b: Buff, lenIn: nat, i: nat)
    requires b.Valid() && b.Stored() > lenIn + i
    ensures GetRepaired(b, lenIn).Valid() && i < GetRepaired(b, lenIn).Stored()
    ensures GetRepaired(b, lenIn).Contents()[i] == b.bytes[Wrap(b.header + (lenIn + i), |b.bytes|)]
  {
    assert Wrap(GetRepaired(b, lenIn).header + i, |b.bytes|) == Wrap(b.header + (lenIn + i), |b.bytes|);
  }

  // ---------- whole runs ----------

  datatype Reading = AsWritten | Repaired

  // `out` is what the caller's buffer holds before the read.
  datatype Op = AddOp(data: seq<byte>) | GetOp(lenIn: nat, out: seq<byte>) | ResetOp

  predicate Defined(how: Reading, b: Buff, op: Op) {
    op.GetOp? ==> Taken(b, op.lenIn) <= |op.out| && (how.Repaired? || ReadInside(b, op.lenIn))
  }

  function Apply(how: Reading, b: Buff, op: Op): Buff
    requires b.Valid()
  {
    match op
    case AddOp(data) => Add(b, data)
    case GetOp(lenIn, _) => if how.Repaired? then GetRepaired(b, lenIn) else Get(b, lenIn)
    case ResetOp => Reset(b)
  }

  /** The bytes that a step hands to the caller. */
  function Returned(how: Reading, b: Buff, op: Op): seq<byte>
    requires b.Valid() && Defined(how, b, op)
  {
    match op
    case GetOp(lenIn, out) =>
      (if how.Repaired? then CopiedRepaired(b, lenIn, out) else Copied(b, lenIn, out))[..Taken(b, lenIn)]
    case _ => []
  }

  // The same operations on a queue of at most n bytes.
  function ApplyQueue(n: nat, q: seq<byte>, op: Op): seq<byte> {
    match op
    case AddOp(data) => if |q| + |data| <= n then q + data else q
    case GetOp(lenIn, _) => if lenIn < |q| then q[lenIn..] else []
    case ResetOp => []
  }

  lemma {:induction false} ApplyRefines(how: Reading, b: Buff, op: Op)
    requires b.Valid() && Defined(how, b, op)
    ensures Apply(how, b, op).Valid() && |Apply(how, b, op).bytes| == |b.bytes|
    ensures Apply(how, b, op).Contents() == ApplyQueue(|b.bytes|, b.Contents(), op)
  {
    match op
    case AddOp(data) => AddRefines(b, data);
    case GetOp(lenIn, _) => GetRefines(how, b, lenIn);
    case ResetOp => ResetRefines(b);
  }

  lemma {:induction false} AddRefines(b: Buff, data: seq<byte>)
    requires b.Valid()
    ensures Add(b, data).Valid() && |Add(b, data).bytes| == |b.bytes|
    ensures Add(b, data).Contents() == ApplyQueue(|b.bytes|, b.Contents(), AddOp(data))
  {
    AddValid(b, data);
    AddAppends(b, data);
  }

  lemma {:induction false} GetRefines(how: Reading, b: Buff, lenIn: nat)
    requires b.Valid() && (how.Repaired? || ReadInside(b, lenIn))
    ensures var b' := if how.Repaired? then GetRepaired(b, lenIn) else Get(b, lenIn);
            && b'.Valid() && |b'.bytes| == |b.bytes|
            && b'.Contents() == if lenIn < |b.Contents()| then b.Contents()[lenIn..] else []
  {
    if how.Repaired? {
      RepairRemoves(b, lenIn);
    } else {
      GetRemoves(b, lenIn);
    }
  }

  lemma {:induction false} ResetRefines(b: Buff)
    requires b.Valid()
    ensures Reset(b).Valid() && Reset(b).Contents() == []
  {}

  ghost predicate CanRun(how: Reading, b: Buff, ops: seq<Op>)
    requires b.Valid()
    decreases |ops|
  {
    ops == [] || (Defined(how, b, ops[0]) && (ApplyRefines(how, b, ops[0]); CanRun(how, Apply(how, b, ops[0]), ops[1..])))
  }

  ghost function Run(how: Reading, b: Buff, ops: seq<Op>): (end: Buff)
    requires b.Valid() && CanRun(how, b, ops)
    ensures end.Valid()
    decreases |ops|
  {
    if ops == [] then b else (ApplyRefines(how, b, ops[0]); Run(how, Apply(how, b, ops[0]), ops[1..]))
  }

  function RunQueue(n: nat, q: seq<byte>, ops: seq<Op>): seq<byte>
    decreases |ops|
  {
    if ops == [] then q else RunQueue(n, ApplyQueue(n, q, ops[0]), ops[1..])
  }

  /** Over every run the header, the tail and the count stand for the bytes of one bounded queue. */
  lemma {:induction false} RunRefines(how: Reading, b: Buff, ops: seq<Op>)
    requires b.Valid() && CanRun(how, b, ops)
    ensures Run(how, b, ops).Contents() == RunQueue(|b.bytes|, b.Contents(), ops)
    decreases |ops|
  {
    if ops != [] {
      ApplyRefines(how, b, ops[0]);
      RunRefines(how, Apply(how, b, ops[0]), ops[1..]);
    }
  }

  /** The bytes accepted in a run, and the bytes handed out, each in order. */
  ghost function Accepted(how: Reading, b: Buff, ops: seq<Op>): seq<byte>
    requires b.Valid() && CanRun(how, b, ops)
    decreases |ops|
  {
    if ops == [] then [] else
      ApplyRefines(how, b, ops[0]);
      (if ops[0].AddOp? && |ops[0].data| <= b.remainLen then ops[0].data else [])
      + Accepted(how, Apply(how, b, ops[0]), ops[1..])
  }

  ghost function Outputs(how: Reading, b: Buff, ops: seq<Op>): seq<byte>
    requires b.Valid() && CanRun(how, b, ops)
    decreases |ops|
  {
    if ops == [] then [] else
      ApplyRefines(how, b, ops[0]);
      Returned(how, b, ops[0]) + Outputs(how, Apply(how, b, ops[0]), ops[1..])
  }

  // No step throws the contents away, and every read as written is in a state that copies right.
  ghost predicate ReadsRight(how: Reading, b: Buff, ops: seq<Op>)
    requires b.Valid() && CanRun(how, b, ops)
    decreases |ops|
  {
    ops == []
    || (&& !ops[0].ResetOp?
        && (how.AsWritten? && ops[0].GetOp? ==> CopiesRight(b, ops[0].lenIn))
        && (ApplyRefines(how, b, ops[0]); ReadsRight(how, Apply(how, b, ops[0]), ops[1..])))
  }

  lemma {:induction false} ReturnedRight(how: Reading, b: Buff, op: Op)
    requires b.Valid() && Defined(how, b, op) && op.GetOp? && (how.AsWritten? ==> CopiesRight(b, op.lenIn))
    ensures Returned(how, b, op) == b.Contents()[..Taken(b, op.lenIn)]
  {
    if how.Repaired? {
      RepairIsRight(b, op.lenIn, op.out);
    } else {
      CopyIsRight(b, op.lenIn, op.out);
    }
    var c := b.Contents()[..Taken(b, op.lenIn)];
    assert Overwrite(op.out, 0, c)[..|c|] == c;
  }

  lemma {:induction false} StepFifo(how: Reading, b: Buff, op: Op)
    requires b.Valid() && Defined(how, b, op) && !op.ResetOp?
    requires how.AsWritten? && op.GetOp? ==> CopiesRight(b, op.lenIn)
    ensures Apply(how, b, op).Valid()
    ensures Returned(how, b, op) + Apply(how, b, op).Contents()
         == b.Contents() + if op.AddOp? && |op.data| <= b.remainLen then op.data else []
  {
    ApplyRefines(how, b, op);
    match op
    case AddOp(data) =>
      Unit(Apply(how, b, op).Contents());
      Unit(b.Contents());
    case GetOp(lenIn, _) =>
      ReturnedRight(how, b, op);
      SplitAt(b.Contents(), Taken(b, lenIn));
      Unit(b.Contents());
  }

  /**
   First in, first out, byte by byte, over every run: what the reads handed out, then what is still held, is what was
   held and accepted. For the repaired read always; as written while every read is in a state that copies right.
   */
  lemma {:induction false} RunFifo(how: Reading, b: Buff, ops: seq<Op>)
    requires b.Valid() && CanRun(how, b, ops) && ReadsRight(how, b, ops)
    ensures Outputs(how, b, ops) + Run(how, b, ops).Contents() == b.Contents() + Accepted(how, b, ops)
    decreases |ops|
  {
    if ops == [] {
      assert [] + b.Contents() == b.Contents() + [];
    } else {
      var op := ops[0];
      var b' := Apply(how, b, op);
      ApplyRefines(how, b, op);
      StepFifo(how, b, op);
      RunFifo(how, b', ops[1..]);
      Chain(Returned(how, b, op), Outputs(how, b', ops[1..]), Run(how, b, ops).Contents(), b'.Contents(),
            Accepted(how, b', ops[1..]), b.Contents(), if op.AddOp? && |op.data| <= b.remainLen then op.data else []);
    }
  }

  lemma {:induction false} Chain(out: seq<byte>, outs: seq<byte>, end: seq<byte>, mid: seq<byte>, accs: seq<byte>, start: seq<byte>, acc: seq<byte>)
    requires outs + end == mid + accs && out + mid == start + acc
    ensures (out + outs) + end == start + (acc + accs)
  {
    Assoc(out, outs, end);
    Assoc(out, mid, accs);
    Assoc(start, acc, accs);
  }

  /** From an empty ring of four bytes: add three, read two, add two more. */
  lemma {:induction false} WrappedRing()
    ensures Add(Get(Add(Buff([0, 0, 0, 0], 0, 0, 4), [1, 2, 3]), 2), [4, 5]) == Buff([5, 2, 3, 4], 2, 1, 1)
  {
    var b1 := Add(Buff([0, 0, 0, 0], 0, 0, 4), [1, 2, 3]);
    assert b1 == Buff([1, 2, 3, 0], 0, 3, 1);
    var b2 := Get(b1, 2);
    assert b2 == Buff([1, 2, 3, 0], 2, 3, 3);
    assert Add(b2, [4, 5]).bytes == [5, 2, 3, 4];
  }

  /** Reading that ring whole yields neither its bytes nor anything in their order. */
  lemma {:induction false} WrongRead(x: byte, y: byte)
    ensures var b := Buff([5, 2, 3, 4], 2, 1, 1);
            && b.Valid() && b.Contents() == [3, 4, 5] && !CopiesRight(b, 4)
            && Copied(b, 4, [x, x, y]) == [5, 4, y]
  {
    var b := Buff([5, 2, 3, 4], 2, 1, 1);
    assert b.bytes[Wrap(b.header + 0, 4)] == 3 && b.bytes[Wrap(b.header + 1, 4)] == 4 && b.bytes[Wrap(b.header + 2, 4)] == 5;
    assert b.Contents()[0] == 3 && b.Contents()[1] == 4 && b.Contents()[2] == 5;
    var once := Overwrite([x, x, y], 0, b.bytes[2..]);
    assert once == [3, 4, y];
    assert Copied(b, 4, [x, x, y]) == Overwrite(once, 0, b.bytes[..1]);
  }

  /** The read that has no meaning happens on full rings only, and there are such runs. */
  lemma {:induction false} OutsideOnlyWhenFull(b: Buff, lenIn: nat)
    requires b.Valid()
    ensures !ReadInside(b, lenIn) <==>
            b.remainLen == 0 && b.tail == b.header && lenIn < |b.bytes| < b.header + lenIn
  {}

  lemma {:induction false} OutsideIsReachable()
    ensures var b := Add(Get(Add(Buff([0, 0, 0, 0], 0, 0, 4), [1, 2, 3, 4]), 3), [5, 6, 7]);
            b.Valid() && b.Contents() == [4, 5, 6, 7] && !ReadInside(b, 2)
  {
    var b1 := Add(Buff([0, 0, 0, 0], 0, 0, 4), [1, 2, 3, 4]);
    assert b1 == Buff([1, 2, 3, 4], 0, 0, 0);
    var b2 := Get(b1, 3);
    assert b2 == Buff([1, 2, 3, 4], 3, 0, 3);
    var b3 := Add(b2, [5, 6, 7]);
    assert b3 == Buff([5, 6, 7, 4], 3, 3, 0);
    assert b3.bytes[Wrap(b3.header + 0, 4)] == 4 && b3.bytes[Wrap(b3.header + 1, 4)] == 5;
    assert b3.bytes[Wrap(b3.header + 2, 4)] == 6 && b3.bytes[Wrap(b3.header + 3, 4)] == 7;
    var c := b3.Contents();
    assert c[0] == 4 && c[1] == 5 && c[2] == 6 && c[3] == 7;
  }

  // ---------- the object ----------

  /** memcpy(out + at, src, |src|) */
  method Memcpy(out: array<byte>, at: nat, src: seq<byte>)
    requires at + |src| <= out.Length
    modifies out
    ensures out[..] == Overwrite(old(out[..]), at, src)
  {
    forall i | 0 <= i < |src| {
      out[at + i] := src[i];
    }
  }

  class CircleBuff {
    const bytes: array<byte>
    const buffLen: int
    var buffHeader: int
    var buffTail: int
    var remainLen: int

    ghost function Abs(): Buff
      reads this, bytes
    {
      Buff(bytes[..], buffHeader, buffTail, remainLen)
    }

    ghost predicate Ready()
      reads this, bytes
    {
      buffLen == bytes.Length && Abs().Valid()
    }

    constructor (buffLen: int)
      requires buffLen > 0
      ensures Ready() && fresh(bytes) && bytes.Length == buffLen && Abs().Contents() == []
    {
      this.buffLen := buffLen;
      bytes := new byte[buffLen];
      remainLen, buffHeader, buffTail := buffLen, 0, 0;
    }

    method AddBuff(buff: seq<byte>) returns (ok: bool)
      requires Ready()
      modifies this`buffTail, this`remainLen, bytes
      ensures Ready() && Abs() == Add(old(Abs()), buff)
      ensures ok == (|buff| <= old(remainLen))
      ensures Abs().Contents() == if ok then old(Abs().Contents()) + buff else old(Abs().Contents())
    {
      AddAppends(Abs(), buff);
      if |buff| > buffLen {
        return false;
      }
      if remainLen < |buff| {
        return false;
      }
      Append(buff);
      return true;
    }

    // The part of AddBuff that copies, once there is room.
    method Append(buff: seq<byte>)
      requires Ready() && |buff| <= remainLen
      modifies this`buffTail, this`remainLen, bytes
      ensures Abs() == Add(old(Abs()), buff)
    {
      if buffTail >= buffHeader {
        var tmpTailEndLen := buffLen - buffTail;
        if tmpTailEndLen >= |buff| {
          Memcpy(bytes, buffTail, buff);
          buffTail := buffTail + |buff|;
          if buffTail == buffLen {
            buffTail := 0;
          }
        } else {
          Memcpy(bytes, buffTail, buff[..tmpTailEndLen]);
          Memcpy(bytes, 0, buff[tmpTailEndLen..]);
          buffTail := |buff| - tmpTailEndLen;
        }
      } else {
        Memcpy(bytes, buffTail, buff);
        buffTail := buffTail + |buff|;
      }
      remainLen := remainLen - |buff|;
    }

    method GetBuff(buffOut: array?<byte>, lenIn: nat) returns (ok: bool, lenOut: nat)
      requires Ready() && buffOut != bytes && ReadInside(Abs(), lenIn)
      requires buffOut != null ==> Taken(Abs(), lenIn) <= buffOut.Length
      modifies this`buffHeader, this`buffTail, this`remainLen, buffOut
      ensures Ready() && ok == (buffOut != null)
      ensures !ok ==> Abs() == old(Abs())
      ensures ok ==> lenOut == Taken(old(Abs()), lenIn) && Abs() == Get(old(Abs()), lenIn)
      ensures ok ==> Abs().Contents() == old(Abs().Contents())[lenOut..]
      ensures ok ==> buffOut[..] == Copied(old(Abs()), lenIn, old(buffOut[..]))
      ensures ok && CopiesRight(old(Abs()), lenIn) ==> buffOut[..lenOut] == old(Abs().Contents())[..lenOut]
    {
      if buffOut == null {
        return false, 0;
      }
      ghost var b, out := Abs(), buffOut[..];
      GetRemoves(b, lenIn);
      if buffLen - remainLen > lenIn {
        lenOut := lenIn;
        TakeSome(buffOut, lenIn);
      } else {
        lenOut := buffLen - remainLen;
        TakeAll(buffOut, lenIn);
      }
      ok := true;
      if CopiesRight(b, lenIn) {
        CopyIsRight(b, lenIn, out);
        assert buffOut[..lenOut] == b.Contents()[..lenOut];
      }
    }

    // The branch of GetBuff that leaves something behind.
    method TakeSome(buffOut: array<byte>, lenIn: nat)
      requires Ready() && buffOut != bytes && Abs().Stored() > lenIn && ReadInside(Abs(), lenIn) && lenIn <= buffOut.Length
      modifies this`buffHeader, this`remainLen, buffOut
      ensures Abs() == Get(old(Abs()), lenIn)
      ensures buffOut[..] == Copied(old(Abs()), lenIn, old(buffOut[..]))
    {
      if buffTail >= buffHeader {
        Memcpy(buffOut, 0, bytes[buffHeader..buffHeader + lenIn]);
        buffHeader := buffHeader + lenIn;
      } else {
        var tmpHeaderEndLen := buffLen - buffHeader;
        if tmpHeaderEndLen >= lenIn {
          Memcpy(buffOut, 0, bytes[buffHeader..buffHeader + lenIn]);
          buffHeader := buffHeader + lenIn;
        } else {
          CopyTwo(buffOut, bytes[buffHeader..], bytes[..lenIn - tmpHeaderEndLen]);
          buffHeader := lenIn - tmpHeaderEndLen;
        }
      }
      remainLen := remainLen + lenIn;
    }

    // The branch of GetBuff that empties the ring.
    method TakeAll(buffOut: array<byte>, ghost lenIn: nat)
      requires Ready() && buffOut != bytes && Abs().Stored() <= lenIn && Abs().Stored() <= buffOut.Length
      modifies this`buffHeader, this`buffTail, this`remainLen, buffOut
      ensures Abs() == Get(old(Abs()), lenIn)
      ensures buffOut[..] == Copied(old(Abs()), lenIn, old(buffOut[..]))
    {
      if buffTail >= buffHeader {
        Memcpy(buffOut, 0, bytes[buffHeader..buffTail]);
      } else {
        var tmpHeaderEndLen := buffLen - buffHeader;
        var tmpStartTailLen := buffTail;
        Memcpy(buffOut, 0, bytes[buffHeader..]);
        Memcpy(buffOut, 0, bytes[..tmpStartTailLen]);
      }
      remainLen := buffLen;
      buffTail, buffHeader := 0, 0;
    }

    // The repair of GetBuff: it wraps when what it takes does, and copies the second part behind the first.
    method GetBuffRepaired(buffOut: array<byte>, lenIn: nat) returns (lenOut: nat)
      requires Ready() && buffOut != bytes && Taken(Abs(), lenIn) <= buffOut.Length
      modifies this`buffHeader, this`buffTail, this`remainLen, buffOut
      ensures Ready() && Abs() == GetRepaired(old(Abs()), lenIn)
      ensures lenOut == Taken(old(Abs()), lenIn) && Abs().Contents() == old(Abs().Contents())[lenOut..]
      ensures buffOut[..] == Overwrite(old(buffOut[..]), 0, old(Abs().Contents())[..lenOut])
    {
      RepairIsRight(Abs(), lenIn, buffOut[..]);
      lenOut := if buffLen - remainLen > lenIn then lenIn else buffLen - remainLen;
      CopyTaken(buffOut, lenIn, lenOut);
      if buffLen - remainLen > lenIn {
        var tmpHeaderEndLen := buffLen - buffHeader;
        buffHeader := if tmpHeaderEndLen >= lenIn then buffHeader + lenIn else lenIn - tmpHeaderEndLen;
        remainLen := remainLen + lenIn;
      } else {
        remainLen := buffLen;
        buffTail, buffHeader := 0, 0;
      }
    }

    method CopyTaken(buffOut: array<byte>, ghost lenIn: nat, lenOut: nat)
      requires Ready() && buffOut != bytes && lenOut == Taken(Abs(), lenIn) <= buffOut.Length
      modifies buffOut
      ensures buffOut[..] == CopiedRepaired(Abs(), lenIn, old(buffOut[..]))
    {
      var tmpHeaderEndLen := buffLen - buffHeader;
      if tmpHeaderEndLen >= lenOut {
        Memcpy(buffOut, 0, bytes[buffHeader..buffHeader + lenOut]);
      } else {
        CopyTwo(buffOut, bytes[buffHeader..], bytes[..lenOut - tmpHeaderEndLen]);
      }
    }

    method CopyTwo(buffOut: array<byte>, first: seq<byte>, second: seq<byte>)
      requires |first| + |second| <= buffOut.Length
      modifies buffOut
      ensures buffOut[..] == Overwrite(Overwrite(old(buffOut[..]), 0, first), |first|, second)
    {
      Memcpy(buffOut, 0, first);
      Memcpy(buffOut, |first|, second);
    }

    method ResetBuff() returns (ok: bool)
      requires Ready()
      modifies this`buffHeader, this`buffTail, this`remainLen
      ensures Ready() && ok && Abs() == Reset(old(Abs())) && Abs().Contents() == []
    {
      remainLen := buffLen;
      buffHeader, buffTail := 0, 0;
      return true;
    }
  }
}
