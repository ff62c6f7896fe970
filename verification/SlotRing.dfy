/**
 What a `CircleList` stores, as values: messages cut into fragments of at most 0x1000 bytes that
 are chained by `has_child`, and the queue of messages that a run of fragments stands for.
 */
module SlotRing {
  import opened Bytes

  // MaxSizePerBuff
  const SLOT := 0x1000

  datatype Fragment = Fragment(bytes: seq<byte>, hasChild: bool)

  /** The number of slots a message takes, by the arithmetic of AddBuffer. */
  function SlotCount(len: nat): nat {
    if len <= SLOT then 1 else len / SLOT + (if len % SLOT != 0 then 1 else 0)
  }

  function Fragments(m: seq<byte>): seq<Fragment> {
    if |m| <= SLOT then [Fragment(m, false)] else [Fragment(m[..SLOT], true)] + Fragments(m[SLOT..])
  }

  function AllFragments(q: seq<seq<byte>>): seq<Fragment> {
    if q == [] then [] else Fragments(q[0]) + AllFragments(q[1..])
  }

  /** The messages that a run of fragments stands for. */
  function Decode(fs: seq<Fragment>): seq<seq<byte>> {
    if fs == [] then
      []
    else
      var q := Decode(fs[1..]);
      if fs[0].hasChild && q != [] then [fs[0].bytes + q[0]] + q[1..] else [fs[0].bytes] + q
  }

  function Used(q: seq<seq<byte>>): nat {
    if q == [] then 0 else SlotCount(|q[0]|) + Used(q[1..])
  }

  // ---------- fragments and messages ----------

  lemma {:induction false} FragmentCount(m: seq<byte>)
    ensures |Fragments(m)| == SlotCount(|m|)
    decreases |m|
  {
    if |m| > SLOT {
      FragmentCount(m[SLOT..]);
    }
  }

  /** Slot i of a message holds its i-th 0x1000 bytes, and all slots but the last have a child. */
  lemma {:induction false} FragmentAt(m: seq<byte>, i: nat)
    requires i < SlotCount(|m|)
    ensures |Fragments(m)| == SlotCount(|m|)
    ensures i < SlotCount(|m|) - 1 ==> SLOT * (i + 1) < |m| && Fragments(m)[i] == Fragment(m[SLOT * i..SLOT * (i + 1)], true)
    ensures i == SlotCount(|m|) - 1 ==> SLOT * i <= |m| <= SLOT * (i + 1) && Fragments(m)[i] == Fragment(m[SLOT * i..], false)
    decreases i
  {
    FragmentCount(m);
    if |m| > SLOT && i > 0 {
      var rest := m[SLOT..];
      FragmentAt(rest, i - 1);
      assert Fragments(m)[i] == Fragments(rest)[i - 1];
      if i < SlotCount(|m|) - 1 {
        assert rest[SLOT * (i - 1)..SLOT * i] == m[SLOT * i..SLOT * (i + 1)];
      } else {
        assert rest[SLOT * (i - 1)..] == m[SLOT * i..];
      }
    }
  }

  lemma {:induction false} DecodeMessage(m: seq<byte>, fs: seq<Fragment>)
    ensures Decode(Fragments(m) + fs) == [m] + Decode(fs)
    decreases |m|
  {
    var all := Fragments(m) + fs;
    if |m| <= SLOT {
      assert all[1..] == fs;
    } else {
      DecodeMessage(m[SLOT..], fs);
      assert all[1..] == Fragments(m[SLOT..]) + fs;
      assert m[..SLOT] + m[SLOT..] == m;
      assert ([m[SLOT..]] + Decode(fs))[1..] == Decode(fs);
    }
  }

  /** Fragmentation loses nothing: the slots of a queue decode to that queue and no other. */
  lemma {:induction false} DecodeAll(q: seq<seq<byte>>)
    ensures Decode(AllFragments(q)) == q
  {
    if q != [] {
      DecodeMessage(q[0], AllFragments(q[1..]));
      DecodeAll(q[1..]);
    }
  }

  lemma {:induction false} AllFragmentsSnoc(q: seq<seq<byte>>, m: seq<byte>)
    ensures AllFragments(q + [m]) == AllFragments(q) + Fragments(m)
    ensures Used(q + [m]) == Used(q) + SlotCount(|m|)
  {
    if q == [] {
      assert AllFragments([m]) == Fragments(m) + AllFragments([]);
      assert q + [m] == [m];
    } else {
      AllFragmentsSnoc(q[1..], m);
      assert (q + [m])[1..] == q[1..] + [m];
      Assoc(Fragments(q[0]), AllFragments(q[1..]), Fragments(m));
    }
  }

  lemma {:induction false} UsedIsLength(q: seq<seq<byte>>)
    ensures |AllFragments(q)| == Used(q)
  {
    if q != [] {
      FragmentCount(q[0]);
      UsedIsLength(q[1..]);
    }
  }

  // ---------- what a long message becomes ----------

  /**
   The bytes AddBuffer leaves in the slots. Every fragment is copied from the start of the
   message (circle_list.cpp:95, 101 and 107), so byte i is byte i % 0x1000 of the message.
   */
  function Stored(m: seq<byte>): (s: seq<byte>)
    ensures |s| == |m|
  {
    seq(|m|, i requires 0 <= i < |m| => m[i % SLOT])
  }

  /** `Advancing` is the repair: fragment i copied from buff + 0x1000 * i, and true returned. */
  datatype Copying = FromStart | Advancing

  function Kept(how: Copying, m: seq<byte>): (s: seq<byte>)
    ensures |s| == |m|
  {
    if how.Advancing? then m else Stored(m)
  }

  /** Messages of a given length are stored intact, all of them, exactly when they fit one slot. */
  lemma {:induction false} StoredIntactIff(len: nat)
    ensures (forall m: seq<byte> | |m| == len :: Stored(m) == m) <==> len <= 0x1000
  {
    if len <= SLOT {
      forall m: seq<byte> | |m| == len ensures Stored(m) == m {
        assert forall i | 0 <= i < len :: i % SLOT == i;
      }
    } else {
      var m: seq<byte> := seq(len, i => if i < SLOT then 0 else 1);
      assert Stored(m)[SLOT] == 0 && m[SLOT] == 1;
    }
  }

  /** Queueing what was read from a ring does not damage it further. */
  lemma {:induction false} StoredIdempotent(m: seq<byte>)
    ensures Stored(Stored(m)) == Stored(m)
  {
    forall i | 0 <= i < |m| ensures Stored(Stored(m))[i] == Stored(m)[i] {
      assert i % SLOT % SLOT == i % SLOT;
    }
  }

  // ---------- the ring as a bounded queue ----------

  datatype Ring = Ring(capacity: nat, queue: seq<seq<byte>>) {
    ghost predicate Valid() {
      Used(queue) <= capacity
    }

    predicate HasRoom(len: nat)
    {
      Used(queue) + SlotCount(len) <= capacity
    }

    predicate CanTake(limit: int) {
      queue != [] && |queue[0]| < limit
    }
  }

  function Offer(how: Copying, r: Ring, m: seq<byte>): Ring {
    if r.HasRoom(|m|) then r.(queue := r.queue + [Kept(how, m)]) else r
  }

  /** The slots that a message needs, at least one: its length over 0x1000, rounded up. */
  function Needs(len: nat): nat {
    if len == 0 then 1 else (len + 0xFFF) / 0x1000
  }

  /**
   A message is queued, last, exactly if there are that many slots free, and takes that many; its byte i is byte i of
   the message if the copy advances, and byte i % 0x1000 as written.
   */
  lemma {:induction false} OfferedIff(how: Copying, r: Ring, m: seq<byte>)
    ensures var q := Offer(how, r, m).queue;
            if Needs(|m|) <= r.capacity - Used(r.queue) then
              && |q| == |r.queue| + 1 && q[..|r.queue|] == r.queue && |q[|r.queue|]| == |m|
              && (forall i | 0 <= i < |m| :: q[|r.queue|][i] == m[if how.Advancing? then i else i % 0x1000])
              && Used(q) == Used(r.queue) + Needs(|m|)
            else
              q == r.queue
  {
    assert SlotCount(|m|) == Needs(|m|);
    AllFragmentsSnoc(r.queue, Kept(how, m));
  }

  /** AddBuffer falls through to `return false` after queueing a long message. */
  predicate Reports(how: Copying, r: Ring, m: seq<byte>) {
    r.HasRoom(|m|) && (how.Advancing? || |m| <= SLOT)
  }

  function Take(r: Ring, limit: int): Ring {
    if r.CanTake(limit) then r.(queue := r.queue[1..]) else r
  }

  datatype Op = Add(msg: seq<byte>) | Get(limit: int)

  function Apply(how: Copying, r: Ring, op: Op): Ring {
    match op
    case Add(m) => Offer(how, r, m)
    case Get(limit) => Take(r, limit)
  }

  function Run(how: Copying, r: Ring, ops: seq<Op>): Ring
    decreases |ops|
  {
    if ops == [] then r else Run(how, Apply(how, r, ops[0]), ops[1..])
  }

  /** The messages that found room, as their senders gave them. */
  function Accepted(how: Copying, r: Ring, ops: seq<Op>): seq<seq<byte>>
    decreases |ops|
  {
    if ops == [] then [] else
      (if ops[0].Add? && r.HasRoom(|ops[0].msg|) then [ops[0].msg] else [])
      + Accepted(how, Apply(how, r, ops[0]), ops[1..])
  }

  /** The messages that were read. */
  function Received(how: Copying, r: Ring, ops: seq<Op>): seq<seq<byte>>
    decreases |ops|
  {
    if ops == [] then [] else
      (if ops[0].Get? && r.CanTake(ops[0].limit) then [r.queue[0]] else [])
      + Received(how, Apply(how, r, ops[0]), ops[1..])
  }

  function KeptAll(how: Copying, ms: seq<seq<byte>>): (r: seq<seq<byte>>)
    ensures |r| == |ms| && forall i | 0 <= i < |ms| :: r[i] == Kept(how, ms[i])
  {
    seq(|ms|, i requires 0 <= i < |ms| => Kept(how, ms[i]))
  }

  lemma {:induction false} KeptAllCons(how: Copying, m: seq<byte>, later: seq<seq<byte>>)
    ensures KeptAll(how, [m] + later) == [Kept(how, m)] + KeptAll(how, later)
  {}

  lemma {:induction false} FifoAdd(how: Copying, r: Ring, m: seq<byte>, later: seq<seq<byte>>)
    ensures Offer(how, r, m).queue + KeptAll(how, later)
         == r.queue + KeptAll(how, (if r.HasRoom(|m|) then [m] else []) + later)
  {
    if r.HasRoom(|m|) {
      KeptAllCons(how, m, later);
      Assoc(r.queue, [Kept(how, m)], KeptAll(how, later));
    } else {
      Unit(later);
    }
  }

  lemma {:induction false} FifoGet(r: Ring, limit: int, received: seq<seq<byte>>, after: seq<seq<byte>>, more: seq<seq<byte>>)
    requires received + after == Take(r, limit).queue + more
    ensures ((if r.CanTake(limit) then [r.queue[0]] else []) + received) + after == r.queue + more
  {
    if r.CanTake(limit) {
      Assoc([r.queue[0]], received, after);
      Assoc([r.queue[0]], r.queue[1..], more);
      assert r.queue == [r.queue[0]] + r.queue[1..];
    } else {
      Unit(received);
    }
  }

  /** First in, first out, over every run: what is read, then what is queued, is what was accepted. */
  lemma {:induction false} Fifo(how: Copying, r: Ring, ops: seq<Op>)
    ensures Received(how, r, ops) + Run(how, r, ops).queue == r.queue + KeptAll(how, Accepted(how, r, ops))
    decreases |ops|
  {
    if ops != [] {
      var r' := Apply(how, r, ops[0]);
      var later, received := Accepted(how, r', ops[1..]), Received(how, r', ops[1..]);
      Fifo(how, r', ops[1..]);
      match ops[0]
      case Add(m) =>
        FifoAdd(how, r, m, later);
        Unit(received);
      case Get(limit) =>
        FifoGet(r, limit, received, Run(how, r, ops).queue, KeptAll(how, later));
        Unit(later);
    }
  }

  /** The slots in use never exceed the ring. */
  lemma {:induction false} RunFits(how: Copying, r: Ring, ops: seq<Op>)
    requires r.Valid()
    ensures Run(how, r, ops).Valid() && Run(how, r, ops).capacity == r.capacity
    decreases |ops|
  {
    if ops != [] {
      match ops[0] {
        case Add(m) => AllFragmentsSnoc(r.queue, Kept(how, m));
        case Get(_) =>
      }
      RunFits(how, Apply(how, r, ops[0]), ops[1..]);
    }
  }

  /**
   Bytes are read back as they were written, in order, over every run of messages of given
   lengths, exactly when every one of them fits one slot (or the copy advances).
   */
  lemma {:induction false} KeptAllIntactIff(how: Copying, lens: seq<nat>)
    ensures (forall ms: seq<seq<byte>> | |ms| == |lens| && (forall i | 0 <= i < |lens| :: |ms[i]| == lens[i]) :: KeptAll(how, ms) == ms)
            <==> how.Advancing? || forall n | n in lens :: n <= 0x1000
  {
    if how.Advancing? || forall n | n in lens :: n <= SLOT {
      forall ms: seq<seq<byte>> | |ms| == |lens| && (forall i | 0 <= i < |lens| :: |ms[i]| == lens[i])
        ensures KeptAll(how, ms) == ms
      {
        forall i | 0 <= i < |lens| ensures Kept(how, ms[i]) == ms[i] {
          assert lens[i] in lens;
          StoredIntactIff(lens[i]);
        }
      }
    } else {
      var k :| 0 <= k < |lens| && lens[k] > SLOT;
      StoredIntactIff(lens[k]);
      var m: seq<byte> :| |m| == lens[k] && Stored(m) != m;
      var ms: seq<seq<byte>> := seq(|lens|, i requires 0 <= i < |lens| => if i == k then m else seq(lens[i], _ => 0));
      assert KeptAll(how, ms)[k] != ms[k];
    }
  }

  /** The reply of AddBuffer tells what happened exactly when no long message found room. */
  lemma {:induction false} ReplyTruthfulIff(how: Copying, r: Ring, m: seq<byte>)
    ensures (Reports(how, r, m) <==> Offer(how, r, m) != r) <==> how.Advancing? || |m| <= 0x1000 || !r.HasRoom(|m|)
  {
    if r.HasRoom(|m|) {
      assert |Offer(how, r, m).queue| == |r.queue| + 1;
    }
  }

  function Gets(limit: int, n: nat): (ops: seq<Op>)
    ensures |ops| == n
  {
    if n == 0 then [] else [Get(limit)] + Gets(limit, n - 1)
  }

  lemma {:induction false} BlockedStays(how: Copying, r: Ring, limit: int, n: nat)
    requires !r.CanTake(limit)
    ensures Run(how, r, Gets(limit, n)) == r
  {
    if n > 0 {
      assert Gets(limit, n)[1..] == Gets(limit, n - 1);
      BlockedStays(how, r, limit, n - 1);
    }
  }

  /**
   As many reads as there are messages empty the ring exactly when every message is shorter
   than the reader's limit; the first message that is not blocks the ring for good.
   */
  lemma {:induction false} EmptiedIff(how: Copying, r: Ring, limit: int)
    ensures Run(how, r, Gets(limit, |r.queue|)).queue == [] <==> forall m | m in r.queue :: |m| < limit
    decreases |r.queue|
  {
    var n := |r.queue|;
    if n > 0 {
      if r.CanTake(limit) {
        assert Gets(limit, n)[1..] == Gets(limit, n - 1);
        EmptiedIff(how, Take(r, limit), limit);
        assert forall m :: m in r.queue <==> m == r.queue[0] || m in r.queue[1..];
      } else {
        BlockedStays(how, r, limit, n);
      }
    }
  }
}
