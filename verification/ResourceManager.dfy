/**
 The slot pool of common/resource_manager.h. The pool allocates its objects in one block, so a
 pointer to one of them is its index in the block; any other index stands for a foreign pointer.
 */
module Pools {
  import opened Options
  import opened Bytes

  datatype Pool = Pool(max: nat, free: seq<nat>, inUse: set<nat>) {
    // Every slot of the block is free or in use, never both, and listed once.
    ghost predicate Valid() {
      && (forall i, j | 0 <= i < j < |free| :: free[i] != free[j])
      && (forall s | s in free :: s < max && s !in inUse)
      && (forall s | s in inUse :: s < max)
      && (forall s: nat | s < max :: s in free || s in inUse)
    }
  }

  function Get(p: Pool): Pool {
    if p.free == [] then p else Pool(p.max, p.free[1..], p.inUse + {p.free[0]})
  }

  function Got(p: Pool): Option<nat> {
    if p.free == [] then None else Some(p.free[0])
  }

  function Put(p: Pool, slot: nat): Pool {
    if slot in p.inUse then Pool(p.max, p.free + [slot], p.inUse - {slot}) else p
  }

  datatype PoolOp = GetOp | PutOp(slot: nat)

  function Apply(p: Pool, op: PoolOp): Pool {
    match op
    case GetOp => Get(p)
    case PutOp(slot) => Put(p, slot)
  }

  function Run(p: Pool, ops: seq<PoolOp>): Pool
    decreases |ops|
  {
    if ops == [] then p else Run(Apply(p, ops[0]), ops[1..])
  }

  // How often `slot` was handed out in the run, less how often it was taken back.
  function Outstanding(p: Pool, ops: seq<PoolOp>, slot: nat): int
    decreases |ops|
  {
    if ops == [] then
      0
    else
      (if ops[0].GetOp? && Got(p) == Some(slot) then 1
       else if ops[0] == PutOp(slot) && slot in p.inUse then -1
       else 0)
      + Outstanding(Apply(p, ops[0]), ops[1..], slot)
  }

  lemma {:induction false} ApplyKeeps(p: Pool, op: PoolOp)
    requires p.Valid()
    ensures Apply(p, op).Valid()
  {
    var q := Apply(p, op);
    match op
    case GetOp =>
      assert forall s :: s in p.free <==> (p.free != [] && s == p.free[0]) || (p.free != [] && s in p.free[1..]);
    case PutOp(slot) =>
      assert slot in p.inUse ==> forall s :: s in q.free <==> s in p.free || s == slot;
  }

  /**
   Pool partition: whatever is put back, twice or never having come from the pool, the block stays
   divided between the two lists, and a slot is out exactly when it was handed out once more often
   than it was taken back: it is never held twice.
   */
  lemma {:induction false} NeverHeldTwice(p: Pool, ops: seq<PoolOp>, slot: nat)
    requires p.Valid()
    ensures Run(p, ops).Valid()
    ensures (if slot in p.inUse then 1 else 0) + Outstanding(p, ops, slot)
         == if slot in Run(p, ops).inUse then 1 else 0
    decreases |ops|
  {
    if ops != [] {
      ApplyKeeps(p, ops[0]);
      assert p.free != [] ==> p.free[0] in p.free;
      NeverHeldTwice(Apply(p, ops[0]), ops[1..], slot);
    }
  }

  // ---------- in which order slots go out ----------

  function HandedOut(p: Pool, ops: seq<PoolOp>): seq<nat>
    decreases |ops|
  {
    if ops == [] then [] else
      (if ops[0].GetOp? && Got(p).Some? then [Got(p).value] else []) + HandedOut(Apply(p, ops[0]), ops[1..])
  }

  function TakenBack(p: Pool, ops: seq<PoolOp>): seq<nat>
    decreases |ops|
  {
    if ops == [] then [] else
      (if ops[0].PutOp? && ops[0].slot in p.inUse then [ops[0].slot] else []) + TakenBack(Apply(p, ops[0]), ops[1..])
  }

  /** First back, first out: over every run slots go out in the order in which they came back, after those free before. */
  lemma {:induction false} FirstBackFirstOut(p: Pool, ops: seq<PoolOp>)
    ensures HandedOut(p, ops) + Run(p, ops).free == p.free + TakenBack(p, ops)
    decreases |ops|
  {
    if ops == [] {
      Unit(p.free);
    } else {
      var p' := Apply(p, ops[0]);
      var out, back := HandedOut(p', ops[1..]), TakenBack(p', ops[1..]);
      FirstBackFirstOut(p', ops[1..]);
      Unit(out);
      Unit(back);
      match ops[0]
      case GetOp =>
        if p.free != [] {
          HeadTail(p.free);
          Assoc([p.free[0]], out, Run(p, ops).free);
          Assoc([p.free[0]], p.free[1..], back);
        }
      case PutOp(slot) =>
        if slot in p.inUse {
          Assoc(p.free, [slot], back);
        }
    }
  }

  /** Nothing is handed out exactly when nothing is free, and nothing is taken back but what is in use. */
  lemma {:induction false} RefusedIff(p: Pool, slot: nat)
    ensures Got(p).None? <==> p.free == []
    ensures Put(p, slot) == p <==> slot !in p.inUse
  {
    if slot in p.inUse {
      assert slot !in Put(p, slot).inUse;
    }
  }
}

module ResourceManagers {
  import opened Options
  import opened Pools

  class UserResourceManager<T> {
    var maxNum: int
    // Every key maps to itself; entries that operator[] leaves behind as null count as absent.
    var usingUserList: map<nat, nat>
    var unusedUserList: seq<nat>
    var block: array?<T>

    ghost predicate Valid()
      reads this
    {
      && Abs().Valid()
      && Abs().max == (if block == null then 0 else block.Length)
    }

    ghost function Abs(): Pool
      reads this
    {
      Pool(if block == null then 0 else block.Length, unusedUserList, usingUserList.Keys)
    }

    constructor ()
      ensures Valid() && block == null && unusedUserList == [] && usingUserList == map[]
    {
      maxNum, usingUserList, unusedUserList, block := 0, map[], [], null;
    }

    // Called once. A negative size makes the allocation throw, which Init catches.
    method Init(maxNum: int, blank: T) returns (count: int)
      requires Valid() && block == null && unusedUserList == [] && usingUserList == map[]
      modifies this
      ensures Valid()
      ensures count == |unusedUserList| == if maxNum < 0 then 0 else maxNum
      ensures Abs() == Pool(count, seq(count, i => i), {})
      ensures maxNum >= 0 ==> block != null && fresh(block) && block[..] == seq(maxNum, _ => blank)
    {
      this.maxNum := maxNum;
      if maxNum < 0 {
        return |unusedUserList|;
      }
      var tmpBlock := new T[maxNum](_ => blank);
      block := tmpBlock;
      assert block[..] == seq(maxNum, _ => blank);
      var tmpCount := 0;
      while tmpCount < maxNum
        invariant 0 <= tmpCount <= maxNum
        invariant block == tmpBlock && usingUserList == map[] && block[..] == seq(maxNum, _ => blank)
        invariant unusedUserList == seq(tmpCount, i => i)
      {
        unusedUserList := unusedUserList + [tmpCount];
        tmpCount := tmpCount + 1;
      }
      forall s: nat | s < maxNum ensures s in unusedUserList {
        assert unusedUserList[s] == s;
      }
      return |unusedUserList|;
    }

    method Get() returns (user: Option<nat>)
      requires Valid()
      modifies this`unusedUserList, this`usingUserList
      ensures Valid() && Abs() == Pools.Get(old(Abs())) && user == Got(old(Abs()))
    {
      ApplyKeeps(Abs(), GetOp);
      if |unusedUserList| <= 0 {
        return None;
      }
      var tmpUser := unusedUserList[0];
      unusedUserList := unusedUserList[1..];
      usingUserList := usingUserList[tmpUser := tmpUser];
      assert usingUserList.Keys == old(usingUserList.Keys) + {tmpUser};
      return Some(tmpUser);
    }

    method Put(user: nat) returns (ok: bool)
      requires Valid()
      modifies this`unusedUserList, this`usingUserList
      ensures Valid() && Abs() == Pools.Put(old(Abs()), user) && ok == (user in old(Abs()).inUse)
    {
      ApplyKeeps(Abs(), PutOp(user));
      if user !in usingUserList {
        return false;
      }
      usingUserList := usingUserList - {user};
      assert usingUserList.Keys == old(usingUserList.Keys) - {user};
      unusedUserList := unusedUserList + [user];
      return true;
    }
  }
}
