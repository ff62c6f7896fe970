/**
 The life of client sessions in the gate server, as a state machine: a connection is accepted
 under a fresh key and given a pooled slot, replies look the key up, and a disconnect closes the
 descriptor and then gives the slot back for the next connection.
 */
module Session {
  import opened Bytes
  import opened Options
  import opened Pools

  // The fields of BaseUserInfo and UserInfoEx; `attached` says that server_ptr is not NULL.
  datatype UserInfo = UserInfo(userSock: int, hashKey: int32, userUip: int, userUport: int,
                               attached: bool, validBuffLen: nat)

  const FRESH_USER := UserInfo(-1, 0, 0, 0, false, 0)
  const CLEARED_USER := UserInfo(0, 0, 0, 0, false, 0)

  /**
   What the listener, the user list and the pool know. Slots are indices of the pool's block; those in `closing`
   have lost their descriptor and are still to be released.
   */
  datatype Registry = Registry(
    baseHashKey: int32,
    usingUserMap: map<int32, nat>,
    userList: map<int32, nat>,
    pool: Pool,
    users: seq<UserInfo>,
    closing: set<nat>)
  {
    /** Registry agreement: list, pool and slots describe the same sessions. */
    ghost predicate Agree() {
      && 0 <= baseHashKey
      && pool.Valid() && pool.max == |users|
      && closing <= pool.inUse
      && (forall k | k in userList ::
            1 <= k <= baseHashKey && userList[k] in pool.inUse && users[userList[k]].hashKey == k)
      && (forall s | s in pool.inUse ::
            users[s].attached && users[s].hashKey in userList && userList[users[s].hashKey] == s)
      && (forall s | s in pool.free :: !users[s].attached && users[s].validBuffLen == 0)
    }

    // The listener's own map has the entries of the list, but for those whose slot is being closed.
    ghost predicate Mirrored() {
      && (forall k :: k in usingUserMap <==> k in userList && userList[k] !in closing)
      && (forall k | k in usingUserMap :: usingUserMap[k] == userList[k])
    }
  }

  /** GetUserByHashkey */
  function Lookup(r: Registry, key: int32): Option<nat> {
    if key in r.userList then Some(r.userList[key]) else None
  }

  /** What accept() and the kernel say about a new client. */
  datatype Client = Client(sock: int, ioctlOk: bool, uip: int, uport: int)

  /** Whether an accept gets as far as issuing a key. */
  predicate Usable(c: Client) {
    c.ioctlOk && c.sock > 0
  }

  /** AddUserInfo: refuses a key that is already registered. */
  function AddUser(r: Registry, key: int32, slot: nat): Registry
    requires slot < |r.users|
  {
    if key in r.userList then
      r
    else
      r.(users := r.users[slot := r.users[slot].(hashKey := key)], userList := r.userList[key := slot])
  }

  function Accept(r: Registry, c: Client): Registry
    requires r.pool.Valid() && r.pool.max == |r.users| && (Usable(c) ==> r.baseHashKey < MAX_INT)
  {
    if !Usable(c) then
      r
    else
      var key: int32 := r.baseHashKey + 1;
      var r1 := r.(baseHashKey := key, pool := Get(r.pool));
      match Got(r.pool)
      case None => r1
      case Some(slot) =>
        assert slot in r.pool.free;
        var user := UserInfo(c.sock, key, c.uip, c.uport, true, r.users[slot].validBuffLen);
        AddUser(r1.(users := r.users[slot := user], usingUserMap := r.usingUserMap[key := slot]), key, slot)
  }

  /** The first half of ErrorRead: the listener forgets the key and closes the descriptor. */
  function CloseSock(r: Registry, slot: nat): Registry
    requires slot < |r.users|
  {
    if !r.users[slot].attached then
      r
    else
      r.(usingUserMap := r.usingUserMap - {r.users[slot].hashKey}, closing := r.closing + {slot})
  }

  /** The second half: the list forgets the key, the slot is cleared and goes back to the pool. */
  function ReleaseSlot(r: Registry, slot: nat): Registry
    requires slot < |r.users|
  {
    r.(userList := r.userList - {r.users[slot].hashKey},
       users := r.users[slot := CLEARED_USER],
       pool := Put(r.pool, slot),
       closing := r.closing - {slot})
  }

  function ErrorRead(r: Registry, slot: nat): Registry
    requires slot < |r.users|
  {
    if r.users[slot].attached then ReleaseSlot(CloseSock(r, slot), slot) else r
  }

  /** A read leaves `len` bytes in the slot's receive buffer. */
  function Receive(r: Registry, slot: nat, len: nat): Registry
    requires slot < |r.users|
  {
    r.(users := r.users[slot := r.users[slot].(validBuffLen := len)])
  }

  // ---------- agreement ----------

  /** What an accept that finds a free slot changes, all at once. */
  lemma {:induction false} AcceptEffect(r: Registry, c: Client)
    requires r.Agree() && Usable(c) && r.baseHashKey < MAX_INT
    ensures r.baseHashKey + 1 !in r.userList
    ensures r.pool.free != [] ==>
              var key, slot := r.baseHashKey + 1, r.pool.free[0];
              && slot !in r.pool.inUse && slot < |r.users|
              && Accept(r, c) == Registry(key, r.usingUserMap[key := slot], r.userList[key := slot], Get(r.pool),
                   r.users[slot := UserInfo(c.sock, key, c.uip, c.uport, true, 0)], r.closing)
  {
    if r.pool.free != [] {
      assert r.pool.free[0] in r.pool.free;
    }
  }

  /**
   An accept keeps the records in agreement. Its key is new, so AddUserInfo does not refuse it, and the
   slot starts with an empty receive buffer: nothing of an earlier client's bytes is left in it.
   */
  lemma {:induction false} AcceptAgrees(r: Registry, c: Client)
    requires r.Agree() && (Usable(c) ==> r.baseHashKey < MAX_INT)
    ensures Accept(r, c).Agree()
    ensures Usable(c) ==> r.baseHashKey + 1 !in r.userList
    ensures Usable(c) && r.pool.free != [] ==> Accept(r, c).users[r.pool.free[0]].validBuffLen == 0
  {
    if Usable(c) {
      ApplyKeeps(r.pool, GetOp);
      if r.pool.free != [] {
        AcceptEffect(r, c);
        var key: int32, slot := r.baseHashKey + 1, r.pool.free[0];
        EntryAgrees(r, Accept(r, c), key, slot, UserInfo(c.sock, key, c.uip, c.uport, true, 0));
      }
    }
  }

  lemma {:induction false} EntryAgrees(r: Registry, r': Registry, key: int32, slot: nat, user: UserInfo)
    requires r.Agree() && key == r.baseHashKey + 1 == r'.baseHashKey && r.pool.free != [] && slot == r.pool.free[0]
    requires slot < |r.users| && key !in r.userList && user.attached && user.hashKey == key
    requires r'.pool == Get(r.pool) && r'.pool.Valid() && r'.closing == r.closing
    requires r'.userList == r.userList[key := slot] && r'.users == r.users[slot := user]
    ensures r'.Agree()
  {
    assert slot in r.pool.free;
    assert forall s | s in r.pool.free[1..] :: s in r.pool.free && s != slot;
  }

  lemma {:induction false} CloseAgrees(r: Registry, slot: nat)
    requires r.Agree() && slot < |r.users| && slot !in r.closing
    ensures CloseSock(r, slot).Agree()
  {
    assert slot in r.pool.free || slot in r.pool.inUse;
  }

  lemma {:induction false} ReleaseAgrees(r: Registry, slot: nat)
    requires r.Agree() && slot < |r.users| && slot in r.closing
    ensures ReleaseSlot(r, slot).Agree()
  {
    ApplyKeeps(r.pool, PutOp(slot));
    assert forall s :: s in r.pool.free + [slot] <==> s in r.pool.free || s == slot;
  }

  /** Each half of a disconnect keeps the records in agreement, and so does the whole. */
  lemma {:induction false} ErrorReadAgrees(r: Registry, slot: nat)
    requires r.Agree() && slot < |r.users| && slot !in r.closing
    ensures CloseSock(r, slot).Agree() && ErrorRead(r, slot).Agree()
  {
    CloseAgrees(r, slot);
    if r.users[slot].attached {
      ReleaseAgrees(CloseSock(r, slot), slot);
    }
  }

  /** A second error event on a slot that is not serving anyone changes nothing. */
  lemma {:induction false} ReleasedStaysReleased(r: Registry, slot: nat)
    requires r.Agree() && slot < |r.users|
    ensures slot !in r.pool.inUse ==> ErrorRead(r, slot) == r
    ensures slot !in ErrorRead(r, slot).pool.inUse
    ensures ErrorRead(ErrorRead(r, slot), slot) == ErrorRead(r, slot)
  {
    assert slot in r.pool.free || slot in r.pool.inUse;
  }

  /**
   An accept whose descriptor could not be made non-blocking, and was closed, or is not positive, changes nothing;
   every other one uses up a key.
   */
  lemma {:induction false} AcceptUsesKeyIff(r: Registry, c: Client)
    requires r.Agree() && r.baseHashKey < MAX_INT
    ensures !c.ioctlOk || c.sock <= 0 ==> Accept(r, c) == r
    ensures c.ioctlOk && c.sock > 0 ==> Accept(r, c).baseHashKey == r.baseHashKey + 1
    ensures Accept(r, c) == r <==> !c.ioctlOk || c.sock <= 0
  {
    if Usable(c) {
      AcceptEffect(r, c);
    }
  }

  // ---------- which connection a key belongs to ----------

  datatype Event = Connect(client: Client) | Close(slot: nat) | Release(slot: nat) | Read(slot: nat, len: nat)

  // No two keys were issued to the same connection, and none to one still to come.
  ghost predicate KeysDiffer(acceptedAs: map<int32, nat>, clock: nat) {
    && (forall k | k in acceptedAs :: acceptedAs[k] < clock)
    && (forall j, k | j in acceptedAs && k in acceptedAs && acceptedAs[j] == acceptedAs[k] :: j == k)
  }

  // A registered key names the slot that serves the connection the key was issued to, until its descriptor is closed.
  ghost predicate Listed(userList: map<int32, nat>, closing: set<nat>, serving: map<nat, nat>, acceptedAs: map<int32, nat>) {
    forall k | k in userList && k in acceptedAs && userList[k] !in closing ::
      userList[k] in serving && serving[userList[k]] == acceptedAs[k]
  }

  // The object holds the descriptor and address of this client.
  predicate Holds(user: UserInfo, c: Client) {
    user.userSock == c.sock && user.userUip == c.uip && user.userUport == c.uport
  }

  ghost predicate ClientsMatch(users: seq<UserInfo>, serving: map<nat, nat>, clientOf: map<nat, Client>, clock: nat) {
    && (forall s | s in serving ::
          s < |users| && serving[s] in clientOf && Holds(users[s], clientOf[serving[s]]))
    && (forall c | c in clientOf :: c < clock)
  }

  // No two served connections share a descriptor.
  ghost predicate SocketsDiffer(users: seq<UserInfo>, serving: map<nat, nat>) {
    forall s, t | s in serving && t in serving && s < |users| && t < |users| && users[s].userSock == users[t].userSock :: s == t
  }

  /**
   The registry with its history: every accepted connection is identified by the time of its
   accept, whatever key, slot or descriptor it was given.
   */
  datatype History = History(
    reg: Registry,
    clock: nat,
    acceptedAs: map<int32, nat>,  // key -> the connection that got it
    serving: map<nat, nat>,       // slot -> the connection it serves, as long as its descriptor is open
    clientOf: map<nat, Client>)   // connection -> what accept() said of it
  {
    ghost predicate Valid() {
      reg.Agree() && Matches()
    }

    // The registry says who is served, and is right.
    ghost predicate Matches() {
      && serving.Keys == reg.pool.inUse - reg.closing
      && (forall k | k in acceptedAs :: k <= reg.baseHashKey && acceptedAs[k] in clientOf)
      && (forall k | k in reg.userList :: k in acceptedAs)
      && KeysDiffer(acceptedAs, clock)
      && Listed(reg.userList, reg.closing, serving, acceptedAs)
      && ClientsMatch(reg.users, serving, clientOf, clock)
      && SocketsDiffer(reg.users, serving)
    }

    // Whether the connection accepted under `key` is served, and by which slot.
    ghost predicate Serves(slot: nat, key: int32) {
      key in acceptedAs && slot in serving && serving[slot] == acceptedAs[key]
    }
  }

  /**
   The key counter must not pass its maximum, and the kernel hands out a descriptor that no open connection has.
   Error events are for slots of the pool; a slot's own worker runs the two halves one after the other and
   reads nothing in between, while other threads go on.
   */
  ghost predicate CanStep(h: History, e: Event) {
    match e
    case Connect(c) => Usable(c) ==> h.reg.baseHashKey < MAX_INT && NewDescriptor(h, c.sock)
    case Close(slot) => slot < |h.reg.users| && slot !in h.reg.closing
    case Release(slot) => slot < |h.reg.users| && slot in h.reg.closing
    case Read(slot, _) => slot < |h.reg.users| && h.reg.users[slot].attached && slot !in h.reg.closing
  }

  ghost predicate NewDescriptor(h: History, sock: int) {
    forall s | s in h.serving && s < |h.reg.users| :: h.reg.users[s].userSock != sock
  }

  ghost function Step(h: History, e: Event): History
    requires h.reg.Agree() && CanStep(h, e)
  {
    match e
    case Connect(c) =>
      var h1 := h.(reg := Accept(h.reg, c), clock := h.clock + 1);
      if Usable(c) && h.reg.pool.free != [] then
        h1.(acceptedAs := h.acceptedAs[h.reg.baseHashKey + 1 := h.clock],
            serving := h.serving[h.reg.pool.free[0] := h.clock],
            clientOf := h.clientOf[h.clock := c])
      else
        h1
    case Close(slot) =>
      h.(reg := CloseSock(h.reg, slot), clock := h.clock + 1, serving := h.serving - {slot})
    case Release(slot) =>
      h.(reg := ReleaseSlot(h.reg, slot), clock := h.clock + 1)
    case Read(slot, len) =>
      h.(reg := Receive(h.reg, slot, len), clock := h.clock + 1)
  }

  lemma {:induction false} NewKeyDiffers(acceptedAs: map<int32, nat>, key: int32, clock: nat)
    requires key !in acceptedAs && KeysDiffer(acceptedAs, clock)
    ensures KeysDiffer(acceptedAs[key := clock], clock + 1)
  {}

  lemma {:induction false} NewKeyListed(userList: map<int32, nat>, closing: set<nat>, serving: map<nat, nat>, acceptedAs: map<int32, nat>,
                     key: int32, slot: nat, clock: nat)
    requires Listed(userList, closing, serving, acceptedAs) && key !in userList
    requires forall k | k in userList :: userList[k] != slot
    ensures Listed(userList[key := slot], closing, serving[slot := clock], acceptedAs[key := clock])
  {}

  lemma {:induction false} NewClientMatches(users: seq<UserInfo>, user: UserInfo, serving: map<nat, nat>, clientOf: map<nat, Client>,
                                            slot: nat, clock: nat, c: Client)
    requires ClientsMatch(users, serving, clientOf, clock) && slot !in serving && slot < |users| && Holds(user, c)
    ensures ClientsMatch(users[slot := user], serving[slot := clock], clientOf[clock := c], clock + 1)
  {}

  lemma {:induction false} NewSocketDiffers(users: seq<UserInfo>, user: UserInfo, serving: map<nat, nat>, slot: nat, clock: nat)
    requires SocketsDiffer(users, serving) && slot < |users|
    requires forall s | s in serving && s < |users| :: users[s].userSock != user.userSock
    ensures SocketsDiffer(users[slot := user], serving[slot := clock])
  {}

  lemma {:induction false} Connected(h: History, h': History, key: int32, slot: nat, user: UserInfo, c: Client)
    requires h.Matches() && key == h.reg.baseHashKey + 1 == h'.reg.baseHashKey && NewDescriptor(h, user.userSock)
    requires slot < |h.reg.users| && slot !in h.reg.pool.inUse && key !in h.reg.userList
    requires forall k | k in h.reg.userList :: h.reg.userList[k] in h.reg.pool.inUse
    requires h'.reg.userList == h.reg.userList[key := slot] && h'.reg.users == h.reg.users[slot := user]
    requires h'.reg.pool.inUse == h.reg.pool.inUse + {slot} && h'.reg.closing == h.reg.closing <= h.reg.pool.inUse
    requires h'.acceptedAs == h.acceptedAs[key := h.clock] && h'.serving == h.serving[slot := h.clock]
    requires h'.clientOf == h.clientOf[h.clock := c] && h'.clock == h.clock + 1 && Holds(user, c)
    ensures h'.Matches()
  {
    NewKeyDiffers(h.acceptedAs, key, h.clock);
    NewKeyListed(h.reg.userList, h.reg.closing, h.serving, h.acceptedAs, key, slot, h.clock);
    NewClientMatches(h.reg.users, user, h.serving, h.clientOf, slot, h.clock, c);
    NewSocketDiffers(h.reg.users, user, h.serving, slot, h.clock);
  }

  lemma {:induction false} ConnectMatches(h: History, c: Client)
    requires h.Valid() && CanStep(h, Connect(c))
    ensures Step(h, Connect(c)).Matches()
  {
    if Usable(c) && h.reg.pool.free != [] {
      AcceptEffect(h.reg, c);
      var key: int32, slot := h.reg.baseHashKey + 1, h.reg.pool.free[0];
      Connected(h, Step(h, Connect(c)), key, slot, UserInfo(c.sock, key, c.uip, c.uport, true, 0), c);
    }
  }

  lemma {:induction false} ConnectValid(h: History, c: Client)
    requires h.Valid() && CanStep(h, Connect(c))
    ensures Step(h, Connect(c)).Valid()
  {
    ConnectMatches(h, c);
    AcceptAgrees(h.reg, c);
  }

  lemma {:induction false} CloseValid(h: History, slot: nat)
    requires h.Valid() && CanStep(h, Close(slot))
    ensures Step(h, Close(slot)).Valid()
  {
    CloseAgrees(h.reg, slot);
    assert slot in h.reg.pool.free || slot in h.reg.pool.inUse;
  }

  lemma {:induction false} UnlistedKey(userList: map<int32, nat>, closing: set<nat>, serving: map<nat, nat>, acceptedAs: map<int32, nat>,
                    key: int32, slot: nat)
    requires Listed(userList, closing, serving, acceptedAs) && forall k | k in userList && userList[k] == slot :: k == key
    ensures Listed(userList - {key}, closing - {slot}, serving, acceptedAs)
  {}

  lemma {:induction false} ClearedSlot(users: seq<UserInfo>, user: UserInfo, serving: map<nat, nat>, clientOf: map<nat, Client>, slot: nat, clock: nat)
    requires ClientsMatch(users, serving, clientOf, clock) && SocketsDiffer(users, serving)
    requires slot !in serving && slot < |users|
    ensures ClientsMatch(users[slot := user], serving, clientOf, clock + 1) && SocketsDiffer(users[slot := user], serving)
  {}

  lemma {:induction false} ReleaseMatches(h: History, slot: nat)
    requires h.Valid() && CanStep(h, Release(slot))
    ensures Step(h, Release(slot)).Matches()
  {
    var key := h.reg.users[slot].hashKey;
    UnlistedKey(h.reg.userList, h.reg.closing, h.serving, h.acceptedAs, key, slot);
    ClearedSlot(h.reg.users, CLEARED_USER, h.serving, h.clientOf, slot, h.clock);
    ReleaseIs(h, Step(h, Release(slot)), key, slot);
  }

  lemma {:induction false} ReleaseIs(h: History, h': History, key: int32, slot: nat)
    requires h.Matches() && slot < |h.reg.users| && slot in h.reg.closing && h'.reg == ReleaseSlot(h.reg, slot)
    requires h.reg.users[slot].hashKey == key && h.reg.closing <= h.reg.pool.inUse
    requires h' == h.(reg := h'.reg, clock := h.clock + 1)
    requires Listed(h.reg.userList - {key}, h.reg.closing - {slot}, h.serving, h.acceptedAs)
    requires ClientsMatch(h'.reg.users, h.serving, h.clientOf, h.clock + 1) && SocketsDiffer(h'.reg.users, h.serving)
    ensures h'.Matches()
  {}

  lemma {:induction false} ReadValid(h: History, slot: nat, len: nat)
    requires h.Valid() && CanStep(h, Read(slot, len))
    ensures Step(h, Read(slot, len)).Valid()
  {
    assert slot in h.reg.pool.inUse;
  }

  lemma {:induction false} StepGrows(h: History, e: Event)
    requires h.reg.Agree() && CanStep(h, e)
    ensures |Step(h, e).reg.users| == |h.reg.users|
    ensures Step(h, e).reg.baseHashKey == h.reg.baseHashKey + if e.Connect? && Usable(e.client) then 1 else 0
  {
    if e.Connect? && Usable(e.client) {
      AcceptEffect(h.reg, e.client);
    }
  }

  lemma {:induction false} StepValid(h: History, e: Event)
    requires h.Valid() && CanStep(h, e)
    ensures Step(h, e).Valid()
  {
    match e
    case Connect(c) => ConnectValid(h, c);
    case Close(slot) => CloseValid(h, slot);
    case Release(slot) =>
      ReleaseMatches(h, slot);
      ReleaseAgrees(h.reg, slot);
    case Read(slot, len) => ReadValid(h, slot, len);
  }

  /**
   In every valid state a key finds exactly the slot that serves the connection accepted under it, but for
   slots between the two halves of a disconnect, which are still found.
   */
  lemma {:induction false} LookupFindsOwner(h: History, key: int32, slot: nat)
    requires h.Valid()
    ensures Lookup(h.reg, key) == Some(slot) && slot !in h.reg.closing <==> h.Serves(slot, key)
  {
    if h.Serves(slot, key) {
      assert h.reg.users[slot].hashKey in h.acceptedAs;
    }
  }

  // ---------- whole runs ----------

  ghost predicate CanRun(h: History, es: seq<Event>)
    requires h.Valid()
    decreases |es|
  {
    es == [] || (CanStep(h, es[0]) && (StepValid(h, es[0]); CanRun(Step(h, es[0]), es[1..])))
  }

  ghost function Run(h: History, es: seq<Event>): (r: History)
    requires h.Valid() && CanRun(h, es)
    ensures r.Valid()
    decreases |es|
  {
    if es == [] then h else (StepValid(h, es[0]); Run(Step(h, es[0]), es[1..]))
  }

  /** How many accepts of the run issue a key. */
  function UsableAccepts(es: seq<Event>): nat {
    if es == [] then 0 else (if es[0].Connect? && Usable(es[0].client) then 1 else 0) + UsableAccepts(es[1..])
  }

  /** Only accepts that issue a key use up the counter. */
  lemma {:induction false} KeysIssued(h: History, es: seq<Event>)
    requires h.Valid() && CanRun(h, es)
    ensures Run(h, es).reg.baseHashKey == h.reg.baseHashKey + UsableAccepts(es) <= MAX_INT
    decreases |es|
  {
    if es != [] {
      StepValid(h, es[0]);
      StepGrows(h, es[0]);
      KeysIssued(Step(h, es[0]), es[1..]);
    }
  }

  lemma {:induction false} AcceptMirrors(r: Registry, c: Client)
    requires r.Agree() && r.Mirrored() && (Usable(c) ==> r.baseHashKey < MAX_INT)
    ensures Accept(r, c).Mirrored()
  {
    if Usable(c) {
      AcceptEffect(r, c);
      assert r.pool.free != [] ==> r.pool.free[0] in r.pool.free;
    }
  }

  lemma {:induction false} CloseMirrors(r: Registry, slot: nat)
    requires r.Agree() && r.Mirrored() && slot < |r.users|
    ensures CloseSock(r, slot).Mirrored()
  {
    assert slot in r.pool.free || slot in r.pool.inUse;
  }

  lemma {:induction false} ReleaseMirrors(r: Registry, slot: nat)
    requires r.Agree() && r.Mirrored() && slot < |r.users| && slot in r.closing
    ensures ReleaseSlot(r, slot).Mirrored()
  {
    assert slot in r.pool.inUse;
  }

  lemma {:induction false} StepMirrors(h: History, e: Event)
    requires h.Valid() && CanStep(h, e) && h.reg.Mirrored()
    ensures Step(h, e).reg.Mirrored()
  {
    match e
    case Connect(c) => AcceptMirrors(h.reg, c);
    case Close(slot) => CloseMirrors(h.reg, slot);
    case Release(slot) => ReleaseMirrors(h.reg, slot);
    case Read(_, _) =>
  }

  /** Over every run the listener's map has exactly the sessions of the user list that are not being closed. */
  lemma {:induction false} RunMirrors(h: History, es: seq<Event>)
    requires h.Valid() && CanRun(h, es) && h.reg.Mirrored()
    ensures Run(h, es).reg.Mirrored()
    decreases |es|
  {
    if es != [] {
      StepValid(h, es[0]);
      StepMirrors(h, es[0]);
      RunMirrors(Step(h, es[0]), es[1..]);
    }
  }

  lemma {:induction false} BlockStays(h: History, es: seq<Event>)
    requires h.Valid() && CanRun(h, es)
    ensures |Run(h, es).reg.users| == |h.reg.users|
    decreases |es|
  {
    if es != [] {
      StepValid(h, es[0]);
      StepGrows(h, es[0]);
      BlockStays(Step(h, es[0]), es[1..]);
    }
  }

  /** One step leaves every other session alone. */
  lemma {:induction false} StepKeepsLookup(h: History, e: Event, key: int32)
    requires h.Valid() && CanStep(h, e) && key <= h.reg.baseHashKey
    ensures var found := Lookup(h.reg, key);
            Lookup(Step(h, e).reg, key) ==
            if found.Some? && e == Release(found.value) then None else found
  {
    match e
    case Connect(c) =>
      if Usable(c) {
        AcceptEffect(h.reg, c);
      }
    case Close(_) =>
    case Release(slot) =>
      assert slot in h.reg.pool.inUse;
    case Read(_, _) =>
  }

  /**
   Stale-key safety: a key already issued keeps finding the slot it found until that slot is released; from then
   on it finds nothing, however often slots are given to later connections.
   */
  lemma {:induction false} KeyNeverRebinds(h: History, es: seq<Event>, key: int32)
    requires h.Valid() && CanRun(h, es) && key <= h.reg.baseHashKey
    ensures var found := Lookup(h.reg, key);
            Lookup(Run(h, es).reg, key) ==
            if found.Some? && Release(found.value) in es then None else found
    decreases |es|
  {
    if es != [] {
      StepValid(h, es[0]);
      StepGrows(h, es[0]);
      var found := Lookup(h.reg, key);
      StepKeepsLookup(h, es[0], key);
      KeyNeverRebinds(Step(h, es[0]), es[1..], key);
      if found.Some? {
        InCons(es, Release(found.value));
      }
    }
  }

  lemma {:induction false} StepKeepsIssued(h: History, e: Event, key: int32)
    requires h.Valid() && CanStep(h, e) && key in h.acceptedAs
    ensures var h' := Step(h, e);
            && key in h'.acceptedAs && h'.acceptedAs[key] == h.acceptedAs[key]
            && h.acceptedAs[key] in h'.clientOf && h'.clientOf[h.acceptedAs[key]] == h.clientOf[h.acceptedAs[key]]
  {}

  /** The connection a key was issued to, and its descriptor, are settled for good. */
  lemma {:induction false} IssuedForGood(h: History, es: seq<Event>, key: int32)
    requires h.Valid() && CanRun(h, es) && key in h.acceptedAs
    ensures var h' := Run(h, es);
            && key in h'.acceptedAs && h'.acceptedAs[key] == h.acceptedAs[key]
            && h'.clientOf[h.acceptedAs[key]] == h.clientOf[h.acceptedAs[key]]
    decreases |es|
  {
    if es != [] {
      StepValid(h, es[0]);
      StepKeepsIssued(h, es[0], key);
      IssuedForGood(Step(h, es[0]), es[1..], key);
    }
  }

  lemma {:induction false} InCons(es: seq<Event>, e: Event)
    requires es != []
    ensures e in es <==> e == es[0] || e in es[1..]
  {
    assert es == [es[0]] + es[1..];
  }

  // No step but the closing of its slot ends the service of a key already issued, and none starts it.
  lemma {:induction false} StepServes(h: History, e: Event, key: int32, slot: nat)
    requires h.Valid() && CanStep(h, e) && key in h.acceptedAs
    ensures Step(h, e).Serves(slot, key) <==> h.Serves(slot, key) && e != Close(slot)
  {
    StepKeepsIssued(h, e, key);
  }

  /** A slot serves the connection of a key already issued exactly if it did and its descriptor was not closed since. */
  lemma {:induction false} ServesUntilClosed(h: History, es: seq<Event>, key: int32, slot: nat)
    requires h.Valid() && CanRun(h, es) && key in h.acceptedAs
    ensures Run(h, es).Serves(slot, key) <==> h.Serves(slot, key) && Close(slot) !in es
    decreases |es|
  {
    if es != [] {
      StepValid(h, es[0]);
      StepServes(h, es[0], key, slot);
      StepKeepsIssued(h, es[0], key);
      ServesUntilClosed(Step(h, es[0]), es[1..], key, slot);
      InCons(es, Close(slot));
    }
  }

  // What the last read of the slot left buffered, or `was` if there is none.
  function LastLeft(es: seq<Event>, slot: nat, was: nat): nat {
    if es == [] then was else LastLeft(es[1..], slot, if es[0].Read? && es[0].slot == slot then es[0].len else was)
  }

  lemma {:induction false} StepBuffer(h: History, e: Event, key: int32, slot: nat)
    requires h.Valid() && CanStep(h, e) && h.Serves(slot, key) && e != Close(slot)
    ensures slot < |h.reg.users| && slot < |Step(h, e).reg.users|
    ensures Step(h, e).reg.users[slot].validBuffLen == LastLeft([e], slot, h.reg.users[slot].validBuffLen)
  {
    match e
    case Connect(c) =>
      if Usable(c) {
        AcceptEffect(h.reg, c);
      }
    case Close(_) =>
    case Release(_) =>
    case Read(_, _) =>
  }

  /**
   While a connection is served its receive buffer holds what its own last read left: neither other connections'
   reads nor the coming and going of slots change it.
   */
  lemma {:induction false} BufferIsItsOwn(h: History, es: seq<Event>, key: int32, slot: nat)
    requires h.Valid() && CanRun(h, es) && h.Serves(slot, key) && Close(slot) !in es
    ensures slot < |h.reg.users| && slot < |Run(h, es).reg.users|
    ensures Run(h, es).reg.users[slot].validBuffLen == LastLeft(es, slot, h.reg.users[slot].validBuffLen)
    decreases |es|
  {
    if es != [] {
      assert es[0] in es;
      StepValid(h, es[0]);
      StepBuffer(h, es[0], key, slot);
      StepServes(h, es[0], key, slot);
      StepKeepsIssued(h, es[0], key);
      BufferIsItsOwn(Step(h, es[0]), es[1..], key, slot);
    }
  }

  ghost predicate LeadsTo(h: History, es: seq<Event>, end: History)
    requires h.Valid()
  {
    CanRun(h, es) && end == Run(h, es)
  }

  lemma {:induction false} RunAppend(h: History, es1: seq<Event>, es2: seq<Event>)
    requires h.Valid() && CanRun(h, es1) && CanRun(Run(h, es1), es2)
    ensures CanRun(h, es1 + es2) && Run(h, es1 + es2) == Run(Run(h, es1), es2)
    decreases |es1|
  {
    if es1 == [] {
      assert es1 + es2 == es2;
    } else {
      StepValid(h, es1[0]);
      RunAppend(Step(h, es1[0]), es1[1..], es2);
      DropAppend(es1, es2, 1);
    }
  }

  lemma {:induction false} RunOne(h: History, e: Event)
    requires h.Valid() && CanStep(h, e)
    ensures CanRun(h, [e]) && Run(h, [e]) == Step(h, e)
  {
    StepValid(h, e);
    assert [e][1..] == [];
    assert Run(Step(h, e), []) == Step(h, e);
  }

  lemma {:induction false} Listing(e1: Event, e2: Event, e3: Event)
    ensures [e1] + [e2] == [e1, e2] && [e1, e2] + [e3] == [e1, e2, e3]
  {}

  // One more step of a run.
  lemma {:induction false} Then(h: History, es: seq<Event>, mid: History, e: Event) returns (all: seq<Event>, end: History)
    requires h.Valid() && LeadsTo(h, es, mid) && CanStep(mid, e)
    ensures all == es + [e] && end == Step(mid, e) && LeadsTo(h, all, end)
  {
    RunOne(mid, e);
    RunAppend(h, es, [e]);
    all, end := es + [e], Step(mid, e);
  }

  // ---------- replies ----------

  /**
   The descriptor that a reader finds for `key` when it looks the key up in one state of the list and reads
   the slot's object in a later one: the lock is released in between (gate_server/rs_processor.cpp:107-110).
   */
  function SockFor(userList: map<int32, nat>, users: seq<UserInfo>, key: int32): Option<int> {
    if key in userList && userList[key] < |users| then Some(users[userList[key]].userSock) else None
  }

  lemma {:induction false} DescriptorStays(h: History, es: seq<Event>, key: int32, slot: nat)
    requires h.Valid() && CanRun(h, es) && h.Serves(slot, key) && Run(h, es).Serves(slot, key)
    ensures slot < |h.reg.users| && slot < |Run(h, es).reg.users|
    ensures Run(h, es).reg.users[slot].userSock == h.reg.users[slot].userSock == h.clientOf[h.acceptedAs[key]].sock
    ensures Holds(Run(h, es).reg.users[slot], h.clientOf[h.acceptedAs[key]])
  {
    IssuedForGood(h, es, key);
  }

  // Some slot serves the connection of `key`, and has descriptor `sock`.
  ghost predicate Gets(h: History, sock: int, key: int32) {
    exists s: nat {:trigger h.Serves(s, key)} :: h.Serves(s, key) && s < |h.reg.users| && h.reg.users[s].userSock == sock
  }

  // Nobody else has this descriptor.
  ghost predicate OnlyServes(h: History, sock: int, key: int32) {
    forall s | s in h.serving && s < |h.reg.users| && h.reg.users[s].userSock == sock :: h.Serves(s, key)
  }

  /**
   Where a reply ends up. The reader looks the key up, reads the descriptor of the slot it found after a run
   es1 of other threads' steps, and writes after another run es2. The write reaches the connection the
   key was issued to, and no other, exactly when the slot's descriptor was neither closed at the look
   nor in between; otherwise that connection is gone and the write is for whoever has the descriptor by then.
   */
  lemma {:induction false} ReplyReachesOwnerIff(h: History, es1: seq<Event>, es2: seq<Event>, key: int32, slot: nat)
    requires h.Valid() && CanRun(h, es1) && CanRun(Run(h, es1), es2) && Lookup(h.reg, key) == Some(slot)
    requires slot < |Run(h, es1).reg.users|
    ensures var sock, end := Run(h, es1).reg.users[slot].userSock, Run(Run(h, es1), es2);
            var open := slot !in h.reg.closing && Close(slot) !in es1 + es2;
            && (Gets(end, sock, key) <==> open)
            && (open ==> OnlyServes(end, sock, key))
            && (!open ==> forall s: nat :: !end.Serves(s, key))
  {
    var mid := Run(h, es1);
    var end := Run(mid, es2);
    OwnerAtWrite(h, es1, mid, es2, end, key, slot);
    if end.Serves(slot, key) {
      DescriptorStays(mid, es2, key, slot);
    }
  }

  // Who serves the key's connection at the write.
  lemma {:induction false} OwnerAtWrite(h: History, es1: seq<Event>, mid: History, es2: seq<Event>, end: History,
                                        key: int32, slot: nat)
    requires h.Valid() && LeadsTo(h, es1, mid) && mid.Valid() && LeadsTo(mid, es2, end) && Lookup(h.reg, key) == Some(slot)
    ensures forall s: nat :: end.Serves(s, key) <==> (s == slot && slot !in h.reg.closing && Close(slot) !in es1 + es2)
    ensures end.Serves(slot, key) ==> mid.Serves(slot, key)
  {
    IssuedForGood(h, es1, key);
    forall s: nat ensures end.Serves(s, key) <==> (s == slot && slot !in h.reg.closing && Close(slot) !in es1 + es2)
                  ensures end.Serves(s, key) ==> mid.Serves(s, key)
    {
      LookupFindsOwner(h, key, s);
      ServesUntilClosed(h, es1, key, s);
      ServesUntilClosed(mid, es2, key, s);
    }
  }

  /**
   A late reply: at any time after a key was issued, looking it up finds nothing, and then nobody is served under
   it, or a slot whose descriptor, read and written to at once, reaches the connection accepted under
   the key, and no other, exactly unless the slot is between the two halves of a disconnect.
   */
  lemma {:induction false} LateReply(h: History, es: seq<Event>, key: int32)
    requires h.Valid() && CanRun(h, es) && key in h.acceptedAs
    ensures var later := Run(h, es);
            match Lookup(later.reg, key)
            case None => SockFor(later.reg.userList, later.reg.users, key) == None && forall slot :: !later.Serves(slot, key)
            case Some(slot) =>
              && slot < |later.reg.users|
              && var sock := later.reg.users[slot].userSock;
              && SockFor(later.reg.userList, later.reg.users, key) == Some(sock)
              && (Gets(later, sock, key) <==> slot !in later.reg.closing)
              && (slot !in later.reg.closing ==>
                    && h.acceptedAs[key] in later.clientOf && sock == later.clientOf[h.acceptedAs[key]].sock
                    && Holds(later.reg.users[slot], later.clientOf[h.acceptedAs[key]])
                    && OnlyServes(later, sock, key))
  {
    var later := Run(h, es);
    IssuedForGood(h, es, key);
    forall slot: nat ensures Lookup(later.reg, key) == Some(slot) && slot !in later.reg.closing <==> later.Serves(slot, key) {
      LookupFindsOwner(later, key, slot);
    }
    if key in later.reg.userList {
      assert Lookup(later.reg, key) == Some(later.reg.userList[key]);
    }
  }

  /** The start: nobody connected, every slot free. */
  ghost function Start(max: nat): (h: History)
    ensures h.Valid()
  {
    var free := seq(max, i => i);
    assert forall s: nat | s < max :: s in free by {
      forall s: nat | s < max ensures s in free { assert free[s] == s; }
    }
    History(Registry(0, map[], map[], Pool(max, free, {}), seq(max, _ => FRESH_USER), {}), 0, map[], map[], map[])
  }

  lemma {:induction false} Placed(h: History, c: Client)
    requires h.reg.Agree() && CanStep(h, Connect(c)) && Usable(c) && h.reg.pool.free != []
    ensures var h', key, slot := Step(h, Connect(c)), h.reg.baseHashKey + 1, h.reg.pool.free[0];
            && h'.reg.baseHashKey == key && h'.reg.pool == Get(h.reg.pool)
            && slot < |h'.reg.users| && h'.reg.users[slot].userSock == c.sock
            && key in h'.acceptedAs && h'.acceptedAs[key] == h.clock
            && h'.serving == h.serving[slot := h.clock]
  {
    AcceptEffect(h.reg, c);
  }

  lemma {:induction false} Closed(h: History, slot: nat)
    requires h.reg.Agree() && slot in h.reg.pool.inUse && slot !in h.reg.closing
    ensures slot < |h.reg.users|
    ensures var h' := Step(h, Close(slot));
            && h'.reg.baseHashKey == h.reg.baseHashKey && h'.reg.userList == h.reg.userList && h'.reg.pool == h.reg.pool
            && h'.reg.users == h.reg.users && h'.reg.closing == h.reg.closing + {slot}
            && h'.serving == h.serving - {slot}
  {}

  lemma {:induction false} ClosedIsGone(h: History, key: int32, slot: nat)
    requires h.Valid() && Lookup(h.reg, key) == Some(slot) && CanStep(h, Close(slot))
    ensures key in Step(h, Close(slot)).acceptedAs && forall s: nat :: !Step(h, Close(slot)).Serves(s, key)
  {
    StepKeepsIssued(h, Close(slot), key);
    forall s: nat ensures !Step(h, Close(slot)).Serves(s, key) {
      StepServes(h, Close(slot), key, s);
      LookupFindsOwner(h, key, s);
    }
  }

  lemma {:induction false} StaysGone(h: History, e: Event, key: int32)
    requires h.Valid() && CanStep(h, e) && key in h.acceptedAs && forall s: nat :: !h.Serves(s, key)
    ensures key in Step(h, e).acceptedAs && forall s: nat :: !Step(h, e).Serves(s, key)
  {
    StepKeepsIssued(h, e, key);
    forall s: nat ensures !Step(h, e).Serves(s, key) {
      StepServes(h, e, key, s);
    }
  }

  // The slot's connection is gone and the slot is the only free one, for the connection to come.
  ghost predicate Vacant(h: History, key: int32, slot: nat, keys: int, sock: int) {
    && key in h.acceptedAs && (forall s: nat :: !h.Serves(s, key))
    && h.reg.pool.free == [slot] && h.reg.baseHashKey == keys && NewDescriptor(h, sock)
  }

  lemma {:induction false} Vacated(h: History, key: int32, slot: nat, sock: int) returns (es: seq<Event>, end: History)
    requires h.Valid() && Lookup(h.reg, key) == Some(slot) && slot !in h.reg.closing && h.reg.pool.free == []
    requires NewDescriptor(h, sock)
    ensures es == [Close(slot), Release(slot)] && LeadsTo(h, es, end)
    ensures Vacant(end, key, slot, h.reg.baseHashKey, sock)
  {
    var es1, h1 := ClosedFirst(h, key, slot, sock);
    ReleasedVacant(h1, key, slot, sock);
    es, end := Then(h, es1, h1, Release(slot));
    Listing(Close(slot), Release(slot), Release(slot));
  }

  lemma {:induction false} ClosedFirst(h: History, key: int32, slot: nat, sock: int) returns (es: seq<Event>, h1: History)
    requires h.Valid() && Lookup(h.reg, key) == Some(slot) && slot !in h.reg.closing && NewDescriptor(h, sock)
    ensures es == [Close(slot)] && LeadsTo(h, es, h1) && h1.Valid() && slot < |h1.reg.users| && slot in h1.reg.closing
    ensures h1.reg.pool == h.reg.pool && h1.reg.baseHashKey == h.reg.baseHashKey
    ensures key in h1.acceptedAs && (forall s: nat :: !h1.Serves(s, key)) && NewDescriptor(h1, sock)
  {
    Closed(h, slot);
    RunOne(h, Close(slot));
    ClosedIsGone(h, key, slot);
    es, h1 := [Close(slot)], Step(h, Close(slot));
  }

  lemma {:induction false} ReleasedVacant(h: History, key: int32, slot: nat, sock: int)
    requires h.Valid() && slot < |h.reg.users| && slot in h.reg.closing && h.reg.pool.free == []
    requires key in h.acceptedAs && (forall s: nat :: !h.Serves(s, key)) && NewDescriptor(h, sock)
    ensures Vacant(Step(h, Release(slot)), key, slot, h.reg.baseHashKey, sock)
  {
    Released(h, slot);
    StaysGone(h, Release(slot), key);
  }

  lemma {:induction false} Occupied(h: History, key: int32, slot: nat, next: int32, c: Client)
    requires h.Valid() && Vacant(h, key, slot, next - 1, c.sock) && Usable(c)
    ensures CanStep(h, Connect(c))
    ensures var later := Step(h, Connect(c));
            && slot < |later.reg.users| && later.reg.users[slot].userSock == c.sock
            && later.Serves(slot, next) && !Gets(later, c.sock, key)
  {
    Placed(h, c);
    StaysGone(h, Connect(c), key);
  }

  /**
   A reply that goes astray because it is late. In any state in which `key` finds an open slot and no other is
   free: if that slot is closed and released and the next client comes before the reader reads the
   descriptor of the slot it found, the reply goes to the next client.
   */
  lemma {:induction false} StaleReply(h: History, key: int32, slot: nat, c: Client)
    returns (es: seq<Event>, later: History, next: int32)
    requires h.Valid() && Lookup(h.reg, key) == Some(slot) && slot !in h.reg.closing && h.reg.pool.free == []
    requires Usable(c) && h.reg.baseHashKey < MAX_INT && NewDescriptor(h, c.sock)
    ensures es == [Close(slot), Release(slot), Connect(c)] && LeadsTo(h, es, later)
    ensures slot < |later.reg.users| && later.reg.users[slot].userSock == c.sock
    ensures next == h.reg.baseHashKey + 1 && later.Serves(slot, next) && !Gets(later, c.sock, key)
  {
    var es1, mid := Vacated(h, key, slot, c.sock);
    next := h.reg.baseHashKey + 1;
    Occupied(mid, key, slot, next, c);
    es, later := Then(h, es1, mid, Connect(c));
    Listing(Close(slot), Release(slot), Connect(c));
  }

  lemma {:induction false} Released(h: History, slot: nat)
    requires h.reg.Agree() && slot in h.reg.closing && slot < |h.reg.users|
    ensures var h' := Step(h, Release(slot));
            && h'.reg.baseHashKey == h.reg.baseHashKey && h'.reg.pool == Put(h.reg.pool, slot)
            && |h'.reg.users| == |h.reg.users| && h'.reg.closing == h.reg.closing - {slot} && h'.serving == h.serving
            && forall s | 0 <= s < |h.reg.users| && s != slot :: h'.reg.users[s] == h.reg.users[s]
  {}

  // The key of a connection that is gone finds a slot that keeps its old descriptor.
  ghost predicate Lingers(h: History, key: int32, slot: nat, keys: int, sock: int) {
    && key in h.acceptedAs && (forall s: nat :: !h.Serves(s, key))
    && Lookup(h.reg, key) == Some(slot) && slot < |h.reg.users| && h.reg.users[slot].userSock == sock
    && h.reg.baseHashKey == keys && NewDescriptor(h, sock)
  }

  lemma {:induction false} ClosedLingers(h: History, key: int32, slot: nat, sock: int)
    requires h.Valid() && Lookup(h.reg, key) == Some(slot) && slot !in h.reg.closing
    requires slot < |h.reg.users| && sock == h.reg.users[slot].userSock
    ensures CanStep(h, Close(slot)) && Lingers(Step(h, Close(slot)), key, slot, h.reg.baseHashKey, sock)
    ensures Step(h, Close(slot)).reg.pool == h.reg.pool
  {
    Closed(h, slot);
    ClosedIsGone(h, key, slot);
    assert slot in h.serving;
  }

  lemma {:induction false} LingeringKeyFinds(h: History, key: int32, slot: nat, next: int32, c: Client)
    requires h.Valid() && Lingers(h, key, slot, next - 1, c.sock) && Usable(c) && h.reg.pool.free != []
    ensures CanStep(h, Connect(c))
    ensures var later := Step(h, Connect(c));
            && SockFor(later.reg.userList, later.reg.users, key) == Some(c.sock)
            && later.Serves(h.reg.pool.free[0], next) && !Gets(later, c.sock, key)
  {
    AcceptEffect(h.reg, c);
    Placed(h, c);
    StaysGone(h, Connect(c), key);
  }

  /**
   A reply that goes astray although it is written at once. In any state in which `key` finds an open slot and
   another slot is free: if that slot's descriptor is closed and the kernel gives it to the next client, the
   key still finds the slot until it is released, and a reply under it goes to the next client.
   */
  lemma {:induction false} ReusedDescriptor(h: History, key: int32, slot: nat, c: Client)
    returns (es: seq<Event>, later: History, next: int32)
    requires h.Valid() && Lookup(h.reg, key) == Some(slot) && slot !in h.reg.closing && h.reg.pool.free != []
    requires Usable(c) && slot < |h.reg.users| && c.sock == h.reg.users[slot].userSock && h.reg.baseHashKey < MAX_INT
    ensures es == [Close(slot), Connect(c)] && LeadsTo(h, es, later)
    ensures SockFor(later.reg.userList, later.reg.users, key) == Some(c.sock)
    ensures next == h.reg.baseHashKey + 1 && later.Serves(h.reg.pool.free[0], next) && !Gets(later, c.sock, key)
  {
    ClosedLingers(h, key, slot, c.sock);
    RunOne(h, Close(slot));
    var h1 := Step(h, Close(slot));
    next := h.reg.baseHashKey + 1;
    LingeringKeyFinds(h1, key, slot, next, c);
    es, later := Then(h, [Close(slot)], h1, Connect(c));
    Listing(Close(slot), Connect(c), Connect(c));
  }
}
