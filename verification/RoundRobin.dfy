/**
 How the listener deals connections out to its workers (common/server_listenner.cpp:278-297): the key decides the
 worker, and an accept that finds no free slot uses its key up all the same.
 */
module RoundRobin {
  import opened Bytes
  import opened Options
  import Pools
  import opened Session

  function WorkerOf(key: int, workers: int): int
    requires workers > 0
  {
    (key + workers - 1) % workers
  }

  // How many of the keys 1, ..., n go to worker w.
  function Load(n: nat, workers: int, w: int): nat
    requires workers > 0
  {
    if n == 0 then 0 else Load(n - 1, workers, w) + (if WorkerOf(n, workers) == w then 1 else 0)
  }

  lemma {:induction false} AtLeastOnce(a: int, d: int)
    requires a >= 1 && d > 0
    ensures a * d >= d
  {}

  /** Quotient and remainder are the only way to write n. */
  lemma {:induction false} DivisionUnique(n: int, d: int, q: int, r: int)
    requires 0 <= r < d && n == d * q + r
    ensures n / d == q && n % d == r
  {
    var q', r' := n / d, n % d;
    assert n == d * q' + r';
    assert d * (q - q') == d * q - d * q';
    if q > q' {
      AtLeastOnce(q - q', d);
    } else if q < q' {
      assert d * (q' - q) == d * q' - d * q;
      AtLeastOnce(q' - q, d);
    }
  }

  lemma {:induction false} AddOneRound(n: nat, d: nat)
    requires d > 0
    ensures (n + d) / d == n / d + 1 && (n + d) % d == n % d
  {
    assert d * (n / d + 1) == d * (n / d) + d;
    DivisionUnique(n + d, d, n / d + 1, n % d);
  }

  lemma {:induction false} AddOneKey(n: nat, d: nat)
    requires d > 0
    ensures if n % d == d - 1 then (n + 1) / d == n / d + 1 && (n + 1) % d == 0
            else (n + 1) / d == n / d && (n + 1) % d == n % d + 1
  {
    if n % d == d - 1 {
      assert d * (n / d + 1) == d * (n / d) + d;
      DivisionUnique(n + 1, d, n / d + 1, 0);
    } else {
      DivisionUnique(n + 1, d, n / d, n % d + 1);
    }
  }

  /** Worker w has been given one key per full round, and one more if the last round has reached it. */
  lemma {:induction false} LoadIs(n: nat, workers: int, w: int)
    requires 0 <= w < workers
    ensures Load(n, workers, w) == n / workers + (if w < n % workers then 1 else 0)
  {
    if n == 0 {
      DivisionUnique(0, workers, 0, 0);
    } else {
      LoadIs(n - 1, workers, w);
      AddOneKey(n - 1, workers);
      AddOneRound(n - 1, workers);
    }
  }

  /** Any `workers` consecutive keys give every worker exactly one. */
  lemma {:induction false} EveryoneOnce(n: nat, workers: int, w: int)
    requires 0 <= w < workers
    ensures Load(n + workers, workers, w) - Load(n, workers, w) == 1
  {
    LoadIs(n, workers, w);
    LoadIs(n + workers, workers, w);
    AddOneRound(n, workers);
  }

  /** After any number of keys, no worker was given more than one key more than another. */
  lemma {:induction false} KeysBalanced(n: nat, workers: int, v: int, w: int)
    requires 0 <= v < workers && 0 <= w < workers
    ensures -1 <= Load(n, workers, v) - Load(n, workers, w) <= 1
  {
    LoadIs(n, workers, v);
    LoadIs(n, workers, w);
  }

  // Whether an accept gives its key to worker w: the key it issues is always for some worker.
  predicate IssuesFor(r: Registry, e: Event, workers: int, w: int)
    requires workers > 0
  {
    e.Connect? && Usable(e.client) && WorkerOf(r.baseHashKey + 1, workers) == w
  }

  /** How many clients a run hands to worker w, which is how often it notifies that worker. */
  ghost function Clients(h: History, es: seq<Event>, workers: int, w: int): nat
    requires h.Valid() && CanRun(h, es) && workers > 0
    decreases |es|
  {
    if es == [] then 0 else
      StepValid(h, es[0]);
      (if IssuesFor(h.reg, es[0], workers, w) && h.reg.pool.free != [] then 1 else 0)
      + Clients(Step(h, es[0]), es[1..], workers, w)
  }

  /** How many keys for worker w are used up without a client, because no slot was free. */
  ghost function Wasted(h: History, es: seq<Event>, workers: int, w: int): nat
    requires h.Valid() && CanRun(h, es) && workers > 0
    decreases |es|
  {
    if es == [] then 0 else
      StepValid(h, es[0]);
      (if IssuesFor(h.reg, es[0], workers, w) && h.reg.pool.free == [] then 1 else 0)
      + Wasted(Step(h, es[0]), es[1..], workers, w)
  }

  lemma {:induction false} LoadNext(r: Registry, r': Registry, e: Event, workers: int, w: int)
    requires 0 <= r.baseHashKey && workers > 0
    requires r'.baseHashKey == r.baseHashKey + if e.Connect? && Usable(e.client) then 1 else 0
    ensures Load(r'.baseHashKey, workers, w) == Load(r.baseHashKey, workers, w) + if IssuesFor(r, e, workers, w) then 1 else 0
  {}

  /** Every key for a worker either brings it a client or is wasted. */
  lemma {:induction false} ClientsAndWaste(h: History, es: seq<Event>, workers: int, w: int)
    requires h.Valid() && CanRun(h, es) && workers > 0
    ensures Clients(h, es, workers, w) + Wasted(h, es, workers, w)
         == Load(Run(h, es).reg.baseHashKey, workers, w) - Load(h.reg.baseHashKey, workers, w)
    decreases |es|
  {
    if es != [] {
      var h' := Step(h, es[0]);
      StepValid(h, es[0]);
      StepGrows(h, es[0]);
      LoadNext(h.reg, h'.reg, es[0], workers, w);
      ClientsAndWaste(h', es[1..], workers, w);
    }
  }

  /** While no key is wasted, no worker has been given more than one client more than another. */
  lemma {:induction false} ClientsBalanced(max: nat, es: seq<Event>, workers: int, v: int, w: int)
    requires 0 <= v < workers && 0 <= w < workers && CanRun(Start(max), es)
    requires Wasted(Start(max), es, workers, v) == 0 == Wasted(Start(max), es, workers, w)
    ensures -1 <= Clients(Start(max), es, workers, v) - Clients(Start(max), es, workers, w) <= 1
  {
    ClientsAndWaste(Start(max), es, workers, v);
    ClientsAndWaste(Start(max), es, workers, w);
    KeysBalanced(Run(Start(max), es).reg.baseHashKey, workers, v, w);
  }

  lemma {:induction false} ClientsAppend(h: History, es1: seq<Event>, es2: seq<Event>, workers: int, w: int)
    requires h.Valid() && CanRun(h, es1) && CanRun(Run(h, es1), es2) && workers > 0
    ensures CanRun(h, es1 + es2)
    ensures Clients(h, es1 + es2, workers, w) == Clients(h, es1, workers, w) + Clients(Run(h, es1), es2, workers, w)
    decreases |es1|
  {
    RunAppend(h, es1, es2);
    if es1 == [] {
      assert es1 + es2 == es2;
    } else {
      StepValid(h, es1[0]);
      ClientsAppend(Step(h, es1[0]), es1[1..], es2, workers, w);
      DropAppend(es1, es2, 1);
    }
  }

  lemma {:induction false} OneStep(h: History, e: Event, workers: int, w: int)
    requires h.Valid() && CanStep(h, e) && workers > 0
    ensures CanRun(h, [e]) && Run(h, [e]) == Step(h, e)
    ensures Clients(h, [e], workers, w) == if IssuesFor(h.reg, e, workers, w) && h.reg.pool.free != [] then 1 else 0
  {
    StepValid(h, e);
    assert [e][1..] == [];
    assert Run(Step(h, e), []) == Step(h, e);
    assert Clients(Step(h, e), [], workers, w) == 0;
  }

  // ---------- no balance when keys are wasted ----------

  // Every slot of a pool of at least one is serving a client.
  ghost predicate NoneFree(h: History) {
    h.Valid() && h.reg.pool.free == [] && h.reg.closing == {} && h.reg.pool.inUse != {}
  }

  // A run that issues `keys` keys and brings worker v so many clients more than worker w.
  ghost predicate Brings(h: History, es: seq<Event>, end: History, workers: int, v: int, w: int, keys: nat, lead: int) {
    && workers > 0 && h.Valid() && LeadsTo(h, es, end) && end.reg.baseHashKey == h.reg.baseHashKey + keys
    && Clients(h, es, workers, v) - Clients(h, es, workers, w) == lead
  }

  lemma {:induction false} Append(h: History, es1: seq<Event>, mid: History, es2: seq<Event>, end: History,
                                  workers: int, v: int, w: int, k1: nat, l1: int, k2: nat, l2: int, keys: nat, lead: int)
    returns (es: seq<Event>)
    requires Brings(h, es1, mid, workers, v, w, k1, l1) && Brings(mid, es2, end, workers, v, w, k2, l2)
    requires keys == k1 + k2 && lead == l1 + l2
    ensures Brings(h, es, end, workers, v, w, keys, lead)
  {
    RunAppend(h, es1, es2);
    ClientsAppend(h, es1, es2, workers, v);
    ClientsAppend(h, es1, es2, workers, w);
    es := es1 + es2;
  }

  lemma {:induction false} Nothing(h: History, workers: int, v: int, w: int)
    requires h.Valid() && workers > 0
    ensures Brings(h, [], h, workers, v, w, 0, 0)
  {}

  // The highest descriptor in any slot, or 0.
  function TopSock(users: seq<UserInfo>): (top: int)
    ensures top >= 0 && forall s | 0 <= s < |users| :: users[s].userSock <= top
  {
    if users == [] then 0 else
      var top := TopSock(users[1..]);
      assert forall s | 1 <= s < |users| :: users[s] == users[1..][s - 1];
      if users[0].userSock > top then users[0].userSock else top
  }

  function NextComer(h: History): (c: Client)
    ensures Usable(c) && NewDescriptor(h, c.sock)
  {
    Client(TopSock(h.reg.users) + 1, true, 0, 0)
  }

  // What an accept of a new client does to the pool.
  lemma {:induction false} Comes(h: History, c: Client)
    requires h.Valid() && Usable(c) && CanStep(h, Connect(c))
    ensures var h' := Step(h, Connect(c));
            && h'.Valid() && h'.reg.baseHashKey == h.reg.baseHashKey + 1
            && h'.reg.closing == h.reg.closing && h'.reg.pool == Pools.Get(h.reg.pool)
  {
    StepValid(h, Connect(c));
    StepGrows(h, Connect(c));
    AcceptEffect(h.reg, c);
  }

  function Lead(r: Registry, e: Event, workers: int, v: int, w: int): int
    requires workers > 0
  {
    if r.pool.free == [] then 0
    else (if IssuesFor(r, e, workers, v) then 1 else 0) - (if IssuesFor(r, e, workers, w) then 1 else 0)
  }

  lemma {:induction false} OneMore(h: History, e: Event, workers: int, v: int, w: int)
    requires h.Valid() && CanStep(h, e) && workers > 0
    ensures Brings(h, [e], Step(h, e), workers, v, w, if e.Connect? && Usable(e.client) then 1 else 0, Lead(h.reg, e, workers, v, w))
  {
    OneStep(h, e, workers, v);
    OneStep(h, e, workers, w);
    StepGrows(h, e);
  }

  /** Clients come until no slot is free. */
  lemma {:induction false} FillUp(h: History, workers: int, v: int, w: int)
    returns (es: seq<Event>, end: History, lead: int)
    requires h.Valid() && h.reg.closing == {} && 0 < h.reg.pool.max && workers > 0 && v != w
    requires h.reg.baseHashKey + |h.reg.pool.free| <= MAX_INT
    ensures Brings(h, es, end, workers, v, w, |h.reg.pool.free|, lead) && NoneFree(end) && lead >= -|h.reg.pool.free|
    decreases |h.reg.pool.free|
  {
    if h.reg.pool.free == [] {
      es, end, lead := [], h, 0;
      Nothing(h, workers, v, w);
      assert 0 in h.reg.pool.inUse;
    } else {
      var c := NextComer(h);
      Comes(h, c);
      OneMore(h, Connect(c), workers, v, w);
      var h1 := Step(h, Connect(c));
      var first := Lead(h.reg, Connect(c), workers, v, w);
      var es2, lead2;
      es2, end, lead2 := FillUp(h1, workers, v, w);
      lead := first + lead2;
      es := Append(h, [Connect(c)], h1, es2, end, workers, v, w, 1, first, |h1.reg.pool.free|, lead2, |h.reg.pool.free|, lead);
    }
  }

  /** Clients that are turned away use their keys up. */
  lemma {:induction false} TurnedAway(h: History, k: nat, workers: int, v: int, w: int) returns (es: seq<Event>, end: History)
    requires NoneFree(h) && workers > 0 && v != w && h.reg.baseHashKey + k <= MAX_INT
    ensures Brings(h, es, end, workers, v, w, k, 0) && NoneFree(end)
    decreases k
  {
    if k == 0 {
      es, end := [], h;
      Nothing(h, workers, v, w);
    } else {
      var c := NextComer(h);
      Comes(h, c);
      OneMore(h, Connect(c), workers, v, w);
      var es2;
      es2, end := TurnedAway(Step(h, Connect(c)), k - 1, workers, v, w);
      es := Append(h, [Connect(c)], Step(h, Connect(c)), es2, end, workers, v, w, 1, 0, k - 1, 0, k, 0);
    }
  }

  // One client has left.
  ghost predicate OneFree(h: History) {
    h.Valid() && |h.reg.pool.free| == 1 && h.reg.closing == {}
  }

  lemma {:induction false} Leaves(h: History, workers: int, v: int, w: int) returns (es: seq<Event>, end: History)
    requires NoneFree(h) && workers > 0 && v != w
    ensures Brings(h, es, end, workers, v, w, 0, 0) && OneFree(end)
  {
    var slot :| slot in h.reg.pool.inUse;
    Closed(h, slot);
    OneMore(h, Close(slot), workers, v, w);
    StepValid(h, Close(slot));
    var h1 := Step(h, Close(slot));
    es, end := Goes(h1, slot, workers, v, w);
    es := Append(h, [Close(slot)], h1, es, end, workers, v, w, 0, 0, 0, 0, 0, 0);
  }

  lemma {:induction false} Goes(h: History, slot: nat, workers: int, v: int, w: int) returns (es: seq<Event>, end: History)
    requires h.Valid() && h.reg.pool.free == [] && h.reg.closing == {slot} && workers > 0 && v != w
    ensures Brings(h, es, end, workers, v, w, 0, 0) && OneFree(end)
  {
    assert slot in h.reg.closing;
    assert slot in h.reg.pool.inUse;
    Released(h, slot);
    OneMore(h, Release(slot), workers, v, w);
    StepValid(h, Release(slot));
    es, end := [Release(slot)], Step(h, Release(slot));
  }

  lemma {:induction false} Takes(h: History, workers: int, v: int, w: int) returns (es: seq<Event>, end: History)
    requires OneFree(h) && workers > 0 && v != w && h.reg.baseHashKey < MAX_INT && WorkerOf(h.reg.baseHashKey + 1, workers) == v
    ensures Brings(h, es, end, workers, v, w, 1, 1) && NoneFree(end)
  {
    var c := NextComer(h);
    Comes(h, c);
    OneMore(h, Connect(c), workers, v, w);
    es, end := [Connect(c)], Step(h, Connect(c));
    assert h.reg.pool.free[0] in end.reg.pool.inUse;
  }

  // How many keys are still to be used up before the next is for worker v.
  function Before(keys: int, workers: int, v: int): (k: nat)
    requires 0 <= v < workers
    ensures k < workers
  {
    (v - keys) % workers
  }

  lemma {:induction false} BeforeIs(keys: int, workers: int, v: int)
    requires 0 <= v < workers
    ensures WorkerOf(keys + Before(keys, workers, v) + 1, workers) == v
  {
    var q, k := (v - keys) / workers, Before(keys, workers, v);
    assert v - keys == workers * q + k;
    assert workers * (1 - q) == workers - workers * q;
    DivisionUnique(keys + k + workers, workers, 1 - q, v);
  }

  // Clients are turned away until the next key is worker v's, one client leaves, and the next comes.
  lemma {:induction false} Round(h: History, workers: int, v: int, w: int) returns (es: seq<Event>, end: History, keys: nat)
    requires NoneFree(h) && 0 <= v < workers && v != w && h.reg.baseHashKey + workers <= MAX_INT
    ensures Brings(h, es, end, workers, v, w, keys, 1) && keys <= workers && NoneFree(end)
  {
    var k := Before(h.reg.baseHashKey, workers, v);
    BeforeIs(h.reg.baseHashKey, workers, v);
    var es1, h1 := TurnedAway(h, k, workers, v, w);
    var es2, h2 := Leaves(h1, workers, v, w);
    var es3, h3 := Takes(h2, workers, v, w);
    var es12 := Append(h, es1, h1, es2, h2, workers, v, w, k, 0, 0, 0, k, 0);
    end, keys := h3, k + 1;
    es := Append(h, es12, h2, es3, h3, workers, v, w, k, 0, 1, 1, keys, 1);
  }

  // The keys that n rounds take at most.
  function Times(n: nat, workers: nat): nat {
    if n == 0 then 0 else workers + Times(n - 1, workers)
  }

  lemma {:induction false} TimesIs(n: nat, workers: nat)
    ensures Times(n, workers) == n * workers
  {
    if n > 0 {
      TimesIs(n - 1, workers);
      assert n * workers == (n - 1) * workers + workers;
    }
  }

  lemma {:induction false} Most(n: nat, workers: nat, room: int) returns (most: nat)
    requires n * workers <= room
    ensures most == Times(n, workers) && most <= room
  {
    TimesIs(n, workers);
    most := Times(n, workers);
  }

  lemma {:induction false} Rounds(h: History, n: nat, workers: nat, v: int, w: int, most: nat)
    returns (es: seq<Event>, end: History, keys: nat)
    requires NoneFree(h) && 0 <= v < workers && v != w && most == Times(n, workers) && h.reg.baseHashKey + most <= MAX_INT
    ensures Brings(h, es, end, workers, v, w, keys, n) && NoneFree(end) && keys <= most
    decreases n
  {
    if n == 0 {
      es, end, keys := [], h, 0;
      Nothing(h, workers, v, w);
    } else {
      var es1, h1, k1 := Rounds(h, n - 1, workers, v, w, most - workers);
      var es2, k2;
      es2, end, k2 := Round(h1, workers, v, w);
      keys := k1 + k2;
      es := Append(h, es1, h1, es2, end, workers, v, w, k1, n - 1, k2, 1, keys, n);
    }
  }

  /**
   Otherwise the difference grows without bound, in every pool of at least one slot: whichever two workers are named, there are
   runs that give the one at least n clients more than the other, as long as the key counter lasts.
   */
  lemma {:induction false} Skewed(max: nat, n: nat, workers: nat, v: int, w: int) returns (es: seq<Event>, end: History)
    requires 0 < max && 0 <= v < workers && 0 <= w < workers && v != w && max + (n + max) * workers <= MAX_INT
    ensures LeadsTo(Start(max), es, end)
    ensures Clients(Start(max), es, workers, v) - Clients(Start(max), es, workers, w) >= n
  {
    var h := Start(max);
    var most := Most(n + max, workers, MAX_INT - max);
    es, end := SkewedFrom(h, max, n, workers, v, w, most);
  }

  lemma {:induction false} SkewedFrom(h: History, max: nat, n: nat, workers: nat, v: int, w: int, most: nat)
    returns (es: seq<Event>, end: History)
    requires h.Valid() && h.reg.closing == {} && h.reg.baseHashKey == 0 && |h.reg.pool.free| == max == h.reg.pool.max
    requires 0 < max && 0 <= v < workers && 0 <= w < workers && v != w && most == Times(n + max, workers) && max + most <= MAX_INT
    ensures LeadsTo(h, es, end) && Clients(h, es, workers, v) - Clients(h, es, workers, w) >= n
  {
    var es1, h1, lead := FillUp(h, workers, v, w);
    var es2, h2, keys := Rounds(h1, n + max, workers, v, w, most);
    es := Append(h, es1, h1, es2, h2, workers, v, w, max, lead, keys, n + max, max + keys, lead + n + max);
    end := h2;
  }
}
