/**
 The accounting of common/mysql_conn_pool.cpp. A connection is a number; whether the driver can make one,
 and whether an idle one has been closed, are inputs.
 */
module MysqlConnPools {
  import opened Options
  import opened Bytes

  datatype Pool = Pool(curSize: int, maxSize: int, idle: seq<nat>, lent: multiset<nat>) {
    // Every connection counted is idle or lent, and the count is within the bound.
    ghost predicate Accounted() {
      curSize == |idle| + |lent| && 0 <= curSize <= maxSize
    }
  }

  /** What the driver answers: whether the front connection is closed, and the connection it makes if asked. */
  datatype Driver = Driver(closed: bool, made: Option<nat>)

  /** The connection GetConnection returns; None is NULL. */
  function Lends(p: Pool, d: Driver): Option<nat> {
    if p.idle != [] then
      if d.closed then d.made else Some(p.idle[0])
    else if p.curSize < p.maxSize then
      d.made
    else
      None
  }

  function Get(p: Pool, d: Driver): Pool {
    var conn := Lends(p, d);
    var lent := if conn.Some? then p.lent + multiset{conn.value} else p.lent;
    if p.idle != [] then
      Pool(if conn.None? then p.curSize - 1 else p.curSize, p.maxSize, p.idle[1..], lent)
    else
      Pool(if conn.Some? then p.curSize + 1 else p.curSize, p.maxSize, [], lent)
  }

  function Release(p: Pool, conn: Option<nat>): Pool {
    match conn
    case None => p
    case Some(c) => p.(idle := p.idle + [c], lent := p.lent - multiset{c})
  }

  datatype Event = Ask(driver: Driver) | GiveBack(conn: Option<nat>)

  function Step(p: Pool, e: Event): Pool {
    match e
    case Ask(d) => Get(p, d)
    case GiveBack(conn) => Release(p, conn)
  }

  /** GetConnection keeps the count right and in bounds, whatever the driver does. */
  lemma {:induction false} GetAccounts(p: Pool, d: Driver)
    requires p.Accounted()
    ensures Get(p, d).Accounted()
  {
    if p.idle != [] {
      assert |p.idle[1..]| == |p.idle| - 1;
    }
  }

  /** ReleaseConnection keeps the count right exactly for connections on loan (and for NULL). */
  lemma {:induction false} ReleaseAccountsIff(p: Pool, conn: Option<nat>)
    requires p.Accounted()
    ensures Release(p, conn).Accounted() <==> conn.None? || conn.value in p.lent
  {
    if conn.Some? && conn.value in p.lent {
      assert p.lent == (p.lent - multiset{conn.value}) + multiset{conn.value};
    } else if conn.Some? {
      assert p.lent - multiset{conn.value} == p.lent;
    }
  }

  function Run(p: Pool, es: seq<Event>): Pool
    decreases |es|
  {
    if es == [] then p else Run(Step(p, es[0]), es[1..])
  }

  // Callers give back only what they were lent, once for each time.
  predicate Honest(p: Pool, es: seq<Event>)
    decreases |es|
  {
    es == []
    || ((es[0].GiveBack? && es[0].conn.Some? ==> es[0].conn.value in p.lent) && Honest(Step(p, es[0]), es[1..]))
  }

  /** Connection accounting over every run. */
  lemma {:induction false} RunAccounts(p: Pool, es: seq<Event>)
    requires p.Accounted() && Honest(p, es)
    ensures Run(p, es).Accounted() && Run(p, es).maxSize == p.maxSize
    decreases |es|
  {
    if es != [] {
      match es[0] {
        case Ask(d) => GetAccounts(p, d);
        case GiveBack(conn) => ReleaseAccountsIff(p, conn);
      }
      RunAccounts(Step(p, es[0]), es[1..]);
    }
  }

  /** The connections that the driver did make, in order. */
  function Made(answers: seq<Option<nat>>): seq<nat> {
    if answers == [] then [] else (if answers[0].Some? then [answers[0].value] else []) + Made(answers[1..])
  }

  lemma {:induction false} MadeSnoc(answers: seq<Option<nat>>, a: Option<nat>)
    ensures Made(answers + [a]) == Made(answers) + if a.Some? then [a.value] else []
  {
    if answers == [] {
      assert answers + [a] == [a] && [a][1..] == [];
    } else {
      DropAppend(answers, [a], 1);
      MadeSnoc(answers[1..], a);
      Assoc(if answers[0].Some? then [answers[0].value] else [], Made(answers[1..]), if a.Some? then [a.value] else []);
    }
  }

  // ---------- which connection a caller gets ----------

  /** An idle connection that is open goes out, and nothing else changes hands. */
  lemma {:induction false} OpenIdleIsLent(p: Pool, made: Option<nat>)
    requires p.idle != []
    ensures Lends(p, Driver(false, made)) == Some(p.idle[0])
    ensures Get(p, Driver(false, made)) == p.(idle := p.idle[1..], lent := p.lent + multiset{p.idle[0]})
  {}

  /** A closed one leaves the pool for good; the caller gets what the driver makes instead, and a failure costs a place. */
  lemma {:induction false} ClosedIsReplaced(p: Pool, made: Option<nat>)
    requires p.idle != []
    ensures Lends(p, Driver(true, made)) == made
    ensures Get(p, Driver(true, made)).idle == p.idle[1..]
    ensures Get(p, Driver(true, made)).curSize == if made.None? then p.curSize - 1 else p.curSize
  {}

  /** NULL comes back exactly if the driver was needed and made nothing, or nothing is idle at the bound. */
  lemma {:induction false} NullIff(p: Pool, d: Driver)
    ensures Lends(p, d).None? <==>
            (d.made.None? && (if p.idle == [] then true else d.closed)) || (p.idle == [] && p.curSize >= p.maxSize)
  {}

  /** The idle connections that a run takes off the list: lent if open, thrown away if closed. */
  function TakenOff(p: Pool, es: seq<Event>): seq<nat>
    decreases |es|
  {
    if es == [] then [] else
      (if es[0].Ask? && p.idle != [] then
         match Lends(p, es[0].driver)
         case Some(c) => if es[0].driver.closed then [p.idle[0]] else [c]
         case None => [p.idle[0]]
       else [])
      + TakenOff(Step(p, es[0]), es[1..])
  }

  function GivenBack(es: seq<Event>): seq<nat> {
    if es == [] then [] else (if es[0].GiveBack? && es[0].conn.Some? then [es[0].conn.value] else []) + GivenBack(es[1..])
  }

  /** First back, first out: over every run the connections are taken off in the order in which they came back. */
  lemma {:induction false} FirstBackFirstOut(p: Pool, es: seq<Event>)
    ensures TakenOff(p, es) + Run(p, es).idle == p.idle + GivenBack(es)
    decreases |es|
  {
    if es == [] {
      Unit(p.idle);
    } else {
      var p' := Step(p, es[0]);
      FirstBackFirstOut(p', es[1..]);
      var off, back := TakenOff(p', es[1..]), GivenBack(es[1..]);
      match es[0]
      case Ask(d) =>
        Unit(back);
        Unit(off);
        if p.idle != [] {
          HeadTail(p.idle);
          Assoc([p.idle[0]], off, Run(p, es).idle);
          Assoc([p.idle[0]], p.idle[1..], back);
        }
      case GiveBack(conn) =>
        Unit(off);
        Unit(back);
        if conn.Some? {
          Assoc(p.idle, [conn.value], back);
        }
    }
  }

  class MysqlConnPool {
    var curSize: int
    var maxSize: int
    var sqlConnList: seq<nat>
    ghost var lent: multiset<nat>

    ghost function Abs(): Pool
      reads this
    {
      Pool(curSize, maxSize, sqlConnList, lent)
    }

    constructor ()
      ensures Abs() == Pool(0, 0, [], multiset{})
    {
      curSize, maxSize, sqlConnList, lent := 0, 0, [], multiset{};
    }

    // made[i] is what the driver answers to the i-th request.
    method InitConnection(initSize: int, made: seq<Option<nat>>)
      requires initSize <= |made| && lent == multiset{}
      requires curSize == 0 && sqlConnList == []
      modifies this`curSize, this`sqlConnList
      ensures curSize == |sqlConnList| <= if initSize < 0 then 0 else initSize
      ensures sqlConnList == Made(made[..if initSize < 0 then 0 else initSize])
    {
      var i := 0;
      while i < initSize
        invariant 0 <= i && (i <= initSize || i == 0)
        invariant curSize == |sqlConnList| <= i && sqlConnList == Made(made[..i])
      {
        var tmpConn := made[i];
        assert made[..i + 1] == made[..i] + [made[i]];
        MadeSnoc(made[..i], made[i]);
        if tmpConn.Some? {
          sqlConnList := sqlConnList + [tmpConn.value];
          curSize := curSize + 1;
        } else {
          Unit(sqlConnList);
        }
        i := i + 1;
      }
    }

    method Init(maxConnSize: int, made: seq<Option<nat>>)
      requires 0 <= maxConnSize && maxConnSize / 2 <= |made|
      requires Abs() == Pool(0, 0, [], multiset{})
      modifies this`curSize, this`maxSize, this`sqlConnList
      ensures Abs().Accounted() && maxSize == maxConnSize && lent == multiset{}
      ensures sqlConnList == Made(made[..maxConnSize / 2])
    {
      maxSize := maxConnSize;
      InitConnection(maxSize / 2, made);
    }

    method GetConnection(driver: Driver) returns (conn: Option<nat>)
      modifies this`curSize, this`sqlConnList, this`lent
      ensures Abs() == Get(old(Abs()), driver) && conn == Lends(old(Abs()), driver)
      ensures old(sqlConnList) != [] ==> sqlConnList == old(sqlConnList)[1..]
      ensures old(sqlConnList) != [] && !driver.closed ==> conn == Some(old(sqlConnList)[0]) && curSize == old(curSize)
      ensures old(sqlConnList) != [] && driver.closed ==>
                conn == driver.made && curSize == old(curSize) - if conn == None then 1 else 0
      ensures old(sqlConnList) == [] ==>
                && sqlConnList == [] && conn == (if old(curSize) < maxSize then driver.made else None)
                && curSize == old(curSize) + if conn == None then 0 else 1
      ensures lent == old(lent) + if conn == None then multiset{} else multiset{conn.value}
    {
      if |sqlConnList| > 0 {
        conn := Some(sqlConnList[0]);
        sqlConnList := sqlConnList[1..];
        if driver.closed {
          conn := driver.made;
        }
        if conn == None {
          curSize := curSize - 1;
        }
      } else {
        conn := None;
        if curSize < maxSize {
          conn := driver.made;
          if conn.Some? {
            curSize := curSize + 1;
          }
        }
      }
      if conn.Some? {
        lent := lent + multiset{conn.value};
      }
    }

    method ReleaseConnection(conn: Option<nat>) returns (ok: bool)
      modifies this`sqlConnList, this`lent
      ensures ok && Abs() == Release(old(Abs()), conn)
      ensures sqlConnList == old(sqlConnList) + if conn == None then [] else [conn.value]
    {
      if conn.Some? {
        sqlConnList := sqlConnList + [conn.value];
        lent := lent - multiset{conn.value};
      }
      return true;
    }
  }
}
