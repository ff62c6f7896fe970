/**
 The user list of gate_server/user_info_list.cpp and the accept and disconnect handling of
 common/server_listenner.cpp. The pool's objects are the elements of its block, updated in place;
 a BaseUserInfo pointer is an index into it.

 AcceptAction is one atomic step. In the source the events of the new connection are enabled
 before it is registered, so an event loop may see it earlier (server_listenner.cpp:293-295).
 */
module UserInfoLists {
  import opened Bytes
  import opened Options
  import opened Session
  import opened ResourceManagers

  class UserInfoList {
    const pool: UserResourceManager<UserInfo>
    var userList: map<int32, nat>

    ghost predicate Ready()
      reads this, pool, pool.block
    {
      pool.Valid() && pool.block != null
    }

    function Users(): (us: seq<UserInfo>)
      requires pool.block != null
      reads this, pool, pool.block
    {
      pool.block[..]
    }

    constructor ()
      ensures fresh(pool) && userList == map[] && pool.Valid()
      ensures pool.block == null && pool.unusedUserList == [] && pool.usingUserList == map[]
    {
      pool := new UserResourceManager<UserInfo>();
      userList := map[];
    }

    method Init(maxUser: int) returns (count: int)
      requires pool.Valid() && pool.block == null && pool.unusedUserList == [] && pool.usingUserList == map[]
      modifies pool
      ensures count == if maxUser < 0 then 0 else maxUser
      ensures maxUser >= 0 ==>
                Ready() && fresh(pool.block) && Users() == seq(maxUser, _ => FRESH_USER)
                && pool.Abs() == Pools.Pool(maxUser, seq(maxUser, i => i), {})
    {
      count := pool.Init(maxUser, FRESH_USER);
    }

    method GetUserInfo() returns (user: Option<nat>)
      requires Ready()
      modifies pool`unusedUserList, pool`usingUserList
      ensures Ready()
      ensures pool.Abs() == Pools.Get(old(pool.Abs())) && user == Pools.Got(old(pool.Abs()))
    {
      user := pool.Get();
    }

    method ReleaseUserInfo(user: nat)
      requires Ready() && user < pool.block.Length
      modifies this`userList, pool`unusedUserList, pool`usingUserList, pool.block
      ensures Ready()
      ensures userList == old(userList) - {old(Users()[user].hashKey)}
      ensures pool.Abs() == Pools.Put(old(pool.Abs()), user)
      ensures Users() == old(Users())[user := UserInfo(0, 0, 0, 0, false, 0)]
    {
      if pool.block[user].hashKey in userList {
        userList := userList - {pool.block[user].hashKey};
      }
      pool.block[user] := CLEARED_USER;
      var _ := pool.Put(user);
    }

    method GetUserByHashkey(userHashkey: int32) returns (user: Option<nat>)
      ensures user.None? <==> userHashkey !in userList
      ensures forall slot :: user == Some(slot) ==> userHashkey in userList && userList[userHashkey] == slot
    {
      user := if userHashkey in userList then Some(userList[userHashkey]) else None;
    }

    method AddUserInfo(userHashkey: int32, user: nat) returns (ok: bool)
      requires Ready() && user < pool.block.Length
      modifies this`userList, pool.block
      ensures Ready() && ok == (userHashkey !in old(userList))
      ensures userList == if ok then old(userList)[userHashkey := user] else old(userList)
      ensures Users() == if ok then old(Users())[user := old(Users())[user].(hashKey := userHashkey)] else old(Users())
    {
      if userHashkey in userList {
        return false;
      }
      pool.block[user] := pool.block[user].(hashKey := userHashkey);
      userList := userList[userHashkey := user];
      return true;
    }
  }
}

module ServerListenners {
  import opened Bytes
  import opened Options
  import opened Session
  import opened RoundRobin
  import opened UserInfoLists

  // The four bytes written to a worker's pipe: which worker, which key.
  datatype Notice = Notice(worker: int, key: int32)

  class ServerListenner {
    const countWorker: int
    const userInfoResource: UserInfoList
    var baseHashKey: int32
    var usingUserMap: map<int32, nat>
    ghost var notices: seq<Notice>
    ghost var closed: seq<int>
    ghost var closing: set<nat>  // slots whose descriptor is closed and that are still to be released

    ghost predicate Ready()
      reads this, userInfoResource, userInfoResource.pool, userInfoResource.pool.block
    {
      userInfoResource.Ready() && countWorker > 0
    }

    ghost function Abs(): Registry
      requires Ready()
      reads this, userInfoResource, userInfoResource.pool, userInfoResource.pool.block
    {
      Registry(baseHashKey, usingUserMap, userInfoResource.userList, userInfoResource.pool.Abs(), userInfoResource.Users(), closing)
    }

    // The user list has been given its slots; InitWorker refuses a count of 0 or less.
    constructor (countWorker: int, userInfoResource: UserInfoList)
      requires userInfoResource.Ready() && userInfoResource.userList == map[] && countWorker > 0
      ensures Ready() && this.userInfoResource == userInfoResource && this.countWorker == countWorker
      ensures Abs() == Registry(0, map[], map[], userInfoResource.pool.Abs(), userInfoResource.Users(), {})
    {
      this.countWorker, this.userInfoResource := countWorker, userInfoResource;
      baseHashKey, usingUserMap, notices, closed, closing := 0, map[], [], [], {};
    }

    // The client carries the results of accept() and ioctl(). The key must not pass 2^31-1.
    method AcceptAction(client: Client)
      requires Ready() && (Usable(client) ==> baseHashKey < MAX_INT)
      modifies this`baseHashKey, this`usingUserMap, this`notices, userInfoResource`userList
      modifies userInfoResource.pool`unusedUserList, userInfoResource.pool`usingUserList, userInfoResource.pool.block
      ensures Ready() && Abs() == Accept(old(Abs()), client)
      ensures !client.ioctlOk || client.sock <= 0 ==> Abs() == old(Abs()) && notices == old(notices)
      ensures client.ioctlOk && client.sock > 0 ==> baseHashKey == old(baseHashKey) + 1
      ensures notices == old(notices) +
                if Usable(client) && old(Abs()).pool.free != [] then [Notice(WorkerOf(baseHashKey, countWorker), baseHashKey)] else []
    {
      var tmpClientSock := client.sock;
      if !client.ioctlOk {
        tmpClientSock := -1;
      }
      if tmpClientSock > 0 {
        baseHashKey := baseHashKey + 1;
        assert old(Abs()).pool.free != [] ==> old(Abs()).pool.free[0] in old(Abs()).pool.free;
        var tmpUser := userInfoResource.GetUserInfo();
        if tmpUser.Some? {
          var slot := tmpUser.value;
          var tmpIndex := WorkerOf(baseHashKey, countWorker);
          var block := userInfoResource.pool.block;
          block[slot] := block[slot].(userSock := tmpClientSock, hashKey := baseHashKey,
                                      userUip := client.uip, userUport := client.uport, attached := true);
          usingUserMap := usingUserMap[baseHashKey := slot];
          var _ := userInfoResource.AddUserInfo(baseHashKey, slot);
          notices := notices + [Notice(tmpIndex, baseHashKey)];
        }
      }
    }

    method ReleaseUserInfo(userHashkey: int32, user: nat)
      requires Ready() && user < userInfoResource.pool.block.Length
      requires Abs().users[user].attached && Abs().users[user].hashKey == userHashkey
      modifies this`usingUserMap, this`closed, this`closing, userInfoResource`userList
      modifies userInfoResource.pool`unusedUserList, userInfoResource.pool`usingUserList, userInfoResource.pool.block
      ensures Ready() && Abs() == ReleaseSlot(CloseSock(old(Abs()), user), user)
      ensures closed == old(closed) + [old(Abs()).users[user].userSock]
    {
      Disconnect(userHashkey, user);
      Release(user);
    }

    // The key is forgotten and the descriptor closed; from here to the release other threads may come in between.
    method Disconnect(userHashkey: int32, user: nat)
      requires Ready() && user < userInfoResource.pool.block.Length
      requires Abs().users[user].attached && Abs().users[user].hashKey == userHashkey
      modifies this`usingUserMap, this`closed, this`closing
      ensures Ready() && Abs() == CloseSock(old(Abs()), user)
      ensures closed == old(closed) + [Abs().users[user].userSock]
    {
      usingUserMap := usingUserMap - {userHashkey};
      closed := closed + [userInfoResource.pool.block[user].userSock];
      closing := closing + {user};
    }

    method Release(user: nat)
      requires Ready() && user < userInfoResource.pool.block.Length
      modifies this`closing, userInfoResource`userList
      modifies userInfoResource.pool`unusedUserList, userInfoResource.pool`usingUserList, userInfoResource.pool.block
      ensures Ready() && Abs() == ReleaseSlot(old(Abs()), user)
    {
      userInfoResource.ReleaseUserInfo(user);
      closing := closing - {user};
    }

    method ErrorRead(user: nat)
      requires Ready() && user < userInfoResource.pool.block.Length
      modifies this`usingUserMap, this`closed, this`closing, userInfoResource`userList
      modifies userInfoResource.pool`unusedUserList, userInfoResource.pool`usingUserList, userInfoResource.pool.block
      ensures Ready() && Abs() == Session.ErrorRead(old(Abs()), user)
      ensures closed == old(closed) + if old(Abs()).users[user].attached then [old(Abs()).users[user].userSock] else []
    {
      var tmpUser := userInfoResource.pool.block[user];
      if tmpUser.attached {
        ReleaseUserInfo(tmpUser.hashKey, user);
      }
    }
  }
}
