/**
  The two-sided connection registry: one insertion-ordered
  `Map<driverId, socketId>` and one `Map<userId, socketId>`. Removal is by
  socket id and deletes the first matching entry in insertion order. Driver
  operations never touch the user map and user operations never touch the
  driver map.
 */
module ConnectionStatus {
  import opened JsValues
  import opened InsertionMap

  class ConnectionStatusService {
    var connectedDrivers: Entries
    var connectedUsers: Entries

    ghost predicate Valid()
      reads this
    {
      UniqueKeys(connectedDrivers) && UniqueKeys(connectedUsers)
    }

    constructor ()
      ensures Valid() && connectedDrivers == [] && connectedUsers == []
    {
      connectedDrivers, connectedUsers := [], [];
    }

    /** `addDriver`: last write wins on the driver map. */
    method AddDriver(driverId: string, socketId: string)
      requires Valid()
      modifies this
      ensures Valid()
      ensures connectedDrivers == Put(old(connectedDrivers), driverId, socketId)
      ensures connectedUsers == old(connectedUsers)
    {
      PutUnique(connectedDrivers, driverId, socketId);
      connectedDrivers := Put(connectedDrivers, driverId, socketId);
    }

    /**
      `removeDriverBySocketId`: delete the first driver, in insertion order,
      whose socket is `socketId` and return its id; undefined and no change
      when no driver holds that socket.
     */
    method RemoveDriverBySocketId(socketId: string) returns (r: Option<string>)
      requires Valid()
      modifies this
      ensures Valid()
      ensures r == FirstKeyFor(old(connectedDrivers), socketId)
      ensures connectedDrivers == if r.Some? then Delete(old(connectedDrivers), r.value) else old(connectedDrivers)
      ensures connectedUsers == old(connectedUsers)
    {
      r := ScanForValue(connectedDrivers, socketId);
      if r.Some? {
        DeleteUnique(connectedDrivers, r.value);
        connectedDrivers := Delete(connectedDrivers, r.value);
      }
    }

    /** `getSocketIdForDriver`: the driver's socket, or undefined. */
    method GetSocketIdForDriver(driverId: string) returns (r: Option<string>)
      requires Valid()
      ensures r == Get(connectedDrivers, driverId)
      ensures r.None? <==> Absent(connectedDrivers, driverId)
    {
      r := Get(connectedDrivers, driverId);
    }

    /** `addUser`: last write wins on the user map. */
    method AddUser(userId: string, socketId: string)
      requires Valid()
      modifies this
      ensures Valid()
      ensures connectedUsers == Put(old(connectedUsers), userId, socketId)
      ensures connectedDrivers == old(connectedDrivers)
    {
      PutUnique(connectedUsers, userId, socketId);
      connectedUsers := Put(connectedUsers, userId, socketId);
    }

    /** `removeUserBySocketId`: the user-map twin of `RemoveDriverBySocketId`. */
    method RemoveUserBySocketId(socketId: string) returns (r: Option<string>)
      requires Valid()
      modifies this
      ensures Valid()
      ensures r == FirstKeyFor(old(connectedUsers), socketId)
      ensures connectedUsers == if r.Some? then Delete(old(connectedUsers), r.value) else old(connectedUsers)
      ensures connectedDrivers == old(connectedDrivers)
    {
      r := ScanForValue(connectedUsers, socketId);
      if r.Some? {
        DeleteUnique(connectedUsers, r.value);
        connectedUsers := Delete(connectedUsers, r.value);
      }
    }

    /**
      `getSocketIdsForUsers`: map every id to its socket and keep the truthy
      ones, in input order and with duplicates.
     */
    function GetSocketIdsForUsers(userIds: seq<string>): (r: seq<string>)
      reads this
      ensures |r| <= |userIds|
      ensures forall s :: s in r ==> s != ""
    {
      if userIds == [] then []
      else
        var rest := GetSocketIdsForUsers(userIds[1..]);
        var socket := Get(connectedUsers, userIds[0]);
        if IsTruthy(socket) then [socket.value] + rest else rest
    }
  }

  /** The batch lookup distributes over concatenation: order and duplicates are kept. */
  lemma {:induction false} SocketIdsForUsersAppend(c: ConnectionStatusService, a: seq<string>, b: seq<string>)
    ensures c.GetSocketIdsForUsers(a + b) == c.GetSocketIdsForUsers(a) + c.GetSocketIdsForUsers(b)
  {
    if a != [] {
      assert (a + b)[1..] == a[1..] + b;
      SocketIdsForUsersAppend(c, a[1..], b);
    } else {
      assert a + b == b;
    }
  }

  /**
    A socket is in the result exactly when it is truthy and some requested
    id maps to it.
   */
  lemma {:induction false} SocketIdsForUsersMembers(c: ConnectionStatusService, userIds: seq<string>, s: string)
    ensures s in c.GetSocketIdsForUsers(userIds) <==>
              s != "" && exists i :: 0 <= i < |userIds| && Get(c.connectedUsers, userIds[i]) == Some(s)
  {
    if userIds != [] {
      SocketIdsForUsersMembers(c, userIds[1..], s);
      assert forall i :: 1 <= i < |userIds| ==> userIds[1..][i - 1] == userIds[i];
      if exists i :: 0 <= i < |userIds| && Get(c.connectedUsers, userIds[i]) == Some(s) {
        var i :| 0 <= i < |userIds| && Get(c.connectedUsers, userIds[i]) == Some(s);
        if i > 0 {
          assert Get(c.connectedUsers, userIds[1..][i - 1]) == Some(s);
        }
      }
    }
  }

  /** One id yields its socket when that socket is truthy, and nothing otherwise. */
  lemma SocketIdsForUsersSingle(c: ConnectionStatusService, id: string)
    ensures c.GetSocketIdsForUsers([id]) ==
              if IsTruthy(Get(c.connectedUsers, id)) then [Get(c.connectedUsers, id).value] else []
  {
  }

  /** Asking for the same ids twice yields every socket twice, in the same order. */
  lemma SocketIdsForUsersRepeat(c: ConnectionStatusService, ids: seq<string>)
    ensures c.GetSocketIdsForUsers(ids + ids) == c.GetSocketIdsForUsers(ids) + c.GetSocketIdsForUsers(ids)
  {
    SocketIdsForUsersAppend(c, ids, ids);
  }
}
