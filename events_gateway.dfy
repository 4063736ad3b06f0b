/**
  The real-time gateway for drivers: it registers a driver's socket on
  connection, drops it on disconnection, pushes a new route to a driver's
  socket, and resolves the riders of a driver's latest route on a location
  update. Socket emits and forced disconnects are recorded in an outbox, in
  the order the gateway issues them. The gateway is wired to the driver
  registry only.
 */
module Events {
  import opened JsValues
  import opened InsertionMap
  import opened DriverStatus

  /** What the gateway asks the socket server to do. */
  datatype Outgoing =
    | Emit(socketId: string, event: string, payload: string)
    | Disconnect(socketId: string)

  /** How a location update was handled. */
  datatype LocationOutcome =
    | UnknownSocket                                            // no driver holds the socket
    | NoActiveRoute(driverId: string)                          // the driver has no route
    | RouteRiders(driverId: string, routeId: string, userIds: seq<string>)

  class EventsGateway {
    const driverStatus: DriverStatusService
    var outbox: seq<Outgoing>

    ghost predicate Valid()
      reads this, driverStatus
    {
      driverStatus.Valid()
    }

    constructor (driverStatus: DriverStatusService)
      requires driverStatus.Valid()
      ensures Valid() && this.driverStatus == driverStatus && outbox == []
    {
      this.driverStatus := driverStatus;
      outbox := [];
    }

    /**
      `handleConnection`: a client without a truthy `driverId` query value is
      disconnected and nothing is registered; otherwise the driver's socket is
      registered, overwriting any earlier one.
     */
    method HandleConnection(clientId: string, driverIdQuery: Option<string>)
      requires Valid()
      modifies this, driverStatus
      ensures Valid()
      ensures IsTruthy(driverIdQuery) ==>
                && driverStatus.connectedDrivers == Put(old(driverStatus.connectedDrivers), driverIdQuery.value, clientId)
                && outbox == old(outbox)
      ensures !IsTruthy(driverIdQuery) ==>
                && driverStatus.connectedDrivers == old(driverStatus.connectedDrivers)
                && outbox == old(outbox) + [Disconnect(clientId)]
    {
      if !IsTruthy(driverIdQuery) {
        outbox := outbox + [Disconnect(clientId)];
        return;
      }
      driverStatus.AddDriver(driverIdQuery.value, clientId);
    }

    /**
      `handleDisconnect`: the driver holding the socket, if any, loses its
      registration; an unknown socket changes nothing.
     */
    method HandleDisconnect(clientId: string)
      requires Valid()
      modifies driverStatus
      ensures Valid()
      ensures var d := FirstKeyFor(old(driverStatus.connectedDrivers), clientId);
              driverStatus.connectedDrivers ==
                if IsTruthy(d) then Delete(old(driverStatus.connectedDrivers), d.value)
                else old(driverStatus.connectedDrivers)
    {
      var driverId := driverStatus.GetDriverId(clientId);
      if IsTruthy(driverId) {
        driverStatus.RemoveDriver(driverId.value);
      }
    }

    /**
      `sendNewRouteToDriver`: one `new_route` emit to the driver's socket when
      a truthy socket is registered for it, and nothing otherwise.
     */
    method SendNewRouteToDriver(driverId: string, routeData: string)
      requires Valid()
      modifies this
      ensures Valid()
      ensures var s := Get(driverStatus.connectedDrivers, driverId);
              outbox == old(outbox) + if IsTruthy(s) then [Emit(s.value, "new_route", routeData)] else []
    {
      var socketId := driverStatus.GetSocketId(driverId);
      if IsTruthy(socketId) {
        outbox := outbox + [Emit(socketId.value, "new_route", routeData)];
      }
    }

    /**
      `handleUpdateLocation`: resolve the driver from its socket, then its
      latest route, then the distinct users booked on that route. The two
      database queries are the parameters `latestRouteOf` (the id of the
      driver's most recently created route) and `bookingUserIdsOf` (the user
      id of every booking with a stop on a route). Nothing is emitted and
      the registry is only read.
     */
    method HandleUpdateLocation(clientId: string, latestRouteOf: string -> Option<string>,
                                bookingUserIdsOf: string -> seq<string>)
      returns (o: LocationOutcome)
      requires Valid()
      ensures var d := FirstKeyFor(driverStatus.connectedDrivers, clientId);
              && (o.UnknownSocket? <==> !IsTruthy(d))
              && (o.NoActiveRoute? <==> IsTruthy(d) && latestRouteOf(d.value).None?)
      ensures o.NoActiveRoute? || o.RouteRiders? ==>
                Some(o.driverId) == FirstKeyFor(driverStatus.connectedDrivers, clientId)
      ensures o.NoActiveRoute? ==> Get(driverStatus.connectedDrivers, o.driverId) == Some(clientId)
      ensures o.RouteRiders? ==>
                && Get(driverStatus.connectedDrivers, o.driverId) == Some(clientId)
                && latestRouteOf(o.driverId) == Some(o.routeId)
                && o.userIds == UniqueUserIds(bookingUserIdsOf(o.routeId))
    {
      var driverId := driverStatus.GetDriverId(clientId);
      if !IsTruthy(driverId) {
        return UnknownSocket;
      }
      var activeRoute := latestRouteOf(driverId.value);
      if activeRoute.None? {
        return NoActiveRoute(driverId.value);
      }
      var userIds := UniqueUserIds(bookingUserIdsOf(activeRoute.value));
      return RouteRiders(driverId.value, activeRoute.value, userIds);
    }
  }

  // -----------------------------------------------------------------------
  // The user-id deduplication of `getUserIdsFromRoute`
  // -----------------------------------------------------------------------

  ghost predicate NoDuplicates(s: seq<string>)
  {
    forall i, j :: 0 <= i < j < |s| ==> s[i] != s[j]
  }

  /** The index of the first occurrence of `x` in `s`. */
  function FirstIndex(s: seq<string>, x: string): (i: nat)
    requires x in s
    ensures i < |s| && s[i] == x && x !in s[..i]
  {
    if s[0] == x then 0
    else
      var i := 1 + FirstIndex(s[1..], x);
      assert s[..i] == [s[0]] + s[1..][..i - 1];
      i
  }

  /**
    `[...new Set(userIds)]`: the ids in the order a `Set` receives them, each
    kept at its first occurrence. Adding the ids one by one from the left is
    the fold below.
   */
  function UniqueUserIds(ids: seq<string>): (r: seq<string>)
    ensures NoDuplicates(r)
    ensures forall x :: x in r <==> x in ids
    ensures |r| <= |ids|
  {
    if ids == [] then []
    else
      var prefix, last := ids[..|ids| - 1], ids[|ids| - 1];
      assert ids == prefix + [last];
      var r := UniqueUserIds(prefix);
      if last in r then r else r + [last]
  }

  /** An id occurring in a prefix is first found at the same index in the whole sequence. */
  lemma {:induction false} FirstIndexAppend(p: seq<string>, q: seq<string>, x: string)
    requires x in p
    ensures FirstIndex(p + q, x) == FirstIndex(p, x)
  {
    if p[0] != x {
      assert (p + q)[1..] == p[1..] + q;
      FirstIndexAppend(p[1..], q, x);
    }
  }

  /** Every element of `r` occurs in `ids`, and `r` lists them in the order of their first occurrences. */
  ghost predicate InFirstOccurrenceOrder(ids: seq<string>, r: seq<string>)
  {
    && (forall x :: x in r ==> x in ids)
    && forall i, j :: 0 <= i < j < |r| ==> FirstIndex(ids, r[i]) < FirstIndex(ids, r[j])
  }

  /** The result lists the ids in the order of their first occurrences in the input. */
  lemma {:induction false} UniqueUserIdsFirstOccurrenceOrder(ids: seq<string>)
    ensures InFirstOccurrenceOrder(ids, UniqueUserIds(ids))
  {
    if ids != [] {
      var prefix, last := ids[..|ids| - 1], ids[|ids| - 1];
      assert ids == prefix + [last];
      UniqueUserIdsFirstOccurrenceOrder(prefix);
      var rp := UniqueUserIds(prefix);
      var r := UniqueUserIds(ids);
      assert r == if last in rp then rp else rp + [last];
      forall i, j | 0 <= i < j < |r| ensures FirstIndex(ids, r[i]) < FirstIndex(ids, r[j]) {
        assert r[i] == rp[i] && r[i] in prefix;
        FirstIndexAppend(prefix, [last], r[i]);
        if j < |rp| {
          assert r[j] == rp[j] && r[j] in prefix;
          FirstIndexAppend(prefix, [last], r[j]);
        } else {
          assert r[j] == last && last !in prefix;
          assert FirstIndex(ids, last) == |prefix|;
        }
      }
    }
  }

  /** A duplicate-free list of ids is returned unchanged. */
  lemma {:induction false} UniqueUserIdsOfDistinct(ids: seq<string>)
    requires NoDuplicates(ids)
    ensures UniqueUserIds(ids) == ids
  {
    if ids != [] {
      var prefix, last := ids[..|ids| - 1], ids[|ids| - 1];
      assert ids == prefix + [last];
      UniqueUserIdsOfDistinct(prefix);
      assert last !in prefix by {
        forall k | 0 <= k < |prefix| ensures prefix[k] != last {
          assert prefix[k] == ids[k];
        }
      }
    }
  }

  /** Deduplicating twice is deduplicating once. */
  lemma UniqueUserIdsIdempotent(ids: seq<string>)
    ensures UniqueUserIds(UniqueUserIds(ids)) == UniqueUserIds(ids)
  {
    UniqueUserIdsOfDistinct(UniqueUserIds(ids));
  }

  /**
    A stale disconnect never evicts a reconnected driver: after the driver
    re-registers with a new socket, the old socket no longer resolves to it.
   */
  lemma StaleSocketDoesNotResolve(e: Entries, driverId: string, oldSocket: string, newSocket: string)
    requires UniqueKeys(e) && oldSocket != newSocket
    ensures FirstKeyFor(Put(e, driverId, newSocket), oldSocket) != Some(driverId)
  {
    var e' := Put(e, driverId, newSocket);
    PutUnique(e, driverId, newSocket);
    PutGet(e, driverId, newSocket);
    FirstKeyForMapsTo(e', oldSocket);
  }

  /**
    Connecting a driver on a socket no one holds and then disconnecting that
    socket: the socket resolves to the driver, and its removal leaves the
    registry as if the driver had never been registered.
   */
  lemma ConnectThenDisconnect(e: Entries, driverId: string, socketId: string)
    requires UniqueKeys(e)
    requires forall i :: 0 <= i < |e| ==> e[i].1 != socketId
    ensures FirstKeyFor(Put(e, driverId, socketId), socketId) == Some(driverId)
    ensures Delete(Put(e, driverId, socketId), driverId) == Delete(e, driverId)
  {
    PutThenFindByValue(e, driverId, socketId);
    DeletePut(e, driverId, socketId);
  }
}
