/**
  The driver connection registry of the real-time gateway: one in-memory
  `Map<driverId, socketId>`, last write wins, with a reverse lookup that
  scans the entries in insertion order.
 */
module DriverStatus {
  import opened JsValues
  import opened InsertionMap

  class DriverStatusService {
    /** `connectedDrivers`: driver id to socket id, in insertion order. */
    var connectedDrivers: Entries

    ghost predicate Valid()
      reads this
    {
      UniqueKeys(connectedDrivers)
    }

    /** A fresh service starts with no connected driver. */
    constructor ()
      ensures Valid() && connectedDrivers == []
    {
      connectedDrivers := [];
    }

    /** `addDriver`: register or overwrite the socket of `driverId`. */
    method AddDriver(driverId: string, socketId: string)
      requires Valid()
      modifies this
      ensures Valid()
      ensures connectedDrivers == Put(old(connectedDrivers), driverId, socketId)
      ensures Get(connectedDrivers, driverId) == Some(socketId)
      ensures forall d :: d != driverId ==> Get(connectedDrivers, d) == Get(old(connectedDrivers), d)
    {
      PutUnique(connectedDrivers, driverId, socketId);
      PutGet(connectedDrivers, driverId, socketId);
      forall d | d != driverId
        ensures Get(Put(connectedDrivers, driverId, socketId), d) == Get(connectedDrivers, d)
      {
        PutGetOther(connectedDrivers, driverId, socketId, d);
      }
      connectedDrivers := Put(connectedDrivers, driverId, socketId);
    }

    /** `removeDriver`: forget `driverId`; a no-op when it is not registered. */
    method RemoveDriver(driverId: string)
      requires Valid()
      modifies this
      ensures Valid()
      ensures connectedDrivers == Delete(old(connectedDrivers), driverId)
      ensures Get(connectedDrivers, driverId) == None
      ensures forall d :: d != driverId ==> Get(connectedDrivers, d) == Get(old(connectedDrivers), d)
      ensures Absent(old(connectedDrivers), driverId) ==> connectedDrivers == old(connectedDrivers)
    {
      DeleteUnique(connectedDrivers, driverId);
      forall d | d != driverId
        ensures Get(Delete(connectedDrivers, driverId), d) == Get(connectedDrivers, d)
      {
        DeleteGetOther(connectedDrivers, driverId, d);
      }
      if Get(connectedDrivers, driverId).None? {
        DeleteAbsent(connectedDrivers, driverId);
      }
      connectedDrivers := Delete(connectedDrivers, driverId);
    }

    /** `getSocketId`: the socket registered for `driverId`, or undefined. */
    method GetSocketId(driverId: string) returns (r: Option<string>)
      requires Valid()
      ensures r == Get(connectedDrivers, driverId)
      ensures r.None? <==> Absent(connectedDrivers, driverId)
    {
      r := Get(connectedDrivers, driverId);
    }

    /**
      `getDriverId`: the earliest-inserted driver whose socket is `socketId`,
      or undefined when no driver holds it.
     */
    method GetDriverId(socketId: string) returns (r: Option<string>)
      requires Valid()
      ensures r == FirstKeyFor(connectedDrivers, socketId)
      ensures r.Some? ==> Get(connectedDrivers, r.value) == Some(socketId)
    {
      r := ScanForValue(connectedDrivers, socketId);
      FirstKeyForMapsTo(connectedDrivers, socketId);
    }
  }
}
