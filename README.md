# Ride-pooling real-time core: connection registries, gateway and stop completion

This project models the parts of the ride-pooling back end that hold
precise, checkable logic:

- the **driver connection registry** (`DriverStatusService`): one in-memory
  `Map<driverId, socketId>` with last-write-wins registration, deletion,
  forward lookup and a reverse lookup by socket that scans the entries in
  insertion order;
- the **driver + rider connection registry** (`ConnectionStatusService`):
  two such maps, removal by socket id of the first matching entry, and a
  batch lookup of rider sockets;
- the **real-time gateway** for drivers (`EventsGateway`): registration on
  connection (or a forced disconnect when no driver id is given), removal on
  disconnection, pushing a new route to a driver's socket, the guard
  structure of a location update, and the order-preserving de-duplication
  of the user ids booked on a route;
- **stop completion** (`StopsService.completeStop`): one transaction over
  the stops and bookings that fails with "not found" for an unknown stop and
  otherwise moves the stop's booking to `IN_PROGRESS`.

A JavaScript `Map<string, string>` is modelled in `InsertionMap` as a
sequence of key/value pairs with distinct keys, in insertion order: `Put`
(`set`) overwrites in place or appends, `Delete` removes the entry, `Get`
looks up, and `FirstKeyFor` is the first entry in iteration order holding a
value. The registries are classes whose map fields are such sequences;
their methods state the new contents in terms of these functions, and the
lemmas of `InsertionMap` state what those functions promise. JavaScript
truthiness (`if (x)`, `!!x`) is modelled by `IsTruthy` in the small shared
module `JsValues`, beside `Option`: `undefined` and the empty string are
falsy.

The gateway records what it asks the socket server to do (emit an event,
disconnect a client) in an append-only `outbox`. The two database queries
of a location update are parameters of `HandleUpdateLocation`. Stop
completion is modelled as a function from the store it starts from to a
commit or an abort, and the class method applies it all-or-nothing.

Where the code and the system's intended design differ, the model follows
the code:

- The route optimiser and dispatch scheduler of the intended design do not
  exist in the code: `src/modules/route-optimization/route-optimization.service.ts`
  only logs on a timer. Nothing of them is modelled.
- Stop completion in the code sets the stop's booking to `IN_PROGRESS`
  whether the stop is a pickup or a dropoff and whatever the booking's
  status was; it records no completion time and never completes a route,
  driver or booking.
- The registry keeps drivers and riders in two maps with separate removal
  operations, each deleting only the first entry (in insertion order) that
  holds the socket; the batch lookup drops empty socket ids as well as
  missing ones.
- The gateway is wired to `DriverStatusService`, not to
  `ConnectionStatusService`; the two registries are modelled independently.
- When the stop's booking does not exist, the ORM's `update` throws; the
  model aborts the transaction with `BookingNotFound`.

## Model

| member | source | states |
|---|---|---|
| InsertionMap.Get | src/events/driver-status.service.ts:15-17 | `Map.get`: the lookup is undefined exactly when no entry holds the key |
| InsertionMap.Delete | src/events/driver-status.service.ts:11-13 | `Map.delete`: afterwards no entry holds the key, and the map does not grow |
| InsertionMap.FirstIndexFor | src/events/driver-status.service.ts:20-25 | the position of the first entry in iteration order holding a value: undefined exactly when no entry holds it, otherwise that entry holds it and none before it does |
| InsertionMap.FirstKeyFor | src/events/driver-status.service.ts:20-25 | the key of the first entry in iteration order holding a value: undefined exactly when no entry holds it, otherwise some entry pairs the key with the value and no earlier entry holds the value |
| InsertionMap.ScanForValue | src/events/driver-status.service.ts:20-25 | the `for ... of entries()` loop with early return yields exactly the first-match key |
| InsertionMap.Put | src/events/driver-status.service.ts:7-9 | `Map.set` adds at most one entry; what it promises about order and lookups is carried by PutKeys, PutGet, PutGetOther, PutOverwrites and PutAppends below |
| InsertionMap.PutKeys | src/events/driver-status.service.ts:7-9 | `Map.set` keeps the iteration order: an existing key stays where it was, a new key is appended last |
| InsertionMap.PutGet | src/events/driver-status.service.ts:7-9 | after `set(k, v)`, `get(k)` is `v` |
| InsertionMap.PutGetOther | src/events/driver-status.service.ts:7-9 | `set(k, v)` leaves the lookup of every other key unchanged |
| InsertionMap.PutOverwrites | src/events/driver-status.service.ts:7-9 | re-setting a present key replaces its one entry in place and changes nothing else |
| InsertionMap.PutAppends | src/events/driver-status.service.ts:7-9 | setting a new key appends exactly one entry at the end |
| InsertionMap.PutUnique | src/events/driver-status.service.ts:7-9 | `set` keeps keys unique, so a re-added key still has exactly one entry |
| InsertionMap.PutThenFindByValue | src/events/driver-status.service.ts:7-25 | a socket held by no one, once set under a driver, is found by the reverse lookup under that driver |
| InsertionMap.DeletePut | src/events/driver-status.service.ts:7-13 | deleting a key undoes any `set` of it |
| InsertionMap.DeleteGet | src/events/driver-status.service.ts:11-17 | after `delete(k)`, `get(k)` is undefined |
| InsertionMap.DeleteGetOther | src/events/driver-status.service.ts:11-17 | `delete(k)` leaves the lookup of every other key unchanged |
| InsertionMap.DeleteAbsent | src/events/driver-status.service.ts:11-13 | deleting an absent key is a no-op |
| InsertionMap.DeleteAt | src/events/driver-status.service.ts:11-13 | deleting a present key removes exactly its one entry, keeping the others in order |
| InsertionMap.DeleteUnique | src/events/driver-status.service.ts:11-13 | `delete` keeps keys unique |
| InsertionMap.GetAt | src/events/driver-status.service.ts:15-17 | in a map, `get` returns the value of the one entry holding the key |
| InsertionMap.FirstKeyForAt | src/events/driver-status.service.ts:20-25 | an entry holding the value with no earlier entry holding it is the one the reverse lookup finds |
| InsertionMap.FirstKeyForMapsTo | src/events/driver-status.service.ts:19-26 | the driver found by socket maps to that socket |
| InsertionMap.DeleteFirstMatch | src/events/connection-status.service.ts:12-18 | deleting the key found by value removes exactly the first entry holding the value and nothing else |
| DriverStatus.DriverStatusService.constructor | src/events/driver-status.service.ts:5 | the registry starts empty |
| DriverStatus.DriverStatusService.AddDriver | src/events/driver-status.service.ts:7-9 | new map is `set(old, driverId, socketId)`; the driver's socket is the new one and every other driver's lookup is unchanged |
| DriverStatus.DriverStatusService.RemoveDriver | src/events/driver-status.service.ts:11-13 | new map is `delete(old, driverId)`; the driver is unregistered, every other lookup is unchanged, and an absent driver changes nothing |
| DriverStatus.DriverStatusService.GetSocketId | src/events/driver-status.service.ts:15-17 | returns the mapped socket, undefined exactly when the driver is absent, and changes nothing |
| DriverStatus.DriverStatusService.GetDriverId | src/events/driver-status.service.ts:19-26 | returns the first driver in insertion order holding the socket, and that driver maps to the socket |
| ConnectionStatus.ConnectionStatusService.constructor | src/events/connection-status.service.ts:5-6 | both maps start empty |
| ConnectionStatus.ConnectionStatusService.AddDriver | src/events/connection-status.service.ts:9-11 | the driver map becomes `set(old, driverId, socketId)`; the user map is unchanged |
| ConnectionStatus.ConnectionStatusService.RemoveDriverBySocketId | src/events/connection-status.service.ts:12-19 | returns the first driver holding the socket and deletes only that entry; undefined and no change when no driver holds it; the user map is unchanged |
| ConnectionStatus.ConnectionStatusService.GetSocketIdForDriver | src/events/connection-status.service.ts:20-22 | returns the driver's socket, undefined exactly when the driver is absent |
| ConnectionStatus.ConnectionStatusService.AddUser | src/events/connection-status.service.ts:25-27 | the user map becomes `set(old, userId, socketId)`; the driver map is unchanged |
| ConnectionStatus.ConnectionStatusService.RemoveUserBySocketId | src/events/connection-status.service.ts:28-35 | returns the first user holding the socket and deletes only that entry; undefined and no change on a miss; the driver map is unchanged |
| ConnectionStatus.ConnectionStatusService.GetSocketIdsForUsers | src/events/connection-status.service.ts:36-40 | the result is no longer than the input and holds no empty socket id |
| ConnectionStatus.SocketIdsForUsersMembers | src/events/connection-status.service.ts:36-40 | a socket is in the result exactly when it is non-empty and some requested id maps to it |
| ConnectionStatus.SocketIdsForUsersAppend | src/events/connection-status.service.ts:36-40 | the batch lookup of `a + b` is the lookup of `a` followed by that of `b`: input order is kept |
| ConnectionStatus.SocketIdsForUsersSingle | src/events/connection-status.service.ts:36-40 | one id yields its socket when that socket is truthy, and nothing when it is missing or empty |
| ConnectionStatus.SocketIdsForUsersRepeat | src/events/connection-status.service.ts:36-40 | duplicated ids yield duplicated sockets |
| Stops.CompleteStopTx | src/modules/stop/stop.service.ts:11-31 | aborts with the not-found message exactly for an unknown stop; on commit no stop changes, the message names the stop, the linked booking's status is `IN_PROGRESS` whatever it was and whatever the stop's kind, and every other booking is unchanged; the only other abort is a missing linked booking |
| Stops.AfterCompleteStop | src/modules/stop/stop.service.ts:11-31 | the all-or-nothing `$transaction`: on any error the store is exactly the old one; the stops are never written; the linked booking, when it exists, ends `IN_PROGRESS`, and every other booking keeps its status |
| Stops.CompleteStopIdempotent | src/modules/stop/stop.service.ts:19-25 | completing the same stop twice leaves the store as completing it once, and a commit is followed by a commit |
| Stops.CompleteStopIgnoresKindAndStatus | src/modules/stop/stop.service.ts:19-25 | the bookings written depend only on the stop's booking link and on the other bookings, not on the stop's kind or the booking's previous status |
| Stops.StopsService.CompleteStop | src/modules/stop/stop.service.ts:9-32 | the new store is the transaction's commit, or the old store on any error; the stops are never modified; the result is the message or the error |
| Events.EventsGateway.constructor | src/events/events.gateway.ts:20-23 | the gateway uses the given driver registry and has emitted nothing |
| Events.EventsGateway.HandleConnection | src/events/events.gateway.ts:26-36 | a falsy driver id disconnects the client and leaves the registry unchanged; a truthy one registers `driverId → client id` and emits nothing |
| Events.EventsGateway.HandleDisconnect | src/events/events.gateway.ts:39-45 | the driver holding the socket loses its entry; an unknown socket changes nothing |
| Events.EventsGateway.SendNewRouteToDriver | src/events/events.gateway.ts:48-54 | appends exactly one `new_route` emit to the driver's registered socket, or nothing when there is no truthy socket |
| Events.EventsGateway.HandleUpdateLocation | src/events/events.gateway.ts:57-86 | stops when no driver holds the socket and when the driver has no route; otherwise yields the driver, its latest route and the de-duplicated user ids of that route; the driver named is the first in insertion order holding the socket, as `getDriverId` returns; the registry is only read |
| Events.UniqueUserIds | src/events/events.gateway.ts:101 | `[...new Set(ids)]` has no duplicates, the same elements as the input, and is no longer than it |
| Events.UniqueUserIdsFirstOccurrenceOrder | src/events/events.gateway.ts:101 | the result lists the ids in the order of their first occurrences in the input |
| Events.UniqueUserIdsOfDistinct | src/events/events.gateway.ts:101 | a duplicate-free list is returned unchanged |
| Events.UniqueUserIdsIdempotent | src/events/events.gateway.ts:101 | de-duplicating twice is de-duplicating once |
| Events.StaleSocketDoesNotResolve | src/events/events.gateway.ts:39-45 | after a driver reconnects on a new socket, its old socket no longer resolves to it, so a late disconnect of the old socket cannot evict it |
| Events.ConnectThenDisconnect | src/events/events.gateway.ts:26-45 | a driver connected on a fresh socket is found by that socket, and its disconnection leaves the registry as if it had never connected |

## Left out

- The route optimiser and dispatch scheduler: `src/modules/route-optimization/route-optimization.service.ts` only logs; there is no sequencer, scheduler, ETA computation or route-completion cascade to model.
- The OSRM duration-matrix client (`core/orsm/orsm.service.ts`): an HTTP call with floating-point formatting; its only branch without I/O returns a degenerate matrix for fewer than two points.
- The users, bookings and drivers services, the controllers, the DTO, the module files and the bootstrap: ORM queries, routing, validation decorators and dependency-injection wiring.
- Logging (`this.logger.log`, `debug`): output only, with no effect on state.
- Socket transport: an emit or a forced disconnect is an entry in the gateway's `outbox`, not a delivery; `routeData` (typed `any`) is a string payload.
- The location payload of `handleUpdateLocation`: it is only logged, so the model takes no coordinates.
- The two ORM queries of `handleUpdateLocation` and `getUserIdsFromRoute` (the driver's most recently created route, the user ids of the bookings on a route): they are the function parameters `latestRouteOf` and `bookingUserIdsOf`, not modelled queries.
- Events.EventsGateway.HandleConnection: a `driverId` query parameter given several times arrives as an array of strings; the model takes the parameter as a single optional string.
- Events.EventsGateway.HandleUpdateLocation: in the code the handler is asynchronous and ends with a log line when the user list is non-empty; the model returns the resolved user list instead of logging it.
- Concurrency: the registries are plain fields and the transaction is all-or-nothing with no interleaving of other writers; isolation levels are not modelled.
- The stop and booking records: the database schema is not part of this model. The code reads only a stop's nullable `bookingId` and writes only a booking's `status`; the stop's `kind` and `sequence` and the status values PENDING, ASSIGNED, IN_PROGRESS and COMPLETED are assumed, and nothing in the model depends on them beyond `IN_PROGRESS` being one of the statuses.
