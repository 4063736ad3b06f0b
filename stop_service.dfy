/**
  Stop completion as one all-or-nothing transaction over the store of stops
  and bookings. The transaction reads the stop, fails with "not found" when
  there is none, and otherwise moves the stop's booking, if it has one, to
  IN_PROGRESS. It records nothing on the stop itself and does not look at
  the rest of the route.
 */
module Stops {
  import opened JsValues

  datatype BookingStatus = PENDING | ASSIGNED | IN_PROGRESS | COMPLETED

  datatype StopKind = DEPOT | PICKUP | DROPOFF | ENDPOINT

  /** A stop record; `bookingId` is the nullable foreign key to a booking. */
  datatype Stop = Stop(id: string, routeId: string, bookingId: Option<string>, kind: StopKind, sequence: int)

  /** The part of the database the transaction touches. */
  datatype Store = Store(stops: map<string, Stop>, bookings: map<string, BookingStatus>)

  datatype TxError =
    | StopNotFound(message: string)     // the NotFoundException thrown for an unknown stop
    | BookingNotFound(bookingId: string) // the ORM's update of a missing record throws

  /** What the transaction callback produces: a new store to commit, or an error that rolls it back. */
  datatype TxResult = Commit(after: Store, message: string) | Abort(error: TxError)

  function NotFoundMessage(stopId: string): string
  {
    "Stop with ID " + stopId + " not found."
  }

  function CompletedMessage(stopId: string): string
  {
    "Stop " + stopId + " has been marked as completed."
  }

  /** The booking a stop links to, when the link is truthy. */
  function LinkedBooking(s: Store, stopId: string): Option<string>
    requires stopId in s.stops
  {
    if IsTruthy(s.stops[stopId].bookingId) then s.stops[stopId].bookingId else None
  }

  /** The body of the `completeStop` transaction, as a function of the store it starts from. */
  function CompleteStopTx(s: Store, stopId: string): (r: TxResult)
    ensures r == Abort(StopNotFound(NotFoundMessage(stopId))) <==> stopId !in s.stops
    ensures r.Commit? ==> r.message == CompletedMessage(stopId)
    ensures r.Commit? ==> r.after.stops == s.stops && r.after.bookings.Keys == s.bookings.Keys
    ensures r.Commit? ==> forall b :: b in s.bookings && Some(b) != LinkedBooking(s, stopId) ==>
                            r.after.bookings[b] == s.bookings[b]
    ensures r.Commit? && LinkedBooking(s, stopId).Some? ==>
              var b := LinkedBooking(s, stopId).value;
              b in s.bookings && b in r.after.bookings && r.after.bookings[b] == IN_PROGRESS
    ensures r.Abort? && stopId in s.stops ==>
              LinkedBooking(s, stopId).Some? && LinkedBooking(s, stopId).value !in s.bookings
  {
    if stopId !in s.stops then Abort(StopNotFound(NotFoundMessage(stopId)))
    else match LinkedBooking(s, stopId)
      case None => Commit(s, CompletedMessage(stopId))
      case Some(b) =>
        if b !in s.bookings then Abort(BookingNotFound(b))
        else Commit(s.(bookings := s.bookings[b := IN_PROGRESS]), CompletedMessage(stopId))
  }

  /** The store after running the transaction: the committed store, or the old one on rollback. */
  function AfterCompleteStop(s: Store, stopId: string): (r: Store)
    ensures r.stops == s.stops && r.bookings.Keys == s.bookings.Keys
    ensures CompleteStopTx(s, stopId).Abort? ==> r == s
    ensures forall b :: b in s.bookings && (stopId !in s.stops || Some(b) != LinkedBooking(s, stopId)) ==> r.bookings[b] == s.bookings[b]
    ensures stopId in s.stops && LinkedBooking(s, stopId).Some? && LinkedBooking(s, stopId).value in s.bookings ==>
              r.bookings[LinkedBooking(s, stopId).value] == IN_PROGRESS
  {
    var r := CompleteStopTx(s, stopId);
    if r.Commit? then r.after else s
  }

  /** Completing the same stop twice leaves the store as completing it once. */
  lemma CompleteStopIdempotent(s: Store, stopId: string)
    ensures AfterCompleteStop(AfterCompleteStop(s, stopId), stopId) == AfterCompleteStop(s, stopId)
    ensures CompleteStopTx(s, stopId).Commit? ==> CompleteStopTx(AfterCompleteStop(s, stopId), stopId).Commit?
  {
    var once := AfterCompleteStop(s, stopId);
    if stopId in s.stops && LinkedBooking(s, stopId).Some? && LinkedBooking(s, stopId).value in s.bookings {
      var b := LinkedBooking(s, stopId).value;
      assert once.bookings == s.bookings[b := IN_PROGRESS];
      assert once.bookings[b := IN_PROGRESS] == once.bookings;
    }
  }

  /**
    The status written does not depend on the stop's kind nor on the
    booking's previous status: two stores that agree on the stop's booking
    link and on the other bookings end up with the same bookings.
   */
  lemma CompleteStopIgnoresKindAndStatus(s: Store, t: Store, stopId: string)
    requires stopId in s.stops && stopId in t.stops
    requires s.stops[stopId].bookingId == t.stops[stopId].bookingId
    requires s.bookings.Keys == t.bookings.Keys
    requires forall b :: b in s.bookings && Some(b) != LinkedBooking(s, stopId) ==> s.bookings[b] == t.bookings[b]
    ensures CompleteStopTx(s, stopId).Commit? <==> CompleteStopTx(t, stopId).Commit?
    ensures CompleteStopTx(s, stopId).Commit? ==>
              CompleteStopTx(s, stopId).after.bookings == CompleteStopTx(t, stopId).after.bookings
  {
    if CompleteStopTx(s, stopId).Commit? {
      var rs, rt := CompleteStopTx(s, stopId).after.bookings, CompleteStopTx(t, stopId).after.bookings;
      assert rs.Keys == rt.Keys;
      forall b | b in rs ensures rs[b] == rt[b] {
      }
    }
  }

  /** `StopsService`: owns the store and runs `completeStop` as a transaction against it. */
  class StopsService {
    var stops: map<string, Stop>
    var bookings: map<string, BookingStatus>

    constructor (stops: map<string, Stop>, bookings: map<string, BookingStatus>)
      ensures this.stops == stops && this.bookings == bookings
    {
      this.stops, this.bookings := stops, bookings;
    }

    /**
      `completeStop`: look the stop up, fail with NotFound if it is absent,
      set its booking to IN_PROGRESS if it has one, and return the message.
      The writes of the transaction happen on a working copy that is
      committed only when no step fails.
     */
    method CompleteStop(stopId: string) returns (r: Result)
      modifies this
      ensures var tx := CompleteStopTx(old(Store(stops, bookings)), stopId);
              && Store(stops, bookings) == AfterCompleteStop(old(Store(stops, bookings)), stopId)
              && r == (if tx.Commit? then Completed(tx.message) else Failed(tx.error))
      ensures r.Failed? ==> stops == old(stops) && bookings == old(bookings)
      ensures stops == old(stops)
    {
      var txBookings := bookings;
      if stopId !in stops {
        return Failed(StopNotFound(NotFoundMessage(stopId)));
      }
      var stop := stops[stopId];
      if stop.bookingId.Some? && stop.bookingId.value != "" {
        var b := stop.bookingId.value;
        if b !in txBookings {
          return Failed(BookingNotFound(b));
        }
        txBookings := txBookings[b := IN_PROGRESS];
      }
      bookings := txBookings;
      return Completed(CompletedMessage(stopId));
    }
  }

  /** What the caller of `completeStop` sees: the message, or the exception. */
  datatype Result = Completed(message: string) | Failed(error: TxError)
}
