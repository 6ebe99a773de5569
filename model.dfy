/** Records of the waiting-list admission engine: waiting-list entries, the
    tickets it counts, the expiry calls it schedules and the errors it raises. */
module Model {

  type EntryId = nat
  type EventId = nat
  type UserId = string

  datatype Option<T> = None | Some(value: T)

  /** Lifecycle of a waiting-list entry. `Purchased` is set by the purchase
      flow, which is outside the engine. */
  datatype Status = Waiting | Offered | Purchased | Expired

  /** A row of the `waitingList` table. `createdAt` is the row's creation
      time; `offerExpiresAt` is an optional field. */
  datatype Entry = Entry(
    eventId: EventId,
    userId: UserId,
    status: Status,
    createdAt: int,
    offerExpiresAt: Option<int>)

  datatype TicketStatus = Valid | Used | Refunded | Cancelled

  /** The part of a `tickets` row that admission reads. */
  datatype Ticket = Ticket(eventId: EventId, status: TicketStatus)

  /** A call of `expireOffer(waitingListId, eventId)` scheduled to run
      `delay` milliseconds later. */
  datatype Task = ExpireOfferTask(delay: int, waitingListId: EntryId, eventId: EventId)

  datatype Error =
    | EventNotFound        // "Event not found"
    | NoValidTicketOffer   // "No valid ticket offer found"

  /** How a mutation ends: it returns, or it throws and none of its writes
      or scheduled calls are committed. */
  datatype Outcome = Ok | Err(error: Error)

  /** Lifetime of a ticket offer in milliseconds (`DURATIONS.TICKET_OFFER`).
      Only its positivity matters to the properties proved here. */
  const TICKET_OFFER: int := 30 * 60 * 1000

  /** Still competing for a ticket: waiting, or holding an offer. These are
      the entries `getQueuePosition` counts and the ones a user may hold only
      one of per event. */
  predicate InLine(e: Entry) {
    e.status == Waiting || e.status == Offered
  }

  /** An entry whose offer deadline has been set to `deadline`. */
  function OfferedUntil(e: Entry, deadline: int): Entry {
    e.(status := Offered, offerExpiresAt := Some(deadline))
  }

  /** An entry patched to `expired`; its deadline field is left as it was. */
  function ExpiredEntry(e: Entry): Entry {
    e.(status := Expired)
  }

  /** A subset is no larger than its superset, and a proper one is smaller. */
  lemma SubsetSize<T>(a: set<T>, b: set<T>)
    requires a <= b
    ensures |a| <= |b|
    ensures a < b ==> |a| < |b|
  {
    assert b == a + (b - a);
    assert a !! (b - a);
  }
}
