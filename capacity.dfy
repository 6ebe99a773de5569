/** The capacity formula that admission recomputes on every run:
    available spots = total tickets - (valid or used tickets + live offers). */
module Capacity {
  import opened Model

  /** A ticket that holds a place at its event. */
  predicate HoldsPlace(t: Ticket, eventId: EventId) {
    t.eventId == eventId && (t.status == Valid || t.status == Used)
  }

  /** Number of tickets of the event whose status is valid or used. */
  function IssuedCount(tickets: seq<Ticket>, eventId: EventId): (n: nat)
    ensures n <= |tickets|
  {
    if tickets == [] then 0
    else IssuedCount(tickets[..|tickets| - 1], eventId)
         + (if HoldsPlace(tickets[|tickets| - 1], eventId) then 1 else 0)
  }

  /** The offer deadline, a missing one read as 0 (`offerExpiresAt ?? 0`). */
  function Deadline(e: Entry): int {
    match e.offerExpiresAt
    case Some(t) => t
    case None => 0
  }

  /** An offer of the event that still counts against capacity at `now`. */
  predicate IsLiveOffer(e: Entry, eventId: EventId, now: int) {
    e.eventId == eventId && e.status == Offered && Deadline(e) > now
  }

  /** The entries holding a live offer for the event. */
  function LiveOffers(entries: map<EntryId, Entry>, eventId: EventId, now: int): set<EntryId> {
    set id | id in entries && IsLiveOffer(entries[id], eventId, now)
  }

  /** `availableSpots` of the admission run for the event at `now`. */
  function AvailableSpots(totalTickets: int, tickets: seq<Ticket>, entries: map<EntryId, Entry>,
                          eventId: EventId, now: int): int
  {
    totalTickets - (IssuedCount(tickets, eventId) + |LiveOffers(entries, eventId, now)|)
  }

  /** The tickets of the event that hold a place, by position. */
  function PlaceHolders(tickets: seq<Ticket>, eventId: EventId): set<nat> {
    set i | 0 <= i < |tickets| && HoldsPlace(tickets[i], eventId)
  }

  /** The count is the size of the filtered ticket list: one per valid or
      used ticket of the event, whatever else the list holds. */
  lemma {:induction false} IssuedCountIsFilterLength(tickets: seq<Ticket>, eventId: EventId)
    ensures IssuedCount(tickets, eventId) == |PlaceHolders(tickets, eventId)|
  {
    if tickets != [] {
      var init := tickets[..|tickets| - 1];
      var last := |tickets| - 1;
      IssuedCountIsFilterLength(init, eventId);
      forall i | 0 <= i < last ensures i in PlaceHolders(tickets, eventId) <==> i in PlaceHolders(init, eventId) {
        assert tickets[i] == init[i];
      }
      if HoldsPlace(tickets[last], eventId) {
        assert PlaceHolders(tickets, eventId) == PlaceHolders(init, eventId) + {last};
      } else {
        assert PlaceHolders(tickets, eventId) == PlaceHolders(init, eventId);
      }
    }
  }

  /** Giving up an entry (setting it to expired) frees exactly one spot when
      it held a live offer, and none otherwise. */
  lemma ExpiryFreesCapacity(totalTickets: int, tickets: seq<Ticket>, entries: map<EntryId, Entry>,
                            eventId: EventId, now: int, id: EntryId)
    requires id in entries
    ensures var after := entries[id := ExpiredEntry(entries[id])];
            AvailableSpots(totalTickets, tickets, after, eventId, now)
            == AvailableSpots(totalTickets, tickets, entries, eventId, now)
               + (if IsLiveOffer(entries[id], eventId, now) then 1 else 0)
  {
    var after := entries[id := ExpiredEntry(entries[id])];
    assert LiveOffers(after, eventId, now) == LiveOffers(entries, eventId, now) - {id};
  }
}
