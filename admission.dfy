/** What one run of `processQueue` does to the store, stated on values, and
    the properties of admission that follow from it. */
module Admission {
  import opened Model
  import opened Ordering
  import opened Capacity
  import opened Lifecycle

  /** The waiting entries of the event (index `by_event_status`). */
  function WaitingFor(entries: map<EntryId, Entry>, eventId: EventId): set<EntryId> {
    set id | id in entries && entries[id].eventId == eventId && entries[id].status == Waiting
  }

  /** The store after the entries `ids` are patched to `offered` with the
      given deadline. */
  function Promote(entries: map<EntryId, Entry>, ids: seq<EntryId>, deadline: int): map<EntryId, Entry> {
    map id | id in entries :: if id in ids then OfferedUntil(entries[id], deadline) else entries[id]
  }

  /** One scheduled `expireOffer(id, eventId)` per promoted entry, in order. */
  function ExpiryTasks(ids: seq<EntryId>, eventId: EventId): seq<Task> {
    seq(|ids|, i requires 0 <= i < |ids| => ExpireOfferTask(TICKET_OFFER, ids[i], eventId))
  }

  /** `after` and `tasks1` are the store and the scheduler queue after one
      admission run for the event at `now`, which promoted `promoted`: the
      `min(availableSpots, #waiting)` oldest waiting entries of the event
      (none when no spot is available), each offered until now + TICKET_OFFER
      with one expiry task. */
  ghost predicate Admitted(totalTickets: int, tickets: seq<Ticket>, eventId: EventId, now: int,
                           before: map<EntryId, Entry>, after: map<EntryId, Entry>,
                           tasks0: seq<Task>, tasks1: seq<Task>, promoted: seq<EntryId>)
  {
    var pool := WaitingFor(before, eventId);
    && OldestFirst(before, pool, Quota(AvailableSpots(totalTickets, tickets, before, eventId, now), |pool|), promoted)
    && after == Promote(before, promoted, now + TICKET_OFFER)
    && tasks1 == tasks0 + ExpiryTasks(promoted, eventId)
  }

  /** Admission changes only waiting entries of its own event, each to an
      offer until now + TICKET_OFFER, and only along the lifecycle. */
  lemma AdmissionOnlyPromotes(totalTickets: int, tickets: seq<Ticket>, eventId: EventId, now: int,
                              before: map<EntryId, Entry>, after: map<EntryId, Entry>,
                              tasks0: seq<Task>, tasks1: seq<Task>, promoted: seq<EntryId>)
    requires Admitted(totalTickets, tickets, eventId, now, before, after, tasks0, tasks1, promoted)
    ensures Evolves(before, after)
    ensures forall id :: id in before && after[id] != before[id] ==>
              && before[id].status == Waiting && before[id].eventId == eventId
              && after[id] == OfferedUntil(before[id], now + TICKET_OFFER)
    ensures forall id :: id in before && before[id].eventId != eventId ==> after[id] == before[id]
  {
  }

  /** Promoting distinct waiting entries of the event adds exactly them to
      the live offers and removes exactly them from the waiting entries. */
  lemma PromoteEffect(before: map<EntryId, Entry>, ids: seq<EntryId>, eventId: EventId, now: int)
    requires forall i :: 0 <= i < |ids| ==> ids[i] in WaitingFor(before, eventId)
    requires forall i, j :: 0 <= i < j < |ids| ==> ids[i] != ids[j]
    ensures var after := Promote(before, ids, now + TICKET_OFFER);
            && LiveOffers(after, eventId, now) == LiveOffers(before, eventId, now) + Elements(ids)
            && |LiveOffers(after, eventId, now)| == |LiveOffers(before, eventId, now)| + |ids|
            && WaitingFor(after, eventId) == WaitingFor(before, eventId) - Elements(ids)
  {
    var after := Promote(before, ids, now + TICKET_OFFER);
    var live0, live1 := LiveOffers(before, eventId, now), LiveOffers(after, eventId, now);
    forall x ensures x in live1 <==> x in live0 + Elements(ids) {
      if x in ids {
        var i :| 0 <= i < |ids| && ids[i] == x;
        assert x in WaitingFor(before, eventId);
      }
    }
    assert live1 == live0 + Elements(ids);
    forall x | x in Elements(ids) ensures x !in live0 {
      var i :| 0 <= i < |ids| && ids[i] == x;
      assert x in WaitingFor(before, eventId);
    }
    DistinctCardinality(ids);
    forall x ensures x in WaitingFor(after, eventId) <==> x in WaitingFor(before, eventId) - Elements(ids) {
    }
  }

  /** The live offers after admission are those before plus the promoted
      entries, which were waiting and so not among them. */
  lemma LiveOffersAfterAdmission(totalTickets: int, tickets: seq<Ticket>, eventId: EventId, now: int,
                                 before: map<EntryId, Entry>, after: map<EntryId, Entry>,
                                 tasks0: seq<Task>, tasks1: seq<Task>, promoted: seq<EntryId>)
    requires Admitted(totalTickets, tickets, eventId, now, before, after, tasks0, tasks1, promoted)
    ensures |LiveOffers(after, eventId, now)| == |LiveOffers(before, eventId, now)| + |promoted|
    ensures WaitingFor(after, eventId) == WaitingFor(before, eventId) - Elements(promoted)
  {
    var pool := WaitingFor(before, eventId);
    OldestFirstElements(before, pool, |promoted|, promoted);
    PromoteEffect(before, promoted, eventId, now);
  }

  /** No overselling through offers: a run promotes no more entries than
      there are spots, so with spots available beforehand, valid and used
      tickets plus live offers stay within the event's total afterwards. */
  lemma AdmissionNeverOversells(totalTickets: int, tickets: seq<Ticket>, eventId: EventId, now: int,
                                before: map<EntryId, Entry>, after: map<EntryId, Entry>,
                                tasks0: seq<Task>, tasks1: seq<Task>, promoted: seq<EntryId>)
    requires Admitted(totalTickets, tickets, eventId, now, before, after, tasks0, tasks1, promoted)
    ensures AvailableSpots(totalTickets, tickets, after, eventId, now)
            == AvailableSpots(totalTickets, tickets, before, eventId, now) - |promoted|
    ensures AvailableSpots(totalTickets, tickets, before, eventId, now) > 0 ==>
              IssuedCount(tickets, eventId) + |LiveOffers(after, eventId, now)| <= totalTickets
  {
    LiveOffersAfterAdmission(totalTickets, tickets, eventId, now, before, after, tasks0, tasks1, promoted);
  }

  /** After a run, either no spot is left or no one of the event is waiting. */
  lemma AdmissionSettles(totalTickets: int, tickets: seq<Ticket>, eventId: EventId, now: int,
                         before: map<EntryId, Entry>, after: map<EntryId, Entry>,
                         tasks0: seq<Task>, tasks1: seq<Task>, promoted: seq<EntryId>)
    requires Admitted(totalTickets, tickets, eventId, now, before, after, tasks0, tasks1, promoted)
    ensures AvailableSpots(totalTickets, tickets, after, eventId, now) <= 0 || WaitingFor(after, eventId) == {}
  {
    var pool := WaitingFor(before, eventId);
    LiveOffersAfterAdmission(totalTickets, tickets, eventId, now, before, after, tasks0, tasks1, promoted);
    OldestFirstElements(before, pool, |promoted|, promoted);
  }

  /** Admission is idempotent: a second run straight after the first, at the
      same `now`, promotes nothing and schedules nothing. */
  lemma AdmissionIdempotent(totalTickets: int, tickets: seq<Ticket>, eventId: EventId, now: int,
                            s0: map<EntryId, Entry>, s1: map<EntryId, Entry>, s2: map<EntryId, Entry>,
                            t0: seq<Task>, t1: seq<Task>, t2: seq<Task>,
                            p1: seq<EntryId>, p2: seq<EntryId>)
    requires Admitted(totalTickets, tickets, eventId, now, s0, s1, t0, t1, p1)
    requires Admitted(totalTickets, tickets, eventId, now, s1, s2, t1, t2, p2)
    ensures p2 == [] && s2 == s1 && t2 == t1
  {
    AdmissionSettles(totalTickets, tickets, eventId, now, s0, s1, t0, t1, p1);
    assert |p2| == 0;
    assert s2 == s1;
  }

  /** Admission is a function of the store it reads: two runs over the same
      state promote the same entries in the same order. */
  lemma AdmissionDeterministic(totalTickets: int, tickets: seq<Ticket>, eventId: EventId, now: int,
                               before: map<EntryId, Entry>, tasks0: seq<Task>,
                               a1: map<EntryId, Entry>, t1: seq<Task>, p1: seq<EntryId>,
                               a2: map<EntryId, Entry>, t2: seq<Task>, p2: seq<EntryId>)
    requires Admitted(totalTickets, tickets, eventId, now, before, a1, tasks0, t1, p1)
    requires Admitted(totalTickets, tickets, eventId, now, before, a2, tasks0, t2, p2)
    ensures p1 == p2 && a1 == a2 && t1 == t2
  {
    var pool := WaitingFor(before, eventId);
    OldestFirstUnique(before, pool, |p1|, p1, p2);
  }

  /** Giving up a live offer when the event is exactly full lets the next
      admission run promote exactly one waiting entry, if one is waiting. */
  lemma ReleaseBackfillsOneSpot(totalTickets: int, tickets: seq<Ticket>, eventId: EventId, now: int,
                                before: map<EntryId, Entry>, id: EntryId,
                                after: map<EntryId, Entry>, tasks0: seq<Task>, tasks1: seq<Task>,
                                promoted: seq<EntryId>)
    requires id in before && IsLiveOffer(before[id], eventId, now)
    requires AvailableSpots(totalTickets, tickets, before, eventId, now) == 0
    requires Admitted(totalTickets, tickets, eventId, now, before[id := ExpiredEntry(before[id])],
                      after, tasks0, tasks1, promoted)
    ensures |promoted| == (if WaitingFor(before, eventId) == {} then 0 else 1)
  {
    var released := before[id := ExpiredEntry(before[id])];
    ExpiryFreesCapacity(totalTickets, tickets, before, eventId, now, id);
    assert WaitingFor(released, eventId) == WaitingFor(before, eventId);
  }

  /** After a run for the event: no spot left, or nobody of the event waiting. */
  predicate Settled(totalTickets: int, tickets: seq<Ticket>, entries: map<EntryId, Entry>,
                    eventId: EventId, now: int)
  {
    AvailableSpots(totalTickets, tickets, entries, eventId, now) <= 0 || WaitingFor(entries, eventId) == {}
  }

  /** Two stores that hold the same entries of the event. */
  ghost predicate AgreeOn(m1: map<EntryId, Entry>, m2: map<EntryId, Entry>, eventId: EventId) {
    && m1.Keys == m2.Keys
    && forall id :: id in m1 && (m1[id].eventId == eventId || m2[id].eventId == eventId) ==> m1[id] == m2[id]
  }

  /** Admission for an event reads only that event's entries: two stores
      that agree on them give the same spots and the same waiting entries. */
  lemma AgreeOnSameView(totalTickets: int, tickets: seq<Ticket>, m1: map<EntryId, Entry>,
                        m2: map<EntryId, Entry>, eventId: EventId, now: int)
    requires AgreeOn(m1, m2, eventId)
    ensures AvailableSpots(totalTickets, tickets, m1, eventId, now)
            == AvailableSpots(totalTickets, tickets, m2, eventId, now)
    ensures WaitingFor(m1, eventId) == WaitingFor(m2, eventId)
  {
    assert LiveOffers(m1, eventId, now) == LiveOffers(m2, eventId, now);
  }

  /** One scheduled `expireOffer` per entry, each for the entry's own event. */
  function TasksFor(entries: map<EntryId, Entry>, ids: seq<EntryId>): seq<Task>
    requires forall i :: 0 <= i < |ids| ==> ids[i] in entries
  {
    seq(|ids|, i requires 0 <= i < |ids| => ExpireOfferTask(TICKET_OFFER, ids[i], entries[ids[i]].eventId))
  }

  /** Promoting one more entry, in the order the loop patches them. */
  lemma PromoteSnoc(before: map<EntryId, Entry>, ids: seq<EntryId>, id: EntryId, deadline: int)
    requires id in before && id !in ids
    ensures Promote(before, ids + [id], deadline)
            == Promote(before, ids, deadline)[id := OfferedUntil(before[id], deadline)]
  {
  }

  /** Expiring an offer and then running admission moves every entry by at
      most one lifecycle step. */
  lemma ExpireThenAdmitEvolves(totalTickets: int, tickets: seq<Ticket>, eventId: EventId, now: int,
                               before: map<EntryId, Entry>, id: EntryId, after: map<EntryId, Entry>,
                               tasks0: seq<Task>, tasks1: seq<Task>, promoted: seq<EntryId>)
    requires id in before && before[id].status == Offered
    requires Admitted(totalTickets, tickets, eventId, now, before[id := ExpiredEntry(before[id])],
                      after, tasks0, tasks1, promoted)
    ensures Evolves(before, after)
  {
    var mid := before[id := ExpiredEntry(before[id])];
    AdmissionOnlyPromotes(totalTickets, tickets, eventId, now, mid, after, tasks0, tasks1, promoted);
    forall x | x in before ensures Step(before[x], after[x]) {
      if x == id {
        assert after[x] == mid[x];
      } else if after[x] != mid[x] {
        assert after[x] == OfferedUntil(before[x], now + TICKET_OFFER);
      }
    }
  }
}
