/** The four mutations of the waiting list: admission (`processQueue`), the
    timer callback (`expireOffer`), the periodic sweep
    (`cleanupExpiredOffers`) and manual release (`releaseTicket`), as methods
    of one store. Each method is one mutation: it runs alone, and when it
    throws, none of its writes or scheduled calls are committed. */
module Engine {
  import opened Model
  import opened Ordering
  import opened Capacity
  import opened Grouping
  import opened Lifecycle
  import opened Admission

  /** An offer the sweep picks up: offered, with a deadline strictly before
      `now`. A missing deadline compares below every number, so it is
      picked up too. */
  predicate Overdue(e: Entry, now: int) {
    e.status == Offered && (e.offerExpiresAt.None? || e.offerExpiresAt.value < now)
  }

  function OverdueOffers(entries: map<EntryId, Entry>, now: int): set<EntryId> {
    set id | id in entries && Overdue(entries[id], now)
  }

  /** The rows handed to `groupByEvent`, in the order they were read. */
  function Refs(entries: map<EntryId, Entry>, ids: seq<EntryId>): (refs: seq<OfferRef>)
    requires forall i :: 0 <= i < |ids| ==> ids[i] in entries
    ensures |refs| == |ids|
    ensures forall i :: 0 <= i < |ids| ==> refs[i] == OfferRef(ids[i], entries[ids[i]].eventId)
  {
    seq(|ids|, i requires 0 <= i < |ids| => OfferRef(ids[i], entries[ids[i]].eventId))
  }

  /** What the sweep has made of entry `id` once the events in `done` have
      been handled: their overdue offers expired, and the entries that
      their admission runs promoted offered until now + TICKET_OFFER. */
  function SweptEntry(start: map<EntryId, Entry>, pool: set<EntryId>, done: set<EventId>,
                      promoted: seq<EntryId>, now: int, id: EntryId): Entry
    requires id in start
  {
    if id in pool && start[id].eventId in done then ExpiredEntry(start[id])
    else if id in promoted then OfferedUntil(start[id], now + TICKET_OFFER)
    else start[id]
  }

  ghost predicate SweptSoFar(start: map<EntryId, Entry>, pool: set<EntryId>, done: set<EventId>,
                             promoted: seq<EntryId>, now: int, current: map<EntryId, Entry>)
  {
    && current.Keys == start.Keys
    && (forall i :: 0 <= i < |promoted| ==>
          && promoted[i] in start && promoted[i] !in pool
          && start[promoted[i]].status == Waiting && start[promoted[i]].eventId in done)
    && (forall i, j :: 0 <= i < j < |promoted| ==> promoted[i] != promoted[j])
    && (forall id :: id in start ==> current[id] == SweptEntry(start, pool, done, promoted, now, id))
  }

  /** Handling one more event: expire its overdue offers, then run
      admission for it. */
  lemma SweepGroupStep(start: map<EntryId, Entry>, pool: set<EntryId>, done: set<EventId>,
                       promoted: seq<EntryId>, now: int, current: map<EntryId, Entry>,
                       eventId: EventId, mid: map<EntryId, Entry>, p: seq<EntryId>, after: map<EntryId, Entry>)
    requires pool == OverdueOffers(start, now)
    requires SweptSoFar(start, pool, done, promoted, now, current)
    requires eventId !in done
    requires mid == ExpireEach(current, PoolOf(start, pool, eventId))
    requires forall i :: 0 <= i < |p| ==> p[i] in WaitingFor(mid, eventId)
    requires forall i, j :: 0 <= i < j < |p| ==> p[i] != p[j]
    requires after == Promote(mid, p, now + TICKET_OFFER)
    ensures SweptSoFar(start, pool, done + {eventId}, promoted + p, now, after)
    ensures forall i :: 0 <= i < |p| ==> p[i] in start && start[p[i]].eventId == eventId
  {
    forall id | id in start
      ensures mid[id] == if id in pool && start[id].eventId == eventId then ExpiredEntry(start[id]) else current[id]
    {
    }
    forall i | 0 <= i < |p|
      ensures p[i] in start && p[i] !in pool && p[i] !in promoted
      ensures start[p[i]].status == Waiting && start[p[i]].eventId == eventId
    {
      var x := p[i];
      assert mid[x].status == Waiting;
      assert x !in pool;
      assert x !in promoted;
    }
    var promoted' := promoted + p;
    forall i, j | 0 <= i < j < |promoted'| ensures promoted'[i] != promoted'[j] {
      if j >= |promoted| && i < |promoted| {
        assert promoted'[j] == p[j - |promoted|];
      }
    }
    forall id | id in start
      ensures after[id] == SweptEntry(start, pool, done + {eventId}, promoted', now, id)
    {
      if id in p {
        assert mid[id] == start[id];
      }
    }
  }

  /** The overdue offers of one event. */
  function PoolOf(start: map<EntryId, Entry>, pool: set<EntryId>, eventId: EventId): set<EntryId>
    requires pool <= start.Keys
  {
    set id | id in pool && start[id].eventId == eventId
  }

  function OfferIds(offers: seq<OfferRef>): set<EntryId> {
    set o | o in offers :: o.id
  }

  /** The store after every entry of `ids` is patched to `expired`. */
  function ExpireEach(m: map<EntryId, Entry>, ids: set<EntryId>): map<EntryId, Entry> {
    map id | id in m :: if id in ids then ExpiredEntry(m[id]) else m[id]
  }

  /** The groups the sweep walks through: one per event with an overdue
      offer, each event once, each holding exactly that event's overdue
      offers. */
  ghost predicate SweepPlan(start: map<EntryId, Entry>, pool: set<EntryId>, groups: seq<Group>) {
    && pool <= start.Keys
    && (forall i, j :: 0 <= i < j < |groups| ==> groups[i].eventId != groups[j].eventId)
    && Keys(groups) == (set id | id in pool :: start[id].eventId)
    && (forall k :: 0 <= k < |groups| ==> OfferIds(groups[k].offers) == PoolOf(start, pool, groups[k].eventId))
  }

  /** Grouping the overdue offers, read in any order that lists each once,
      gives the sweep its plan. */
  lemma SweepPlanOfGrouping(start: map<EntryId, Entry>, pool: set<EntryId>, ordered: seq<EntryId>)
    requires pool <= start.Keys
    requires forall i :: 0 <= i < |ordered| ==> ordered[i] in pool
    requires Elements(ordered) == pool
    ensures SweepPlan(start, pool, GroupByEvent(Refs(start, ordered)))
  {
    var refs := Refs(start, ordered);
    var groups := GroupByEvent(refs);
    GroupByEventCorrect(refs);
    forall o: OfferRef | o.id in pool && o == OfferRef(o.id, start[o.id].eventId) ensures o in refs {
      var i :| 0 <= i < |ordered| && ordered[i] == o.id;
      assert refs[i] == o;
    }
    assert Keys(groups) == (set id | id in pool :: start[id].eventId) by {
      forall e | e in (set id | id in pool :: start[id].eventId) ensures e in EventsOf(refs) {
        var id :| id in pool && start[id].eventId == e;
        assert OfferRef(id, e) in refs;
      }
    }
    forall k | 0 <= k < |groups| ensures OfferIds(groups[k].offers) == PoolOf(start, pool, groups[k].eventId) {
      var e := groups[k].eventId;
      forall id | id in PoolOf(start, pool, e) ensures id in OfferIds(groups[k].offers) {
        assert OfferRef(id, e) in groups[k].offers;
      }
    }
  }

  /** The sweep's scheduled calls accumulate one group at a time. */
  lemma SweepTasksStep(tasks0: seq<Task>, start: map<EntryId, Entry>, promoted: seq<EntryId>,
                       p: seq<EntryId>, eventId: EventId)
    requires forall i :: 0 <= i < |promoted| ==> promoted[i] in start
    requires forall i :: 0 <= i < |p| ==> p[i] in start && start[p[i]].eventId == eventId
    ensures (tasks0 + TasksFor(start, promoted)) + ExpiryTasks(p, eventId)
            == tasks0 + TasksFor(start, promoted + p)
  {
    assert TasksFor(start, promoted) + ExpiryTasks(p, eventId) == TasksFor(start, promoted + p);
  }

  /** An event of the plan that does not exist has an overdue offer. */
  lemma SweepMissingEvent(start: map<EntryId, Entry>, pool: set<EntryId>, groups: seq<Group>, g: nat,
                          events: set<EventId>)
    requires SweepPlan(start, pool, groups)
    requires g < |groups| && groups[g].eventId !in events
    ensures exists id :: id in pool && start[id].eventId !in events
  {
    assert groups[g].eventId in Keys(groups);
  }

  /** Once every group of the plan has been handled, every event with an
      overdue offer exists, no overdue offer is left, each event was handled
      once, and every entry has moved by at most one step. */
  lemma SweepFinished(start: map<EntryId, Entry>, pool: set<EntryId>, now: int, groups: seq<Group>,
                      runs: seq<EventId>, promoted: seq<EntryId>, current: map<EntryId, Entry>,
                      events: set<EventId>)
    requires pool == OverdueOffers(start, now)
    requires SweepPlan(start, pool, groups)
    requires runs == KeyList(groups)
    requires Keys(groups) <= events
    requires SweptSoFar(start, pool, Keys(groups), promoted, now, current)
    ensures !exists id :: id in pool && start[id].eventId !in events
    ensures forall id :: id in current ==> !Overdue(current[id], now)
    ensures SweptSoFar(start, pool, set id | id in pool :: start[id].eventId, promoted, now, current)
    ensures forall i, j :: 0 <= i < j < |runs| ==> runs[i] != runs[j]
    ensures (set i | 0 <= i < |runs| :: runs[i]) == set id | id in pool :: start[id].eventId
    ensures Evolves(start, current)
  {
    var done := Keys(groups);
    forall e | e in done ensures e in (set i | 0 <= i < |runs| :: runs[i]) {
      var k :| 0 <= k < |groups| && groups[k].eventId == e;
      assert runs[k] == e;
    }
    forall id | id in current ensures !Overdue(current[id], now) && Step(start[id], current[id]) {
      if id in pool {
        assert start[id].eventId in done;
      } else if id in promoted {
        var i :| 0 <= i < |promoted| && promoted[i] == id;
        assert start[id].status == Waiting;
      }
    }
  }

  /** The sweep's expiries free no capacity: an overdue offer's deadline is
      missing or already past, so admission's formula stopped counting it
      as soon as that deadline passed (for a clock reading of at least 0,
      where a missing deadline, read as 0, is not in the future either). */
  lemma SweepExpiryFreesNothing(totalTickets: int, tickets: seq<Ticket>, start: map<EntryId, Entry>,
                                eventId: EventId, now: int)
    requires now >= 0
    ensures AvailableSpots(totalTickets, tickets,
                           ExpireEach(start, PoolOf(start, OverdueOffers(start, now), eventId)), eventId, now)
            == AvailableSpots(totalTickets, tickets, start, eventId, now)
  {
    var expired := ExpireEach(start, PoolOf(start, OverdueOffers(start, now), eventId));
    assert LiveOffers(expired, eventId, now) == LiveOffers(start, eventId, now);
  }

  /** What the sweep's admission run for `eventId` promoted, stated against
      the store the sweep started from: the oldest waiting entries of the
      event, as many as the spots free once the event's overdue offers are
      expired (none when no spot is free). */
  ghost predicate SweepAdmitted(totalTickets: int, tickets: seq<Ticket>, start: map<EntryId, Entry>,
                                pool: set<EntryId>, eventId: EventId, now: int, ids: seq<EntryId>)
    requires pool <= start.Keys
  {
    var waiting := WaitingFor(start, eventId);
    var spots := AvailableSpots(totalTickets, tickets, ExpireEach(start, PoolOf(start, pool, eventId)), eventId, now);
    OldestFirst(start, waiting, Quota(spots, |waiting|), ids)
  }

  /** The admission run of one group, seen from the start of the sweep:
      earlier groups touched no entry of this event, so the run promotes what
      it would have promoted right after this event's offers were expired.
      The group settles its event, touches no other event, and moves each
      entry by at most one step. */
  lemma SweepGroupEffect(start: map<EntryId, Entry>, pool: set<EntryId>, done: set<EventId>,
                         promoted: seq<EntryId>, now: int, current: map<EntryId, Entry>, eventId: EventId,
                         totalTickets: int, tickets: seq<Ticket>, after: map<EntryId, Entry>,
                         tasks0: seq<Task>, tasks1: seq<Task>, p: seq<EntryId>)
    requires pool == OverdueOffers(start, now)
    requires SweptSoFar(start, pool, done, promoted, now, current)
    requires eventId !in done
    requires Admitted(totalTickets, tickets, eventId, now, ExpireEach(current, PoolOf(start, pool, eventId)),
                      after, tasks0, tasks1, p)
    ensures SweepAdmitted(totalTickets, tickets, start, pool, eventId, now, p)
    ensures Settled(totalTickets, tickets, after, eventId, now)
    ensures forall id :: id in current && current[id].eventId != eventId ==> after[id] == current[id]
    ensures Evolves(current, after)
  {
    var mid := ExpireEach(current, PoolOf(start, pool, eventId));
    SweepLeftEventAlone(start, pool, done, promoted, now, current, eventId);
    AgreeOnSameView(totalTickets, tickets, mid, ExpireEach(start, PoolOf(start, pool, eventId)), eventId, now);
    OldestFirstTransfer(mid, start, WaitingFor(start, eventId),
                        Quota(AvailableSpots(totalTickets, tickets, mid, eventId, now), |WaitingFor(mid, eventId)|), p);
    AdmissionSettles(totalTickets, tickets, eventId, now, mid, after, tasks0, tasks1, p);
    AdmissionOnlyPromotes(totalTickets, tickets, eventId, now, mid, after, tasks0, tasks1, p);
    forall id | id in current ensures Step(current[id], after[id]) {
      if id in PoolOf(start, pool, eventId) {
        assert current[id] == start[id];
      }
    }
  }

  /** Before its own group, the sweep has touched no entry of an event: the
      store with that event's overdue offers expired agrees, on the event,
      with the starting store so treated, and the event's waiting entries are
      those it started with. */
  lemma SweepLeftEventAlone(start: map<EntryId, Entry>, pool: set<EntryId>, done: set<EventId>,
                            promoted: seq<EntryId>, now: int, current: map<EntryId, Entry>, eventId: EventId)
    requires pool == OverdueOffers(start, now)
    requires SweptSoFar(start, pool, done, promoted, now, current)
    requires eventId !in done
    ensures forall id :: id in start && start[id].eventId == eventId ==> current[id] == start[id]
    ensures AgreeOn(ExpireEach(current, PoolOf(start, pool, eventId)),
                    ExpireEach(start, PoolOf(start, pool, eventId)), eventId)
    ensures WaitingFor(ExpireEach(start, PoolOf(start, pool, eventId)), eventId) == WaitingFor(start, eventId)
  {
    forall id | id in start && start[id].eventId == eventId ensures current[id] == start[id] {
      assert id !in promoted;
    }
  }

  /** A group touches no entry of another event, so the events handled
      before it stay settled. */
  lemma SettledElsewhere(events: map<EventId, int>, tickets: seq<Ticket>, before: map<EntryId, Entry>,
                         after: map<EntryId, Entry>, eventId: EventId, done: set<EventId>, now: int)
    requires done <= events.Keys && eventId !in done
    requires Evolves(before, after)
    requires forall id :: id in before && before[id].eventId != eventId ==> after[id] == before[id]
    requires forall f :: f in done ==> Settled(events[f], tickets, before, f, now)
    ensures forall f :: f in done ==> Settled(events[f], tickets, after, f, now)
  {
    forall f | f in done ensures Settled(events[f], tickets, after, f, now) {
      forall id | id in before ensures after[id].eventId == before[id].eventId {
        assert Step(before[id], after[id]);
      }
      AgreeOnSameView(events[f], tickets, before, after, f, now);
    }
  }

  /** The batches promoted by successive admission runs, one after another. */
  function Concat(batches: seq<seq<EntryId>>): seq<EntryId> {
    if batches == [] then []
    else Concat(batches[..|batches| - 1]) + batches[|batches| - 1]
  }

  lemma ConcatSnoc(batches: seq<seq<EntryId>>, p: seq<EntryId>)
    ensures Concat(batches + [p]) == Concat(batches) + p
  {
    assert (batches + [p])[..|batches|] == batches;
  }

  /** The sweep's loop after `g` groups: the events handled so far are the
      first `g` keys, each entry is as those groups left it, their expiry
      calls are scheduled in order, and `batches` holds what each group's
      admission run promoted. */
  ghost predicate SweepProgress(events: map<EventId, int>, start: map<EntryId, Entry>, pool: set<EntryId>,
                                groups: seq<Group>, now: int, g: int, runs: seq<EventId>, done: set<EventId>,
                                batches: seq<seq<EntryId>>, promoted: seq<EntryId>, current: map<EntryId, Entry>,
                                tasks0: seq<Task>, tasks: seq<Task>)
  {
    && 0 <= g <= |groups|
    && runs == KeyList(groups[..g])
    && done == Keys(groups[..g]) && done <= events.Keys
    && SweptSoFar(start, pool, done, promoted, now, current)
    && tasks == tasks0 + TasksFor(start, promoted)
    && |batches| == g && promoted == Concat(batches)
  }

  /** What the first `g` admission runs achieved: each promoted what
      `SweepAdmitted` says, and each handled event is still settled. */
  ghost predicate SweepOutcomes(events: map<EventId, int>, tickets: seq<Ticket>, start: map<EntryId, Entry>,
                                pool: set<EntryId>, groups: seq<Group>, now: int, g: int, done: set<EventId>,
                                batches: seq<seq<EntryId>>, current: map<EntryId, Entry>)
  {
    && pool <= start.Keys
    && 0 <= g <= |groups| && |batches| == g
    && done == Keys(groups[..g]) && done <= events.Keys
    && (forall k :: 0 <= k < g ==> groups[k].eventId in events)
    && (forall k :: 0 <= k < g ==>
          SweepAdmitted(events[groups[k].eventId], tickets, start, pool, groups[k].eventId, now, batches[k]))
    && (forall f :: f in done ==> Settled(events[f], tickets, current, f, now))
  }

  /** The next group's event has not been handled yet. */
  lemma SweepProgressNext(events: map<EventId, int>, start: map<EntryId, Entry>, pool: set<EntryId>,
                          groups: seq<Group>, now: int, g: int, runs: seq<EventId>, done: set<EventId>,
                          batches: seq<seq<EntryId>>, promoted: seq<EntryId>, current: map<EntryId, Entry>,
                          tasks0: seq<Task>, tasks: seq<Task>)
    requires SweepProgress(events, start, pool, groups, now, g, runs, done, batches, promoted,
                           current, tasks0, tasks)
    requires SweepPlan(start, pool, groups)
    requires g < |groups|
    ensures groups[g].eventId !in done
    ensures OfferIds(groups[g].offers) == PoolOf(start, pool, groups[g].eventId)
  {
    forall i | 0 <= i < g ensures groups[..g][i].eventId != groups[g].eventId {
      assert groups[..g][i] == groups[i];
    }
  }

  /** Handling group `g` as `SweepGroup` does carries the loop's progress one
      group further. */
  lemma SweepProgressStep(events: map<EventId, int>, start: map<EntryId, Entry>, pool: set<EntryId>,
                          groups: seq<Group>, now: int, g: int, runs: seq<EventId>, done: set<EventId>,
                          batches: seq<seq<EntryId>>, promoted: seq<EntryId>, current: map<EntryId, Entry>,
                          tasks0: seq<Task>, tasks: seq<Task>, p: seq<EntryId>,
                          after: map<EntryId, Entry>, tasks': seq<Task>)
    requires SweepProgress(events, start, pool, groups, now, g, runs, done, batches, promoted,
                           current, tasks0, tasks)
    requires g < |groups| && groups[g].eventId in events
    requires SweptSoFar(start, pool, done + {groups[g].eventId}, promoted + p, now, after)
    requires forall i :: 0 <= i < |p| ==> p[i] in start && start[p[i]].eventId == groups[g].eventId
    requires tasks' == tasks + ExpiryTasks(p, groups[g].eventId)
    ensures SweepProgress(events, start, pool, groups, now, g + 1, runs + [groups[g].eventId],
                          done + {groups[g].eventId}, batches + [p], promoted + p, after, tasks0, tasks')
  {
    KeysSnoc(groups, g);
    SweepTasksStep(tasks0, start, promoted, p, groups[g].eventId);
    ConcatSnoc(batches, p);
  }

  /** The run for group `g` adds its own outcome and, touching no other
      event, keeps the earlier events settled. */
  lemma SweepOutcomesStep(events: map<EventId, int>, tickets: seq<Ticket>, start: map<EntryId, Entry>,
                          pool: set<EntryId>, groups: seq<Group>, now: int, g: int, done: set<EventId>,
                          batches: seq<seq<EntryId>>, current: map<EntryId, Entry>, p: seq<EntryId>,
                          after: map<EntryId, Entry>)
    requires SweepOutcomes(events, tickets, start, pool, groups, now, g, done, batches, current)
    requires g < |groups| && groups[g].eventId in events && groups[g].eventId !in done
    requires SweepAdmitted(events[groups[g].eventId], tickets, start, pool, groups[g].eventId, now, p)
    requires Settled(events[groups[g].eventId], tickets, after, groups[g].eventId, now)
    requires Evolves(current, after)
    requires forall id :: id in current && current[id].eventId != groups[g].eventId ==> after[id] == current[id]
    ensures SweepOutcomes(events, tickets, start, pool, groups, now, g + 1, done + {groups[g].eventId},
                          batches + [p], after)
  {
    KeysSnoc(groups, g);
    SettledElsewhere(events, tickets, current, after, groups[g].eventId, done, now);
    AdmittedSnoc(events, tickets, start, pool, groups, now, g, batches, p);
  }

  lemma AdmittedSnoc(events: map<EventId, int>, tickets: seq<Ticket>, start: map<EntryId, Entry>,
                     pool: set<EntryId>, groups: seq<Group>, now: int, g: int,
                     batches: seq<seq<EntryId>>, p: seq<EntryId>)
    requires pool <= start.Keys && 0 <= g < |groups| && |batches| == g
    requires forall k :: 0 <= k < g ==> groups[k].eventId in events
    requires groups[g].eventId in events
    requires forall k :: 0 <= k < g ==>
               SweepAdmitted(events[groups[k].eventId], tickets, start, pool, groups[k].eventId, now, batches[k])
    requires SweepAdmitted(events[groups[g].eventId], tickets, start, pool, groups[g].eventId, now, p)
    ensures forall k :: 0 <= k < g + 1 ==> groups[k].eventId in events
    ensures forall k :: 0 <= k < g + 1 ==>
              SweepAdmitted(events[groups[k].eventId], tickets, start, pool, groups[k].eventId, now, (batches + [p])[k])
  {
    forall k | 0 <= k < g + 1
      ensures SweepAdmitted(events[groups[k].eventId], tickets, start, pool, groups[k].eventId, now, (batches + [p])[k])
    {
      if k < g {
        assert (batches + [p])[k] == batches[k];
      }
    }
  }

  class WaitingList {
    /** `totalTickets` of each existing event. */
    var events: map<EventId, int>
    /** The tickets table, read to count valid and used tickets. */
    var tickets: seq<Ticket>
    /** The waiting-list table. */
    var entries: map<EntryId, Entry>
    /** Calls handed to `ctx.scheduler.runAfter`, oldest first. */
    var scheduled: seq<Task>

    ghost predicate Valid()
      reads this
    {
      StoreInvariant(entries)
    }

    constructor (events: map<EventId, int>, tickets: seq<Ticket>, entries: map<EntryId, Entry>)
      ensures this.events == events && this.tickets == tickets && this.entries == entries
      ensures scheduled == []
      ensures StoreInvariant(entries) ==> Valid()
    {
      this.events := events;
      this.tickets := tickets;
      this.entries := entries;
      scheduled := [];
    }

    /** An ordered index scan with `.take(n)`: the first `n` entries of
        `pool` in index order, oldest first. */
    method TakeOldest(pool: set<EntryId>, n: int) returns (ids: seq<EntryId>)
      requires pool <= entries.Keys
      ensures OldestFirst(entries, pool, Quota(n, |pool|), ids)
    {
      ids := [];
      var rest := pool;
      while |ids| < n && rest != {}
        invariant rest <= pool
        invariant |ids| + |rest| == |pool|
        invariant n <= 0 ==> ids == []
        invariant n > 0 ==> |ids| <= n
        invariant forall i :: 0 <= i < |ids| ==> ids[i] in pool && ids[i] !in rest
        invariant forall x :: x in pool && x !in rest ==> x in ids
        invariant forall i, j :: 0 <= i < j < |ids| ==> Before(entries, ids[i], ids[j])
        invariant forall i, x :: 0 <= i < |ids| && x in rest ==> Before(entries, ids[i], x)
        decreases |rest|
      {
        var m := Oldest(entries, rest);
        ids := ids + [m];
        rest := rest - {m};
      }
    }

    /** The loop of `processQueue`: each selected entry becomes an offer
        until now + TICKET_OFFER, and its expiry call is scheduled. */
    method OfferEach(ids: seq<EntryId>, eventId: EventId, now: int)
      modifies this
      requires forall i :: 0 <= i < |ids| ==> ids[i] in entries
      requires forall i, j :: 0 <= i < j < |ids| ==> ids[i] != ids[j]
      ensures events == old(events) && tickets == old(tickets)
      ensures entries == Promote(old(entries), ids, now + TICKET_OFFER)
      ensures scheduled == old(scheduled) + ExpiryTasks(ids, eventId)
    {
      var i := 0;
      while i < |ids|
        invariant 0 <= i <= |ids|
        invariant events == old(events) && tickets == old(tickets)
        invariant entries == Promote(old(entries), ids[..i], now + TICKET_OFFER)
        invariant scheduled == old(scheduled) + ExpiryTasks(ids[..i], eventId)
      {
        var id := ids[i];
        assert ids[..i + 1] == ids[..i] + [id];
        PromoteSnoc(old(entries), ids[..i], id, now + TICKET_OFFER);
        entries := entries[id := OfferedUntil(entries[id], now + TICKET_OFFER)];
        scheduled := scheduled + [ExpireOfferTask(TICKET_OFFER, id, eventId)];
        i := i + 1;
      }
      assert ids[..i] == ids;
    }

    /** `processQueue`: offer tickets to the next users in line. */
    method ProcessQueue(eventId: EventId, now: int) returns (r: Outcome, ghost promoted: seq<EntryId>)
      modifies this
      ensures events == old(events) && tickets == old(tickets)
      ensures eventId !in events ==>
                r == Err(EventNotFound) && entries == old(entries) && scheduled == old(scheduled)
      ensures eventId in events ==>
                && r == Ok
                && Admitted(events[eventId], tickets, eventId, now,
                            old(entries), entries, old(scheduled), scheduled, promoted)
      ensures eventId in events && AvailableSpots(events[eventId], tickets, old(entries), eventId, now) <= 0 ==>
                entries == old(entries) && scheduled == old(scheduled)
      ensures eventId in events && AvailableSpots(events[eventId], tickets, old(entries), eventId, now) > 0 ==>
                IssuedCount(tickets, eventId) + |LiveOffers(entries, eventId, now)| <= events[eventId]
      ensures Evolves(old(entries), entries)
      ensures old(Valid()) ==> Valid()
    {
      if eventId !in events {
        return Err(EventNotFound), [];
      }
      var spots := AvailableSpots(events[eventId], tickets, entries, eventId, now);
      if spots <= 0 {
        r, promoted := Ok, [];
        assert OldestFirst(entries, WaitingFor(entries, eventId), 0, []);
        assert entries == Promote(entries, [], now + TICKET_OFFER);
        return;
      }
      var waiting := TakeOldest(WaitingFor(entries, eventId), spots);
      OldestFirstElements(entries, WaitingFor(entries, eventId), |waiting|, waiting);
      OfferEach(waiting, eventId, now);
      r, promoted := Ok, waiting;
      AdmissionOnlyPromotes(events[eventId], tickets, eventId, now,
                            old(entries), entries, old(scheduled), scheduled, promoted);
      AdmissionNeverOversells(events[eventId], tickets, eventId, now,
                              old(entries), entries, old(scheduled), scheduled, promoted);
      if old(Valid()) {
        EvolvesKeepsInvariant(old(entries), entries);
      }
    }

    /** `expireOffer`: the timer callback scheduled for each offer. */
    method ExpireOffer(waitingListId: EntryId, eventId: EventId, now: int)
      returns (r: Outcome, ghost promoted: seq<EntryId>)
      modifies this
      ensures events == old(events) && tickets == old(tickets)
      ensures !(waitingListId in old(entries) && old(entries)[waitingListId].status == Offered) ==>
                r == Ok && entries == old(entries) && scheduled == old(scheduled)
      ensures waitingListId in old(entries) && old(entries)[waitingListId].status == Offered ==>
                if eventId in events then
                  && r == Ok
                  && Admitted(events[eventId], tickets, eventId, now,
                              old(entries)[waitingListId := ExpiredEntry(old(entries)[waitingListId])],
                              entries, old(scheduled), scheduled, promoted)
                else
                  r == Err(EventNotFound) && entries == old(entries) && scheduled == old(scheduled)
      ensures Evolves(old(entries), entries)
      ensures old(Valid()) ==> Valid()
    {
      if waitingListId !in entries || entries[waitingListId].status != Offered {
        return Ok, [];
      }
      var savedEntries, savedTasks := entries, scheduled;
      entries := entries[waitingListId := ExpiredEntry(entries[waitingListId])];
      r, promoted := ProcessQueue(eventId, now);
      if r.Err? {
        entries, scheduled := savedEntries, savedTasks;
      } else {
        ExpireThenAdmitEvolves(events[eventId], tickets, eventId, now, old(entries), waitingListId,
                               entries, old(scheduled), scheduled, promoted);
        if old(Valid()) {
          EvolvesKeepsInvariant(old(entries), entries);
        }
      }
    }

    /** The patches the sweep awaits together: every offer of one group set
        to `expired`. */
    method ExpireAll(offers: seq<OfferRef>)
      modifies this
      requires forall i :: 0 <= i < |offers| ==> offers[i].id in entries
      ensures events == old(events) && tickets == old(tickets) && scheduled == old(scheduled)
      ensures entries == ExpireEach(old(entries), OfferIds(offers))
    {
      var k := 0;
      while k < |offers|
        invariant 0 <= k <= |offers|
        invariant events == old(events) && tickets == old(tickets) && scheduled == old(scheduled)
        invariant entries == ExpireEach(old(entries), OfferIds(offers[..k]))
      {
        var id := offers[k].id;
        assert OfferIds(offers[..k + 1]) == OfferIds(offers[..k]) + {id} by {
          assert offers[..k + 1] == offers[..k] + [offers[k]];
        }
        entries := entries[id := ExpiredEntry(entries[id])];
        k := k + 1;
      }
      assert offers[..k] == offers;
    }

    /** The sweep's read: every overdue offer, in index order, grouped by
        event. */
    method OverdueByEvent(now: int) returns (groups: seq<Group>)
      ensures SweepPlan(entries, OverdueOffers(entries, now), groups)
    {
      var pool := OverdueOffers(entries, now);
      var ordered := TakeOldest(pool, |pool|);
      OldestFirstElements(entries, pool, |pool|, ordered);
      groups := GroupByEvent(Refs(entries, ordered));
      SweepPlanOfGrouping(entries, pool, ordered);
    }

    /** One pass of the sweep's loop: expire the overdue offers of one event,
        then run admission for that event. */
    method SweepGroup(ghost start: map<EntryId, Entry>, ghost pool: set<EntryId>, ghost done: set<EventId>,
                      ghost promoted: seq<EntryId>, eventId: EventId, offers: seq<OfferRef>, now: int)
      returns (r: Outcome, ghost p: seq<EntryId>)
      modifies this
      requires pool == OverdueOffers(start, now)
      requires SweptSoFar(start, pool, done, promoted, now, entries)
      requires eventId !in done
      requires OfferIds(offers) == PoolOf(start, pool, eventId)
      ensures events == old(events) && tickets == old(tickets)
      ensures r.Err? <==> eventId !in events
      ensures r.Err? ==> r == Err(EventNotFound)
      ensures r.Ok? ==> && SweptSoFar(start, pool, done + {eventId}, promoted + p, now, entries)
                        && (forall i :: 0 <= i < |p| ==> p[i] in start && start[p[i]].eventId == eventId)
                        && scheduled == old(scheduled) + ExpiryTasks(p, eventId)
      ensures r.Ok? ==> Admitted(events[eventId], tickets, eventId, now, ExpireEach(old(entries), OfferIds(offers)),
                                 entries, old(scheduled), scheduled, p)
      ensures r.Ok? ==> && SweepAdmitted(events[eventId], tickets, start, pool, eventId, now, p)
                        && Settled(events[eventId], tickets, entries, eventId, now)
      ensures r.Ok? ==> forall id :: id in old(entries) && old(entries)[id].eventId != eventId ==>
                          entries[id] == old(entries)[id]
      ensures r.Ok? ==> Evolves(old(entries), entries)
    {
      assert forall i :: 0 <= i < |offers| ==> offers[i].id in OfferIds(offers);
      ExpireAll(offers);
      ghost var mid := entries;
      r, p := ProcessQueue(eventId, now);
      if r.Ok? {
        OldestFirstElements(mid, WaitingFor(mid, eventId), |p|, p);
        SweepGroupStep(start, pool, done, promoted, now, old(entries), eventId, mid, p, entries);
        SweepGroupEffect(start, pool, done, promoted, now, old(entries), eventId, events[eventId], tickets,
                         entries, old(scheduled), scheduled, p);
      }
    }

    /** The loop of `cleanupExpiredOffers`: for each group in turn, expire
        its offers and run admission for its event. The first missing event
        stops the loop; undoing its writes is left to the caller. */
    method SweepGroups(ghost start: map<EntryId, Entry>, ghost pool: set<EntryId>, groups: seq<Group>, now: int)
      returns (r: Outcome, ghost runs: seq<EventId>, ghost batches: seq<seq<EntryId>>, ghost promoted: seq<EntryId>)
      modifies this
      requires pool == OverdueOffers(start, now)
      requires SweepPlan(start, pool, groups)
      requires entries == start
      ensures events == old(events) && tickets == old(tickets)
      ensures r.Err? ==> r == Err(EventNotFound) && exists id :: id in pool && start[id].eventId !in events
      ensures r.Ok? ==> && runs == KeyList(groups)
                        && Keys(groups) <= events.Keys
                        && SweptSoFar(start, pool, Keys(groups), promoted, now, entries)
                        && scheduled == old(scheduled) + TasksFor(start, promoted)
      ensures r.Ok? ==> |batches| == |groups| && promoted == Concat(batches)
      ensures r.Ok? ==> forall k :: 0 <= k < |groups| ==>
                          && groups[k].eventId in events
                          && SweepAdmitted(events[groups[k].eventId], tickets, start, pool, groups[k].eventId, now, batches[k])
                          && Settled(events[groups[k].eventId], tickets, entries, groups[k].eventId, now)
    {
      runs, batches, promoted := [], [], [];
      ghost var done: set<EventId> := {};
      var g := 0;
      while g < |groups|
        invariant events == old(events) && tickets == old(tickets)
        invariant SweepProgress(events, start, pool, groups, now, g, runs, done, batches, promoted,
                                entries, old(scheduled), scheduled)
        invariant SweepOutcomes(events, tickets, start, pool, groups, now, g, done, batches, entries)
      {
        var eventId := groups[g].eventId;
        SweepProgressNext(events, start, pool, groups, now, g, runs, done, batches, promoted,
                          entries, old(scheduled), scheduled);
        ghost var current, tasks := entries, scheduled;
        var res, p := SweepGroup(start, pool, done, promoted, eventId, groups[g].offers, now);
        if res.Err? {
          SweepMissingEvent(start, pool, groups, g, events.Keys);
          return res, runs, batches, promoted;
        }
        SweepProgressStep(events, start, pool, groups, now, g, runs, done, batches, promoted,
                          current, old(scheduled), tasks, p, entries, scheduled);
        SweepOutcomesStep(events, tickets, start, pool, groups, now, g, done, batches, current, p, entries);
        runs, batches, promoted, done := runs + [eventId], batches + [p], promoted + p, done + {eventId};
        g := g + 1;
      }
      assert groups[..g] == groups;
      r := Ok;
      forall k | 0 <= k < |groups| ensures groups[k].eventId in done {
        assert groups[k].eventId == groups[..g][k].eventId;
      }
    }

    /** `cleanupExpiredOffers`: the periodic backstop for lost timers. Reads
        every overdue offer, groups them by event, and for each event expires
        its offers and then runs admission once. */
    method CleanupExpiredOffers(now: int)
      returns (r: Outcome, ghost runs: seq<EventId>, ghost batches: seq<seq<EntryId>>, ghost promoted: seq<EntryId>)
      modifies this
      ensures events == old(events) && tickets == old(tickets)
      ensures r.Err? <==> exists id :: id in OverdueOffers(old(entries), now) && old(entries)[id].eventId !in events
      ensures r.Err? ==> r == Err(EventNotFound) && entries == old(entries) && scheduled == old(scheduled)
      ensures r.Ok? ==> forall id :: id in entries ==> !Overdue(entries[id], now)
      ensures r.Ok? ==> SweptSoFar(old(entries), OverdueOffers(old(entries), now),
                                   set id | id in OverdueOffers(old(entries), now) :: old(entries)[id].eventId,
                                   promoted, now, entries)
      ensures r.Ok? ==> scheduled == old(scheduled) + TasksFor(old(entries), promoted)
      ensures r.Ok? ==> (forall i, j :: 0 <= i < j < |runs| ==> runs[i] != runs[j])
      ensures r.Ok? ==> (set i | 0 <= i < |runs| :: runs[i])
                        == set id | id in OverdueOffers(old(entries), now) :: old(entries)[id].eventId
      ensures r.Ok? ==> |batches| == |runs| && promoted == Concat(batches)
      ensures r.Ok? ==> forall k :: 0 <= k < |runs| ==>
                          && runs[k] in events
                          && SweepAdmitted(events[runs[k]], tickets, old(entries), OverdueOffers(old(entries), now),
                                           runs[k], now, batches[k])
                          && Settled(events[runs[k]], tickets, entries, runs[k], now)
      ensures Evolves(old(entries), entries)
      ensures old(Valid()) ==> Valid()
    {
      ghost var pool := OverdueOffers(entries, now);
      var groups := OverdueByEvent(now);
      var savedEntries, savedTasks := entries, scheduled;
      r, runs, batches, promoted := SweepGroups(entries, pool, groups, now);
      if r.Err? {
        entries, scheduled := savedEntries, savedTasks;
        return;
      }
      SweepFinished(old(entries), pool, now, groups, runs, promoted, entries, events.Keys);
      if old(Valid()) {
        EvolvesKeepsInvariant(old(entries), entries);
      }
    }

    /** `releaseTicket`: the holder of an offer gives it up. The `eventId`
        argument is not checked against the entry's own event. */
    method ReleaseTicket(eventId: EventId, waitingListId: EntryId, now: int)
      returns (r: Outcome, ghost promoted: seq<EntryId>)
      modifies this
      ensures events == old(events) && tickets == old(tickets)
      ensures !(waitingListId in old(entries) && old(entries)[waitingListId].status == Offered) ==>
                r == Err(NoValidTicketOffer) && entries == old(entries) && scheduled == old(scheduled)
      ensures waitingListId in old(entries) && old(entries)[waitingListId].status == Offered ==>
                if eventId in events then
                  && r == Ok
                  && Admitted(events[eventId], tickets, eventId, now,
                              old(entries)[waitingListId := ExpiredEntry(old(entries)[waitingListId])],
                              entries, old(scheduled), scheduled, promoted)
                else
                  r == Err(EventNotFound) && entries == old(entries) && scheduled == old(scheduled)
      ensures Evolves(old(entries), entries)
      ensures old(Valid()) ==> Valid()
    {
      if waitingListId !in entries || entries[waitingListId].status != Offered {
        return Err(NoValidTicketOffer), [];
      }
      var savedEntries, savedTasks := entries, scheduled;
      entries := entries[waitingListId := ExpiredEntry(entries[waitingListId])];
      r, promoted := ProcessQueue(eventId, now);
      if r.Err? {
        entries, scheduled := savedEntries, savedTasks;
      } else {
        ExpireThenAdmitEvolves(events[eventId], tickets, eventId, now, old(entries), waitingListId,
                               entries, old(scheduled), scheduled, promoted);
        if old(Valid()) {
          EvolvesKeepsInvariant(old(entries), entries);
        }
      }
    }
  }
}
