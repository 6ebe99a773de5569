# Waiting-list admission engine

This project models the admission engine of a ticket marketplace, found in
`convex/waitingList.ts`. The engine shares each event's fixed ticket supply
among a first-come, first-served queue of buyers. It does this by turning
queue entries into purchase offers that expire, and it takes unused offers
back.

The model has eight modules:

- `Model`: the records the engine reads and writes:
  - waiting-list entries (`waiting`, `offered`, `purchased`, `expired`);
  - tickets;
  - the `expireOffer` calls handed to the scheduler;
  - the two errors it throws.
- `Ordering`: the index order of entries. This is ascending creation time, with ties broken by entry id. It also states what `.order("asc").first()` and `.take(n)` return.
- `Capacity`: the `availableSpots` formula. That is total tickets minus valid or used tickets minus live offers, where a missing deadline counts as 0.
- `Grouping`: `groupByEvent`, a left fold that builds one list per event in order of first appearance.
- `QueuePosition`: `getQueuePosition`.
- `Lifecycle`: the allowed steps of one entry (`waiting -> offered`, `offered -> expired`) and the store invariants they keep.
- `Admission`: what one `processQueue` run does, stated on values, and the properties that follow from it:
  - no overselling;
  - it settles the queue;
  - it is idempotent;
  - it is deterministic;
  - a release backfills one spot.
- `Engine`: class `WaitingList`. It holds the event capacities, the ticket list, the entry map and the scheduled calls. It has one method per mutation:
  - `ProcessQueue`;
  - `ExpireOffer`;
  - `CleanupExpiredOffers`;
  - `ReleaseTicket`.

  The other three call `ProcessQueue` directly, as the source does. A mutation that throws commits nothing. The methods model this by saving the store and restoring it on `Err`.

  `Valid()` is the store invariant of `Lifecycle`: every offer has a deadline, and each user has at most one entry in line per event. The engine never creates entries, so it cannot establish this invariant. The constructor only passes it on when the initial entries satisfy it. Every mutation keeps it (`ensures old(Valid()) ==> Valid()`).

Five behaviours of the code shape the model:

- **Positions count offers.** A user's position counts every entry of the event that is `waiting` or `offered` and was created earlier. So a third user behind two users who hold offers is told position 3. `QueuePosition.OffersCountAsPeopleAhead` states this scenario.
- **Expired entries keep their deadline.** Expiring an offer patches only `status`, so `offerExpiresAt` stays on the expired entry. The invariant kept is therefore that every offer has a deadline. An expired entry may carry one too.
- **The sweep also picks up offers with no deadline.** The sweep selects offers with `offerExpiresAt < now`. The database orders a missing field below every number, so an offer with no deadline is picked up too. Admission, by contrast, reads a missing deadline as 0, so it does not count that offer as live.
- **The sweep's expiries free no capacity.** An overdue offer's deadline is missing or already before `now`. The capacity formula stops counting an offer as live as soon as its deadline is no longer after `now`, and it reads a missing deadline as 0. So for any clock reading of at least 0, expiring the overdue offers leaves `availableSpots` unchanged. The admission run after each group sees the spots that were already free. `Engine.SweepExpiryFreesNothing` states this.
- **One missing event blocks the whole sweep.** The sweep throws `Event not found` as soon as admission runs for a group whose event does not exist, and the throw rolls back every group already handled. The offending offer therefore stays overdue, and every later run of the sweep fails the same way until something else changes that entry. `CleanupExpiredOffers` states this: it fails exactly when some overdue offer belongs to a missing event, and then nothing changes.

## Model

| member | source | states |
|---|---|---|
| Ordering.Oldest | convex/waitingList.ts:40-46 | the entry `.first()` reads from an ordered index scan is in the pool and comes before every other pool entry |
| Ordering.OldestFirstElements | convex/waitingList.ts:124-130 | the entries `.take(n)` selects are distinct members of the pool, `n` of them, and all of the pool when `n` covers it |
| Ordering.OldestFirstUnique | convex/waitingList.ts:124-130 | the oldest-first selection of `n` entries is unique: any two sequences meeting it are equal |
| Capacity.IssuedCountIsFilterLength | convex/waitingList.ts:91-102 | the issued count equals the number of tickets of the event whose status is valid or used |
| Capacity.ExpiryFreesCapacity | convex/waitingList.ts:105-117 | expiring an entry raises `availableSpots` by exactly one if it held a live offer, and leaves it unchanged otherwise |
| Grouping.FindGroup | convex/waitingList.ts:16-19 | the returned index is the first group keyed by the event, or the length when no group has that key |
| Grouping.GroupByEventCorrect | convex/waitingList.ts:11-25 | every offer is in exactly the group keyed by its own event. Each group holds that event's offers in input order. Keys are distinct and are exactly the events that occur. Group sizes add up to the input length |
| QueuePosition.GetQueuePosition | convex/waitingList.ts:36-67 | null exactly when the user has no non-expired entry for the event. Otherwise the result is their first such entry in index order, with position at least 1 |
| QueuePosition.PositionWithinLine | convex/waitingList.ts:49-66 | a user still waiting or offered is told a position no larger than the number of the event's entries in line |
| QueuePosition.PositionsFollowCreationOrder | convex/waitingList.ts:49-66 | an entry created no later is told no later a position; one in line created strictly earlier is told a strictly earlier one |
| QueuePosition.OffersCountAsPeopleAhead | convex/waitingList.ts:49-66 | with two offered entries ahead, the waiting user is told position 3 |
| Lifecycle.StepIsMonotone | convex/waitingList.ts:134-139 | under the patches the engine applies (lines 136-139, 167-169, 206-208 and 229-231), a purchased or expired entry stays as it is. No entry returns to `waiting`. A status changes only to `offered` or `expired` |
| Lifecycle.EvolvesKeepsInvariant | convex/waitingList.ts:134-139 | steps along the lifecycle keep every offer with a deadline and at most one entry in line per user and event |
| Admission.AdmissionOnlyPromotes | convex/waitingList.ts:132-150 | a run changes only waiting entries of its own event, each to an offer until now + TICKET_OFFER; other events' entries are unchanged |
| Admission.AdmissionNeverOversells | convex/waitingList.ts:84-150 | a run lowers `availableSpots` by exactly the number it promotes. With a spot free beforehand, valid+used tickets plus live offers stay within the total afterwards |
| Admission.AdmissionSettles | convex/waitingList.ts:121-130 | after a run, either no spot is left or no entry of the event is waiting |
| Admission.AdmissionIdempotent | convex/waitingList.ts:121-150 | a second run at the same `now` promotes nothing, changes no entry and schedules nothing |
| Admission.AdmissionDeterministic | convex/waitingList.ts:124-130 | two runs on the same store promote the same entries in the same order, with the same store and scheduled calls |
| Admission.ReleaseBackfillsOneSpot | convex/waitingList.ts:228-234 | releasing a live offer of a full event lets the next run promote exactly one entry when one is waiting, and none otherwise |
| Admission.ExpireThenAdmitEvolves | convex/waitingList.ts:167-171 | expiring an offer and then running admission moves each entry by at most one lifecycle step |
| Engine.WaitingList.TakeOldest | convex/waitingList.ts:124-130 | returns the `min(n, pool size)` oldest pool entries in index order (none when `n <= 0`) |
| Engine.WaitingList.OfferEach | convex/waitingList.ts:132-150 | the store becomes the given entries offered until now + TICKET_OFFER. Exactly one `expireOffer(id, eventId)` is appended per entry, in order |
| Engine.WaitingList.ProcessQueue | convex/waitingList.ts:79-150 | a missing event is `Event not found` with nothing changed. With no spot, nothing changes. Otherwise it promotes the `min(spots, #waiting)` oldest waiting entries with one expiry each, never oversells, and keeps the store invariant |
| Engine.WaitingList.ExpireOffer | convex/waitingList.ts:163-172 | a missing or non-offered entry leaves everything unchanged. Otherwise only that entry becomes expired (deadline kept) and admission runs for the given event; an error rolls back |
| Engine.WaitingList.OverdueByEvent | convex/waitingList.ts:187-200 | the groups hold exactly the overdue offers (offered, deadline missing or before `now`), one group per affected event |
| Engine.WaitingList.ExpireAll | convex/waitingList.ts:204-210 | exactly the group's entries become expired, every other entry and the scheduler are unchanged |
| Engine.WaitingList.SweepGroup | convex/waitingList.ts:203-213 | handling one event expires exactly its overdue offers. Then admission runs for it on that store: its result is what `processQueue` would do there. It fails exactly when the event is missing. The run promotes the event's oldest waiting entries, as many as the spots free once its overdue offers are expired, and leaves the event settled. Other events' entries are unchanged |
| Engine.WaitingList.SweepGroups | convex/waitingList.ts:203-213 | the groups are handled in order, and the first missing event stops the loop. Otherwise every group's event exists, and the expiry calls are scheduled in order. Each group's run promoted the oldest waiting entries of its event, as many as the spots available once its overdue offers are expired, and every handled event is settled at the end |
| Engine.WaitingList.CleanupExpiredOffers | convex/waitingList.ts:186-214 | afterwards no overdue offer is left, and only overdue offers are expired. Admission runs once per distinct affected event and for no other. Each run promoted that event's oldest waiting entries, as many as the spots available once its overdue offers are expired. Afterwards each affected event has no spot left or nobody waiting. A missing event rolls the whole sweep back |
| Engine.WaitingList.ReleaseTicket | convex/waitingList.ts:222-235 | a missing or non-offered entry fails with `No valid ticket offer found` and changes nothing. Otherwise the entry expires and admission runs for the passed event, unchecked against the entry's own |
| Engine.SweepPlanOfGrouping | convex/waitingList.ts:188-203 | grouping the overdue offers yields distinct keys equal to the affected events, each group holding exactly that event's overdue offers |
| Engine.SweepGroupStep | convex/waitingList.ts:203-213 | after one more group, each entry is as expired (overdue offer of a handled event), as promoted, or untouched |
| Engine.SweepLeftEventAlone | convex/waitingList.ts:203-213 | until its own group, the sweep has changed no entry of an event. Expiring that event's overdue offers gives the same entries for that event as doing so on the starting store, with the same waiting entries |
| Engine.SweepExpiryFreesNothing | convex/waitingList.ts:105-117 | for a clock reading of at least 0, expiring an event's overdue offers (lines 189-210) leaves its `availableSpots` unchanged |
| Engine.SweepGroupEffect | convex/waitingList.ts:203-213 | a group's admission run, measured against the store the sweep started from, promotes the oldest waiting entries of its event, as many as the spots available once that event's overdue offers are expired. It leaves the event settled, changes no other event's entries, and moves each entry at most one step |
| Engine.SettledElsewhere | convex/waitingList.ts:203-213 | a group that changes only its own event's entries keeps every earlier event settled |
| Admission.AgreeOnSameView | convex/waitingList.ts:84-130 | two stores that agree on every entry of an event give it the same `availableSpots` and the same waiting entries |
| Ordering.OldestFirstTransfer | convex/waitingList.ts:124-130 | the oldest-first selection from a pool depends only on the creation times of the pool's entries |
| Engine.SweepFinished | convex/waitingList.ts:186-214 | once all groups are handled, no overdue offer remains, each affected event was handled once, and each entry moved at most one lifecycle step |

## Left out

- The UI and page code, the payment provider and the server actions are not part of this model. So are `convex/tickets.ts`, `convex/storage.ts`, `lib/utils.ts` and `next.config.ts`. None of them is part of the admission engine.
- Joining the queue and buying a ticket live outside `convex/waitingList.ts`. The model never creates entries and never sets `purchased`.
- `convex/crons.ts` only runs the sweep every minute. `CleanupExpiredOffers` may be called at any time.
- `convex/constants` is not part of this model. `TICKET_OFFER` is set to 30 minutes, and the proofs use only that it is positive. The status names are datatype constructors.
- Concurrency and scheduler delivery are not modelled. Each mutation is one atomic step. Scheduled `expireOffer` calls are recorded in `scheduled` and never run by the model.
- Clock readings are not modelled. `Date.now()` is the parameter `now`, one value per mutation. The two readings in `processQueue` are taken as equal.
- Database ids are modelled as natural numbers. Argument validators and document fields the engine does not read are left out.
- The second lookup of the event inside the capacity computation (lines 84-89) is not modelled separately. It throws the same `Event not found` as the first lookup, under the same condition.
- `groupByEvent` is modelled as a list of (event, offers) pairs kept in order of first appearance. That is the order `Object.entries` lists the record's non-numeric keys. The offers carry only the two fields the sweep uses.
- Engine.WaitingList.CleanupExpiredOffers: `runs` (the events admission ran for), `batches` (what each run promoted) and `promoted` are ghost records kept beside the loop. The source returns none of them.
