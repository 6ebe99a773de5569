/** The entry lifecycle the engine follows (`waiting -> offered -> expired`)
    and the store invariants it keeps. */
module Lifecycle {
  import opened Model

  /** The transitions one mutation of the engine may apply to one entry:
      none; a waiting entry promoted to an offer with a deadline; or an
      offer patched to expired with every other field kept. */
  ghost predicate Step(a: Entry, b: Entry) {
    || b == a
    || (a.status == Waiting && b.offerExpiresAt.Some? && b == OfferedUntil(a, b.offerExpiresAt.value))
    || (a.status == Offered && b == ExpiredEntry(a))
  }

  /** Every entry of `m1` is `m0`'s after at most one step; no entry is
      created or removed. */
  ghost predicate Evolves(m0: map<EntryId, Entry>, m1: map<EntryId, Entry>) {
    m0.Keys == m1.Keys && forall id :: id in m0 ==> Step(m0[id], m1[id])
  }

  /** Every offer carries its deadline. */
  ghost predicate OffersHaveDeadline(m: map<EntryId, Entry>) {
    forall id :: id in m && m[id].status == Offered ==> m[id].offerExpiresAt.Some?
  }

  /** At most one entry in line per (user, event) pair. */
  ghost predicate OneInLinePerUser(m: map<EntryId, Entry>) {
    forall a, b :: a in m && b in m && a != b && InLine(m[a]) && InLine(m[b])
                   ==> m[a].userId != m[b].userId || m[a].eventId != m[b].eventId
  }

  ghost predicate StoreInvariant(m: map<EntryId, Entry>) {
    OffersHaveDeadline(m) && OneInLinePerUser(m)
  }

  /** The engine's transitions keep the store invariants. */
  lemma EvolvesKeepsInvariant(m0: map<EntryId, Entry>, m1: map<EntryId, Entry>)
    requires Evolves(m0, m1) && StoreInvariant(m0)
    ensures StoreInvariant(m1)
  {
    forall a, b | a in m1 && b in m1 && a != b && InLine(m1[a]) && InLine(m1[b])
      ensures m1[a].userId != m1[b].userId || m1[a].eventId != m1[b].eventId
    {
      assert Step(m0[a], m1[a]) && Step(m0[b], m1[b]);
    }
  }

  /** Terminal statuses stay put, nothing ever returns to waiting, and so no
      entry leaves `waiting` twice. */
  lemma StepIsMonotone(a: Entry, b: Entry)
    requires Step(a, b)
    ensures a.status == Purchased || a.status == Expired ==> b == a
    ensures b.status == Waiting ==> b == a
    ensures b.status != a.status ==> b.status == Offered || b.status == Expired
  {
  }
}
