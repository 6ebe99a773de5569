/** `groupByEvent`: the reduce that the cleanup sweep uses to batch overdue
    offers by event. The accumulator record is a sequence of (event, offers)
    groups in the order their keys were first created. */
module Grouping {
  import opened Model

  /** The two fields of a waiting-list row that the grouping reads. */
  datatype OfferRef = OfferRef(id: EntryId, eventId: EventId)

  /** One key of the accumulator record with the list pushed under it. */
  datatype Group = Group(eventId: EventId, offers: seq<OfferRef>)

  /** Index of the group keyed by `eventId`, or `|groups|` when the record
      has no such key (`acc[eventId]` is undefined). */
  function FindGroup(groups: seq<Group>, eventId: EventId): (i: nat)
    ensures i <= |groups|
    ensures i < |groups| ==> groups[i].eventId == eventId
    ensures forall j :: 0 <= j < i ==> groups[j].eventId != eventId
  {
    if groups == [] then 0
    else if groups[0].eventId == eventId then 0
    else 1 + FindGroup(groups[1..], eventId)
  }

  /** One step of the reduce: create the event's list if missing, then push. */
  function Push(groups: seq<Group>, o: OfferRef): seq<Group> {
    var i := FindGroup(groups, o.eventId);
    if i < |groups| then groups[i := Group(o.eventId, groups[i].offers + [o])]
    else groups + [Group(o.eventId, [o])]
  }

  /** `offers.reduce(step, acc)`, a left fold. */
  function Reduce(acc: seq<Group>, offers: seq<OfferRef>): seq<Group>
    decreases |offers|
  {
    if offers == [] then acc else Reduce(Push(acc, offers[0]), offers[1..])
  }

  function GroupByEvent(offers: seq<OfferRef>): seq<Group> {
    Reduce([], offers)
  }

  /** The offers of one event, in input order. */
  function OffersOf(offers: seq<OfferRef>, eventId: EventId): seq<OfferRef> {
    if offers == [] then []
    else OffersOf(offers[..|offers| - 1], eventId)
         + (if offers[|offers| - 1].eventId == eventId then [offers[|offers| - 1]] else [])
  }

  function EventsOf(offers: seq<OfferRef>): set<EventId> {
    set o | o in offers :: o.eventId
  }

  function Keys(groups: seq<Group>): set<EventId> {
    set i | 0 <= i < |groups| :: groups[i].eventId
  }

  /** Sum of the group sizes. */
  function TotalSize(groups: seq<Group>): nat {
    if groups == [] then 0
    else TotalSize(groups[..|groups| - 1]) + |groups[|groups| - 1].offers|
  }

  /** `groups` is a grouping of `offers`: one group per event that occurs,
      each holding exactly that event's offers in input order. */
  ghost predicate Grouped(groups: seq<Group>, offers: seq<OfferRef>) {
    && (forall i, j :: 0 <= i < j < |groups| ==> groups[i].eventId != groups[j].eventId)
    && Keys(groups) == EventsOf(offers)
    && (forall k :: 0 <= k < |groups| ==> groups[k].offers == OffersOf(offers, groups[k].eventId))
    && TotalSize(groups) == |offers|
  }

  lemma {:induction false} OffersOfMembers(offers: seq<OfferRef>, eventId: EventId)
    ensures forall o :: o in OffersOf(offers, eventId) <==> o in offers && o.eventId == eventId
  {
    if offers != [] {
      var init := offers[..|offers| - 1];
      OffersOfMembers(init, eventId);
      assert offers == init + [offers[|offers| - 1]];
    }
  }

  lemma OffersOfSnoc(offers: seq<OfferRef>, o: OfferRef, eventId: EventId)
    ensures OffersOf(offers + [o], eventId)
            == OffersOf(offers, eventId) + (if o.eventId == eventId then [o] else [])
  {
    assert (offers + [o])[..|offers|] == offers;
  }

  lemma {:induction false} TotalSizeUpdate(groups: seq<Group>, i: nat, g: Group)
    requires i < |groups|
    ensures TotalSize(groups[i := g]) == TotalSize(groups) - |groups[i].offers| + |g.offers|
  {
    var n := |groups|;
    if i < n - 1 {
      TotalSizeUpdate(groups[..n - 1], i, g);
      assert groups[i := g][..n - 1] == groups[..n - 1][i := g];
    } else {
      assert groups[i := g][..n - 1] == groups[..n - 1];
    }
  }

  lemma TotalSizeSnoc(groups: seq<Group>, g: Group)
    ensures TotalSize(groups + [g]) == TotalSize(groups) + |g.offers|
  {
    assert (groups + [g])[..|groups|] == groups;
  }

  /** Pushing onto an existing key keeps the accumulator a grouping. */
  lemma PushExistingGrouped(groups: seq<Group>, done: seq<OfferRef>, o: OfferRef, i: nat)
    requires Grouped(groups, done)
    requires i < |groups| && groups[i].eventId == o.eventId
    ensures Grouped(groups[i := Group(o.eventId, groups[i].offers + [o])], done + [o])
  {
    var after := groups[i := Group(o.eventId, groups[i].offers + [o])];
    forall k | 0 <= k < |after| ensures after[k].offers == OffersOf(done + [o], after[k].eventId) {
      OffersOfSnoc(done, o, after[k].eventId);
    }
    assert EventsOf(done + [o]) == EventsOf(done) + {o.eventId};
    TotalSizeUpdate(groups, i, Group(o.eventId, groups[i].offers + [o]));
    assert Keys(after) == Keys(groups) by {
      forall e | e in Keys(groups) ensures e in Keys(after) {
        var k :| 0 <= k < |groups| && groups[k].eventId == e;
        assert after[k].eventId == e;
      }
    }
  }

  /** Creating the list for a new key keeps the accumulator a grouping. */
  lemma PushNewGrouped(groups: seq<Group>, done: seq<OfferRef>, o: OfferRef)
    requires Grouped(groups, done)
    requires forall k :: 0 <= k < |groups| ==> groups[k].eventId != o.eventId
    ensures Grouped(groups + [Group(o.eventId, [o])], done + [o])
  {
    var after := groups + [Group(o.eventId, [o])];
    assert o.eventId !in Keys(groups);
    OffersOfMembers(done, o.eventId);
    var mine := OffersOf(done, o.eventId);
    assert |mine| > 0 ==> mine[0] in done && mine[0].eventId == o.eventId;
    assert mine == [];
    forall k | 0 <= k < |after| ensures after[k].offers == OffersOf(done + [o], after[k].eventId) {
      OffersOfSnoc(done, o, after[k].eventId);
    }
    assert EventsOf(done + [o]) == EventsOf(done) + {o.eventId};
    TotalSizeSnoc(groups, Group(o.eventId, [o]));
    KeysSnoc(after, |groups|);
    assert after[..|groups|] == groups && after[..|groups| + 1] == after;
  }

  /** One reduce step keeps the accumulator a grouping of the offers seen. */
  lemma PushGrouped(groups: seq<Group>, done: seq<OfferRef>, o: OfferRef)
    requires Grouped(groups, done)
    ensures Grouped(Push(groups, o), done + [o])
  {
    var i := FindGroup(groups, o.eventId);
    if i < |groups| {
      PushExistingGrouped(groups, done, o, i);
    } else {
      PushNewGrouped(groups, done, o);
    }
  }

  lemma {:induction false} ReduceGrouped(acc: seq<Group>, done: seq<OfferRef>, rest: seq<OfferRef>)
    requires Grouped(acc, done)
    ensures Grouped(Reduce(acc, rest), done + rest)
    decreases |rest|
  {
    if rest == [] {
      assert done + rest == done;
    } else {
      var o := rest[0];
      assert (done + [o]) + rest[1..] == done + rest;
      assert Reduce(acc, rest) == Reduce(Push(acc, o), rest[1..]);
      PushGrouped(acc, done, o);
      ReduceGrouped(Push(acc, o), done + [o], rest[1..]);
    }
  }

  /** `groupByEvent` places every offer in exactly the group keyed by its own
      event, keeps input order within each group, creates one group per event
      that occurs, and its group sizes add up to the number of offers. */
  lemma GroupByEventCorrect(offers: seq<OfferRef>)
    ensures Grouped(GroupByEvent(offers), offers)
    ensures var groups := GroupByEvent(offers);
            forall k, o :: 0 <= k < |groups| ==>
              (o in groups[k].offers <==> o in offers && o.eventId == groups[k].eventId)
  {
    assert Grouped([], []);
    ReduceGrouped([], [], offers);
    assert [] + offers == offers;
    var groups := GroupByEvent(offers);
    forall k | 0 <= k < |groups| {
      OffersOfMembers(offers, groups[k].eventId);
    }
  }

  /** The keys of the groups, in group order. */
  function KeyList(groups: seq<Group>): (keys: seq<EventId>)
    ensures |keys| == |groups|
  {
    seq(|groups|, i requires 0 <= i < |groups| => groups[i].eventId)
  }

  /** The keys of a prefix grow by one group at a time. */
  lemma KeysSnoc(groups: seq<Group>, g: nat)
    requires g < |groups|
    ensures Keys(groups[..g + 1]) == Keys(groups[..g]) + {groups[g].eventId}
    ensures KeyList(groups[..g + 1]) == KeyList(groups[..g]) + [groups[g].eventId]
  {
    var a, b := groups[..g + 1], groups[..g];
    forall e | e in Keys(b) ensures e in Keys(a) {
      var i :| 0 <= i < g && b[i].eventId == e;
      assert a[i].eventId == e;
    }
    assert a[g].eventId == groups[g].eventId;
  }
}
