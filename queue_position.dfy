/** `getQueuePosition`: the read-only query that tells a user where they
    stand in an event's waiting list. */
module QueuePosition {
  import opened Model
  import opened Ordering

  /** The user's entry with its 1-based position. */
  datatype QueueEntry = QueueEntry(id: EntryId, entry: Entry, position: int)

  /** The user's entries for the event whose status is not `expired`
      (a `purchased` entry is one of them). */
  function UserEntries(entries: map<EntryId, Entry>, eventId: EventId, userId: UserId): set<EntryId> {
    set id | id in entries && entries[id].userId == userId && entries[id].eventId == eventId
                           && entries[id].status != Expired
  }

  /** Entries of the event that are still in line. */
  function Line(entries: map<EntryId, Entry>, eventId: EventId): set<EntryId> {
    set id | id in entries && entries[id].eventId == eventId && InLine(entries[id])
  }

  /** Entries of the event still in line that were created strictly before `t`. */
  function PeopleAhead(entries: map<EntryId, Entry>, eventId: EventId, t: int): set<EntryId> {
    set id | id in entries && entries[id].eventId == eventId && InLine(entries[id])
                           && entries[id].createdAt < t
  }

  /** None when the user has no non-expired entry for the event; otherwise
      the first such entry in index order and 1 + the number of people ahead. */
  function GetQueuePosition(entries: map<EntryId, Entry>, eventId: EventId, userId: UserId): (r: Option<QueueEntry>)
    ensures r.None? <==> UserEntries(entries, eventId, userId) == {}
    ensures r.Some? ==> && IsOldestIn(entries, r.value.id, UserEntries(entries, eventId, userId))
                        && r.value.entry == entries[r.value.id]
                        && r.value.position >= 1
  {
    var mine := UserEntries(entries, eventId, userId);
    if mine == {} then None
    else
      var id := Oldest(entries, mine);
      Some(QueueEntry(id, entries[id], |PeopleAhead(entries, eventId, entries[id].createdAt)| + 1))
  }

  /** A user still in line is never told a position past the length of the line. */
  lemma PositionWithinLine(entries: map<EntryId, Entry>, eventId: EventId, userId: UserId)
    requires GetQueuePosition(entries, eventId, userId).Some?
    requires InLine(GetQueuePosition(entries, eventId, userId).value.entry)
    ensures GetQueuePosition(entries, eventId, userId).value.position <= |Line(entries, eventId)|
  {
    var r := GetQueuePosition(entries, eventId, userId).value;
    var ahead := PeopleAhead(entries, eventId, entries[r.id].createdAt);
    assert ahead < Line(entries, eventId) by {
      assert ahead <= Line(entries, eventId);
      assert r.id in Line(entries, eventId) - ahead;
    }
    SubsetSize(ahead, Line(entries, eventId));
  }

  /** Positions follow creation order, the order admission promotes in: an
      entry created no later is never told a later position, and an entry
      still in line created strictly earlier is told a strictly earlier one. */
  lemma PositionsFollowCreationOrder(entries: map<EntryId, Entry>, eventId: EventId, u1: UserId, u2: UserId)
    requires GetQueuePosition(entries, eventId, u1).Some? && GetQueuePosition(entries, eventId, u2).Some?
    ensures var r1, r2 := GetQueuePosition(entries, eventId, u1).value, GetQueuePosition(entries, eventId, u2).value;
            r1.entry.createdAt <= r2.entry.createdAt ==> r1.position <= r2.position
    ensures var r1, r2 := GetQueuePosition(entries, eventId, u1).value, GetQueuePosition(entries, eventId, u2).value;
            r1.entry.createdAt < r2.entry.createdAt && InLine(r1.entry) ==> r1.position < r2.position
  {
    var r1, r2 := GetQueuePosition(entries, eventId, u1).value, GetQueuePosition(entries, eventId, u2).value;
    var a1 := PeopleAhead(entries, eventId, r1.entry.createdAt);
    var a2 := PeopleAhead(entries, eventId, r2.entry.createdAt);
    if r1.entry.createdAt <= r2.entry.createdAt {
      assert a1 <= a2;
      if r1.entry.createdAt < r2.entry.createdAt && InLine(r1.entry) {
        assert r1.id in a2 - a1;
      }
      SubsetSize(a1, a2);
    }
  }

  /** Three users join in turn and the first two are offered tickets: the
      third is told position 3, since entries holding offers still count as
      people ahead. */
  lemma OffersCountAsPeopleAhead()
    ensures var m := map[1 := Entry(0, "A", Offered, 10, Some(100)),
                         2 := Entry(0, "B", Offered, 20, Some(100)),
                         3 := Entry(0, "C", Waiting, 30, None)];
            GetQueuePosition(m, 0, "C") == Some(QueueEntry(3, m[3], 3))
  {
    var m := map[1 := Entry(0, "A", Offered, 10, Some(100)),
                 2 := Entry(0, "B", Offered, 20, Some(100)),
                 3 := Entry(0, "C", Waiting, 30, None)];
    assert UserEntries(m, 0, "C") == {3};
    assert PeopleAhead(m, 0, 30) == {1, 2};
  }
}
