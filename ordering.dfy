/** The FIFO order in which the database indexes return waiting-list entries:
    ascending creation time, ties broken by entry id. */
module Ordering {
  import opened Model

  /** `a` comes strictly before `b` in index order. */
  predicate Before(entries: map<EntryId, Entry>, a: EntryId, b: EntryId)
    requires a in entries && b in entries
  {
    entries[a].createdAt < entries[b].createdAt
    || (entries[a].createdAt == entries[b].createdAt && a < b)
  }

  /** `m` is the first entry of `pool` in index order. */
  predicate IsOldestIn(entries: map<EntryId, Entry>, m: EntryId, pool: set<EntryId>)
    requires pool <= entries.Keys
  {
    m in pool && forall x :: x in pool && x != m ==> Before(entries, m, x)
  }

  /** Every non-empty pool of entries has a first element. */
  lemma {:induction false} OldestExists(entries: map<EntryId, Entry>, pool: set<EntryId>)
    requires pool != {} && pool <= entries.Keys
    ensures exists m :: IsOldestIn(entries, m, pool)
    decreases |pool|
  {
    var x :| x in pool;
    if pool == {x} {
      assert IsOldestIn(entries, x, pool);
    } else {
      var rest := pool - {x};
      OldestExists(entries, rest);
      var m :| IsOldestIn(entries, m, rest);
      if Before(entries, x, m) {
        forall y | y in pool && y != x
          ensures Before(entries, x, y)
        {
          if y != m {
            assert Before(entries, m, y);
          }
        }
        assert IsOldestIn(entries, x, pool);
      } else {
        assert IsOldestIn(entries, m, pool);
      }
    }
  }

  /** The first entry of a non-empty pool: what `.order("asc").first()` reads. */
  function Oldest(entries: map<EntryId, Entry>, pool: set<EntryId>): (m: EntryId)
    requires pool != {} && pool <= entries.Keys
    ensures IsOldestIn(entries, m, pool)
  {
    OldestExists(entries, pool);
    var m :| IsOldestIn(entries, m, pool);
    m
  }

  /** How many entries `.take(n)` yields from a pool of `size` entries. */
  function Quota(n: int, size: nat): nat {
    if n <= 0 then 0 else if n < size then n else size
  }

  /** `ids` is the first `n` entries of `pool` in index order, oldest first. */
  ghost predicate OldestFirst(entries: map<EntryId, Entry>, pool: set<EntryId>, n: nat, ids: seq<EntryId>)
    requires pool <= entries.Keys
  {
    && |ids| == n
    && (forall i :: 0 <= i < |ids| ==> ids[i] in pool)
    && (forall i, j :: 0 <= i < j < |ids| ==> Before(entries, ids[i], ids[j]))
    && (forall i, x :: 0 <= i < |ids| && x in pool && x !in ids ==> Before(entries, ids[i], x))
  }

  /** The selection reads only the creation times of the pool's entries:
      any store that agrees on them has the same selections. */
  lemma OldestFirstTransfer(m1: map<EntryId, Entry>, m2: map<EntryId, Entry>, pool: set<EntryId>,
                            n: nat, ids: seq<EntryId>)
    requires pool <= m1.Keys && pool <= m2.Keys
    requires forall x :: x in pool ==> m1[x].createdAt == m2[x].createdAt
    requires OldestFirst(m1, pool, n, ids)
    ensures OldestFirst(m2, pool, n, ids)
  {
    forall i, j | 0 <= i < |ids| && 0 <= j < |ids| && Before(m1, ids[i], ids[j])
      ensures Before(m2, ids[i], ids[j])
    {
      assert ids[i] in pool && ids[j] in pool;
    }
  }

  /** The elements of a sequence, as a set. */
  function Elements(ids: seq<EntryId>): set<EntryId> {
    set i | 0 <= i < |ids| :: ids[i]
  }

  /** A duplicate-free sequence has as many elements as its set. */
  lemma {:induction false} DistinctCardinality(ids: seq<EntryId>)
    requires forall i, j :: 0 <= i < j < |ids| ==> ids[i] != ids[j]
    ensures |Elements(ids)| == |ids|
  {
    if ids != [] {
      var init := ids[..|ids| - 1];
      DistinctCardinality(init);
      assert Elements(ids) == Elements(init) + {ids[|ids| - 1]};
      assert ids[|ids| - 1] !in Elements(init);
    }
  }

  /** A selection in index order has no duplicates and is as large as its set;
      when it takes as many entries as the pool holds, it takes all of them. */
  lemma OldestFirstElements(entries: map<EntryId, Entry>, pool: set<EntryId>, n: nat, ids: seq<EntryId>)
    requires pool <= entries.Keys
    requires OldestFirst(entries, pool, n, ids)
    ensures forall i, j :: 0 <= i < j < |ids| ==> ids[i] != ids[j]
    ensures Elements(ids) <= pool && |Elements(ids)| == n
    ensures n == |pool| ==> Elements(ids) == pool
  {
    DistinctCardinality(ids);
    if n == |pool| {
      assert |pool - Elements(ids)| == 0;
    }
  }

  /** Where two selections of the pool agree on their first `i` entries,
      the `i`-th entry of `p` is not after the `i`-th entry of `q`. */
  lemma SelectionStep(entries: map<EntryId, Entry>, pool: set<EntryId>, n: nat, p: seq<EntryId>, q: seq<EntryId>, i: nat)
    requires pool <= entries.Keys
    requires OldestFirst(entries, pool, n, p) && OldestFirst(entries, pool, n, q)
    requires i < n && p[..i] == q[..i]
    ensures p[i] == q[i] || Before(entries, p[i], q[i])
  {
    OldestFirstElements(entries, pool, n, q);
    if q[i] in p {
      var j :| 0 <= j < |p| && p[j] == q[i];
      assert j >= i;
    }
  }

  /** The selection is determined by the pool: two readers of the same
      entries take the same entries in the same order. */
  lemma {:induction false} OldestFirstUnique(entries: map<EntryId, Entry>, pool: set<EntryId>, n: nat, p: seq<EntryId>, q: seq<EntryId>)
    requires pool <= entries.Keys
    requires OldestFirst(entries, pool, n, p) && OldestFirst(entries, pool, n, q)
    ensures p == q
  {
    var i := 0;
    while i < n
      invariant 0 <= i <= n
      invariant p[..i] == q[..i]
    {
      SelectionStep(entries, pool, n, p, q, i);
      SelectionStep(entries, pool, n, q, p, i);
      assert p[..i + 1] == p[..i] + [p[i]] && q[..i + 1] == q[..i] + [q[i]];
      i := i + 1;
    }
    assert p == p[..n] && q == q[..n];
  }
}
