/** What the list operations leave in each row, said in the columns of the row alone. */
module ListRows {
  import opened Wrappers
  import opened LeadTable
  import opened ListOps

  /** A lead of the list that is not deleted. */
  predicate Open(s: Scope, l: Lead) {
    l.tenantId == s.tenantId && l.listId == s.listId && l.deletedAt == None
  }

  /** The row as a reset leaves it: as if new, never called. */
  predicate ResetRow(before: Lead, after: Lead) {
    && after.id == before.id && after.tenantId == before.tenantId && after.listId == before.listId
    && after.deletedAt == before.deletedAt
    && after.status == NEW && after.calledCount == 0 && after.lastCalledAt == None
  }

  /** The row as a purge leaves it: deleted at the time of the purge, otherwise kept. */
  predicate PurgedRow(at: int, before: Lead, after: Lead) {
    && after.id == before.id && after.tenantId == before.tenantId && after.listId == before.listId
    && after.calledCount == before.calledCount && after.lastCalledAt == before.lastCalledAt
    && after.status == DELETED && after.deletedAt == Some(at)
  }

  lemma PendingIsOpen(s: Scope, l: Lead)
    requires l.id > 0
    ensures Holds(Pending(s, 0), l) <==> Open(s, l)
  {}

  /** A reset makes every open lead of the list as new and touches nothing else. */
  lemma ResetExact(rows: seq<Lead>, s: Scope)
    requires Positive(rows)
    ensures
      var after := RewriteAll(rows, Pending(s, 0), Reset);
      forall i :: 0 <= i < |rows| ==> if Open(s, rows[i]) then ResetRow(rows[i], after[i]) else after[i] == rows[i]
  {
    var after := RewriteAll(rows, Pending(s, 0), Reset);
    forall i | 0 <= i < |rows|
      ensures if Open(s, rows[i]) then ResetRow(rows[i], after[i]) else after[i] == rows[i]
    {
      RewriteAllAt(rows, Pending(s, 0), Reset, i);
      PendingIsOpen(s, rows[i]);
    }
  }

  /** A purge deletes every open lead of the list and touches nothing else. */
  lemma PurgeExact(rows: seq<Lead>, s: Scope, at: int)
    requires Positive(rows)
    ensures
      var after := RewriteAll(rows, Pending(s, 0), Purge(at));
      forall i :: 0 <= i < |rows| ==> if Open(s, rows[i]) then PurgedRow(at, rows[i], after[i]) else after[i] == rows[i]
  {
    var after := RewriteAll(rows, Pending(s, 0), Purge(at));
    forall i | 0 <= i < |rows|
      ensures if Open(s, rows[i]) then PurgedRow(at, rows[i], after[i]) else after[i] == rows[i]
    {
      RewriteAllAt(rows, Pending(s, 0), Purge(at), i);
      PendingIsOpen(s, rows[i]);
    }
  }

  /** The count that both report: the open leads there were. */
  function OpenLeads(rows: seq<Lead>, s: Scope): nat { OpenBefore(rows, s, |rows|) }

  /** Open leads among the first n rows. */
  function OpenBefore(rows: seq<Lead>, s: Scope, n: nat): nat
    requires n <= |rows|
    decreases |rows|
  {
    if n == 0 then 0 else (if Open(s, rows[0]) then 1 else 0) + OpenBefore(rows[1..], s, n - 1)
  }

  lemma {:induction false} CountExact(rows: seq<Lead>, s: Scope)
    requires Positive(rows)
    ensures |Ids(rows, Pending(s, 0))| == OpenLeads(rows, s)
  {
    if rows != [] {
      CountExact(rows[1..], s);
      PendingIsOpen(s, rows[0]);
    }
  }

  /** The ids written, in the order written: each open lead's, once. */
  lemma WrittenOnce(rows: seq<Lead>, s: Scope)
    requires Ordered(rows) && Positive(rows)
    ensures Increasing(Ids(rows, Pending(s, 0)))
    ensures forall i :: 0 <= i < |rows| ==> (rows[i].id in Ids(rows, Pending(s, 0)) <==> Open(s, rows[i]))
  {
    IdsIncreasing(rows, Pending(s, 0));
    forall i | 0 <= i < |rows| ensures rows[i].id in Ids(rows, Pending(s, 0)) <==> Open(s, rows[i]) {
      IdsExact(rows, Pending(s, 0), rows[i].id);
      PendingIsOpen(s, rows[i]);
    }
  }

  // ------------------------------------------------------------- the synchronous purge

  /** The place of an open lead among the ids of open leads. */
  lemma {:induction false} IdAt(rows: seq<Lead>, s: Scope, i: nat)
    requires Positive(rows) && i < |rows| && Open(s, rows[i])
    ensures
      var ids, n := Ids(rows, Pending(s, 0)), OpenBefore(rows, s, i);
      n < |ids| && ids[n] == rows[i].id
  {
    PendingIsOpen(s, rows[0]);
    if i > 0 {
      IdAt(rows[1..], s, i - 1);
    }
  }

  /** A batch rewrites the open leads of the first ranks. */
  lemma {:induction false} BatchAt(rows: seq<Lead>, s: Scope, op: Op, k: nat, i: nat)
    requires Positive(rows) && i < |rows|
    ensures Rewrite(rows, Pending(s, 0), op, k)[i] ==
            if Open(s, rows[i]) && OpenBefore(rows, s, i) < k then Apply(op, rows[i]) else rows[i]
  {
    PendingIsOpen(s, rows[0]);
    if i > 0 && k > 0 {
      BatchAt(rows[1..], s, op, if Open(s, rows[0]) then k - 1 else k, i - 1);
    }
  }

  /** A lead of the list that was deleted at the purge's very time before. */
  predicate Stale(s: Scope, at: int, l: Lead) {
    l.tenantId == s.tenantId && l.listId == s.listId && l.deletedAt == Some(at)
  }

  /** Past the first batch, and in front of a stale lead. */
  predicate Overlooked(rows: seq<Lead>, s: Scope, batchSize: nat, at: int, i: nat)
    requires i < |rows|
  {
    && OpenBefore(rows, s, i) >= batchSize
    && exists j :: 0 <= j < |rows| && Stale(s, at, rows[j]) && rows[j].id > rows[i].id
  }

  /** The largest id stamped after the first batch is at or above an open lead that the
      batch has left exactly when the lead is overlooked. */
  lemma CursorPasses(rows: seq<Lead>, s: Scope, k: nat, at: int, i: nat)
    requires Ordered(rows) && Positive(rows) && 0 < k <= |Ids(rows, Pending(s, 0))| && i < |rows|
    requires Open(s, rows[i]) && OpenBefore(rows, s, i) >= k
    ensures
      var largest := MaxId(Rewrite(rows, Pending(s, 0), Purge(at), k), Stamped(s, at, 0));
      largest.Some? && (largest.value >= rows[i].id <==> Overlooked(rows, s, k, at, i))
  {
    var stamped := Ids(Rewrite(rows, Pending(s, 0), Purge(at), k), Stamped(s, at, 0));
    SyncBatch(rows, s, 0, at, k);
    LargestBounds(stamped);
    BatchBelow(rows, s, k, i);
    forall id ensures id in stamped <==>
                      id in Ids(rows, Stamped(s, at, 0)) || id in Ids(rows, Pending(s, 0))[..k]
    {
      StampedAfter(rows, s, 0, at, k, id);
    }
    if j :| 0 <= j < |rows| && Stale(s, at, rows[j]) && rows[j].id > rows[i].id {
      IdsExact(rows, Stamped(s, at, 0), rows[j].id);
      assert Holds(Stamped(s, at, 0), rows[j]);
    }
    if Largest(stamped) >= rows[i].id {
      StaleAbove(rows, s, at, i, Largest(stamped));
    }
  }

  /** The ids of the first batch lie below an open lead that comes later. */
  lemma BatchBelow(rows: seq<Lead>, s: Scope, k: nat, i: nat)
    requires Ordered(rows) && Positive(rows) && k <= |Ids(rows, Pending(s, 0))| && i < |rows|
    requires Open(s, rows[i]) && OpenBefore(rows, s, i) >= k
    ensures forall id :: id in Ids(rows, Pending(s, 0))[..k] ==> id < rows[i].id
  {
    IdAt(rows, s, i);
    IdsIncreasing(rows, Pending(s, 0));
  }

  lemma StaleAbove(rows: seq<Lead>, s: Scope, at: int, i: nat, id: nat)
    requires Ordered(rows) && i < |rows| && Open(s, rows[i])
    requires id in Ids(rows, Stamped(s, at, 0)) && id >= rows[i].id
    ensures exists j :: 0 <= j < |rows| && Stale(s, at, rows[j]) && rows[j].id > rows[i].id
  {
    IdsExact(rows, Stamped(s, at, 0), id);
    var j :| 0 <= j < |rows| && rows[j].id == id && Holds(Stamped(s, at, 0), rows[j]);
    assert j != i && Stale(s, at, rows[j]);
  }

  /** What the synchronous purge does to each row: an open lead of the list is deleted,
      unless it is overlooked; nothing else is touched. */
  lemma SyncPurgeRows(rows: seq<Lead>, s: Scope, batchSize: nat, at: int, i: nat)
    requires Ordered(rows) && Positive(rows) && batchSize >= 1 && i < |rows|
    ensures
      var after := SyncPurged(rows, s, batchSize, at);
      && |after| == |rows|
      && if Open(s, rows[i]) && !Overlooked(rows, s, batchSize, at, i) then PurgedRow(at, rows[i], after[i])
         else after[i] == rows[i]
  {
    var ids := Ids(rows, Pending(s, 0));
    BatchAt(rows, s, Purge(at), batchSize, i);
    if Open(s, rows[i]) {
      IdAt(rows, s, i);
    }
    if |ids| >= batchSize {
      SyncBatch(rows, s, 0, at, batchSize);
      var first := Rewrite(rows, Pending(s, 0), Purge(at), batchSize);
      var d := MaxId(first, Stamped(s, at, 0)).value;
      RewriteAllAt(first, Pending(s, d), Purge(at), i);
      if Open(s, rows[i]) && OpenBefore(rows, s, i) >= batchSize {
        CursorPasses(rows, s, batchSize, at, i);
      }
    }
  }

  lemma InFirstBatch(rows: seq<Lead>, s: Scope, k: nat, i: nat)
    requires Ordered(rows) && Positive(rows) && k <= |Ids(rows, Pending(s, 0))| && i < |rows|
    ensures rows[i].id in Ids(rows, Pending(s, 0))[..k] <==> Open(s, rows[i]) && OpenBefore(rows, s, i) < k
  {
    var ids := Ids(rows, Pending(s, 0));
    WrittenOnce(rows, s);
    if Open(s, rows[i]) {
      IdAt(rows, s, i);
      var n := OpenBefore(rows, s, i);
      if n < k {
        assert ids[..k][n] == rows[i].id;
      }
      if j :| 0 <= j < k && ids[..k][j] == rows[i].id {
        assert ids[j] == ids[n];
      }
    }
  }

  lemma LeftAbove(rows: seq<Lead>, s: Scope, at: int, k: nat, d: nat, i: nat)
    requires Ordered(rows) && Positive(rows) && i < |rows|
    ensures rows[i].id in Ids(Rewrite(rows, Pending(s, 0), Purge(at), k), Pending(s, d)) <==>
            Open(s, rows[i]) && OpenBefore(rows, s, i) >= k && rows[i].id > d
  {
    var first := Rewrite(rows, Pending(s, 0), Purge(at), k);
    RewriteKeepsIds(rows, Pending(s, 0), Purge(at), k);
    IdsExact(first, Pending(s, d), rows[i].id);
    BatchAt(rows, s, Purge(at), k, i);
  }

  /** The ids that the synchronous purge writes are those of the rows it deletes, so its
      count is theirs. */
  lemma SyncWrittenOnce(rows: seq<Lead>, s: Scope, batchSize: nat, at: int)
    requires Ordered(rows) && Positive(rows) && batchSize >= 1
    ensures Increasing(SyncIds(rows, s, batchSize, at))
    ensures forall i :: 0 <= i < |rows| ==>
      (rows[i].id in SyncIds(rows, s, batchSize, at) <==>
       Open(s, rows[i]) && !Overlooked(rows, s, batchSize, at, i))
  {
    SyncIncreasing(rows, s, batchSize, at);
    forall i | 0 <= i < |rows|
      ensures rows[i].id in SyncIds(rows, s, batchSize, at) <==>
              Open(s, rows[i]) && !Overlooked(rows, s, batchSize, at, i)
    {
      SyncWritesRow(rows, s, batchSize, at, i);
    }
  }

  lemma SyncWritesRow(rows: seq<Lead>, s: Scope, k: nat, at: int, i: nat)
    requires Ordered(rows) && Positive(rows) && k >= 1 && i < |rows|
    ensures rows[i].id in SyncIds(rows, s, k, at) <==> Open(s, rows[i]) && !Overlooked(rows, s, k, at, i)
  {
    var ids := Ids(rows, Pending(s, 0));
    if |ids| < k {
      WrittenOnce(rows, s);
      if Open(s, rows[i]) {
        IdAt(rows, s, i);
      }
    } else {
      var first := Rewrite(rows, Pending(s, 0), Purge(at), k);
      SyncBatch(rows, s, 0, at, k);
      var d := MaxId(first, Stamped(s, at, 0)).value;
      InFirstBatch(rows, s, k, i);
      LeftAbove(rows, s, at, k, d, i);
      if Open(s, rows[i]) && OpenBefore(rows, s, i) >= k {
        CursorPasses(rows, s, k, at, i);
      }
    }
  }

  lemma SyncIncreasing(rows: seq<Lead>, s: Scope, k: nat, at: int)
    requires Ordered(rows) && Positive(rows) && k >= 1
    ensures Increasing(SyncIds(rows, s, k, at))
  {
    var ids := Ids(rows, Pending(s, 0));
    IdsIncreasing(rows, Pending(s, 0));
    if |ids| >= k {
      var first := Rewrite(rows, Pending(s, 0), Purge(at), k);
      SyncBatch(rows, s, 0, at, k);
      var d := MaxId(first, Stamped(s, at, 0)).value;
      RewriteOrdered(rows, Pending(s, 0), Purge(at), k);
      IdsIncreasing(first, Pending(s, d));
      IdsAbove(first, Pending(s, d), d);
      StampedAfter(rows, s, 0, at, k, ids[k - 1]);
      assert ids[..k][k - 1] == ids[k - 1];
      LargestBounds(Ids(first, Stamped(s, at, 0)));
      assert forall j :: 0 <= j < k ==> ids[j] <= d;
    }
  }
}
