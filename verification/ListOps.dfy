/** The batched list operations: loops that rewrite a list in id order, a batch at a
    time, and find their next cursor by a second query. */
module ListOps {
  import opened Wrappers
  import opened LeadTable

  /** The leads table; `log` names the rows rewritten, in order. */
  class Leads {
    var rows: seq<Lead>
    ghost var log: seq<nat>

    constructor (rows: seq<Lead>)
      ensures this.rows == rows && log == []
    {
      this.rows := rows;
      log := [];
    }

    method Update(f: Filter, op: Op, limit: nat) returns (affected: nat)
      modifies this
      ensures rows == Rewrite(old(rows), f, op, limit)
      ensures log == old(log) + Selected(old(rows), f, limit)
      ensures affected == |Selected(old(rows), f, limit)|
    {
      affected := |Selected(rows, f, limit)|;
      log := log + Selected(rows, f, limit);
      rows := Rewrite(rows, f, op, limit);
    }

    method ProcessReset(s: Scope, batchSize: nat) returns (processed: nat)
      requires Ordered(rows) && Positive(rows) && batchSize >= 1
      modifies this
      ensures rows == RewriteAll(old(rows), Pending(s, 0), Reset)
      ensures log == old(log) + Ids(old(rows), Pending(s, 0))
      ensures processed == |Ids(old(rows), Pending(s, 0))|
    {
      var cursor := 0;
      processed := 0;
      while true
        invariant Ordered(rows)
        invariant RewriteAll(rows, Pending(s, cursor), Reset) == RewriteAll(old(rows), Pending(s, 0), Reset)
        invariant log + Ids(rows, Pending(s, cursor)) == old(log) + Ids(old(rows), Pending(s, 0))
        invariant processed == |log| - |old(log)|
        decreases |Ids(rows, Pending(s, cursor))|
      {
        ghost var before, from := rows, cursor;
        var batchAffected := Update(Pending(s, cursor), Reset, batchSize);
        RewriteOrdered(before, Pending(s, from), Reset, batchSize);
        processed := processed + batchAffected;
        if batchAffected > 0 {
          var lastRow := Nth(rows, Pending(s, cursor), batchAffected - 1);
          if lastRow.Some? {
            cursor := lastRow.value;
          }
        }
        if batchAffected < batchSize {
          NothingLeft(before, Pending(s, from), Reset, batchSize);
          return;
        }
        ResetBatch(before, s, from, batchSize);
        ResetKeepsIds(before, Pending(s, from), batchSize);
      }
    }

    method ProcessPurge(s: Scope, batchSize: nat, now: int) returns (processed: nat)
      requires Ordered(rows) && Positive(rows) && batchSize >= 1
      modifies this
      ensures rows == RewriteAll(old(rows), Pending(s, 0), Purge(now))
      ensures log == old(log) + Ids(old(rows), Pending(s, 0))
      ensures processed == |Ids(old(rows), Pending(s, 0))|
    {
      var cursor := 0;
      processed := 0;
      while true
        invariant Ordered(rows)
        invariant LiveAbove(rows, s, cursor)
        invariant RewriteAll(rows, Pending(s, cursor), Purge(now)) == RewriteAll(old(rows), Pending(s, 0), Purge(now))
        invariant log + Ids(rows, Pending(s, cursor)) == old(log) + Ids(old(rows), Pending(s, 0))
        invariant processed == |log| - |old(log)|
        decreases |Ids(rows, Pending(s, cursor))|
      {
        ghost var before, from := rows, cursor;
        var batchAffected := Update(Pending(s, cursor), Purge(now), batchSize);
        RewriteOrdered(before, Pending(s, from), Purge(now), batchSize);
        processed := processed + batchAffected;
        if batchAffected > 0 {
          var lastRow := Nth(rows, Stamped(s, now, cursor), batchAffected - 1);
          if lastRow.Some? {
            cursor := lastRow.value;
          }
        }
        if batchAffected < batchSize {
          NothingLeft(before, Pending(s, from), Purge(now), batchSize);
          return;
        }
        PurgeGoesOn(before, s, from, now, batchSize);
      }
    }

    /** The synchronous purge takes the largest stamped id as its next cursor. */
    method PurgeListSync(s: Scope, batchSize: nat, now: int) returns (affected: nat)
      requires Ordered(rows) && Positive(rows) && batchSize >= 1
      modifies this
      ensures rows == SyncPurged(old(rows), s, batchSize, now)
      ensures log == old(log) + SyncIds(old(rows), s, batchSize, now)
      ensures affected == |SyncIds(old(rows), s, batchSize, now)|
    {
      var cursor: nat := 0;
      affected := 0;
      ghost var done: seq<nat> := [];
      while true
        invariant Ordered(rows)
        invariant SyncProgress(old(rows), s, batchSize, now, rows, done, cursor)
        invariant log == old(log) + done && affected == |done|
        decreases |Ids(rows, Pending(s, cursor))|
      {
        ghost var before, from := rows, cursor;
        var batchAffected := Update(Pending(s, cursor), Purge(now), batchSize);
        RewriteOrdered(before, Pending(s, from), Purge(now), batchSize);
        affected := affected + batchAffected;
        if batchAffected < batchSize {
          SyncEnds(old(rows), s, batchSize, now, before, done, from);
          return;
        }
        SyncBatch(before, s, from, now, batchSize);
        SyncGoesOn(old(rows), s, batchSize, now, before, done, from);
        done := done + Selected(before, Pending(s, from), batchSize);
        var largest := MaxId(rows, Stamped(s, now, cursor));
        cursor := OrZero(largest);
        if cursor == 0 {
          return;
        }
      }
    }
  }

  function OrZero(id: Option<nat>): nat { if id.Some? then id.value else 0 }

  // ------------------------------------------------------------------ cursor facts

  /** No live lead is at or below the cursor. */
  predicate LiveAbove(rows: seq<Lead>, s: Scope, cursor: nat) {
    forall i :: 0 <= i < |rows| ==> Live(s, rows[i]) ==> rows[i].id > cursor
  }

  /** A reset changes no id and leaves every lead as live as it was. */
  lemma {:induction false} ResetKeepsIds(rows: seq<Lead>, f: Filter, limit: nat)
    requires f.Pending?
    ensures Ids(Rewrite(rows, f, Reset, limit), f) == Ids(rows, f)
  {
    if rows != [] && limit > 0 {
      ResetKeepsIds(rows[1..], f, if Holds(f, rows[0]) then limit - 1 else limit);
    }
  }

  lemma {:induction false} PurgedNotRevived(rows: seq<Lead>, s: Scope, f: Filter, at: int, limit: nat, i: nat)
    requires i < |rows| && Live(s, Rewrite(rows, f, Purge(at), limit)[i])
    ensures Live(s, rows[i])
  {
    if i > 0 && limit > 0 {
      PurgedNotRevived(rows[1..], s, f, at, if Holds(f, rows[0]) then limit - 1 else limit, i - 1);
    }
  }

  lemma LiveAfterBatch(rows: seq<Lead>, s: Scope, c: nat, d: nat, at: int, k: nat)
    requires Ordered(rows) && LiveAbove(rows, s, c) && 0 < k <= |Ids(rows, Pending(s, c))|
    requires d <= BatchEnd(rows, Pending(s, c), k)
    ensures
      var after := Rewrite(rows, Pending(s, c), Purge(at), k);
      LiveAbove(after, s, c) && LiveAbove(after, s, d)
  {
    var f, after := Pending(s, c), Rewrite(rows, Pending(s, c), Purge(at), k);
    forall i | 0 <= i < |after| && Live(s, after[i]) ensures after[i].id > c && after[i].id > d {
      PurgedNotRevived(rows, s, f, at, k, i);
      RewriteKeepsIds(rows, f, Purge(at), k);
      LiveLeft(rows, s, c, at, k, i);
    }
  }

  /** A lead still live after a batch has an id beyond the end of the batch. */
  lemma LiveLeft(rows: seq<Lead>, s: Scope, c: nat, at: int, k: nat, i: nat)
    requires Ordered(rows) && 0 < k <= |Ids(rows, Pending(s, c))| && i < |rows|
    requires Holds(Pending(s, c), Rewrite(rows, Pending(s, c), Purge(at), k)[i])
    ensures Rewrite(rows, Pending(s, c), Purge(at), k)[i].id > BatchEnd(rows, Pending(s, c), k)
  {
    var f := Pending(s, c);
    var after, ids := Rewrite(rows, f, Purge(at), k), Ids(rows, f);
    PurgeBatch(rows, s, c, at, k);
    IdsExact(after, f, after[i].id);
    IdsIncreasing(rows, f);
    var j :| 0 <= j < |ids[k..]| && ids[k..][j] == after[i].id;
    assert ids[k + j] > ids[k - 1];
  }

  /** A full purge batch, seen from its OFFSET cursor d. */
  lemma PurgeGoesOn(rows: seq<Lead>, s: Scope, c: nat, at: int, k: nat)
    requires Ordered(rows) && LiveAbove(rows, s, c) && 0 < k <= |Ids(rows, Pending(s, c))|
    ensures
      var after := Rewrite(rows, Pending(s, c), Purge(at), k);
      var d := Nth(after, Stamped(s, at, c), k - 1);
      && d.Some? && LiveAbove(after, s, d.value)
      && RewriteAll(after, Pending(s, d.value), Purge(at)) == RewriteAll(rows, Pending(s, c), Purge(at))
      && Ids(after, Pending(s, d.value)) == Ids(rows, Pending(s, c))[k..]
  {
    var after := Rewrite(rows, Pending(s, c), Purge(at), k);
    StampedNth(rows, s, c, at, k);
    var d := Nth(after, Stamped(s, at, c), k - 1).value;
    PurgeBatch(rows, s, c, at, k);
    LiveAfterBatch(rows, s, c, d, at, k);
    CursorIrrelevant(after, s, c, d, Purge(at));
  }

  // ------------------------------------------------- what the synchronous purge does

  /** The first batch, and then every live lead above the largest stamped id. */
  function SyncPurged(rows: seq<Lead>, s: Scope, batchSize: nat, at: int): seq<Lead> {
    var first := Rewrite(rows, Pending(s, 0), Purge(at), batchSize);
    if |Ids(rows, Pending(s, 0))| < batchSize || MaxId(first, Stamped(s, at, 0)).None? then first
    else RewriteAll(first, Pending(s, MaxId(first, Stamped(s, at, 0)).value), Purge(at))
  }

  /** The ids it rewrites, in order. */
  function SyncIds(rows: seq<Lead>, s: Scope, batchSize: nat, at: int): seq<nat> {
    var first := Rewrite(rows, Pending(s, 0), Purge(at), batchSize);
    if |Ids(rows, Pending(s, 0))| < batchSize || MaxId(first, Stamped(s, at, 0)).None? then Ids(rows, Pending(s, 0))
    else Ids(rows, Pending(s, 0))[..batchSize] + Ids(first, Pending(s, MaxId(first, Stamped(s, at, 0)).value))
  }

  lemma MaxIsLast(rows: seq<Lead>, f: Filter)
    requires Ordered(rows) && Ids(rows, f) != []
    ensures MaxId(rows, f) == Some(Ids(rows, f)[|Ids(rows, f)| - 1])
  {
    IdsIncreasing(rows, f);
    IncreasingLargest(Ids(rows, f));
  }

  /** Nothing is stamped above the largest stamped id. */
  lemma NoneAboveMax(rows: seq<Lead>, s: Scope, at: int, c: nat)
    requires Ordered(rows) && Ids(rows, Stamped(s, at, c)) != []
    ensures
      var d := MaxId(rows, Stamped(s, at, c)).value;
      d > c && Ids(rows, Stamped(s, at, d)) == []
  {
    var f := Stamped(s, at, c);
    var d := MaxId(rows, f).value;
    MaxIsLast(rows, f);
    IdsIncreasing(rows, f);
    IdsAbove(rows, f, c);
    if Ids(rows, Stamped(s, at, d)) != [] {
      var id := Ids(rows, Stamped(s, at, d))[0];
      IdsExact(rows, Stamped(s, at, d), id);
      var i :| 0 <= i < |rows| && rows[i].id == id && Holds(Stamped(s, at, d), rows[i]);
      assert Holds(f, rows[i]);
      IdsExact(rows, f, id);
    }
  }

  lemma SyncBatch(rows: seq<Lead>, s: Scope, c: nat, at: int, k: nat)
    requires Ordered(rows) && 0 < k <= |Ids(rows, Pending(s, c))|
    ensures
      var after := Rewrite(rows, Pending(s, c), Purge(at), k);
      && MaxId(after, Stamped(s, at, c)).Some?
      && var d := MaxId(after, Stamped(s, at, c)).value;
      && d > c && Ids(after, Stamped(s, at, d)) == []
      && |Ids(after, Pending(s, d))| < |Ids(rows, Pending(s, c))|
      && (Ids(rows, Stamped(s, at, c)) == [] ==>
            && RewriteAll(after, Pending(s, d), Purge(at)) == RewriteAll(rows, Pending(s, c), Purge(at))
            && Ids(after, Pending(s, d)) == Ids(rows, Pending(s, c))[k..])
  {
    var f := Pending(s, c);
    var after := Rewrite(rows, f, Purge(at), k);
    StampedNth(rows, s, c, at, k);
    RewriteOrdered(rows, f, Purge(at), k);
    NoneAboveMax(after, s, at, c);
    PurgeBatch(rows, s, c, at, k);
    var d := MaxId(after, Stamped(s, at, c)).value;
    FewerAbove(after, s, c, d);
    if Ids(rows, Stamped(s, at, c)) == [] {
      StampedExactly(rows, s, c, at, k);
      MaxIsLast(after, Stamped(s, at, c));
      forall i | 0 <= i < |after| && Live(s, after[i]) ensures after[i].id > c <==> after[i].id > d {
        if after[i].id > c {
          LiveLeft(rows, s, c, at, k, i);
        }
      }
      CursorIrrelevant(after, s, c, d, Purge(at));
    }
  }

  /** What is left above the cursor is what is left to do: nothing is stamped there,
      purging it gives the final table, and it completes the ids done. */
  predicate Left(rows: seq<Lead>, s: Scope, at: int, cursor: nat, done: seq<nat>, final: seq<Lead>, ids: seq<nat>) {
    && Ids(rows, Stamped(s, at, cursor)) == []
    && RewriteAll(rows, Pending(s, cursor), Purge(at)) == final
    && done + Ids(rows, Pending(s, cursor)) == ids
  }

  predicate SyncProgress(orig: seq<Lead>, s: Scope, batchSize: nat, at: int, rows: seq<Lead>, done: seq<nat>, cursor: nat) {
    if cursor == 0 then rows == orig && done == []
    else Left(rows, s, at, cursor, done, SyncPurged(orig, s, batchSize, at), SyncIds(orig, s, batchSize, at))
  }

  lemma LeftAfterBatch(rows: seq<Lead>, s: Scope, at: int, k: nat, cursor: nat, done: seq<nat>, final: seq<Lead>, all: seq<nat>)
    requires Ordered(rows) && 0 < k <= |Ids(rows, Pending(s, cursor))| && Left(rows, s, at, cursor, done, final, all)
    ensures
      var after := Rewrite(rows, Pending(s, cursor), Purge(at), k);
      && MaxId(after, Stamped(s, at, cursor)).Some?
      && Left(after, s, at, MaxId(after, Stamped(s, at, cursor)).value,
              done + Ids(rows, Pending(s, cursor))[..k], final, all)
  {
    var ids := Ids(rows, Pending(s, cursor));
    SyncBatch(rows, s, cursor, at, k);
    assert done + ids == (done + ids[..k]) + ids[k..];
  }

  lemma SyncEnds(orig: seq<Lead>, s: Scope, k: nat, at: int, rows: seq<Lead>, done: seq<nat>, cursor: nat)
    requires SyncProgress(orig, s, k, at, rows, done, cursor) && |Ids(rows, Pending(s, cursor))| < k
    ensures Rewrite(rows, Pending(s, cursor), Purge(at), k) == SyncPurged(orig, s, k, at)
    ensures done + Selected(rows, Pending(s, cursor), k) == SyncIds(orig, s, k, at)
  {
    NothingLeft(rows, Pending(s, cursor), Purge(at), k);
  }

  lemma SyncBegins(orig: seq<Lead>, s: Scope, k: nat, at: int)
    requires Ordered(orig) && 0 < k <= |Ids(orig, Pending(s, 0))|
    ensures
      var after := Rewrite(orig, Pending(s, 0), Purge(at), k);
      && MaxId(after, Stamped(s, at, 0)).Some?
      && SyncProgress(orig, s, k, at, after, Ids(orig, Pending(s, 0))[..k], MaxId(after, Stamped(s, at, 0)).value)
  {
    SyncBatch(orig, s, 0, at, k);
  }

  lemma SyncGoesOn(orig: seq<Lead>, s: Scope, k: nat, at: int, rows: seq<Lead>, done: seq<nat>, cursor: nat)
    requires Ordered(rows) && SyncProgress(orig, s, k, at, rows, done, cursor)
    requires 0 < k <= |Ids(rows, Pending(s, cursor))|
    ensures
      var after := Rewrite(rows, Pending(s, cursor), Purge(at), k);
      && MaxId(after, Stamped(s, at, cursor)).Some?
      && SyncProgress(orig, s, k, at, after, done + Selected(rows, Pending(s, cursor), k),
                      MaxId(after, Stamped(s, at, cursor)).value)
  {
    var ids := Ids(rows, Pending(s, cursor));
    assert Selected(rows, Pending(s, cursor), k) == ids[..k];
    if cursor == 0 {
      SyncBegins(orig, s, k, at);
      assert done + ids[..k] == ids[..k];
    } else {
      SyncBatch(rows, s, cursor, at, k);
      LeftAfterBatch(rows, s, at, k, cursor, done, SyncPurged(orig, s, k, at), SyncIds(orig, s, k, at));
    }
  }

  lemma {:induction false} FewerAbove(rows: seq<Lead>, s: Scope, c: nat, d: nat)
    requires c <= d
    ensures |Ids(rows, Pending(s, d))| <= |Ids(rows, Pending(s, c))|
  {
    if rows != [] {
      FewerAbove(rows[1..], s, c, d);
    }
  }

  // -------------------------------------------------------------------- main results

  /** What the reset and the asynchronous purge come to: every live lead of the list is
      rewritten, once, and no other row is touched. */
  lemma RewritesExactlyLive(rows: seq<Lead>, s: Scope, op: Op)
    requires Ordered(rows) && Positive(rows)
    ensures
      var after, ids := RewriteAll(rows, Pending(s, 0), op), Ids(rows, Pending(s, 0));
      && (forall i :: 0 <= i < |rows| ==> after[i] == if Live(s, rows[i]) then Apply(op, rows[i]) else rows[i])
      && Increasing(ids)
      && (forall i :: 0 <= i < |rows| ==> (rows[i].id in ids <==> Live(s, rows[i])))
  {
    var f := Pending(s, 0);
    IdsIncreasing(rows, f);
    forall i | 0 <= i < |rows|
      ensures RewriteAll(rows, f, op)[i] == (if Live(s, rows[i]) then Apply(op, rows[i]) else rows[i])
      ensures rows[i].id in Ids(rows, f) <==> Live(s, rows[i])
    {
      RewriteAllAt(rows, f, op, i);
      IdsExact(rows, f, rows[i].id);
      assert Holds(f, rows[i]) <==> Live(s, rows[i]);
    }
  }

  /** Every live lead beyond the first batch has an id above every lead of the list that
      was deleted at this very time before. */
  predicate StaleBelowRest(rows: seq<Lead>, s: Scope, batchSize: nat, at: int) {
    forall i, j ::
      0 <= i < |Ids(rows, Stamped(s, at, 0))| && batchSize <= j < |Ids(rows, Pending(s, 0))| ==>
        Ids(rows, Stamped(s, at, 0))[i] < Ids(rows, Pending(s, 0))[j]
  }

  /** The synchronous purge leaves the same table as the asynchronous one exactly when no
      lead stamped with its time stands in front of what the first batch leaves; with a
      fresh time none does. */
  lemma SyncPurgeExact(rows: seq<Lead>, s: Scope, batchSize: nat, at: int)
    requires Ordered(rows) && Positive(rows) && batchSize >= 1
    ensures SyncPurged(rows, s, batchSize, at) == RewriteAll(rows, Pending(s, 0), Purge(at)) <==>
            StaleBelowRest(rows, s, batchSize, at)
    ensures Ids(rows, Stamped(s, at, 0)) == [] ==> StaleBelowRest(rows, s, batchSize, at)
  {
    if |Ids(rows, Pending(s, 0))| < batchSize {
      NothingLeft(rows, Pending(s, 0), Purge(at), batchSize);
    } else {
      SyncBatch(rows, s, 0, at, batchSize);
      PurgeBatch(rows, s, 0, at, batchSize);
      SyncMissesExact(rows, s, batchSize, at);
    }
  }

  /** A batch stamps its own ids and keeps the ones stamped before. */
  lemma {:induction false} StampedAfter(rows: seq<Lead>, s: Scope, c: nat, at: int, k: nat, id: nat)
    requires k <= |Ids(rows, Pending(s, c))|
    ensures
      id in Ids(Rewrite(rows, Pending(s, c), Purge(at), k), Stamped(s, at, c)) <==>
      id in Ids(rows, Stamped(s, at, c)) || id in Ids(rows, Pending(s, c))[..k]
  {
    if rows != [] && k > 0 {
      var x, rest, f, g := rows[0], rows[1..], Pending(s, c), Stamped(s, at, c);
      var n := if Holds(f, x) then k - 1 else k;
      StampedAfter(rest, s, c, at, n, id);
      var after := Rewrite(rest, f, Purge(at), n);
      RewriteFirst(rows, f, Purge(at), k);
      IdsFirst(Rewrite(rows, f, Purge(at), k), g);
      IdsFirst(rows, f);
      IdsFirst(rows, g);
      if Holds(f, x) {
        TakeMore(id, x.id, Ids(rest, f), k);
      }
    }
  }

  lemma RewriteFirst(rows: seq<Lead>, f: Filter, op: Op, k: nat)
    requires rows != [] && k > 0
    ensures
      var after := Rewrite(rows, f, op, k);
      && after != [] && after[0] == (if Holds(f, rows[0]) then Apply(op, rows[0]) else rows[0])
      && after[1..] == Rewrite(rows[1..], f, op, if Holds(f, rows[0]) then k - 1 else k)
  {}

  lemma IdsFirst(rows: seq<Lead>, f: Filter)
    requires rows != []
    ensures Ids(rows, f) == if Holds(f, rows[0]) then [rows[0].id] + Ids(rows[1..], f) else Ids(rows[1..], f)
  {}

  lemma TakeMore(id: nat, first: nat, ids: seq<nat>, k: nat)
    requires 0 < k <= |ids| + 1
    ensures id in ([first] + ids)[..k] <==> id == first || id in ids[..k - 1]
  {
    assert ([first] + ids)[..k] == [first] + ids[..k - 1];
  }

  lemma {:induction false} LargestBounds(ids: seq<nat>)
    requires ids != []
    ensures Largest(ids) in ids && forall id :: id in ids ==> id <= Largest(ids)
  {
    if |ids| > 1 {
      LargestBounds(ids[1..]);
      assert ids == [ids[0]] + ids[1..];
    }
  }

  /** A cursor loses nothing exactly when no live lead is at or below it. */
  lemma CursorLosesNothing(rows: seq<Lead>, s: Scope, d: nat, at: int)
    requires Positive(rows)
    ensures RewriteAll(rows, Pending(s, d), Purge(at)) == RewriteAll(rows, Pending(s, 0), Purge(at)) <==>
            AllAbove(Ids(rows, Pending(s, 0)), d)
  {
    var f, g := Pending(s, d), Pending(s, 0);
    if AllAbove(Ids(rows, g), d) {
      forall i | 0 <= i < |rows| && Live(s, rows[i]) ensures rows[i].id > d {
        IdsExact(rows, g, rows[i].id);
        assert Holds(g, rows[i]);
      }
      CursorIrrelevant(rows, s, d, 0, Purge(at));
    } else {
      var n :| 0 <= n < |Ids(rows, g)| && Ids(rows, g)[n] <= d;
      IdsExact(rows, g, Ids(rows, g)[n]);
      var i :| 0 <= i < |rows| && rows[i].id == Ids(rows, g)[n] && Holds(g, rows[i]);
      RewriteAllAt(rows, f, Purge(at), i);
      RewriteAllAt(rows, g, Purge(at), i);
    }
  }

  lemma SyncMissesExact(rows: seq<Lead>, s: Scope, k: nat, at: int)
    requires Ordered(rows) && Positive(rows) && 0 < k <= |Ids(rows, Pending(s, 0))|
    requires MaxId(Rewrite(rows, Pending(s, 0), Purge(at), k), Stamped(s, at, 0)).Some?
    ensures
      var first := Rewrite(rows, Pending(s, 0), Purge(at), k);
      var d := MaxId(first, Stamped(s, at, 0)).value;
      RewriteAll(first, Pending(s, d), Purge(at)) == RewriteAll(first, Pending(s, 0), Purge(at)) <==>
        StaleBelowRest(rows, s, k, at)
  {
    var first := Rewrite(rows, Pending(s, 0), Purge(at), k);
    var d := MaxId(first, Stamped(s, at, 0)).value;
    RewriteKeepsIds(rows, Pending(s, 0), Purge(at), k);
    CursorLosesNothing(first, s, d, at);
    PurgeBatch(rows, s, 0, at, k);
    IdsIncreasing(rows, Pending(s, 0));
    LargestBounds(Ids(first, Stamped(s, at, 0)));
    forall id ensures id in Ids(first, Stamped(s, at, 0)) <==>
                      id in Ids(rows, Stamped(s, at, 0)) || id in Ids(rows, Pending(s, 0))[..k]
    {
      StampedAfter(rows, s, 0, at, k, id);
    }
    RestAboveExact(Ids(rows, Pending(s, 0)), k, Ids(rows, Stamped(s, at, 0)), d);
  }

  /** The largest of some ids and the first k of an increasing list lies below the rest
      of the list exactly when those ids do. */
  lemma RestAboveExact(ids: seq<nat>, k: nat, stale: seq<nat>, d: nat)
    requires 0 < k <= |ids| && Increasing(ids)
    requires d in stale || d in ids[..k]
    requires forall id :: id in stale || id in ids[..k] ==> id <= d
    ensures AllAbove(ids[k..], d) <==>
            forall i, j :: 0 <= i < |stale| && k <= j < |ids| ==> stale[i] < ids[j]
  {
    if AllAbove(ids[k..], d) {
      forall i, j | 0 <= i < |stale| && k <= j < |ids| ensures stale[i] < ids[j] {
        assert stale[i] in stale && ids[k..][j - k] > d;
      }
    }
    if forall i, j :: 0 <= i < |stale| && k <= j < |ids| ==> stale[i] < ids[j] {
      forall j | 0 <= j < |ids[k..]| ensures ids[k..][j] > d {
        assert ids[k..][j] == ids[k + j];
      }
    }
  }

  /** A table on which the synchronous purge falls short: with batches of one, the lead
      stamped at the purge time, with the largest id, carries the cursor past lead 2. */
  function StaleTable(s: Scope, at: int): seq<Lead> {
    [Lead(1, s.tenantId, s.listId, NEW, 0, None, None),
     Lead(2, s.tenantId, s.listId, NEW, 0, None, None),
     Lead(3, s.tenantId, s.listId, DELETED, 0, None, Some(at))]
  }

  lemma StaleTableIds(s: Scope, at: int)
    ensures
      var rows := StaleTable(s, at);
      && Ids(rows, Pending(s, 0)) == [1, 2] && Ids(rows, Stamped(s, at, 0)) == [3]
      && !StaleBelowRest(rows, s, 1, at)
  {
    var rows, f, g := StaleTable(s, at), Pending(s, 0), Stamped(s, at, 0);
    assert rows[1..] == [rows[1], rows[2]] && rows[1..][1..] == [rows[2]] && [rows[2]][1..] == [];
    assert Ids([rows[2]], f) == [] && Ids(rows[1..], f) == [2] && Ids(rows, f) == [1, 2];
    assert Ids([rows[2]], g) == [3] && Ids(rows[1..], g) == [3] && Ids(rows, g) == [3];
    assert Ids(rows, g)[0] == 3 && Ids(rows, f)[1] == 2;
  }

  lemma StaleTableSkipsLead(s: Scope, at: int)
    ensures
      var rows := StaleTable(s, at);
      && Ordered(rows) && Positive(rows) && !StaleBelowRest(rows, s, 1, at)
      && Ids(rows, Pending(s, 0)) == [1, 2] && SyncIds(rows, s, 1, at) == [1]
      && SyncPurged(rows, s, 1, at)[1] == rows[1] && Live(s, rows[1])
  {
    var rows := StaleTable(s, at);
    var first := [Apply(Purge(at), rows[0]), rows[1], rows[2]];
    var f, g, h := Pending(s, 0), Stamped(s, at, 0), Pending(s, 3);
    StaleTableIds(s, at);
    assert rows[1..] == [rows[1], rows[2]] == first[1..] && first[1..][1..] == [rows[2]] && [rows[2]][1..] == [];
    assert Rewrite(rows[1..], f, Purge(at), 0) == rows[1..];
    assert Rewrite(rows, f, Purge(at), 1) == first;
    assert Ids([rows[2]], g) == [3] && Ids(first[1..], g) == [3] && Ids(first, g) == [1, 3];
    assert [1, 3][1..] == [3] && Largest([3]) == 3;
    assert Ids([rows[2]], h) == [] && Ids(first[1..], h) == [] && Ids(first, h) == [];
    RewriteAllAt(first, h, Purge(at), 1);
  }
}
