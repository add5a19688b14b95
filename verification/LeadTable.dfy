/** Rewriting the leads of a list in batches of id order, seen as functions of the
    table.  The table is a sequence of leads in the order of their ids. */
module LeadTable {
  import opened Wrappers

  datatype Status = NEW | DELETED | OtherStatus(code: nat)

  datatype Lead = Lead(
    id: nat,
    tenantId: nat,
    listId: nat,
    status: Status,
    calledCount: nat,
    lastCalledAt: Option<int>,
    deletedAt: Option<int>)

  datatype Scope = Scope(tenantId: nat, listId: nat)

  predicate InScope(s: Scope, l: Lead) { l.tenantId == s.tenantId && l.listId == s.listId }

  predicate Live(s: Scope, l: Lead) { InScope(s, l) && l.deletedAt.None? }

  /** The WHERE clauses: live leads above the cursor, and leads above it that were
      deleted at a given time. */
  datatype Filter = Pending(scope: Scope, cursor: nat) | Stamped(scope: Scope, at: int, cursor: nat)

  predicate Holds(f: Filter, l: Lead) {
    match f
    case Pending(s, cursor) => Live(s, l) && l.id > cursor
    case Stamped(s, at, cursor) => InScope(s, l) && l.deletedAt == Some(at) && l.id > cursor
  }

  datatype Op = Reset | Purge(at: int)

  function Apply(op: Op, l: Lead): Lead {
    match op
    case Reset => l.(status := NEW, calledCount := 0, lastCalledAt := None)
    case Purge(at) => l.(status := DELETED, deletedAt := Some(at))
  }

  predicate Ordered(rows: seq<Lead>) {
    forall i, j :: 0 <= i < j < |rows| ==> rows[i].id < rows[j].id
  }

  predicate Positive(rows: seq<Lead>) {
    forall i :: 0 <= i < |rows| ==> rows[i].id > 0
  }

  function Ids(rows: seq<Lead>, f: Filter): (ids: seq<nat>)
    ensures |ids| <= |rows|
  {
    if rows == [] then []
    else (if Holds(f, rows[0]) then [rows[0].id] else []) + Ids(rows[1..], f)
  }

  /** UPDATE ... ORDER BY id LIMIT. */
  function Rewrite(rows: seq<Lead>, f: Filter, op: Op, limit: nat): (after: seq<Lead>)
    ensures |after| == |rows|
  {
    if rows == [] || limit == 0 then rows
    else if Holds(f, rows[0]) then [Apply(op, rows[0])] + Rewrite(rows[1..], f, op, limit - 1)
    else [rows[0]] + Rewrite(rows[1..], f, op, limit)
  }

  /** The ids that such an update rewrites. */
  function Selected(rows: seq<Lead>, f: Filter, limit: nat): seq<nat> {
    var ids := Ids(rows, f);
    if limit < |ids| then ids[..limit] else ids
  }

  /** An update without a limit. */
  function RewriteAll(rows: seq<Lead>, f: Filter, op: Op): (after: seq<Lead>)
    ensures |after| == |rows|
  {
    if rows == [] then []
    else [if Holds(f, rows[0]) then Apply(op, rows[0]) else rows[0]] + RewriteAll(rows[1..], f, op)
  }

  /** SELECT id ... ORDER BY id LIMIT 1 OFFSET n. */
  function Nth(rows: seq<Lead>, f: Filter, n: nat): Option<nat> {
    if n < |Ids(rows, f)| then Some(Ids(rows, f)[n]) else None
  }

  function Largest(ids: seq<nat>): nat
    requires ids != []
  {
    if |ids| == 1 then ids[0]
    else if ids[0] > Largest(ids[1..]) then ids[0] else Largest(ids[1..])
  }

  /** SELECT MAX(id). */
  function MaxId(rows: seq<Lead>, f: Filter): Option<nat> {
    if Ids(rows, f) == [] then None else Some(Largest(Ids(rows, f)))
  }

  // ------------------------------------------------------------ what the terms mean

  /** An update without a limit rewrites the rows that match and no others. */
  lemma {:induction false} RewriteAllAt(rows: seq<Lead>, f: Filter, op: Op, i: nat)
    requires i < |rows|
    ensures RewriteAll(rows, f, op)[i] == if Holds(f, rows[i]) then Apply(op, rows[i]) else rows[i]
  {
    if i > 0 {
      RewriteAllAt(rows[1..], f, op, i - 1);
    }
  }

  predicate Increasing(ids: seq<nat>) {
    forall i, j :: 0 <= i < j < |ids| ==> ids[i] < ids[j]
  }

  predicate AllAbove(ids: seq<nat>, n: nat) {
    forall i :: 0 <= i < |ids| ==> ids[i] > n
  }

  lemma {:induction false} IdsAbove(rows: seq<Lead>, f: Filter, n: nat)
    requires forall i :: 0 <= i < |rows| ==> Holds(f, rows[i]) ==> rows[i].id > n
    ensures AllAbove(Ids(rows, f), n)
  {
    if rows != [] {
      IdsAbove(rows[1..], f, n);
    }
  }

  /** No id is selected twice. */
  lemma {:induction false} IdsIncreasing(rows: seq<Lead>, f: Filter)
    requires Ordered(rows)
    ensures Increasing(Ids(rows, f))
  {
    if rows != [] {
      IdsIncreasing(rows[1..], f);
      IdsAbove(rows[1..], f, rows[0].id);
    }
  }

  /** The selected ids are those of the rows that match. */
  lemma {:induction false} IdsExact(rows: seq<Lead>, f: Filter, id: nat)
    ensures id in Ids(rows, f) <==> exists i :: 0 <= i < |rows| && rows[i].id == id && Holds(f, rows[i])
  {
    if rows != [] {
      IdsExact(rows[1..], f, id);
      if id in Ids(rows[1..], f) {
        var i :| 0 <= i < |rows[1..]| && rows[1..][i].id == id && Holds(f, rows[1..][i]);
        assert rows[i + 1].id == id && Holds(f, rows[i + 1]);
      }
      if i :| 0 <= i < |rows| && rows[i].id == id && Holds(f, rows[i]) {
        if i > 0 {
          assert rows[1..][i - 1].id == id && Holds(f, rows[1..][i - 1]);
        }
      }
    }
  }

  lemma {:induction false} IncreasingLargest(ids: seq<nat>)
    requires ids != [] && Increasing(ids)
    ensures Largest(ids) == ids[|ids| - 1]
  {
    if |ids| > 1 {
      IncreasingLargest(ids[1..]);
    }
  }

  lemma {:induction false} RewriteKeepsIds(rows: seq<Lead>, f: Filter, op: Op, limit: nat)
    ensures forall i :: 0 <= i < |rows| ==> Rewrite(rows, f, op, limit)[i].id == rows[i].id
  {
    if rows != [] && limit > 0 {
      RewriteKeepsIds(rows[1..], f, op, if Holds(f, rows[0]) then limit - 1 else limit);
    }
  }

  // ---------------------------------------------------------------- moving a cursor

  /** Two cursors that no live lead lies between. */
  predicate SameSide(rows: seq<Lead>, s: Scope, c: nat, d: nat) {
    forall i :: 0 <= i < |rows| ==> Live(s, rows[i]) ==> (rows[i].id > c <==> rows[i].id > d)
  }

  lemma {:induction false} CursorIrrelevant(rows: seq<Lead>, s: Scope, c: nat, d: nat, op: Op)
    requires SameSide(rows, s, c, d)
    ensures Ids(rows, Pending(s, c)) == Ids(rows, Pending(s, d))
    ensures RewriteAll(rows, Pending(s, c), op) == RewriteAll(rows, Pending(s, d), op)
  {
    if rows != [] {
      CursorIrrelevant(rows[1..], s, c, d, op);
    }
  }

  lemma {:induction false} NothingLeft(rows: seq<Lead>, f: Filter, op: Op, limit: nat)
    requires |Ids(rows, f)| <= limit
    ensures Rewrite(rows, f, op, limit) == RewriteAll(rows, f, op)
  {
    if rows != [] {
      if limit == 0 {
        NothingLeft(rows[1..], f, op, 0);
        assert Rewrite(rows[1..], f, op, 0) == rows[1..];
      } else {
        NothingLeft(rows[1..], f, op, if Holds(f, rows[0]) then limit - 1 else limit);
      }
    }
  }

  // -------------------------------------------------------------------- reset batches

  /** The last id of a batch of k. */
  function BatchEnd(rows: seq<Lead>, f: Filter, k: nat): nat
    requires 0 < k <= |Ids(rows, f)|
  {
    Ids(rows, f)[k - 1]
  }

  /** After a reset batch that ends at d, what is left above d is what was left, and
      resetting it gives what resetting everything would have given. */
  lemma {:induction false} ResetBatch(rows: seq<Lead>, s: Scope, c: nat, k: nat)
    requires Ordered(rows) && 0 < k <= |Ids(rows, Pending(s, c))|
    ensures
      var after, d := Rewrite(rows, Pending(s, c), Reset, k), BatchEnd(rows, Pending(s, c), k);
      && d > c
      && Ids(after, Pending(s, d)) == Ids(rows, Pending(s, c))[k..]
      && RewriteAll(after, Pending(s, d), Reset) == RewriteAll(rows, Pending(s, c), Reset)
  {
    var x, rest := rows[0], rows[1..];
    var f, d := Pending(s, c), BatchEnd(rows, Pending(s, c), k);
    if !Holds(f, x) {
      ResetBatch(rest, s, c, k);
    } else if k > 1 {
      ResetBatch(rest, s, c, k - 1);
      IdsAbove(rest, f, x.id);
    } else {
      assert Rewrite(rest, f, Reset, 0) == rest;
      CursorIrrelevant(rest, s, c, d, Reset);
    }
  }

  // -------------------------------------------------------------------- purge batches

  /** After a purge batch the rest is still live, and purging it gives what purging
      everything would have given. */
  lemma {:induction false} PurgeBatch(rows: seq<Lead>, s: Scope, c: nat, at: int, k: nat)
    requires k <= |Ids(rows, Pending(s, c))|
    ensures
      var after := Rewrite(rows, Pending(s, c), Purge(at), k);
      && Ids(after, Pending(s, c)) == Ids(rows, Pending(s, c))[k..]
      && RewriteAll(after, Pending(s, c), Purge(at)) == RewriteAll(rows, Pending(s, c), Purge(at))
  {
    if rows != [] && k > 0 {
      PurgeBatch(rows[1..], s, c, at, if Holds(Pending(s, c), rows[0]) then k - 1 else k);
    }
  }

  /** The k-th stamped id after a batch of k is no larger than the end of the batch, even
      when leads stamped with the same time were there before. */
  lemma {:induction false} StampedNth(rows: seq<Lead>, s: Scope, c: nat, at: int, k: nat)
    requires Ordered(rows) && k <= |Ids(rows, Pending(s, c))|
    ensures
      var stamped := Ids(Rewrite(rows, Pending(s, c), Purge(at), k), Stamped(s, at, c));
      |stamped| >= k && (k > 0 ==> stamped[k - 1] <= BatchEnd(rows, Pending(s, c), k))
  {
    if rows != [] && k > 0 {
      var x, rest, f := rows[0], rows[1..], Pending(s, c);
      StampedNth(rest, s, c, at, if Holds(f, x) then k - 1 else k);
      if !Holds(f, x) {
        RewriteOrdered(rest, f, Purge(at), k);
        IdsIncreasing(Rewrite(rest, f, Purge(at), k), Stamped(s, at, c));
        IdsAbove(rest, f, x.id);
      }
    }
  }

  lemma RewriteOrdered(rows: seq<Lead>, f: Filter, op: Op, limit: nat)
    requires Ordered(rows)
    ensures Ordered(Rewrite(rows, f, op, limit))
  {
    RewriteKeepsIds(rows, f, op, limit);
  }

  /** Where nothing was stamped above the cursor, a batch stamps exactly its own ids. */
  lemma {:induction false} StampedExactly(rows: seq<Lead>, s: Scope, c: nat, at: int, k: nat)
    requires Ids(rows, Stamped(s, at, c)) == [] && k <= |Ids(rows, Pending(s, c))|
    ensures Ids(Rewrite(rows, Pending(s, c), Purge(at), k), Stamped(s, at, c)) == Ids(rows, Pending(s, c))[..k]
  {
    if rows != [] && k > 0 {
      StampedExactly(rows[1..], s, c, at, if Holds(Pending(s, c), rows[0]) then k - 1 else k);
    }
  }
}
