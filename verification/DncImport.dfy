/** The bulk import into the do-not-call table, in chunks, and the filters beside it. */
module DncImport {
  import opened Wrappers
  import opened Dnc

  const CHUNK_SIZE := 1000
  const MAX_ROWS := 5000

  /** A parsed CSV line; empty columns are None. */
  datatype BulkRow = BulkRow(phone: string, campaignId: Option<string>, state: Option<string>)

  datatype Options = Options(tenantId: nat, source: Source, campaignId: Option<string>, state: Option<string>)

  function StoredTenant(opts: Options): nat { if opts.source == Internal then opts.tenantId else 0 }

  /** The filter that an import feeds. */
  function ImportKey(opts: Options): Key { BloomKey(opts.source, opts.tenantId) }

  function EntryOf(opts: Options, row: BulkRow, phone: string): Row {
    Row(StoredTenant(opts), phone, opts.source, OrElse(row.state, OrElse(opts.state, ANY_STATE)),
        OrElse(row.campaignId, OrElse(opts.campaignId, GLOBAL_CAMPAIGN)), None)
  }

  /** The entries of the well-formed lines. */
  function Entries(normalize: Normalizer, opts: Options, rows: seq<BulkRow>): (entries: seq<Row>)
    ensures |entries| <= |rows|
  {
    if rows == [] then []
    else
      var m := |rows| - 1;
      var phone := normalize(rows[m].phone);
      Entries(normalize, opts, rows[..m]) + if phone.Some? then [EntryOf(opts, rows[m], phone.value)] else []
  }

  /** The primary key has no place for the expiry. */
  predicate SameKey(a: Row, b: Row) {
    a.tenantId == b.tenantId && a.phone == b.phone && a.source == b.source && a.state == b.state && a.campaignId == b.campaignId
  }

  predicate HasKey(table: seq<Row>, r: Row) {
    exists i :: 0 <= i < |table| && SameKey(table[i], r)
  }

  /** INSERT IGNORE, one entry after the other. */
  function InsertAll(table: seq<Row>, entries: seq<Row>): seq<Row> {
    if entries == [] then table
    else
      var m := |entries| - 1;
      var before := InsertAll(table, entries[..m]);
      if HasKey(before, entries[m]) then before else before + [entries[m]]
  }

  function PhonesOf(entries: seq<Row>): set<string> {
    set i | 0 <= i < |entries| :: entries[i].phone
  }

  /** The inner loop over one chunk. */
  method ParseChunk(normalize: Normalizer, opts: Options, chunk: seq<BulkRow>) returns (valid: seq<Row>, malformed: nat)
    ensures valid == Entries(normalize, opts, chunk) && |valid| + malformed == |chunk|
  {
    valid, malformed := [], 0;
    for j := 0 to |chunk|
      invariant valid == Entries(normalize, opts, chunk[..j]) && |valid| + malformed == j
    {
      assert chunk[..j + 1][..j] == chunk[..j];
      var phone := normalize(chunk[j].phone);
      if phone.None? {
        malformed := malformed + 1;
      } else {
        valid := valid + [EntryOf(opts, chunk[j], phone.value)];
      }
    }
    assert chunk[..|chunk|] == chunk;
  }

  /** A Bloom filter is known by the phones it answers yes for: those added, and any
      that collide with them. */
  class DncStore {
    var table: seq<Row>
    var filters: map<Key, set<string>>

    constructor (table: seq<Row>, filters: map<Key, set<string>>)
      ensures this.table == table && this.filters == filters
    {
      this.table, this.filters := table, filters;
    }

    /** BF.MADD; `collisions` is what else the filter starts to answer yes for. */
    method BloomMadd(key: Key, phones: set<string>, collisions: set<string>)
      modifies this`filters
      ensures filters == Added(old(filters), key, phones + collisions)
    {
      filters := Added(filters, key, phones + collisions);
    }

    method BulkImport(normalize: Normalizer, collisions: set<string> -> set<string>, opts: Options, rawRows: seq<BulkRow>)
      returns (added: nat, rejected: nat)
      requires opts.source != Federal
      modifies this
      ensures added == |Entries(normalize, opts, Taken(rawRows))| && added + rejected == |rawRows|
      ensures table == InsertAll(old(table), Entries(normalize, opts, Taken(rawRows)))
      ensures Fed(old(filters), filters, ImportKey(opts), Entries(normalize, opts, Taken(rawRows)))
    {
      var rows := Taken(rawRows);
      added := 0;
      rejected := |rawRows| - |rows|;
      var i := 0;
      assert rows[..0] == [];
      while i < |rows|
        invariant 0 <= i <= |rows|
        invariant added == |Entries(normalize, opts, rows[..i])| && added + rejected == |rawRows| - |rows| + i
        invariant table == InsertAll(old(table), Entries(normalize, opts, rows[..i]))
        invariant Fed(old(filters), filters, ImportKey(opts), Entries(normalize, opts, rows[..i]))
      {
        var end := if i + CHUNK_SIZE < |rows| then i + CHUNK_SIZE else |rows|;
        var chunk := rows[i..end];
        var valid, malformed := ParseChunk(normalize, opts, chunk);
        rejected := rejected + malformed;
        ChunkTogether(normalize, opts, rows, i, end, old(table));
        FedTogether(old(filters), filters, ImportKey(opts), Entries(normalize, opts, rows[..i]), valid,
                    collisions(PhonesOf(valid)));
        i := end;
        if valid != [] {
          table := InsertAll(table, valid);
          added := added + |valid|;
          BloomMadd(ImportKey(opts), PhonesOf(valid), collisions(PhonesOf(valid)));
        }
      }
      assert rows[..|rows|] == rows;
    }
  }

  function Taken(rows: seq<BulkRow>): seq<BulkRow> { if |rows| > MAX_ROWS then rows[..MAX_ROWS] else rows }

  function Answering(filters: map<Key, set<string>>, key: Key): set<string> {
    if key in filters then filters[key] else {}
  }

  function Added(filters: map<Key, set<string>>, key: Key, phones: set<string>): map<Key, set<string>> {
    filters[key := Answering(filters, key) + phones]
  }

  /** One filter has taken in the phones of some entries, and lost none; the others are
      as they were. */
  ghost predicate Fed(before: map<Key, set<string>>, after: map<Key, set<string>>, key: Key, entries: seq<Row>) {
    && (forall k: Key :: k != key ==> Answering(after, k) == Answering(before, k))
    && Answering(before, key) + PhonesOf(entries) <= Answering(after, key)
  }

  lemma FedTogether(before: map<Key, set<string>>, filters: map<Key, set<string>>, key: Key,
                    a: seq<Row>, b: seq<Row>, collisions: set<string>)
    requires Fed(before, filters, key, a)
    ensures Fed(before, Added(filters, key, PhonesOf(b) + collisions), key, a + b)
    ensures b == [] ==> Fed(before, filters, key, a + b)
  {
    forall p | p in PhonesOf(a + b) ensures p in PhonesOf(a) + PhonesOf(b) {
      var i :| 0 <= i < |a + b| && (a + b)[i].phone == p;
      if i < |a| {
        assert a[i].phone == p;
      } else {
        assert b[i - |a|].phone == p;
      }
    }
    if b == [] {
      assert a + b == a;
    }
  }

  lemma {:induction false} EntriesTogether(normalize: Normalizer, opts: Options, a: seq<BulkRow>, b: seq<BulkRow>)
    ensures Entries(normalize, opts, a + b) == Entries(normalize, opts, a) + Entries(normalize, opts, b)
  {
    if b == [] {
      assert a + b == a;
    } else {
      EntriesTogether(normalize, opts, a, b[..|b| - 1]);
      assert (a + b)[..|a + b| - 1] == a + b[..|b| - 1];
    }
  }

  lemma {:induction false} InsertTogether(table: seq<Row>, a: seq<Row>, b: seq<Row>)
    ensures InsertAll(table, a + b) == InsertAll(InsertAll(table, a), b)
  {
    if b == [] {
      assert a + b == a;
    } else {
      InsertTogether(table, a, b[..|b| - 1]);
      assert (a + b)[..|a + b| - 1] == a + b[..|b| - 1];
    }
  }

  lemma ChunkTogether(normalize: Normalizer, opts: Options, rows: seq<BulkRow>, i: nat, end: nat, table: seq<Row>)
    requires i <= end <= |rows|
    ensures
      var before, valid := Entries(normalize, opts, rows[..i]), Entries(normalize, opts, rows[i..end]);
      && Entries(normalize, opts, rows[..end]) == before + valid
      && InsertAll(table, before + valid) == InsertAll(InsertAll(table, before), valid)
      && (valid == [] ==> before + valid == before)
  {
    assert rows[..end] == rows[..i] + rows[i..end];
    EntriesTogether(normalize, opts, rows[..i], rows[i..end]);
    InsertTogether(table, Entries(normalize, opts, rows[..i]), Entries(normalize, opts, rows[i..end]));
  }

  // ------------------------------------------------------------------- main results

  /** The old rows stay, in place, and every further row is one of the entries; each
      entry's key is then in the table. */
  lemma {:induction false} InsertAllExact(table: seq<Row>, entries: seq<Row>)
    ensures table <= InsertAll(table, entries)
    ensures forall i :: |table| <= i < |InsertAll(table, entries)| ==> InsertAll(table, entries)[i] in entries
    ensures forall i :: 0 <= i < |entries| ==> HasKey(InsertAll(table, entries), entries[i])
  {
    if entries != [] {
      var m := |entries| - 1;
      var before := InsertAll(table, entries[..m]);
      InsertAllExact(table, entries[..m]);
      assert entries == entries[..m] + [entries[m]];
      forall i | 0 <= i < |entries| ensures HasKey(InsertAll(table, entries), entries[i]) {
        if i < m {
          KeyKept(before, entries[m], entries[..m][i]);
        } else {
          KeyKept(before, entries[m], entries[m]);
        }
      }
    }
  }

  lemma KeyKept(before: seq<Row>, r: Row, s: Row)
    requires HasKey(before, s) || SameKey(r, s)
    ensures HasKey(if HasKey(before, r) then before else before + [r], s)
  {
    if j :| 0 <= j < |before| && SameKey(before[j], s) {
      assert (before + [r])[j] == before[j];
    } else if !HasKey(before, r) {
      assert (before + [r])[|before|] == r;
    }
  }

  function AsFilter(filters: map<Key, set<string>>): Filter {
    (key, phone) => phone in Answering(filters, key)
  }

  /** Every entry of an import is already in a filter. */
  predicate AllAnswered(filters: map<Key, set<string>>, key: Key, entries: seq<Row>) {
    forall i :: 0 <= i < |entries| ==> entries[i].phone in Answering(filters, key)
  }

  lemma EntryConcerns(normalize: Normalizer, opts: Options, rows: seq<BulkRow>)
    ensures forall e :: e in Entries(normalize, opts, rows) ==> e.source == opts.source && e.tenantId == StoredTenant(opts)
  {
    if rows != [] {
      EntryConcerns(normalize, opts, rows[..|rows| - 1]);
    }
  }

  lemma FedPhone(before: map<Key, set<string>>, after: map<Key, set<string>>, key: Key, entries: seq<Row>, i: nat)
    requires Fed(before, after, key, entries) && i < |entries|
    ensures entries[i].phone in Answering(after, key)
  {
    assert entries[i].phone in PhonesOf(entries);
  }

  /** The state after an import: table and filters as the import leaves them. */
  ghost predicate Imported(normalize: Normalizer, opts: Options, rawRows: seq<BulkRow>, table: seq<Row>, after: seq<Row>,
                           filters: map<Key, set<string>>, fed: map<Key, set<string>>) {
    var entries := Entries(normalize, opts, Taken(rawRows));
    after == InsertAll(table, entries) && Fed(filters, fed, ImportKey(opts), entries)
  }

  /** When an entry's own filter has its phone. */
  predicate EntryAnswered(opts: Options, fed: map<Key, set<string>>, tenantId: nat, e: Row) {
    Concerns(tenantId, e) ==> e.phone in Answering(fed, BloomKey(e.source, tenantId))
  }

  lemma ContainedExact(table: seq<Row>, entries: seq<Row>, filters: map<Key, set<string>>, fed: map<Key, set<string>>,
                       opts: Options, tenantId: nat)
    requires Contains(AsFilter(filters), table, tenantId) && Fed(filters, fed, ImportKey(opts), entries)
    ensures Contains(AsFilter(fed), InsertAll(table, entries), tenantId) <==>
            forall i :: 0 <= i < |entries| ==> EntryAnswered(opts, fed, tenantId, entries[i])
  {
    var after := InsertAll(table, entries);
    InsertAllExact(table, entries);
    if forall i :: 0 <= i < |entries| ==> EntryAnswered(opts, fed, tenantId, entries[i]) {
      forall i | 0 <= i < |after| && Concerns(tenantId, after[i])
        ensures AsFilter(fed)(BloomKey(after[i].source, tenantId), after[i].phone)
      {
        if i < |table| {
          assert after[i] == table[i];
        } else {
          var j :| 0 <= j < |entries| && entries[j] == after[i];
          assert EntryAnswered(opts, fed, tenantId, entries[j]);
        }
      }
    }
    if Contains(AsFilter(fed), after, tenantId) {
      forall i | 0 <= i < |entries| ensures EntryAnswered(opts, fed, tenantId, entries[i]) {
        var j :| 0 <= j < |after| && SameKey(after[j], entries[i]);
        assert Concerns(tenantId, after[j]) <==> Concerns(tenantId, entries[i]);
      }
    }
  }

  /** What an import keeps: every tenant's filters still contain its lists after an
      internal or litigator import, and the importing tenant's after a state import.
      State entries are stored for all tenants but fed to one filter, so another
      tenant's filter still contains its list exactly when it already answered yes for
      every imported phone. */
  lemma ImportKeepsContainment(normalize: Normalizer, opts: Options, rawRows: seq<BulkRow>, table: seq<Row>, after: seq<Row>,
                               filters: map<Key, set<string>>, fed: map<Key, set<string>>, tenantId: nat)
    requires opts.source != Federal && Imported(normalize, opts, rawRows, table, after, filters, fed)
    requires Contains(AsFilter(filters), table, tenantId)
    ensures
      Contains(AsFilter(fed), after, tenantId) <==>
        || opts.source != State
        || tenantId == opts.tenantId
        || AllAnswered(filters, StateKey(tenantId), Entries(normalize, opts, Taken(rawRows)))
  {
    var entries := Entries(normalize, opts, Taken(rawRows));
    ContainedExact(table, entries, filters, fed, opts, tenantId);
    EntryConcerns(normalize, opts, Taken(rawRows));
    forall i | 0 <= i < |entries|
      ensures EntryAnswered(opts, fed, tenantId, entries[i]) <==>
              || opts.source != State
              || tenantId == opts.tenantId
              || entries[i].phone in Answering(filters, StateKey(tenantId))
    {
      assert entries[i] in entries;
      FedPhone(filters, fed, ImportKey(opts), entries, i);
    }
  }

  predicate UniqueKeys(table: seq<Row>) {
    forall i, j :: 0 <= i < j < |table| ==> !SameKey(table[i], table[j])
  }

  lemma {:induction false} InsertKeepsUnique(table: seq<Row>, entries: seq<Row>)
    requires UniqueKeys(table)
    ensures UniqueKeys(InsertAll(table, entries))
  {
    if entries != [] {
      InsertKeepsUnique(table, entries[..|entries| - 1]);
    }
  }

  predicate HasExpired(table: seq<Row>, e: Row, now: int) {
    exists i :: 0 <= i < |table| && SameKey(table[i], e) && table[i].expiresAt.Some? && table[i].expiresAt.value <= now
  }

  /** An entry lists its phone - its own row in the table matches every request that the
      entry would match - exactly when no expired row with its key stood there before:
      such a row is ignored, not renewed. */
  lemma EntryListsExact(table: seq<Row>, entries: seq<Row>, e: Row, req: Request, phone: string, now: int)
    requires UniqueKeys(table) && e in entries && Matches(req, phone, now, req.sources, e)
    requires forall i :: 0 <= i < |entries| ==> entries[i].expiresAt.None?
    ensures
      var after := InsertAll(table, entries);
      (exists i :: 0 <= i < |after| && SameKey(after[i], e) && Matches(req, phone, now, req.sources, after[i])) <==>
        !HasExpired(table, e, now)
  {
    var after := InsertAll(table, entries);
    InsertAllExact(table, entries);
    InsertKeepsUnique(table, entries);
    var n :| 0 <= n < |entries| && entries[n] == e;
    var i :| 0 <= i < |after| && SameKey(after[i], entries[n]);
    assert forall k :: 0 <= k < |after| && SameKey(after[k], e) ==> k == i by {
      forall k | 0 <= k < |after| && SameKey(after[k], e) ensures k == i {
        assert SameKey(after[k], after[i]) && SameKey(after[i], after[k]);
      }
    }
    if i < |table| {
      assert after[i] == table[i];
    } else {
      assert after[i] in entries;
    }
    assert forall k :: 0 <= k < |table| ==> table[k] == after[k];
  }

  // ------------------------------------------------------------------ what goes wrong

  /** A phone of another tenant's state import is listed for a tenant whose state filter
      does not happen to answer yes for it, and its check, with nothing failing, says that
      it is not. */
  lemma StateImportMissed(normalize: Normalizer, opts: Options, rawRows: seq<BulkRow>, table: seq<Row>, after: seq<Row>,
                          filters: map<Key, set<string>>, fed: map<Key, set<string>>, e: Row,
                          replies: Replies, db: Database, req: Request, now: int)
    requires opts.source == State && req.tenantId != opts.tenantId && req.sources == [State]
    requires Imported(normalize, opts, rawRows, table, after, filters, fed)
    requires normalize(req.phone).Some? && ErrorFree(replies)
    requires
      var phone, entries := normalize(req.phone).value, Entries(normalize, opts, Taken(rawRows));
      && UniqueKeys(table) && e in entries && Matches(req, phone, now, req.sources, e) && !HasExpired(table, e, now)
      && phone !in Answering(filters, StateKey(req.tenantId))
    requires
      var phone := normalize(req.phone).value;
      var positive := Suspects(req.sources, req.sources, replies);
      && Faithful(AsFilter(fed), req, phone, replies)
      && db(positive, phone).Some? && Answers(after, req, phone, now, positive, db(positive, phone))
    ensures Listed(after, req, normalize(req.phone).value, now) && !CheckOf(normalize, replies, db, req).isDnc
  {
    var phone, entries := normalize(req.phone).value, Entries(normalize, opts, Taken(rawRows));
    EntriesFresh(normalize, opts, Taken(rawRows));
    EntryListsExact(table, entries, e, req, phone, now);
    CheckExact(normalize, AsFilter(fed), after, replies, db, req, now);
    assert Answering(fed, StateKey(req.tenantId)) == Answering(filters, StateKey(req.tenantId));
  }

  lemma EntriesFresh(normalize: Normalizer, opts: Options, rows: seq<BulkRow>)
    ensures forall i :: 0 <= i < |Entries(normalize, opts, rows)| ==> Entries(normalize, opts, rows)[i].expiresAt.None?
  {
    if rows != [] {
      EntriesFresh(normalize, opts, rows[..|rows| - 1]);
    }
  }

  lemma OnePhone(e: Row)
    ensures PhonesOf([e]) == {e.phone}
  {
    assert [e][0].phone in PhonesOf([e]);
    forall p | p in PhonesOf([e]) ensures p == e.phone {
      var i :| 0 <= i < |[e]| && [e][i].phone == p;
    }
  }

  lemma OneEntry(normalize: Normalizer, opts: Options, row: BulkRow)
    requires normalize(row.phone).Some?
    ensures Entries(normalize, opts, Taken([row])) == [EntryOf(opts, row, normalize(row.phone).value)]
  {
    assert [row][..0] == [];
  }

  lemma InsertOne(e: Row)
    ensures InsertAll([], [e]) == [e]
  {
    assert [e][..0] == [];
  }

  /** Tenant 1 imports one well-formed phone into empty tables, as a state list: tenant
      2's filter no longer contains its list. */
  lemma StateImportBreaksContainment(normalize: Normalizer, raw: string)
    requires normalize(raw).Some?
    ensures
      var opts, row := Options(1, State, None, None), BulkRow(raw, None, None);
      var entries := Entries(normalize, opts, Taken([row]));
      var fed := Added(map[], StateKey(1), {normalize(raw).value});
      && Imported(normalize, opts, [row], [], entries, map[], fed)
      && Contains(AsFilter(map[]), [], 2) && !Contains(AsFilter(fed), entries, 2)
  {
    var opts, row := Options(1, State, None, None), BulkRow(raw, None, None);
    var e := EntryOf(opts, row, normalize(raw).value);
    OneEntry(normalize, opts, row);
    InsertOne(e);
    OnePhone(e);
    assert Concerns(2, [e][0]);
  }

  /** An expired row stands where the entry would go: the table stays as it was, and the
      phone is not listed. */
  lemma ExpiredNotRenewed(phone: string, expiry: int, req: Request, now: int)
    requires expiry <= now
    ensures
      var e := Row(req.tenantId, phone, Internal, ANY_STATE, GLOBAL_CAMPAIGN, None);
      var table := [e.(expiresAt := Some(expiry))];
      InsertAll(table, [e]) == table && !Listed(InsertAll(table, [e]), req, phone, now)
  {
    var e := Row(req.tenantId, phone, Internal, ANY_STATE, GLOBAL_CAMPAIGN, None);
    var table := [e.(expiresAt := Some(expiry))];
    assert [e][..0] == [];
    assert SameKey(table[0], e);
  }
}
