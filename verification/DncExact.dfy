/** The do-not-call check and its import in the columns of the table: which rows list a
    phone, what each result says, in which order sources are reported, and what an import
    stores. */
module DncExact {
  import opened Wrappers
  import opened Dnc
  import opened DncImport

  // ------------------------------------------------------------------- what is listed

  /** A row that lists the phone: of a requested source, not expired, and for federal and
      litigator lists the tenant's own or a shared one, for internal lists the tenant's own
      for all its campaigns or for this one, for state lists a shared one for all states or
      for the lead's. */
  predicate OnList(req: Request, phone: string, now: int, r: Row) {
    && r.phone == phone && r.source in req.sources
    && (r.expiresAt == None || now < r.expiresAt.value)
    && ((r.source in {Federal, Litigator} && r.tenantId in {0, req.tenantId})
        || (r.source == Internal && r.tenantId == req.tenantId
            && (r.campaignId == "__GLOBAL__" || req.campaignId == Some(r.campaignId)))
        || (r.source == State && r.tenantId == 0 && (r.state == "__" || req.leadState == Some(r.state))))
  }

  lemma MatchesOnList(req: Request, phone: string, now: int, r: Row)
    ensures Matches(req, phone, now, req.sources, r) <==> OnList(req, phone, now, r)
  {}

  /** Listed is on the list. */
  lemma ListedExact(table: seq<Row>, req: Request, phone: string, now: int)
    ensures Listed(table, req, phone, now) <==> exists i :: 0 <= i < |table| && OnList(req, phone, now, table[i])
  {
    forall i | 0 <= i < |table|
      ensures Matches(req, phone, now, req.sources, table[i]) <==> OnList(req, phone, now, table[i])
    {
      MatchesOnList(req, phone, now, table[i]);
    }
    if i :| 0 <= i < |table| && OnList(req, phone, now, table[i]) {
      assert Matches(req, phone, now, req.sources, table[i]);
    }
  }

  ghost predicate SomeRequestMatches(tenantId: nat, r: Row) {
    exists req: Request, now: int :: req.tenantId == tenantId && OnList(req, r.phone, now, r)
  }

  /** A tenant is concerned by exactly the rows that can be on the list for a request of
      its own. */
  lemma ConcernsExact(tenantId: nat, r: Row)
    ensures Concerns(tenantId, r) <==> SomeRequestMatches(tenantId, r)
  {
    if Concerns(tenantId, r) {
      var req := Request(r.phone, tenantId, Some(r.campaignId), Some(r.state), [r.source]);
      var now := if r.expiresAt.Some? then r.expiresAt.value - 1 else 0;
      assert OnList(req, r.phone, now, r);
    }
  }

  /** Federal and litigator lists have one filter, the others one for each tenant; no two
      sources share one. */
  lemma FilterKeysExact(s: Source, m: nat, t: Source, n: nat)
    ensures BloomKey(s, m) == BloomKey(t, n) <==> s == t && (s in {Federal, Litigator} || m == n)
  {}

  /** The last place of a source in the request. */
  predicate LastAsked(sources: seq<Source>, s: Source, i: nat) {
    i < |sources| && sources[i] == s && forall j :: i < j < |sources| ==> sources[j] != s
  }

  /** A source is a hit when the reply to its last command is an error or a one; without a
      reply it is none. */
  lemma {:induction false} HitExact(sources: seq<Source>, replies: seq<Reply>, s: Source)
    ensures Hit(sources, replies, s) <==>
            exists i :: 0 <= i < |sources| && LastAsked(sources, s, i) && i < |replies| && replies[i] in {Error, Exists(1)}
  {
    if sources != [] {
      var m := |sources| - 1;
      HitExact(sources[..m], replies, s);
      if sources[m] == s {
        assert LastAsked(sources, s, m);
      } else {
        assert forall i :: 0 <= i < m ==> (LastAsked(sources[..m], s, i) <==> LastAsked(sources, s, i));
      }
    }
  }

  // ----------------------------------------------------------------- what is answered

  /** A malformed phone counts as listed, with nothing asked. */
  lemma MalformedIsListed(normalize: Normalizer, replies: Replies, db: Database, req: Request)
    ensures normalize(req.phone).None? ==> CheckOf(normalize, replies, db, req) == CheckResult(true, [], false, true)
    ensures CheckOf(normalize, replies, db, req).malformed <==> normalize(req.phone).None?
  {}

  /** With store and database both down every requested source is reported. */
  lemma AllDownIsClosed(normalize: Normalizer, db: Database, req: Request)
    requires normalize(req.phone).Some? && forall sources, phone :: db(sources, phone).None?
    ensures
      var r := CheckOf(normalize, None, db, req);
      && (r.isDnc <==> req.sources != [])
      && multiset(r.sources) == multiset(req.sources)
      && !r.bloomFalsePositive
  {
    AllSuspect(req.sources, req.sources);
    SortedByPriority(req.sources);
  }

  lemma {:induction false} AllSuspect(some: seq<Source>, sources: seq<Source>)
    ensures Suspects(some, sources, None) == some
  {
    if some != [] {
      AllSuspect(some[..|some| - 1], sources);
      assert some == some[..|some| - 1] + [some[|some| - 1]];
    }
  }

  predicate SomeFilterAnswers(filter: Filter, req: Request, phone: string) {
    exists i :: 0 <= i < |req.sources| && filter(BloomKey(req.sources[i], req.tenantId), phone)
  }

  /** When nothing fails, a false positive of the filters is reported exactly when one of
      them answered yes and the phone is not listed; and sources exactly with a listing. */
  lemma FalsePositiveExact(normalize: Normalizer, filter: Filter, table: seq<Row>, replies: Replies, db: Database, req: Request, now: int)
    requires normalize(req.phone).Some? && ErrorFree(replies)
    requires
      var phone := normalize(req.phone).value;
      var positive := Suspects(req.sources, req.sources, replies);
      && Faithful(filter, req, phone, replies)
      && db(positive, phone).Some? && Answers(table, req, phone, now, positive, db(positive, phone))
    ensures
      var r := CheckOf(normalize, replies, db, req);
      && (r.bloomFalsePositive <==> !r.isDnc && SomeFilterAnswers(filter, req, normalize(req.phone).value))
      && (r.sources != [] <==> r.isDnc)
  {
    var phone := normalize(req.phone).value;
    var positive := Suspects(req.sources, req.sources, replies);
    if positive != [] {
      SuspectedExact(filter, req, phone, replies, positive[0]);
      assert positive[0] in req.sources;
      var rows := db(positive, phone).value;
      if rows != [] {
        SourceMembers(rows, rows[0].source);
        assert HasSource(rows, rows[0].source);
      }
    }
    if i :| 0 <= i < |req.sources| && filter(BloomKey(req.sources[i], req.tenantId), phone) {
      SuspectedExact(filter, req, phone, replies, req.sources[i]);
    }
  }

  /** A database answer has every row that matches, up to four of them. */
  lemma AnswerLimit(matching: seq<Row>, rows: seq<Row>)
    requires Truthful(matching, Some(rows))
    ensures |rows| == if |matching| <= 4 then |matching| else 4
    ensures forall r :: r in rows ==> r in matching
  {
    forall r | r in rows ensures r in matching {
      assert r in multiset(rows);
    }
  }

  // ------------------------------------------------------------------ order of sources

  function Copies(s: Source, n: nat): (r: seq<Source>)
    ensures |r| == n
  {
    seq(n, _ => s)
  }

  /** The sources before `s` in rank, as often as they occur. */
  function Above(bag: multiset<Source>, s: Source): seq<Source> {
    match s
    case Internal => []
    case Litigator => Copies(Internal, bag[Internal])
    case State => Copies(Internal, bag[Internal]) + Copies(Litigator, bag[Litigator])
    case Federal => Copies(Internal, bag[Internal]) + Copies(Litigator, bag[Litigator]) + Copies(State, bag[State])
  }

  /** Those after it. */
  function Below(bag: multiset<Source>, s: Source): seq<Source> {
    match s
    case Internal => Copies(Litigator, bag[Litigator]) + Copies(State, bag[State]) + Copies(Federal, bag[Federal])
    case Litigator => Copies(State, bag[State]) + Copies(Federal, bag[Federal])
    case State => Copies(Federal, bag[Federal])
    case Federal => []
  }

  /** Internal lists first, then litigators, states and the federal list. */
  function Ranked(bag: multiset<Source>): seq<Source> {
    Copies(Internal, bag[Internal]) + Copies(Litigator, bag[Litigator])
    + Copies(State, bag[State]) + Copies(Federal, bag[Federal])
  }

  lemma RankedAround(bag: multiset<Source>, s: Source)
    ensures Ranked(bag) == Above(bag, s) + Copies(s, bag[s]) + Below(bag, s)
  {}

  lemma AboveAndBelow(bag: multiset<Source>, s: Source)
    ensures forall k :: 0 <= k < |Above(bag, s)| ==> Priority(s) <= Priority(Above(bag, s)[k])
    ensures forall k :: 0 <= k < |Below(bag, s)| ==> Priority(s) > Priority(Below(bag, s)[k])
  {}

  lemma OneMore(bag: multiset<Source>, s: Source)
    ensures Above(bag + multiset{s}, s) == Above(bag, s) && Below(bag + multiset{s}, s) == Below(bag, s)
    ensures Copies(s, (bag + multiset{s})[s]) == Copies(s, bag[s]) + [s]
  {}

  lemma RankedMore(bag: multiset<Source>, s: Source)
    ensures Place(s, Ranked(bag)) == Ranked(bag + multiset{s})
  {
    RankedAround(bag, s);
    RankedAround(bag + multiset{s}, s);
    OneMore(bag, s);
    PlaceAmong(s, Above(bag, s), bag[s], Below(bag, s)) by {
      AboveAndBelow(bag, s);
    }
  }

  lemma PlaceAmong(s: Source, above: seq<Source>, n: nat, below: seq<Source>)
    requires forall k :: 0 <= k < |above| ==> Priority(s) <= Priority(above[k])
    requires forall k :: 0 <= k < |below| ==> Priority(s) > Priority(below[k])
    ensures Place(s, above + Copies(s, n) + below) == above + (Copies(s, n) + [s]) + below
  {
    FrontLast(s, above, n);
    PlaceAfter(s, above + Copies(s, n), below);
    Grouped(above, Copies(s, n), [s], below);
  }

  lemma FrontLast(s: Source, above: seq<Source>, n: nat)
    requires forall k :: 0 <= k < |above| ==> Priority(s) <= Priority(above[k])
    ensures var front := above + Copies(s, n); front != [] ==> Priority(s) <= Priority(front[|front| - 1])
  {}

  lemma Grouped(a: seq<Source>, b: seq<Source>, c: seq<Source>, d: seq<Source>)
    ensures a + b + c + d == a + (b + c) + d
  {}

  lemma {:induction false} PlaceAfter(s: Source, front: seq<Source>, rest: seq<Source>)
    requires front != [] ==> Priority(s) <= Priority(front[|front| - 1])
    requires forall k :: 0 <= k < |rest| ==> Priority(s) > Priority(rest[k])
    ensures Place(s, front + rest) == front + [s] + rest
  {
    var all := front + rest;
    if rest == [] {
      assert all == front && front + [s] + rest == front + [s];
    } else {
      var n := |rest| - 1;
      PlaceAfter(s, front, rest[..n]);
      assert all[..|all| - 1] == front + rest[..n] && all[|all| - 1] == rest[n];
      assert front + [s] + rest[..n] + [rest[n]] == front + [s] + rest;
    }
  }

  /** The report, in full: each source as often as it was confirmed, in order of rank. */
  lemma {:induction false} RankedExact(sources: seq<Source>)
    ensures SortByPriority(sources) == Ranked(multiset(sources))
  {
    if sources != [] {
      var m := |sources| - 1;
      RankedExact(sources[..m]);
      RankedMore(multiset(sources[..m]), sources[m]);
      SplitLast(sources);
    } else {
      assert Ranked(multiset(sources)) == [];
    }
  }

  // ----------------------------------------------------------------------- the import

  /** The row that a well-formed line becomes: shared unless the list is internal, the
      line's own state and campaign before those of the import, for all where neither names
      one, and without an expiry. */
  predicate Becomes(opts: Options, line: BulkRow, phone: string, e: Row) {
    && e.phone == phone && e.source == opts.source && e.expiresAt == None
    && e.tenantId == (if opts.source == Internal then opts.tenantId else 0)
    && e.state == (if line.state.Some? then line.state.value else if opts.state.Some? then opts.state.value else "__")
    && e.campaignId == (if line.campaignId.Some? then line.campaignId.value
                        else if opts.campaignId.Some? then opts.campaignId.value else "__GLOBAL__")
  }

  /** The well-formed lines among the first n. */
  function WellFormedLines(normalize: Normalizer, rows: seq<BulkRow>, n: nat): set<nat> {
    set i | 0 <= i < |rows| && i < n && normalize(rows[i].phone).Some?
  }

  predicate LineBecomes(normalize: Normalizer, opts: Options, line: BulkRow, e: Row) {
    normalize(line.phone).Some? && Becomes(opts, line, normalize(line.phone).value, e)
  }

  predicate SomeLineBecomes(normalize: Normalizer, opts: Options, rows: seq<BulkRow>, e: Row) {
    exists i :: 0 <= i < |rows| && LineBecomes(normalize, opts, rows[i], e)
  }

  /** The entries of an import are what its well-formed lines become, one each. */
  lemma {:induction false} EntriesExact(normalize: Normalizer, opts: Options, rows: seq<BulkRow>, e: Row)
    ensures e in Entries(normalize, opts, rows) <==> SomeLineBecomes(normalize, opts, rows, e)
    ensures |Entries(normalize, opts, rows)| == |WellFormedLines(normalize, rows, |rows|)|
  {
    if rows == [] {
      assert WellFormedLines(normalize, rows, 0) == {};
    } else {
      var m := |rows| - 1;
      EntriesExact(normalize, opts, rows[..m], e);
      LineMore(normalize, rows);
      SomeLineMore(normalize, opts, rows, e);
      EntryMore(normalize, opts, rows, e);
    }
  }

  lemma LineMore(normalize: Normalizer, rows: seq<BulkRow>)
    requires rows != []
    ensures
      var m := |rows| - 1;
      |WellFormedLines(normalize, rows, |rows|)| ==
        |WellFormedLines(normalize, rows[..m], m)| + if normalize(rows[m].phone).Some? then 1 else 0
  {
    var m := |rows| - 1;
    var before := WellFormedLines(normalize, rows[..m], m);
    assert WellFormedLines(normalize, rows, |rows|) == if normalize(rows[m].phone).Some? then before + {m} else before;
  }

  lemma BecomesEntry(opts: Options, line: BulkRow, phone: string, e: Row)
    ensures Becomes(opts, line, phone, e) <==> e == EntryOf(opts, line, phone)
  {}

  lemma SomeLineMore(normalize: Normalizer, opts: Options, rows: seq<BulkRow>, e: Row)
    requires rows != []
    ensures SomeLineBecomes(normalize, opts, rows, e) <==>
            SomeLineBecomes(normalize, opts, rows[..|rows| - 1], e) || LineBecomes(normalize, opts, rows[|rows| - 1], e)
  {
    var m := |rows| - 1;
    if i :| 0 <= i < m && LineBecomes(normalize, opts, rows[..m][i], e) {
      assert rows[i] == rows[..m][i];
    }
    if i :| 0 <= i < |rows| && LineBecomes(normalize, opts, rows[i], e) {
      if i < m {
        assert rows[i] == rows[..m][i];
      }
    }
  }

  lemma EntryMore(normalize: Normalizer, opts: Options, rows: seq<BulkRow>, e: Row)
    requires rows != []
    ensures
      var m := |rows| - 1;
      e in Entries(normalize, opts, rows) <==>
      e in Entries(normalize, opts, rows[..m]) || LineBecomes(normalize, opts, rows[m], e)
  {
    var m := |rows| - 1;
    if normalize(rows[m].phone).Some? {
      BecomesEntry(opts, rows[m], normalize(rows[m].phone).value, e);
    }
  }

  /** An import looks at the first five thousand lines. */
  lemma TakenExact(rows: seq<BulkRow>)
    ensures |rows| <= 5000 ==> Taken(rows) == rows
    ensures |rows| >= 5000 ==> Taken(rows) == rows[..5000]
  {}

  /** An entry is added unless the same row, whatever its expiry, is there. */
  lemma InsertExact(table: seq<Row>, e: Row)
    ensures InsertAll(table, [e]) ==
            if exists i :: 0 <= i < |table| && table[i].(expiresAt := e.expiresAt) == e then table else table + [e]
  {
    assert [e][..0] == [];
    assert InsertAll(table, [e][..0]) == table;
    if i :| 0 <= i < |table| && table[i].(expiresAt := e.expiresAt) == e {
      assert SameKey(table[i], e);
    }
    if i :| 0 <= i < |table| && SameKey(table[i], e) {
      assert table[i].(expiresAt := e.expiresAt) == e;
    }
  }
}
