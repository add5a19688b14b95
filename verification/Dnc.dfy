/** The do-not-call check: a Bloom filter in front of a table lookup. */
module Dnc {
  import opened Wrappers

  datatype Source = Federal | State | Internal | Litigator

  const GLOBAL_CAMPAIGN := "__GLOBAL__"
  const ANY_STATE := "__"
  const ROW_LIMIT := 4

  datatype Row = Row(
    tenantId: nat,
    phone: string,
    source: Source,
    state: string,
    campaignId: string,
    expiresAt: Option<int>)

  /** Tenant ids are positive; tenant 0 holds what is shared. */
  datatype Request = Request(
    phone: string,
    tenantId: nat,
    campaignId: Option<string>,
    leadState: Option<string>,
    sources: seq<Source>)

  /** The filter keys of the store. */
  datatype Key = FederalKey | LitigatorKey | InternalKey(tenantId: nat) | StateKey(tenantId: nat)

  function BloomKey(source: Source, tenantId: nat): Key {
    match source
    case Federal => FederalKey
    case Litigator => LitigatorKey
    case Internal => InternalKey(tenantId)
    case State => StateKey(tenantId)
  }

  // --------------------------------------------------------------- the two lookups

  function OrElse(o: Option<string>, default: string): string { if o.Some? then o.value else default }

  /** Rows that concern a tenant, by source. */
  predicate Concerns(tenantId: nat, r: Row) {
    match r.source
    case Federal => r.tenantId == tenantId || r.tenantId == 0
    case Litigator => r.tenantId == tenantId || r.tenantId == 0
    case Internal => r.tenantId == tenantId
    case State => r.tenantId == 0
  }

  /** The WHERE clause of the confirmation query. */
  predicate Matches(req: Request, phone: string, now: int, sources: seq<Source>, r: Row) {
    && r.phone == phone
    && (r.tenantId == req.tenantId || r.tenantId == 0)
    && r.source in sources
    && (match r.source
        case Federal => true
        case Litigator => true
        case Internal =>
          r.tenantId == req.tenantId
          && (r.campaignId == GLOBAL_CAMPAIGN || r.campaignId == OrElse(req.campaignId, GLOBAL_CAMPAIGN))
        case State => r.tenantId == 0 && (r.state == OrElse(req.leadState, ANY_STATE) || r.state == ANY_STATE))
    && (r.expiresAt.Some? ==> r.expiresAt.value > now)
  }

  function Matching(table: seq<Row>, req: Request, phone: string, now: int, sources: seq<Source>): seq<Row> {
    if table == [] then []
    else (if Matches(req, phone, now, sources, table[0]) then [table[0]] else [])
         + Matching(table[1..], req, phone, now, sources)
  }

  /** A database answer: none when it fails. */
  type Answer = Option<seq<Row>>

  /** A truthful answer holds matching rows, as many as there are up to the limit; which
      of them is not said. */
  predicate Truthful(matching: seq<Row>, answer: Answer) {
    answer.Some? ==>
      && |answer.value| == (if |matching| < ROW_LIMIT then |matching| else ROW_LIMIT)
      && multiset(answer.value) <= multiset(matching)
  }

  /** A reply to one BF.EXISTS. */
  datatype Reply = Error | Exists(n: int)

  /** The replies of a pipeline; none when the store is down. */
  type Replies = Option<seq<Reply>>

  type Filter = (Key, string) -> bool

  /** A pipeline answers every command, with an error or with what the filter says. */
  predicate Faithful(filter: Filter, req: Request, phone: string, replies: Replies) {
    replies.Some? ==>
      && |replies.value| == |req.sources|
      && forall i :: 0 <= i < |req.sources| ==>
           replies.value[i] == Error
           || replies.value[i] == Exists(if filter(BloomKey(req.sources[i], req.tenantId), phone) then 1 else 0)
  }

  // ---------------------------------------------------------------------- the check

  datatype CheckResult = CheckResult(isDnc: bool, sources: seq<Source>, bloomFalsePositive: bool, malformed: bool)

  predicate Positive(reply: Reply) { reply == Error || reply == Exists(1) }

  method BloomMexistsPipeline(sources: seq<Source>, replies: Replies) returns (hits: map<Source, bool>)
    ensures forall s :: s in hits <==> s in sources
    ensures replies.None? ==> forall s :: s in sources ==> hits[s]
    ensures replies.Some? ==> forall s :: s in sources ==> hits[s] == Hit(sources, replies.value, s)
  {
    hits := map[];
    for i := 0 to |sources|
      invariant forall s :: s in hits <==> s in sources[..i]
      invariant replies.None? ==> forall s :: s in sources[..i] ==> hits[s]
      invariant replies.Some? ==> forall s :: s in sources[..i] ==> hits[s] == Hit(sources[..i], replies.value, s)
    {
      assert sources[..i + 1][..i] == sources[..i];
      if replies.None? {
        hits := hits[sources[i] := true];
      } else {
        hits := hits[sources[i] := i < |replies.value| && Positive(replies.value[i])];
      }
    }
    assert sources[..|sources|] == sources;
  }

  /** The last reply for a source counts; a missing one is a no. */
  predicate Hit(sources: seq<Source>, replies: seq<Reply>, s: Source) {
    if sources == [] then false
    else
      var m := |sources| - 1;
      if sources[m] == s then m < |replies| && Positive(replies[m]) else Hit(sources[..m], replies, s)
  }

  /** First occurrences, in order. */
  function Distinct(sources: seq<Source>): seq<Source> {
    if sources == [] then []
    else
      var m := |sources| - 1;
      if sources[m] in sources[..m] then Distinct(sources[..m]) else Distinct(sources[..m]) + [sources[m]]
  }

  method ConfirmedSources(rows: seq<Row>) returns (confirmed: seq<Source>)
    ensures confirmed == Distinct(SourcesOf(rows))
  {
    var seen: set<Source> := {};
    confirmed := [];
    var sources := SourcesOf(rows);
    for i := 0 to |rows|
      invariant forall s :: s in seen <==> s in sources[..i]
      invariant confirmed == Distinct(sources[..i])
    {
      assert sources[..i + 1][..i] == sources[..i] && sources[..i + 1] == sources[..i] + [sources[i]];
      var s := rows[i].source;
      if s !in seen {
        seen := seen + {s};
        confirmed := confirmed + [s];
      }
    }
    assert sources[..|rows|] == sources;
  }

  function SourcesOf(rows: seq<Row>): (sources: seq<Source>)
    ensures |sources| == |rows|
  {
    seq(|rows|, i requires 0 <= i < |rows| => rows[i].source)
  }

  function Priority(s: Source): int {
    match s
    case Internal => 4
    case Litigator => 3
    case State => 2
    case Federal => 1
  }

  function Place(s: Source, sorted: seq<Source>): seq<Source> {
    if sorted == [] then [s]
    else if Priority(s) <= Priority(sorted[|sorted| - 1]) then sorted + [s]
    else Place(s, sorted[..|sorted| - 1]) + [sorted[|sorted| - 1]]
  }

  /** Highest priority first; equals stay in order. */
  function SortByPriority(sources: seq<Source>): seq<Source> {
    if sources == [] then [] else Place(sources[|sources| - 1], SortByPriority(sources[..|sources| - 1]))
  }

  /** Whether a source is taken for positive: all are when the store is down. */
  predicate Suspected(sources: seq<Source>, replies: Replies, s: Source) {
    replies.None? || Hit(sources, replies.value, s)
  }

  /** Those of `some` that are. */
  function Suspects(some: seq<Source>, sources: seq<Source>, replies: Replies): seq<Source> {
    if some == [] then []
    else
      var m := |some| - 1;
      Suspects(some[..m], sources, replies) + if Suspected(sources, replies, some[m]) then [some[m]] else []
  }

  /** The answer of the database to the query for some sources and a normalized phone. */
  type Database = (seq<Source>, string) -> Answer

  /** `normalize` is None for a malformed phone. */
  type Normalizer = string -> Option<string>

  function CheckOf(normalize: Normalizer, replies: Replies, db: Database, req: Request): CheckResult {
    var phone := normalize(req.phone);
    if phone.None? then CheckResult(true, [], false, true)
    else
      var positive := Suspects(req.sources, req.sources, replies);
      if positive == [] then CheckResult(false, [], false, false)
      else
        match db(positive, phone.value)
        case None => CheckResult(true, SortByPriority(positive), false, false)
        case Some(rows) =>
          if rows == [] then CheckResult(false, [], true, false)
          else CheckResult(true, SortByPriority(Distinct(SourcesOf(rows))), false, false)
  }

  method PositiveSources(sources: seq<Source>, replies: Replies, hits: map<Source, bool>) returns (positive: seq<Source>)
    requires forall s :: s in sources ==> s in hits && hits[s] == Suspected(sources, replies, s)
    ensures positive == Suspects(sources, sources, replies)
  {
    positive := [];
    for i := 0 to |sources|
      invariant positive == Suspects(sources[..i], sources, replies)
    {
      assert sources[..i + 1][..i] == sources[..i];
      if hits[sources[i]] {
        positive := positive + [sources[i]];
      }
    }
    assert sources[..|sources|] == sources;
  }

  method DncCheck(normalize: Normalizer, replies: Replies, db: Database, req: Request) returns (result: CheckResult)
    ensures result == CheckOf(normalize, replies, db, req)
  {
    var phone := normalize(req.phone);
    if phone.None? {
      return CheckResult(true, [], false, true);
    }
    var hits := BloomMexistsPipeline(req.sources, replies);
    var positiveSources := PositiveSources(req.sources, replies, hits);
    if positiveSources == [] {
      return CheckResult(false, [], false, false);
    }
    var confirmedSources := positiveSources;
    var answer := db(positiveSources, phone.value);
    if answer.Some? {
      confirmedSources := ConfirmedSources(answer.value);
      DistinctExact(SourcesOf(answer.value));
      assert |SourcesOf(answer.value)| == |answer.value|;
    }
    if confirmedSources == [] {
      return CheckResult(false, [], true, false);
    }
    result := CheckResult(true, SortByPriority(confirmedSources), false, false);
  }

  lemma {:induction false} DistinctExact(sources: seq<Source>)
    ensures forall s :: s in Distinct(sources) <==> s in sources
    ensures forall i, j :: 0 <= i < j < |Distinct(sources)| ==> Distinct(sources)[i] != Distinct(sources)[j]
    ensures Distinct(sources) == [] <==> sources == []
  {
    if sources != [] {
      DistinctExact(sources[..|sources| - 1]);
      assert sources == sources[..|sources| - 1] + [sources[|sources| - 1]];
    }
  }

  lemma {:induction false} SuspectsExact(some: seq<Source>, sources: seq<Source>, replies: Replies)
    ensures forall s :: s in Suspects(some, sources, replies) <==> s in some && Suspected(sources, replies, s)
  {
    if some != [] {
      SuspectsExact(some[..|some| - 1], sources, replies);
      assert some == some[..|some| - 1] + [some[|some| - 1]];
    }
  }

  lemma {:induction false} PlaceMultiset(s: Source, sorted: seq<Source>)
    ensures multiset(Place(s, sorted)) == multiset(sorted) + multiset{s}
  {
    if sorted != [] {
      var m := |sorted| - 1;
      assert sorted == sorted[..m] + [sorted[m]];
      PlaceMultiset(s, sorted[..m]);
    }
  }

  /** From highest to lowest. */
  predicate Descending(sources: seq<Source>) {
    if |sources| < 2 then true
    else
      var m := |sources| - 1;
      Descending(sources[..m]) && Priority(sources[m - 1]) >= Priority(sources[m])
  }

  lemma AppendDescending(sorted: seq<Source>, s: Source)
    requires Descending(sorted) && (sorted == [] || Priority(sorted[|sorted| - 1]) >= Priority(s))
    ensures Descending(sorted + [s])
  {
    assert (sorted + [s])[..|sorted|] == sorted;
  }

  /** The last of `placed` is the one put in or the last there was. */
  predicate LastFrom(placed: seq<Source>, s: Source, sorted: seq<Source>) {
    placed != [] && (placed[|placed| - 1] == s || (sorted != [] && placed[|placed| - 1] == sorted[|sorted| - 1]))
  }

  lemma {:induction false} PlaceDescending(s: Source, sorted: seq<Source>)
    requires Descending(sorted)
    ensures Descending(Place(s, sorted)) && LastFrom(Place(s, sorted), s, sorted)
  {
    if sorted == [] || Priority(s) <= Priority(sorted[|sorted| - 1]) {
      AppendDescending(sorted, s);
    } else {
      var m := |sorted| - 1;
      PlaceDescending(s, sorted[..m]);
      AppendDescending(Place(s, sorted[..m]), sorted[m]);
    }
  }

  lemma SplitLast(s: seq<Source>)
    requires s != []
    ensures multiset(s) == multiset(s[..|s| - 1]) + multiset{s[|s| - 1]}
  {
    assert s == s[..|s| - 1] + [s[|s| - 1]];
  }

  /** The reported sources are the confirmed ones, the most specific first. */
  lemma {:induction false} SortedByPriority(sources: seq<Source>)
    ensures Descending(SortByPriority(sources)) && multiset(SortByPriority(sources)) == multiset(sources)
  {
    if sources != [] {
      var m := |sources| - 1;
      SortedByPriority(sources[..m]);
      PlaceDescending(sources[m], SortByPriority(sources[..m]));
      PlaceMultiset(sources[m], SortByPriority(sources[..m]));
      SplitLast(sources);
    }
  }

  // ------------------------------------------------------------------- main results

  /** On the list: some row of the requested sources matches. */
  predicate Listed(table: seq<Row>, req: Request, phone: string, now: int) {
    exists i :: 0 <= i < |table| && Matches(req, phone, now, req.sources, table[i])
  }

  /** Each filter answers yes for every phone that its source holds for the tenant. */
  predicate Contains(filter: Filter, table: seq<Row>, tenantId: nat) {
    forall i :: 0 <= i < |table| ==> Concerns(tenantId, table[i]) ==>
      filter(BloomKey(table[i].source, tenantId), table[i].phone)
  }

  lemma {:induction false} MatchingExact(table: seq<Row>, req: Request, phone: string, now: int, sources: seq<Source>)
    ensures Matching(table, req, phone, now, sources) != [] <==>
            exists i :: 0 <= i < |table| && Matches(req, phone, now, sources, table[i])
  {
    if table != [] {
      MatchingExact(table[1..], req, phone, now, sources);
      if Matching(table[1..], req, phone, now, sources) != [] {
        var i :| 0 <= i < |table[1..]| && Matches(req, phone, now, sources, table[1..][i]);
        assert Matches(req, phone, now, sources, table[i + 1]);
      }
      if i :| 0 <= i < |table| && Matches(req, phone, now, sources, table[i]) {
        if i > 0 {
          assert Matches(req, phone, now, sources, table[1..][i - 1]);
        }
      }
    }
  }

  /** A source whose filter answers yes is a suspect, whatever fails. */
  lemma {:induction false} FilterHit(filter: Filter, req: Request, phone: string, replies: seq<Reply>, n: nat, s: Source)
    requires Faithful(filter, req, phone, Some(replies)) && n <= |req.sources|
    requires s in req.sources[..n] && filter(BloomKey(s, req.tenantId), phone)
    ensures Hit(req.sources[..n], replies, s)
  {
    var some := req.sources[..n];
    assert some[..n - 1] == req.sources[..n - 1];
    if some[n - 1] != s {
      assert some == some[..n - 1] + [some[n - 1]];
      FilterHit(filter, req, phone, replies, n - 1, s);
    }
  }

  lemma MatchesConcerns(req: Request, phone: string, now: int, sources: seq<Source>, r: Row)
    requires Matches(req, phone, now, sources, r)
    ensures Concerns(req.tenantId, r)
  {}

  /** A listed phone has a suspect source in which it is listed. */
  lemma ListedIsSuspected(filter: Filter, table: seq<Row>, req: Request, phone: string, now: int, replies: Replies, i: nat)
    requires Contains(filter, table, req.tenantId) && Faithful(filter, req, phone, replies)
    requires i < |table| && Matches(req, phone, now, req.sources, table[i])
    ensures Matches(req, phone, now, Suspects(req.sources, req.sources, replies), table[i])
  {
    var r := table[i];
    SuspectsExact(req.sources, req.sources, replies);
    MatchesConcerns(req, phone, now, req.sources, r);
    if replies.Some? {
      FilterHit(filter, req, phone, replies.value, |req.sources|, r.source);
      assert req.sources[..|req.sources|] == req.sources;
    }
  }

  /** The answer the database owes for a query. */
  predicate Answers(table: seq<Row>, req: Request, phone: string, now: int, sources: seq<Source>, answer: Answer) {
    Truthful(Matching(table, req, phone, now, sources), answer)
  }

  /** The check agrees with the table: with filters that contain their lists, a
      well-formed phone is reported exactly when a row of the requested sources matches,
      whatever replies fail and whichever rows the limit leaves. */
  lemma CheckAgrees(normalize: Normalizer, filter: Filter, table: seq<Row>, replies: Replies, db: Database, req: Request, now: int)
    requires normalize(req.phone).Some?
    requires
      var phone := normalize(req.phone).value;
      var positive := Suspects(req.sources, req.sources, replies);
      && Contains(filter, table, req.tenantId) && Faithful(filter, req, phone, replies)
      && db(positive, phone).Some? && Answers(table, req, phone, now, positive, db(positive, phone))
    ensures CheckOf(normalize, replies, db, req).isDnc <==> Listed(table, req, normalize(req.phone).value, now)
  {
    var phone := normalize(req.phone).value;
    var positive := Suspects(req.sources, req.sources, replies);
    SuspectsExact(req.sources, req.sources, replies);
    MatchingExact(table, req, phone, now, positive);
    if i :| 0 <= i < |table| && Matches(req, phone, now, req.sources, table[i]) {
      ListedIsSuspected(filter, table, req, phone, now, replies, i);
      assert Matching(table, req, phone, now, positive) != [];
    }
    if i :| 0 <= i < |table| && Matches(req, phone, now, positive, table[i]) {
      assert Matches(req, phone, now, req.sources, table[i]);
    }
  }

  /** Listed in a source whose filter answers yes. */
  predicate Answered(filter: Filter, table: seq<Row>, req: Request, phone: string, now: int) {
    exists i :: 0 <= i < |table| && Matches(req, phone, now, req.sources, table[i])
                && filter(BloomKey(table[i].source, req.tenantId), phone)
  }

  predicate ErrorFree(replies: Replies) {
    replies.Some? && forall i :: 0 <= i < |replies.value| ==> replies.value[i] != Error
  }

  /** Without errors a suspect source is one whose filter answers yes. */
  lemma {:induction false} HitFilter(filter: Filter, req: Request, phone: string, replies: seq<Reply>, n: nat, s: Source)
    requires Faithful(filter, req, phone, Some(replies)) && ErrorFree(Some(replies)) && n <= |req.sources|
    requires Hit(req.sources[..n], replies, s)
    ensures filter(BloomKey(s, req.tenantId), phone)
  {
    var some := req.sources[..n];
    if n > 0 {
      assert some[..n - 1] == req.sources[..n - 1];
      if some[n - 1] != s {
        HitFilter(filter, req, phone, replies, n - 1, s);
      }
    }
  }

  lemma SuspectedExact(filter: Filter, req: Request, phone: string, replies: Replies, s: Source)
    requires Faithful(filter, req, phone, replies) && ErrorFree(replies)
    ensures s in Suspects(req.sources, req.sources, replies) <==>
            s in req.sources && filter(BloomKey(s, req.tenantId), phone)
  {
    SuspectsExact(req.sources, req.sources, replies);
    assert req.sources[..|req.sources|] == req.sources;
    if s in req.sources && filter(BloomKey(s, req.tenantId), phone) {
      FilterHit(filter, req, phone, replies.value, |req.sources|, s);
    }
    if Suspected(req.sources, replies, s) {
      HitFilter(filter, req, phone, replies.value, |req.sources|, s);
    }
  }

  /** What the check says when nothing fails, whatever the filters contain: a listed phone
      is missed exactly when none of the filters of the sources that list it answers yes. */
  lemma CheckExact(normalize: Normalizer, filter: Filter, table: seq<Row>, replies: Replies, db: Database, req: Request, now: int)
    requires normalize(req.phone).Some? && ErrorFree(replies)
    requires
      var phone := normalize(req.phone).value;
      var positive := Suspects(req.sources, req.sources, replies);
      && Faithful(filter, req, phone, replies)
      && db(positive, phone).Some? && Answers(table, req, phone, now, positive, db(positive, phone))
    ensures CheckOf(normalize, replies, db, req).isDnc <==> Answered(filter, table, req, normalize(req.phone).value, now)
  {
    var phone := normalize(req.phone).value;
    var positive := Suspects(req.sources, req.sources, replies);
    MatchingExact(table, req, phone, now, positive);
    forall i | 0 <= i < |table|
      ensures Matches(req, phone, now, positive, table[i]) <==>
              Matches(req, phone, now, req.sources, table[i]) && filter(BloomKey(table[i].source, req.tenantId), phone)
    {
      SuspectedExact(filter, req, phone, replies, table[i].source);
    }
  }

  /** A failure of the database can only turn the verdict to listed: a listed phone is
      still reported. */
  lemma FailureIsClosed(normalize: Normalizer, filter: Filter, table: seq<Row>, replies: Replies, db: Database, req: Request, now: int)
    requires normalize(req.phone).Some?
    requires
      var phone := normalize(req.phone).value;
      && Contains(filter, table, req.tenantId) && Faithful(filter, req, phone, replies)
      && db(Suspects(req.sources, req.sources, replies), phone).None?
    ensures Listed(table, req, normalize(req.phone).value, now) ==> CheckOf(normalize, replies, db, req).isDnc
  {
    var phone := normalize(req.phone).value;
    if i :| 0 <= i < |table| && Matches(req, phone, now, req.sources, table[i]) {
      ListedIsSuspected(filter, table, req, phone, now, replies, i);
    }
  }

  lemma SortKeepsMembers(sources: seq<Source>, s: Source)
    ensures s in SortByPriority(sources) <==> s in sources
  {
    SortedByPriority(sources);
    assert s in SortByPriority(sources) <==> s in multiset(SortByPriority(sources));
    assert s in sources <==> s in multiset(sources);
  }

  predicate HasSource(rows: seq<Row>, s: Source) {
    exists i :: 0 <= i < |rows| && rows[i].source == s
  }

  lemma SourcesOfExact(rows: seq<Row>, s: Source)
    ensures s in SourcesOf(rows) <==> HasSource(rows, s)
  {
    if i :| 0 <= i < |rows| && rows[i].source == s {
      assert SourcesOf(rows)[i] == s;
    }
  }

  lemma SourceMembers(rows: seq<Row>, s: Source)
    ensures s in SortByPriority(Distinct(SourcesOf(rows))) <==> HasSource(rows, s)
  {
    SortKeepsMembers(Distinct(SourcesOf(rows)), s);
    DistinctExact(SourcesOf(rows));
    SourcesOfExact(rows, s);
  }

  lemma TruthfulSources(matching: seq<Row>, rows: seq<Row>, s: Source)
    requires Truthful(matching, Some(rows))
    ensures HasSource(rows, s) ==> HasSource(matching, s)
    ensures |matching| <= ROW_LIMIT ==> (HasSource(rows, s) <==> HasSource(matching, s))
  {
    if i :| 0 <= i < |rows| && rows[i].source == s {
      assert rows[i] in multiset(rows);
      assert rows[i] in matching;
    }
    if |matching| <= ROW_LIMIT {
      SubmultisetFull(multiset(rows), multiset(matching));
      if i :| 0 <= i < |matching| && matching[i].source == s {
        assert matching[i] in multiset(matching);
        assert matching[i] in rows;
      }
    }
  }

  lemma SubmultisetFull<T>(a: multiset<T>, b: multiset<T>)
    requires a <= b && |a| == |b|
    ensures a == b
  {
    assert b == a + (b - a);
  }

  /** Every reported source is one in which the phone is listed; all of them are reported
      when the limit leaves no row out. */
  lemma ReportedSources(normalize: Normalizer, table: seq<Row>, replies: Replies, db: Database, req: Request, now: int, s: Source)
    requires normalize(req.phone).Some?
    requires
      var phone := normalize(req.phone).value;
      var positive := Suspects(req.sources, req.sources, replies);
      positive != [] && db(positive, phone).Some? && Answers(table, req, phone, now, positive, db(positive, phone))
    ensures
      var matching := Matching(table, req, normalize(req.phone).value, now, Suspects(req.sources, req.sources, replies));
      var reported := CheckOf(normalize, replies, db, req).sources;
      && (s in reported ==> HasSource(matching, s))
      && (|matching| <= 4 ==> (s in reported <==> HasSource(matching, s)))
  {
    var phone := normalize(req.phone).value;
    var positive := Suspects(req.sources, req.sources, replies);
    var rows := db(positive, phone).value;
    SourceMembers(rows, s);
    TruthfulSources(Matching(table, req, phone, now, positive), rows, s);
  }
}
