/** The row-chain verifier: what an error-free day says about its rows. */
module AuditVerifier {
  import opened Json
  import opened AuditRow
  import opened AuditTwins
  import opened HashChain
  import opened Wrappers

  /** A stored row; its previous hash is the one in the row. */
  datatype StoredRow = StoredRow(row: AuditLogRow, rowHash: Text)

  datatype Table = AuditLog | OtherTable

  // ------------------------------------------------------------- what is reported

  function LinkOf(r: StoredRow): Link { Link(r.row.id, Canonical(r.row), r.row.prevHash, r.rowHash) }

  function LinksOf(rows: seq<StoredRow>): (links: seq<Link>)
    ensures |links| == |rows|
  {
    seq(|rows|, i requires 0 <= i < |rows| => LinkOf(rows[i]))
  }

  function DayResult(hash: HashScheme, table: Table, rows: seq<StoredRow>): VerifierResult {
    if table != AuditLog then VerifierResult(true, [], 0, 1)
    else
      var failures := DayFailures(hash, LinksOf(rows));
      VerifierResult(failures == [], failures, |rows|, 1)
  }

  method VerifyDay(hash: HashScheme, table: Table, rows: seq<StoredRow>) returns (result: VerifierResult)
    ensures result == DayResult(hash, table, rows)
  {
    if table != AuditLog {
      return VerifierResult(true, [], 0, 1);
    }
    var failures := CheckLinks(hash, LinksOf(rows));
    result := VerifierResult(failures == [], failures, |rows|, 1);
  }

  /** What the store answers for the rows of a day; None is an error. */
  type Store = int -> Option<seq<StoredRow>>

  /** What the days of a table verify to: the other tables are not looked at. */
  function DaysOf(hash: HashScheme, table: Table, fetch: Store): DayResults {
    day =>
      if table != AuditLog then Some(DayResult(hash, table, []))
      else
        match fetch(day)
        case None => None
        case Some(rows) => Some(DayResult(hash, table, rows))
  }

  method VerifyRange(hash: HashScheme, table: Table, fetch: Store, from: int, to: int) returns (result: RangeResult)
    ensures result.StoreError? <==> !AllFetched(DaysOf(hash, table, fetch), from, to + 1)
    ensures result.Verified? ==>
      && result.result.daysChecked == DayCount(from, to)
      && result.result.rowsChecked == RangeRows(DaysOf(hash, table, fetch), from, DayCount(from, to))
      && result.result.ok == (result.result.failures == [])
      && result.result.failures == RangeFailures(DaysOf(hash, table, fetch), from, DayCount(from, to))
  {
    result := VerifyDays(DaysOf(hash, table, fetch), from, to);
  }

  lemma ResultOfDay(hash: HashScheme, table: Table, fetch: Store, day: int)
    ensures
      var result := DaysOf(hash, table, fetch)(day);
      if table != AuditLog then result == Some(VerifierResult(true, [], 0, 1))
      else if fetch(day).None? then result == None
      else
        && result.Some?
        && result.value.failures == DayFailures(hash, LinksOf(fetch(day).value))
        && result.value.rowsChecked == |fetch(day).value|
  {
    if table != AuditLog {
      assert DayResult(hash, table, []) == VerifierResult(true, [], 0, 1);
    }
  }

  /** The rows of n days from `from` on, one after the other. */
  function AllRows(fetch: Store, from: int, n: nat): seq<StoredRow> {
    if n == 0 then [] else AllRows(fetch, from, n - 1) + RowsOf(fetch, from + n - 1)
  }

  function RowsOf(fetch: Store, day: int): seq<StoredRow> { if fetch(day).Some? then fetch(day).value else [] }

  lemma RowsMore(days: DayResults, from: int, n: nat, rows: nat)
    requires n > 0 && rows == (if days(from + n - 1).Some? then days(from + n - 1).value.rowsChecked else 0)
    ensures RangeRows(days, from, n) == RangeRows(days, from, n - 1) + rows
  {}

  /** The rows checked in a range are all that were fetched; of another table, none. */
  lemma {:induction false} RowsCheckedExact(hash: HashScheme, table: Table, fetch: Store, from: int, n: nat)
    ensures RangeRows(DaysOf(hash, table, fetch), from, n) == if table == AuditLog then |AllRows(fetch, from, n)| else 0
  {
    if n > 0 {
      RowsCheckedExact(hash, table, fetch, from, n - 1);
      ResultOfDay(hash, table, fetch, from + n - 1);
      RowsMore(DaysOf(hash, table, fetch), from, n, if table == AuditLog then |RowsOf(fetch, from + n - 1)| else 0);
    }
  }

  /** What a failure says of a stored row: the hash that its string has and the one stored,
      or the hash stored before it and the one it names. */
  predicate RowExplains(hash: HashScheme, rows: seq<StoredRow>, i: nat, f: Failure)
    requires i < |rows|
  {
    && f.id == rows[i].row.id
    && match f.kind
       case RowHashMismatch =>
         hash.digest(Canonical(rows[i].row)) != rows[i].rowHash
         && f.expected == hash.digest(Canonical(rows[i].row)) && f.actual == rows[i].rowHash
       case PrevHashMismatch =>
         i > 0 && rows[i - 1].rowHash != hash.zero && rows[i].row.prevHash != rows[i - 1].rowHash
         && f.expected == rows[i - 1].rowHash && f.actual == rows[i].row.prevHash
  }

  predicate SomeRowExplains(hash: HashScheme, rows: seq<StoredRow>, f: Failure) {
    exists i :: 0 <= i < |rows| && RowExplains(hash, rows, i, f)
  }

  lemma LinkExplains(hash: HashScheme, rows: seq<StoredRow>, f: Failure)
    ensures Explained(hash, LinksOf(rows), f) <==> SomeRowExplains(hash, rows, f)
  {
    forall i | 0 <= i < |rows| ensures Explains(hash, LinksOf(rows), i, f) <==> RowExplains(hash, rows, i, f) {
    }
    if i :| 0 <= i < |rows| && RowExplains(hash, rows, i, f) {
      assert Explains(hash, LinksOf(rows), i, f);
    }
  }

  /** A day was fetched and a row of it explains the failure. */
  predicate FailsOn(hash: HashScheme, fetch: Store, day: int, f: Failure) {
    fetch(day).Some? && SomeRowExplains(hash, fetch(day).value, f)
  }

  lemma FailuresOfDay(hash: HashScheme, table: Table, fetch: Store, day: int, f: Failure)
    ensures f in FailuresOf(DaysOf(hash, table, fetch), day) <==> table == AuditLog && FailsOn(hash, fetch, day, f)
  {
    ResultOfDay(hash, table, fetch, day);
    if fetch(day).Some? {
      FailuresExact(hash, LinksOf(fetch(day).value), f);
      LinkExplains(hash, fetch(day).value, f);
    }
  }

  ghost predicate FailsWithin(hash: HashScheme, fetch: Store, from: int, end: int, f: Failure) {
    exists day :: from <= day < end && FailsOn(hash, fetch, day, f)
  }

  /** The failures of a range are those of its days, and only audit_log has any. */
  lemma RangeFailuresExact(hash: HashScheme, table: Table, fetch: Store, from: int, n: nat, f: Failure)
    ensures f in RangeFailures(DaysOf(hash, table, fetch), from, n) <==>
            table == AuditLog && FailsWithin(hash, fetch, from, from + n, f)
  {
    RangeFailuresByDay(DaysOf(hash, table, fetch), from, n, f);
    forall day ensures f in FailuresOf(DaysOf(hash, table, fetch), day) <==> table == AuditLog && FailsOn(hash, fetch, day, f) {
      FailuresOfDay(hash, table, fetch, day, f);
    }
  }

  predicate DayOk(hash: HashScheme, rows: seq<StoredRow>) { LinksOk(hash, LinksOf(rows)) }

  lemma LinksOfStretch(rows: seq<StoredRow>, i: nat, j: nat)
    requires i <= j <= |rows|
    ensures LinksOf(rows[i..j]) == LinksOf(rows)[i..j]
  {
    var part, links := LinksOf(rows[i..j]), LinksOf(rows);
    forall k | 0 <= k < j - i ensures part[k] == links[i + k] {
      assert rows[i..j][k] == rows[i + k];
    }
  }

  /** Rows missing from either end of a day are not noticed: every stretch of an
      error-free day is error-free. */
  lemma MissingEndsUnnoticed(hash: HashScheme, rows: seq<StoredRow>, i: nat, j: nat)
    requires i <= j <= |rows| && DayOk(hash, rows)
    ensures DayOk(hash, rows[i..j])
  {
    StretchOk(hash, LinksOf(rows), i, j);
    LinksOfStretch(rows, i, j);
  }

  // ------------------------------------------------------------------ missing rows

  predicate GoRows(rows: seq<StoredRow>) {
    forall i :: 0 <= i < |rows| ==> IsGoRow(rows[i].row)
  }

  /** No separator in a previous hash or a text. */
  predicate SepFreeRows(rows: seq<StoredRow>) {
    forall i :: 0 <= i < |rows| ==> NoSeps(rows[i].row)
  }

  function WithoutRows(rows: seq<StoredRow>, i: nat, j: nat): seq<StoredRow>
    requires i <= j <= |rows|
  {
    rows[..i] + rows[j..]
  }

  lemma LinksOfWithout(rows: seq<StoredRow>, i: nat, j: nat)
    requires i <= j <= |rows|
    ensures LinksOf(WithoutRows(rows, i, j)) == Without(LinksOf(rows), i, j)
  {
    var left, links := WithoutRows(rows, i, j), Without(LinksOf(rows), i, j);
    forall k | 0 <= k < |left| ensures LinksOf(left)[k] == links[k] {
      assert left[k] == rows[if k < i then k else k + j - i];
    }
  }

  predicate JoinedRows(hash: HashScheme, rows: seq<StoredRow>, i: nat, j: nat)
    requires 0 < i <= j < |rows|
  {
    rows[j].row.prevHash == rows[i - 1].rowHash || rows[i - 1].rowHash == hash.zero
  }

  lemma JoinedLinks(hash: HashScheme, rows: seq<StoredRow>, i: nat, j: nat)
    requires 0 < i <= j < |rows|
    ensures Joined(hash, LinksOf(rows), i, j) <==> JoinedRows(hash, rows, i, j)
  {}

  /** When rows deleted from an error-free day are not noticed: at either end, or where
      the row after them names the row before them, or nothing is compared because that
      row's stored hash is the zero hash. */
  lemma DeletionExact(hash: HashScheme, rows: seq<StoredRow>, i: nat, j: nat)
    requires i <= j <= |rows| && DayOk(hash, rows)
    ensures DayOk(hash, WithoutRows(rows, i, j)) <==> i == 0 || j == |rows| || JoinedRows(hash, rows, i, j)
  {
    LinksOfWithout(rows, i, j);
    WithoutOkExact(hash, LinksOf(rows), i, j);
    if 0 < i && j < |rows| {
      JoinedLinks(hash, rows, i, j);
    }
  }

  lemma DifferentIdsDifferentTexts(rows: seq<StoredRow>, i: nat, j: nat)
    requires i < |rows| && j < |rows| && rows[i].row.id != rows[j].row.id
    requires NoSeps(rows[i].row) && IsGoRow(rows[i].row) && IsGoRow(rows[j].row)
    ensures LinksOf(rows)[i].text != LinksOf(rows)[j].text
  {
    CanonicalInjective(rows[i].row, rows[j].row);
  }

  /** Deletion inside a day is noticed: were it not, the rows on its two sides would
      exhibit a failure of the hash function. */
  lemma DeletionNoticed(hash: HashScheme, rows: seq<StoredRow>, i: nat, j: nat)
    requires 0 < i < j < |rows| && DayOk(hash, rows) && rows[i - 1].row.id != rows[j - 1].row.id
    requires NoSeps(rows[i - 1].row) && IsGoRow(rows[i - 1].row) && IsGoRow(rows[j - 1].row)
    ensures DayOk(hash, WithoutRows(rows, i, j)) ==> IsBreak(hash, MissingBreak(hash, LinksOf(rows), i, j))
  {
    LinksOfWithout(rows, i, j);
    DifferentIdsDifferentTexts(rows, i - 1, j - 1);
    var links := LinksOf(rows);
    if LinksOk(hash, Without(links, i, j)) {
      MissingIsNoticed(hash, links, i, j);
    }
  }

  /** A row exchanged for its twin is not noticed: a NULL text rewritten as its mark, or a
      separator moved. */
  lemma TwinUnnoticed(hash: HashScheme, rows: seq<StoredRow>, i: nat, twin: AuditLogRow)
    requires i < |rows| && DayOk(hash, rows) && IsTwin(rows[i].row, twin)
    ensures DayOk(hash, rows[i := rows[i].(row := twin)])
  {
    var forged := rows[i := rows[i].(row := twin)];
    forall k | 0 <= k < |rows| ensures LinkOf(forged[k]) == LinkOf(rows[k]) {
    }
    assert LinksOf(forged) == LinksOf(rows);
  }

  // ----------------------------------------------------------------- chain binding

  lemma TextFixesRow(a: StoredRow, b: StoredRow)
    requires NoSeps(a.row) && IsGoRow(a.row) && IsGoRow(b.row) && LinkOf(a).text == LinkOf(b).text
    ensures SameUpToNull(a.row, b.row) && LinkOf(a).prevHash == LinkOf(b).prevHash
  {
    CanonicalInjective(a.row, b.row);
  }

  lemma TextsFixRows(a: seq<StoredRow>, b: seq<StoredRow>)
    requires SepFreeRows(a) && GoRows(a) && GoRows(b)
    ensures forall i, j :: 0 <= i < |a| && 0 <= j < |b| && LinksOf(a)[i].text == LinksOf(b)[j].text ==>
              SameUpToNull(a[i].row, b[j].row)
    ensures TextFixesPrevHash(LinksOf(a), LinksOf(b))
  {
    var c, d := LinksOf(a), LinksOf(b);
    forall i, j | 0 <= i < |a| && 0 <= j < |b| && c[i].text == d[j].text
      ensures SameUpToNull(a[i].row, b[j].row) && c[i].prevHash == d[j].prevHash
    {
      TextFixesRow(a[i], b[j]);
    }
  }

  /** Agreement counted back from the end, as far as both lists reach: on every field up
      to NULL against its mark, and outright where the row of `a` has no NULL text. */
  predicate SameFromEnd(a: seq<StoredRow>, b: seq<StoredRow>) {
    forall k :: 0 <= k < |a| && k < |b| ==> RowBound(FromEnd(a, k).row, FromEnd(b, k).row)
  }

  predicate RowBound(a: AuditLogRow, b: AuditLogRow) {
    SameUpToNull(a, b) && (NoNulls(a) ==> SameRow(a, b))
  }

  lemma SameTextsSameRows(a: seq<StoredRow>, b: seq<StoredRow>, c: seq<Link>, d: seq<Link>)
    requires |c| == |a| && |d| == |b|
    requires forall i, j :: 0 <= i < |a| && 0 <= j < |b| && c[i].text == d[j].text ==> SameUpToNull(a[i].row, b[j].row)
    requires SameTextsFromEnd(c, d)
    ensures SameFromEnd(a, b)
  {
    forall k | 0 <= k < |a| && k < |b| ensures RowBound(FromEnd(a, k).row, FromEnd(b, k).row) {
      assert c[|a| - 1 - k].text == FromEnd(c, k).text == FromEnd(d, k).text == d[|b| - 1 - k].text;
      UpToNullExact(FromEnd(a, k).row, FromEnd(b, k).row);
    }
  }

  lemma DayChained(hash: HashScheme, rows: seq<StoredRow>)
    requires DayOk(hash, rows)
    ensures Chained(hash, LinksOf(rows))
  {
    DayOkExact(hash, LinksOf(rows));
  }

  lemma LastLink(rows: seq<StoredRow>)
    requires rows != []
    ensures LinksOf(rows) != [] && LinksOf(rows)[|rows| - 1].rowHash == rows[|rows| - 1].rowHash
  {}

  /** The last hash of an error-free day without separators binds the day: any other
      error-free day with that last hash, whatever its rows hold, agrees with it counted
      back from the end, or a failure of the hash function is exhibited. */
  lemma ChainBinding(hash: HashScheme, a: seq<StoredRow>, b: seq<StoredRow>)
    requires a != [] && b != [] && SepFreeRows(a) && GoRows(a) && GoRows(b) && DayOk(hash, a) && DayOk(hash, b)
    requires a[|a| - 1].rowHash == b[|b| - 1].rowHash
    ensures IsBreak(hash, FindBreak(hash, LinksOf(a), LinksOf(b))) || SameFromEnd(a, b)
  {
    DayChained(hash, a);
    DayChained(hash, b);
    LastLink(a);
    LastLink(b);
    TextsFixRows(a, b);
    LinksBind(hash, LinksOf(a), LinksOf(b));
    if !IsBreak(hash, FindBreak(hash, LinksOf(a), LinksOf(b))) {
      SameTextsSameRows(a, b, LinksOf(a), LinksOf(b));
    }
  }
}
