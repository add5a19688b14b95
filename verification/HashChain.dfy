/** A chain of stored hashes, seen without what the rows hold: when a day of it is
    error-free, and what an error-free day says about the texts that were hashed. */
module HashChain {
  import opened Json
  import opened Wrappers

  /** The hex digest of a string, by an arbitrary hash function, and the hash that
      stands before the first row (64 zeros). */
  datatype HashScheme = HashScheme(digest: Text -> Text, zero: Text)

  datatype FailureKind = RowHashMismatch | PrevHashMismatch

  datatype Failure = Failure(kind: FailureKind, id: nat, expected: Text, actual: Text)

  /** What is looked at in a row: its id, the string that is hashed, the previous hash
      that it names and its own stored hash. */
  datatype Link = Link(id: nat, text: Text, prevHash: Text, rowHash: Text)

  function LinkFailures(hash: HashScheme, prevHash: Text, r: Link): seq<Failure> {
    (if hash.digest(r.text) != r.rowHash then [Failure(RowHashMismatch, r.id, hash.digest(r.text), r.rowHash)] else [])
    + (if r.prevHash != prevHash && prevHash != hash.zero
       then [Failure(PrevHashMismatch, r.id, prevHash, r.prevHash)] else [])
  }

  /** The stored hash before row i; the zero hash before the first. */
  function HashBefore(hash: HashScheme, links: seq<Link>, i: nat): Text
    requires i <= |links|
  {
    if i == 0 then hash.zero else links[i - 1].rowHash
  }

  function DayFailures(hash: HashScheme, links: seq<Link>): seq<Failure> {
    if links == [] then []
    else
      var m := |links| - 1;
      DayFailures(hash, links[..m]) + LinkFailures(hash, HashBefore(hash, links, m), links[m])
  }

  method CheckLinks(hash: HashScheme, links: seq<Link>) returns (failures: seq<Failure>)
    ensures failures == DayFailures(hash, links)
  {
    failures := [];
    var prevHash := hash.zero;
    for i := 0 to |links|
      invariant prevHash == HashBefore(hash, links, i)
      invariant failures == DayFailures(hash, links[..i])
    {
      var r := links[i];
      assert links[..i + 1][..i] == links[..i];
      ghost var before := failures;
      var recomputed := hash.digest(r.text);
      if recomputed != r.rowHash {
        failures := failures + [Failure(RowHashMismatch, r.id, recomputed, r.rowHash)];
      }
      if r.prevHash != prevHash && prevHash != hash.zero {
        failures := failures + [Failure(PrevHashMismatch, r.id, prevHash, r.prevHash)];
      }
      assert failures == before + LinkFailures(hash, prevHash, r);
      prevHash := r.rowHash;
    }
    assert links[..|links|] == links;
  }

  // ------------------------------------------------------- when a day is error-free

  predicate HashesMatch(hash: HashScheme, links: seq<Link>) {
    forall i :: 0 <= i < |links| ==> hash.digest(links[i].text) == links[i].rowHash
  }

  /** Each row names the stored hash of the one before it, unless that hash is the
      zero hash, after which nothing is compared. */
  predicate LinksMatch(hash: HashScheme, links: seq<Link>) {
    forall i :: 0 < i < |links| ==> links[i].prevHash == links[i - 1].rowHash || links[i - 1].rowHash == hash.zero
  }

  lemma {:induction false} DayOkExact(hash: HashScheme, links: seq<Link>)
    ensures DayFailures(hash, links) == [] <==> HashesMatch(hash, links) && LinksMatch(hash, links)
  {
    if links != [] {
      var m := |links| - 1;
      DayOkExact(hash, links[..m]);
      assert LinkFailures(hash, HashBefore(hash, links, m), links[m]) == [] <==>
        hash.digest(links[m].text) == links[m].rowHash
        && (links[m].prevHash == HashBefore(hash, links, m) || HashBefore(hash, links, m) == hash.zero);
      assert links == links[..m] + [links[m]];
    }
  }

  /** What a failure says: which row, what was expected there and what was found. */
  predicate Explains(hash: HashScheme, links: seq<Link>, i: nat, f: Failure)
    requires i < |links|
  {
    && f.id == links[i].id
    && match f.kind
       case RowHashMismatch =>
         hash.digest(links[i].text) != links[i].rowHash
         && f.expected == hash.digest(links[i].text) && f.actual == links[i].rowHash
       case PrevHashMismatch =>
         i > 0 && links[i - 1].rowHash != hash.zero && links[i].prevHash != links[i - 1].rowHash
         && f.expected == links[i - 1].rowHash && f.actual == links[i].prevHash
  }

  predicate Explained(hash: HashScheme, links: seq<Link>, f: Failure) {
    exists i :: 0 <= i < |links| && Explains(hash, links, i, f)
  }

  /** The failures of a day are exactly those with an explanation. */
  lemma {:induction false} FailuresExact(hash: HashScheme, links: seq<Link>, f: Failure)
    ensures f in DayFailures(hash, links) <==> Explained(hash, links, f)
  {
    if links != [] {
      var m := |links| - 1;
      FailuresExact(hash, links[..m], f);
      ExplainedMore(hash, links, f);
      LastFailures(hash, links, f);
    }
  }

  lemma LastFailures(hash: HashScheme, links: seq<Link>, f: Failure)
    requires links != []
    ensures
      var m := |links| - 1;
      f in LinkFailures(hash, HashBefore(hash, links, m), links[m]) <==> Explains(hash, links, m, f)
  {}

  lemma ExplainedMore(hash: HashScheme, links: seq<Link>, f: Failure)
    requires links != []
    ensures Explained(hash, links, f) <==> Explained(hash, links[..|links| - 1], f) || Explains(hash, links, |links| - 1, f)
  {
    var m := |links| - 1;
    forall i | 0 <= i < m ensures Explains(hash, links[..m], i, f) <==> Explains(hash, links, i, f) {
    }
    if i :| 0 <= i < m && Explains(hash, links[..m], i, f) {
      assert Explains(hash, links, i, f);
    }
    if i :| 0 <= i < |links| && Explains(hash, links, i, f) {
      if i < m {
        assert Explains(hash, links[..m], i, f);
      }
    }
  }

  /** Failures stand in the order of their rows, and a row's own hash comes first. */
  lemma {:induction false} FailuresInOrder(hash: HashScheme, links: seq<Link>, n: nat)
    requires n <= |links|
    ensures DayFailures(hash, links[..n]) <= DayFailures(hash, links)
    ensures |links| == n + 1 ==>
      var more := DayFailures(hash, links)[|DayFailures(hash, links[..n])|..];
      && |more| <= 2
      && (|more| == 2 ==> more[0].kind == RowHashMismatch && more[1].kind == PrevHashMismatch)
    decreases |links|
  {
    if n < |links| {
      var m := |links| - 1;
      FailuresInOrder(hash, links[..m], n);
      assert links[..m][..n] == links[..n];
    } else {
      assert links[..n] == links;
    }
  }

  predicate LinksOk(hash: HashScheme, links: seq<Link>) { DayFailures(hash, links) == [] }

  datatype VerifierResult = VerifierResult(ok: bool, failures: seq<Failure>, rowsChecked: nat, daysChecked: nat)

  /** The result of verifying each day; None where its rows cannot be fetched. */
  type DayResults = int -> Option<VerifierResult>

  function FailuresOf(days: DayResults, day: int): seq<Failure> {
    match days(day)
    case None => []
    case Some(result) => result.failures
  }

  /** The failures of n days from `from` on, one after the other. */
  function RangeFailures(days: DayResults, from: int, n: nat): seq<Failure> {
    if n == 0 then [] else RangeFailures(days, from, n - 1) + FailuresOf(days, from + n - 1)
  }

  /** The rows of n days from `from` on. */
  function RangeRows(days: DayResults, from: int, n: nat): nat {
    if n == 0 then 0
    else
      match days(from + n - 1)
      case None => RangeRows(days, from, n - 1)
      case Some(result) => RangeRows(days, from, n - 1) + result.rowsChecked
  }

  predicate AllFetched(days: DayResults, from: int, end: int) {
    forall day :: from <= day < end ==> days(day).Some?
  }

  function DayCount(from: int, to: int): nat { if to < from then 0 else to - from + 1 }

  datatype RangeResult = StoreError | Verified(result: VerifierResult)

  method VerifyDays(days: DayResults, from: int, to: int) returns (result: RangeResult)
    ensures result.StoreError? <==> !AllFetched(days, from, to + 1)
    ensures result.Verified? ==>
      && result.result.daysChecked == DayCount(from, to)
      && result.result.rowsChecked == RangeRows(days, from, DayCount(from, to))
      && result.result.ok == (result.result.failures == [])
      && result.result.failures == RangeFailures(days, from, DayCount(from, to))
  {
    var failures: seq<Failure> := [];
    var rowsChecked: nat, daysChecked: nat := 0, 0;
    var cursor := from;
    while cursor <= to
      invariant daysChecked == cursor - from <= DayCount(from, to)
      invariant AllFetched(days, from, cursor)
      invariant failures == RangeFailures(days, from, daysChecked)
      invariant rowsChecked == RangeRows(days, from, daysChecked)
    {
      match days(cursor) {
        case None =>
          return StoreError;
        case Some(day) =>
          failures := failures + day.failures;
          rowsChecked := rowsChecked + day.rowsChecked;
          daysChecked := daysChecked + 1;
          cursor := cursor + 1;
      }
    }
    result := Verified(VerifierResult(failures == [], failures, rowsChecked, daysChecked));
  }

  ghost predicate FailsOnSomeDay(days: DayResults, from: int, end: int, f: Failure) {
    exists day :: from <= day < end && f in FailuresOf(days, day)
  }

  /** The failures of a range are those of its days. */
  lemma {:induction false} RangeFailuresByDay(days: DayResults, from: int, n: nat, f: Failure)
    ensures f in RangeFailures(days, from, n) <==> FailsOnSomeDay(days, from, from + n, f)
  {
    if n > 0 {
      RangeFailuresByDay(days, from, n - 1, f);
    }
  }

  /** They stand in the order of the days. */
  lemma {:induction false} RangeInOrder(days: DayResults, from: int, m: nat, n: nat)
    requires m <= n
    ensures RangeFailures(days, from, m) <= RangeFailures(days, from, n)
    decreases n
  {
    if m < n {
      RangeInOrder(days, from, m, n - 1);
    }
  }

  /** A range is error-free when each of its days is: rows are not linked from one
      day to the next. */
  lemma {:induction false} RangeOkExact(days: DayResults, from: int, n: nat)
    ensures RangeFailures(days, from, n) == [] <==>
            forall day :: from <= day < from + n ==> FailuresOf(days, day) == []
  {
    if n > 0 {
      RangeOkExact(days, from, n - 1);
    }
  }

  lemma StretchOk(hash: HashScheme, links: seq<Link>, i: nat, j: nat)
    requires i <= j <= |links| && DayFailures(hash, links) == []
    ensures DayFailures(hash, links[i..j]) == []
  {
    DayOkExact(hash, links);
    DayOkExact(hash, links[i..j]);
    var part := links[i..j];
    forall k | 0 < k < |part|
      ensures part[k].prevHash == part[k - 1].rowHash || part[k - 1].rowHash == hash.zero
    {
      assert links[i + k].prevHash == links[i + k - 1].rowHash || links[i + k - 1].rowHash == hash.zero;
    }
  }

  // ------------------------------------------------------------------ missing links

  function Without(links: seq<Link>, i: nat, j: nat): seq<Link>
    requires i <= j <= |links|
  {
    links[..i] + links[j..]
  }

  lemma WithoutHashes(hash: HashScheme, links: seq<Link>, i: nat, j: nat)
    requires i <= j <= |links| && HashesMatch(hash, links)
    ensures HashesMatch(hash, Without(links, i, j))
  {
    var left := Without(links, i, j);
    forall k | 0 <= k < |left| ensures hash.digest(left[k].text) == left[k].rowHash {
      assert left[k] == links[if k < i then k else k + j - i];
    }
  }

  /** The link that takes the place of the missing ones names the one before them. */
  predicate Joined(hash: HashScheme, links: seq<Link>, i: nat, j: nat)
    requires 0 < i <= j < |links|
  {
    links[j].prevHash == links[i - 1].rowHash || links[i - 1].rowHash == hash.zero
  }

  lemma WithoutLinks(hash: HashScheme, links: seq<Link>, i: nat, j: nat)
    requires i <= j <= |links| && LinksMatch(hash, links)
    ensures LinksMatch(hash, Without(links, i, j)) <==> i == 0 || j == |links| || Joined(hash, links, i, j)
  {
    var left := Without(links, i, j);
    assert forall k :: 0 <= k < i ==> left[k] == links[k];
    assert forall k :: i <= k < |left| ==> left[k] == links[k + (j - i)];
    if 0 < i && j < |links| {
      assert left[i] == links[j] && left[i - 1] == links[i - 1];
    }
    if i == 0 || j == |links| || Joined(hash, links, i, j) {
      forall k | 0 < k < |left| ensures left[k].prevHash == left[k - 1].rowHash || left[k - 1].rowHash == hash.zero {
        if k < i {
          assert links[k].prevHash == links[k - 1].rowHash || links[k - 1].rowHash == hash.zero;
        } else if k > i {
          var m := k + (j - i);
          assert links[m].prevHash == links[m - 1].rowHash || links[m - 1].rowHash == hash.zero;
        }
      }
    }
  }

  /** When links missing from an error-free chain are not noticed. */
  lemma WithoutOkExact(hash: HashScheme, links: seq<Link>, i: nat, j: nat)
    requires i <= j <= |links| && LinksOk(hash, links)
    ensures LinksOk(hash, Without(links, i, j)) <==> i == 0 || j == |links| || Joined(hash, links, i, j)
  {
    DayOkExact(hash, links);
    DayOkExact(hash, Without(links, i, j));
    WithoutHashes(hash, links, i, j);
    WithoutLinks(hash, links, i, j);
  }

  // ----------------------------------------------------------------- chain binding

  /** How a hash function can fail: two strings with one digest, or a string whose
      digest is the zero hash. */
  datatype Break = NoBreak | Collision(x: Text, y: Text) | ZeroDigest(x: Text)

  predicate IsBreak(hash: HashScheme, b: Break) {
    match b
    case NoBreak => false
    case Collision(x, y) => x != y && hash.digest(x) == hash.digest(y)
    case ZeroDigest(x) => hash.digest(x) == hash.zero
  }

  /** How links can go missing inside a chain: a stored hash that is the zero hash, or
      two links that end in one hash. */
  function MissingBreak(hash: HashScheme, links: seq<Link>, i: nat, j: nat): Break
    requires 0 < i < j < |links|
  {
    if links[i - 1].rowHash == hash.zero then ZeroDigest(links[i - 1].text)
    else if links[j - 1].rowHash == hash.zero then ZeroDigest(links[j - 1].text)
    else Collision(links[i - 1].text, links[j - 1].text)
  }

  lemma MissingIsNoticed(hash: HashScheme, links: seq<Link>, i: nat, j: nat)
    requires 0 < i < j < |links| && LinksOk(hash, links) && LinksOk(hash, Without(links, i, j))
    requires links[i - 1].text != links[j - 1].text
    ensures IsBreak(hash, MissingBreak(hash, links, i, j))
  {
    DayOkExact(hash, links);
    WithoutOkExact(hash, links, i, j);
    assert hash.digest(links[i - 1].text) == links[i - 1].rowHash;
    assert hash.digest(links[j - 1].text) == links[j - 1].rowHash;
  }

  /** Walks two chains back from their ends to the first difference. */
  function FindBreak(hash: HashScheme, a: seq<Link>, b: seq<Link>): Break {
    if a == [] || b == [] then NoBreak
    else
      var m, n := |a| - 1, |b| - 1;
      if a[m].text != b[n].text then Collision(a[m].text, b[n].text)
      else if m == 0 || n == 0 then NoBreak
      else if a[m - 1].rowHash == hash.zero then ZeroDigest(a[m - 1].text)
      else if b[n - 1].rowHash == hash.zero then ZeroDigest(b[n - 1].text)
      else FindBreak(hash, a[..m], b[..n])
  }

  /** The text of a link fixes its previous hash. */
  predicate TextFixesPrevHash(a: seq<Link>, b: seq<Link>) {
    forall i, j :: 0 <= i < |a| && 0 <= j < |b| && a[i].text == b[j].text ==> a[i].prevHash == b[j].prevHash
  }

  function FromEnd<T>(xs: seq<T>, k: nat): T
    requires k < |xs|
  {
    xs[|xs| - 1 - k]
  }

  predicate SameTextsFromEnd(a: seq<Link>, b: seq<Link>) {
    forall k :: 0 <= k < |a| && k < |b| ==> FromEnd(a, k).text == FromEnd(b, k).text
  }

  lemma OneMoreText(a: seq<Link>, b: seq<Link>)
    requires a != [] && b != [] && a[|a| - 1].text == b[|b| - 1].text
    requires SameTextsFromEnd(a[..|a| - 1], b[..|b| - 1])
    ensures SameTextsFromEnd(a, b)
  {
    forall k | 0 < k < |a| && k < |b| ensures FromEnd(a, k).text == FromEnd(b, k).text {
      assert FromEnd(a[..|a| - 1], k - 1).text == FromEnd(b[..|b| - 1], k - 1).text;
    }
  }

  /** A chain whose rows hash to their stored hashes and name the ones before. */
  predicate Chained(hash: HashScheme, links: seq<Link>) { HashesMatch(hash, links) && LinksMatch(hash, links) }

  lemma ChainedBefore(hash: HashScheme, links: seq<Link>)
    requires links != [] && Chained(hash, links)
    ensures Chained(hash, links[..|links| - 1])
    ensures hash.digest(links[|links| - 1].text) == links[|links| - 1].rowHash
  {}

  lemma {:induction false} LinksBind(hash: HashScheme, a: seq<Link>, b: seq<Link>)
    requires a != [] && b != [] && TextFixesPrevHash(a, b) && Chained(hash, a) && Chained(hash, b)
    requires a[|a| - 1].rowHash == b[|b| - 1].rowHash
    ensures IsBreak(hash, FindBreak(hash, a, b)) || SameTextsFromEnd(a, b)
  {
    var m, n := |a| - 1, |b| - 1;
    ChainedBefore(hash, a);
    ChainedBefore(hash, b);
    if a[m].text == b[n].text && m > 0 && n > 0 {
      ChainedBefore(hash, a[..m]);
      ChainedBefore(hash, b[..n]);
      if a[m - 1].rowHash != hash.zero && b[n - 1].rowHash != hash.zero {
        assert a[m].prevHash == b[n].prevHash;
        LinksBind(hash, a[..m], b[..n]);
        if !IsBreak(hash, FindBreak(hash, a, b)) {
          OneMoreText(a, b);
        }
      }
    }
  }
}
