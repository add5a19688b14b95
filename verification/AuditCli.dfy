/** The command-line verifier: its walk over the days of a range, and what its verdict
    says about the attestations and the exported rows. */
module AuditCli {
  import opened Digests
  import opened Merkle
  import opened MerkleTheorems
  import opened Wrappers

  type Text = seq<nat>

  /** A day's attestation.  Its root is None when the text there is not the hex of a
      digest; a file without the inner object is malformed. */
  datatype Attestation =
    | Missing
    | Malformed
    | Attested(root: Option<Digest>, firstPrevHash: Text, lastRowHash: Text, signatureValid: bool)

  datatype Mode = Database | LocalExport

  datatype Status = OK | TAMPERED | WARN

  datatype Reason = Fine | MissingAttestation | CrossDayChainBreak | SignatureInvalid | MerkleRootMismatch

  datatype Finding = Finding(status: Status, day: int, reason: Reason)

  /** Exit codes 0, 2 and 1. */
  datatype Exit = AllOk | SomeTampered | InfrastructureError

  datatype Report = Report(exit: Exit, findings: seq<Finding>)

  /** An exported row: the previous hash as it is written, and the decoded row hash - no
      bytes when there is none. */
  datatype ExportRow = ExportRow(prevHash: Text, rowHash: Bytes)

  function HashesOf(rows: seq<ExportRow>): (hashes: seq<Bytes>)
    ensures |hashes| == |rows|
  {
    seq(|rows|, i requires 0 <= i < |rows| => rows[i].rowHash)
  }

  /** What is on disk: an attestation and the rows exported for each day; a day without an
      export file has no rows. */
  datatype Archive = Archive(attestation: int -> Attestation, rows: int -> seq<ExportRow>)

  // ------------------------------------------------------------- what is reported

  /** The walk so far; prior is the last row hash of the latest attested day. */
  datatype Walk = Walk(findings: seq<Finding>, tampered: bool, prior: Option<Text>)

  predicate ChainBroken(prior: Option<Text>, firstPrevHash: Text) {
    prior.Some? && firstPrevHash != prior.value
  }

  predicate RootWrong(h: Hash, mode: Mode, root: Option<Digest>, rows: seq<ExportRow>) {
    mode == LocalExport && root != Some(MerkleRoot(h, HashesOf(rows)))
  }

  function Note(findings: seq<Finding>, noted: bool, status: Status, day: int, reason: Reason): seq<Finding> {
    if noted then findings + [Finding(status, day, reason)] else findings
  }

  function Visit(h: Hash, mode: Mode, a: Archive, w: Walk, day: int): Walk {
    match a.attestation(day)
    case Missing => Walk(w.findings + [Finding(WARN, day, MissingAttestation)], true, w.prior)
    case Malformed => w
    case Attested(root, firstPrevHash, lastRowHash, signatureValid) =>
      var broken, wrong := ChainBroken(w.prior, firstPrevHash), RootWrong(h, mode, root, a.rows(day));
      var chained := Note(w.findings, broken, TAMPERED, day, CrossDayChainBreak);
      var signed := Note(chained, !signatureValid, TAMPERED, day, SignatureInvalid);
      var rooted := Note(signed, wrong, TAMPERED, day, MerkleRootMismatch);
      Walk(Note(rooted, mode == LocalExport && !wrong, OK, day, Fine),
           w.tampered || broken || !signatureValid || wrong, Some(lastRowHash))
  }

  function WalkDays(h: Hash, mode: Mode, a: Archive, from: int, n: nat): Walk {
    if n == 0 then Walk([], false, None) else Visit(h, mode, a, WalkDays(h, mode, a, from, n - 1), from + n - 1)
  }

  predicate NoneMalformed(a: Archive, from: int, end: int) {
    forall day :: from <= day < end ==> !a.attestation(day).Malformed?
  }

  function DayCount(from: int, to: int): nat { if to < from then 0 else to - from + 1 }

  function ReportOf(h: Hash, mode: Mode, a: Archive, from: int, to: int): Report {
    if !NoneMalformed(a, from, to + 1) then Report(InfrastructureError, [])
    else
      var w := WalkDays(h, mode, a, from, DayCount(from, to));
      Report(if w.tampered then SomeTampered else AllOk, w.findings)
  }

  method VerifyArchive(h: Hash, mode: Mode, a: Archive, from: int, to: int) returns (report: Report)
    ensures report == ReportOf(h, mode, a, from, to)
  {
    var findings: seq<Finding> := [];
    var tampered := false;
    var priorLastRowHash: Option<Text> := None;
    var cursor := from;
    while cursor <= to
      invariant cursor == from || from < cursor <= to + 1
      invariant NoneMalformed(a, from, cursor)
      invariant Walk(findings, tampered, priorLastRowHash) == WalkDays(h, mode, a, from, cursor - from)
    {
      ghost var before := WalkDays(h, mode, a, from, cursor - from);
      assert WalkDays(h, mode, a, from, cursor + 1 - from) == Visit(h, mode, a, before, cursor);
      match a.attestation(cursor) {
        case Missing =>
          findings := findings + [Finding(WARN, cursor, MissingAttestation)];
          tampered := true;
        case Malformed =>
          return Report(InfrastructureError, []);
        case Attested(root, firstPrevHash, lastRowHash, signatureValid) =>
          if priorLastRowHash.Some? && firstPrevHash != priorLastRowHash.value {
            findings := findings + [Finding(TAMPERED, cursor, CrossDayChainBreak)];
            tampered := true;
          }
          if !signatureValid {
            findings := findings + [Finding(TAMPERED, cursor, SignatureInvalid)];
            tampered := true;
          }
          if mode == LocalExport {
            var recomputedRoot := BuildMerkleRoot(h, HashesOf(a.rows(cursor)));
            if Some(recomputedRoot) != root {
              findings := findings + [Finding(TAMPERED, cursor, MerkleRootMismatch)];
              tampered := true;
            } else {
              findings := findings + [Finding(OK, cursor, Fine)];
            }
          }
          priorLastRowHash := Some(lastRowHash);
      }
      cursor := cursor + 1;
    }
    report := Report(if tampered then SomeTampered else AllOk, findings);
  }

  // ------------------------------------------------------------ what it stands for

  /** A day the verifier has no complaint about. */
  predicate DayAccepted(h: Hash, mode: Mode, a: Archive, from: int, day: int) {
    && a.attestation(day).Attested?
    && a.attestation(day).signatureValid
    && (mode == LocalExport ==> a.attestation(day).root == Some(MerkleRoot(h, HashesOf(a.rows(day)))))
    && (day > from ==> a.attestation(day - 1).Attested?
                       && a.attestation(day).firstPrevHash == a.attestation(day - 1).lastRowHash)
  }

  predicate DaysAccepted(h: Hash, mode: Mode, a: Archive, from: int, end: int) {
    forall day :: from <= day < end ==> DayAccepted(h, mode, a, from, day)
  }

  lemma {:induction false} UntamperedExact(h: Hash, mode: Mode, a: Archive, from: int, n: nat)
    requires NoneMalformed(a, from, from + n)
    ensures !WalkDays(h, mode, a, from, n).tampered <==> DaysAccepted(h, mode, a, from, from + n)
    ensures DaysAccepted(h, mode, a, from, from + n) ==>
              WalkDays(h, mode, a, from, n).prior ==
                if n == 0 then None else Some(a.attestation(from + n - 1).lastRowHash)
  {
    if n > 0 {
      UntamperedExact(h, mode, a, from, n - 1);
      assert DaysAccepted(h, mode, a, from, from + n) <==>
             DaysAccepted(h, mode, a, from, from + n - 1) && DayAccepted(h, mode, a, from, from + n - 1);
      if n > 1 && DaysAccepted(h, mode, a, from, from + n - 1) {
        assert DayAccepted(h, mode, a, from, from + n - 2);
      }
    }
  }

  predicate AllFine(findings: seq<Finding>) {
    forall i :: 0 <= i < |findings| ==> findings[i].status == OK
  }

  lemma NoteFine(findings: seq<Finding>, noted: bool, status: Status, day: int, reason: Reason)
    ensures AllFine(Note(findings, noted, status, day, reason)) <==> AllFine(findings) && (noted ==> status == OK)
  {
    var all := Note(findings, noted, status, day, reason);
    assert forall i :: 0 <= i < |findings| ==> all[i] == findings[i];
    if noted {
      assert all[|findings|].status == status;
    }
  }

  /** The walk is tampered exactly when some finding is not OK. */
  lemma {:induction false} TamperedIsReported(h: Hash, mode: Mode, a: Archive, from: int, n: nat)
    ensures WalkDays(h, mode, a, from, n).tampered <==> !AllFine(WalkDays(h, mode, a, from, n).findings)
  {
    if n > 0 {
      TamperedIsReported(h, mode, a, from, n - 1);
      var w, day := WalkDays(h, mode, a, from, n - 1), from + n - 1;
      match a.attestation(day)
      case Missing =>
        NoteFine(w.findings, true, WARN, day, MissingAttestation);
      case Malformed =>
      case Attested(root, firstPrevHash, _, signatureValid) =>
        var broken, wrong := ChainBroken(w.prior, firstPrevHash), RootWrong(h, mode, root, a.rows(day));
        var chained := Note(w.findings, broken, TAMPERED, day, CrossDayChainBreak);
        var signed := Note(chained, !signatureValid, TAMPERED, day, SignatureInvalid);
        var rooted := Note(signed, wrong, TAMPERED, day, MerkleRootMismatch);
        NoteFine(w.findings, broken, TAMPERED, day, CrossDayChainBreak);
        NoteFine(chained, !signatureValid, TAMPERED, day, SignatureInvalid);
        NoteFine(signed, wrong, TAMPERED, day, MerkleRootMismatch);
        NoteFine(rooted, mode == LocalExport && !wrong, OK, day, Fine);
    }
  }

  /** The exit code: 1 exactly when some attestation is malformed, otherwise 0 exactly
      when every day is attested, signed, has the attested root (from a local export)
      and continues the day before it. */
  lemma VerdictExact(h: Hash, mode: Mode, a: Archive, from: int, to: int)
    ensures ReportOf(h, mode, a, from, to).exit == InfrastructureError <==> !NoneMalformed(a, from, to + 1)
    ensures ReportOf(h, mode, a, from, to).exit == AllOk <==> DaysAccepted(h, mode, a, from, to + 1)
  {
    if NoneMalformed(a, from, to + 1) {
      UntamperedExact(h, mode, a, from, DayCount(from, to));
    } else {
      var day :| from <= day < to + 1 && a.attestation(day).Malformed?;
      assert !DayAccepted(h, mode, a, from, day);
    }
  }

  /** The latest attested day before `day`, from `from` on. */
  predicate LatestBefore(a: Archive, from: int, day: int, d: int) {
    from <= d < day && a.attestation(d).Attested? && forall e :: d < e < day ==> !a.attestation(e).Attested?
  }

  ghost predicate ContinuesBefore(a: Archive, from: int, day: int) {
    a.attestation(day).Attested? &&
    forall d :: LatestBefore(a, from, day, d) ==> a.attestation(day).firstPrevHash == a.attestation(d).lastRowHash
  }

  /** What a finding says about its day: a warning for a missing attestation; tampering
      where the first previous hash is not the last row hash of the latest attested day
      before, where the signature is not valid, or where the rows exported do not have the
      attested root; and the day is fine where they have it, the rest aside. */
  ghost predicate Says(h: Hash, mode: Mode, a: Archive, from: int, f: Finding) {
    match f.reason
    case MissingAttestation => f.status == WARN && a.attestation(f.day).Missing?
    case CrossDayChainBreak =>
      f.status == TAMPERED && a.attestation(f.day).Attested? && !ContinuesBefore(a, from, f.day)
    case SignatureInvalid =>
      f.status == TAMPERED && a.attestation(f.day).Attested? && !a.attestation(f.day).signatureValid
    case MerkleRootMismatch =>
      f.status == TAMPERED && mode == LocalExport && a.attestation(f.day).Attested?
      && a.attestation(f.day).root != Some(MerkleRoot(h, HashesOf(a.rows(f.day))))
    case Fine =>
      f.status == OK && mode == LocalExport && a.attestation(f.day).Attested?
      && a.attestation(f.day).root == Some(MerkleRoot(h, HashesOf(a.rows(f.day))))
  }

  predicate NoneAttested(a: Archive, from: int, end: int) {
    forall d :: from <= d < end ==> !a.attestation(d).Attested?
  }

  /** The latest attested day, if there is one. */
  function LatestDay(a: Archive, from: int, n: nat): (d: Option<int>)
    ensures d.Some? ==> a.attestation(d.value).Attested?
  {
    if n == 0 then None
    else if a.attestation(from + n - 1).Attested? then Some(from + n - 1)
    else LatestDay(a, from, n - 1)
  }

  lemma {:induction false} LatestDayExact(a: Archive, from: int, n: nat)
    ensures
      match LatestDay(a, from, n)
      case None => NoneAttested(a, from, from + n)
      case Some(d) => LatestBefore(a, from, from + n, d)
  {
    if n > 0 {
      LatestDayExact(a, from, n - 1);
    }
  }

  lemma OnlyLatest(a: Archive, from: int, day: int, d: int)
    requires LatestBefore(a, from, day, d)
    ensures forall e :: LatestBefore(a, from, day, e) ==> e == d
  {}

  /** The prior hash of a walk is that of the latest attested day. */
  lemma {:induction false} PriorExact(h: Hash, mode: Mode, a: Archive, from: int, n: nat)
    ensures WalkDays(h, mode, a, from, n).prior ==
            match LatestDay(a, from, n)
            case None => None
            case Some(d) => Some(a.attestation(d).lastRowHash)
  {
    if n > 0 {
      PriorExact(h, mode, a, from, n - 1);
    }
  }

  lemma BrokenExact(h: Hash, mode: Mode, a: Archive, from: int, n: nat)
    requires a.attestation(from + n).Attested?
    ensures ChainBroken(WalkDays(h, mode, a, from, n).prior, a.attestation(from + n).firstPrevHash) <==>
            !ContinuesBefore(a, from, from + n)
  {
    PriorExact(h, mode, a, from, n);
    LatestDayExact(a, from, n);
    match LatestDay(a, from, n)
    case None =>
    case Some(d) =>
      OnlyLatest(a, from, from + n, d);
  }

  lemma NoteMembers(findings: seq<Finding>, noted: bool, status: Status, day: int, reason: Reason, f: Finding)
    ensures f in Note(findings, noted, status, day, reason) <==>
            f in findings || (noted && f == Finding(status, day, reason))
  {}

  lemma VisitMembers(h: Hash, mode: Mode, a: Archive, w: Walk, day: int, f: Finding)
    ensures f in Visit(h, mode, a, w, day).findings <==> f in w.findings || (f.day == day && Visited(h, mode, a, w, f))
  {
    match a.attestation(day)
    case Missing =>
    case Malformed =>
    case Attested(root, firstPrevHash, lastRowHash, signatureValid) =>
      var broken, wrong := ChainBroken(w.prior, firstPrevHash), RootWrong(h, mode, root, a.rows(day));
      var chained := Note(w.findings, broken, TAMPERED, day, CrossDayChainBreak);
      var signed := Note(chained, !signatureValid, TAMPERED, day, SignatureInvalid);
      var rooted := Note(signed, wrong, TAMPERED, day, MerkleRootMismatch);
      NoteMembers(w.findings, broken, TAMPERED, day, CrossDayChainBreak, f);
      NoteMembers(chained, !signatureValid, TAMPERED, day, SignatureInvalid, f);
      NoteMembers(signed, wrong, TAMPERED, day, MerkleRootMismatch, f);
      NoteMembers(rooted, mode == LocalExport && !wrong, OK, day, Fine, f);
  }

  /** A finding made on visiting its day with a prior hash in hand. */
  predicate Visited(h: Hash, mode: Mode, a: Archive, w: Walk, f: Finding) {
    match a.attestation(f.day)
    case Missing => f.status == WARN && f.reason == MissingAttestation
    case Malformed => false
    case Attested(root, firstPrevHash, _, signatureValid) =>
      match f.reason
      case MissingAttestation => false
      case CrossDayChainBreak => f.status == TAMPERED && ChainBroken(w.prior, firstPrevHash)
      case SignatureInvalid => f.status == TAMPERED && !signatureValid
      case MerkleRootMismatch => f.status == TAMPERED && RootWrong(h, mode, root, a.rows(f.day))
      case Fine => f.status == OK && mode == LocalExport && !RootWrong(h, mode, root, a.rows(f.day))
  }

  /** The findings of a walk are exactly those that are true of their days. */
  lemma {:induction false} FindingsExact(h: Hash, mode: Mode, a: Archive, from: int, n: nat, f: Finding)
    ensures f in WalkDays(h, mode, a, from, n).findings <==> from <= f.day < from + n && Says(h, mode, a, from, f)
  {
    if n > 0 {
      var w, day := WalkDays(h, mode, a, from, n - 1), from + n - 1;
      FindingsExact(h, mode, a, from, n - 1, f);
      VisitMembers(h, mode, a, w, day, f);
      if f.day == day {
        VisitedSays(h, mode, a, from, n - 1, f);
      }
    }
  }

  lemma VisitedSays(h: Hash, mode: Mode, a: Archive, from: int, n: nat, f: Finding)
    requires f.day == from + n
    ensures Visited(h, mode, a, WalkDays(h, mode, a, from, n), f) <==> Says(h, mode, a, from, f)
  {
    if a.attestation(f.day).Attested? {
      BrokenExact(h, mode, a, from, n);
    }
  }

  /** The place of a finding among those of its day. */
  function Place(r: Reason): int {
    match r
    case MissingAttestation => 0
    case CrossDayChainBreak => 1
    case SignatureInvalid => 2
    case MerkleRootMismatch => 3
    case Fine => 4
  }

  predicate Earlier(f: Finding, g: Finding) { f.day < g.day || (f.day == g.day && Place(f.reason) < Place(g.reason)) }

  predicate Sorted(findings: seq<Finding>) {
    forall i, j :: 0 <= i < j < |findings| ==> Earlier(findings[i], findings[j])
  }

  lemma NoteSorted(findings: seq<Finding>, noted: bool, status: Status, day: int, reason: Reason)
    requires Sorted(findings) && forall i :: 0 <= i < |findings| ==> Earlier(findings[i], Finding(status, day, reason))
    ensures Sorted(Note(findings, noted, status, day, reason))
  {}

  /** All findings come before anything of place p on a day. */
  predicate AllBefore(findings: seq<Finding>, day: int, p: int) {
    forall i :: 0 <= i < |findings| ==> findings[i].day < day || (findings[i].day == day && Place(findings[i].reason) < p)
  }

  lemma NoteMore(findings: seq<Finding>, noted: bool, status: Status, day: int, reason: Reason)
    requires Sorted(findings) && AllBefore(findings, day, Place(reason))
    ensures
      var all := Note(findings, noted, status, day, reason);
      Sorted(all) && AllBefore(all, day, Place(reason) + 1)
  {
    NoteSorted(findings, noted, status, day, reason);
  }

  lemma VisitSorted(h: Hash, mode: Mode, a: Archive, w: Walk, day: int)
    requires Sorted(w.findings) && AllBefore(w.findings, day, 0)
    ensures Sorted(Visit(h, mode, a, w, day).findings) && AllBefore(Visit(h, mode, a, w, day).findings, day, 5)
  {
    match a.attestation(day)
    case Missing => NoteMore(w.findings, true, WARN, day, MissingAttestation);
    case Malformed =>
    case Attested(root, firstPrevHash, _, signatureValid) =>
      var broken, wrong := ChainBroken(w.prior, firstPrevHash), RootWrong(h, mode, root, a.rows(day));
      var chained := Note(w.findings, broken, TAMPERED, day, CrossDayChainBreak);
      var signed := Note(chained, !signatureValid, TAMPERED, day, SignatureInvalid);
      var rooted := Note(signed, wrong, TAMPERED, day, MerkleRootMismatch);
      NoteMore(w.findings, broken, TAMPERED, day, CrossDayChainBreak);
      NoteMore(chained, !signatureValid, TAMPERED, day, SignatureInvalid);
      NoteMore(signed, wrong, TAMPERED, day, MerkleRootMismatch);
      NoteMore(rooted, mode == LocalExport && !wrong, OK, day, Fine);
  }

  lemma NextDay(findings: seq<Finding>, day: int)
    requires AllBefore(findings, day, 5)
    ensures AllBefore(findings, day + 1, 0)
  {}

  lemma NextVisit(h: Hash, mode: Mode, a: Archive, w: Walk, day: int, next: Walk)
    requires Sorted(w.findings) && AllBefore(w.findings, day, 0) && next == Visit(h, mode, a, w, day)
    ensures Sorted(next.findings) && AllBefore(next.findings, day + 1, 0)
  {
    VisitSorted(h, mode, a, w, day);
    NextDay(next.findings, day);
  }

  /** Findings are listed by day, and within a day in the order of the checks; so none is
      listed twice. */
  lemma {:induction false} FindingsInOrder(h: Hash, mode: Mode, a: Archive, from: int, n: nat)
    ensures Sorted(WalkDays(h, mode, a, from, n).findings)
    ensures AllBefore(WalkDays(h, mode, a, from, n).findings, from + n, 0)
  {
    if n > 0 {
      var w, day := WalkDays(h, mode, a, from, n - 1), from + n - 1;
      FindingsInOrder(h, mode, a, from, n - 1);
      NextVisit(h, mode, a, w, day, WalkDays(h, mode, a, from, n));
    }
  }

  /** Two exports accepted against the same attestations hold, day by day, lists of row
      hashes that the tree repeats alike, with the same first and the same last one, and
      the same list where the counts agree; or a collision is exhibited. */
  lemma ExportsBind(h: Hash, a: Archive, rows: int -> seq<ExportRow>, from: int, to: int, day: int)
    requires ReportOf(h, LocalExport, a, from, to).exit == AllOk
    requires ReportOf(h, LocalExport, a.(rows := rows), from, to).exit == AllOk
    requires from <= day <= to
    ensures
      var x, y := HashesOf(a.rows(day)), HashesOf(rows(day));
      || IsCollision(h, ListCollision(h, x, y))
      || (SameTree(x, y) && SameEnds(x, y) && (|x| == |y| ==> x == y))
  {
    var x, y := HashesOf(a.rows(day)), HashesOf(rows(day));
    AcceptedRoots(h, a, rows, from, to, day);
    RootsEqualExact(h, x, y);
    RootBindsEnds(h, x, y);
    if |x| == |y| {
      RootBindsAtEqualSize(h, x, y);
    }
  }

  lemma AcceptedRoots(h: Hash, a: Archive, rows: int -> seq<ExportRow>, from: int, to: int, day: int)
    requires ReportOf(h, LocalExport, a, from, to).exit == AllOk
    requires ReportOf(h, LocalExport, a.(rows := rows), from, to).exit == AllOk
    requires from <= day <= to
    ensures MerkleRoot(h, HashesOf(a.rows(day))) == MerkleRoot(h, HashesOf(rows(day)))
  {
    VerdictExact(h, LocalExport, a, from, to);
    VerdictExact(h, LocalExport, a.(rows := rows), from, to);
    assert DayAccepted(h, LocalExport, a, from, day);
    assert DayAccepted(h, LocalExport, a.(rows := rows), from, day);
  }

  // ---------------------------------------------------- the attested first and last hash

  /** How row hashes are written as text. */
  type Hex = Bytes -> Text

  /** The rows begin and end as the attestation says. */
  predicate EndsAsAttested(hex: Hex, hashes: seq<Bytes>, first: Text, last: Text) {
    !EmptyLike(hashes) && hex(hashes[0]) == first && hex(Last(hashes)) == last
  }

  /** The attested ends are those of an accepted export exactly when they are those of the
      list that the attested root was built from; the tool compares neither. */
  lemma EndsAttestedExact(h: Hash, hex: Hex, a: Archive, from: int, to: int, day: int, built: seq<Bytes>, first: Text, last: Text)
    requires ReportOf(h, LocalExport, a, from, to).exit == AllOk && from <= day <= to
    requires a.attestation(day).Attested? ==> a.attestation(day).root == Some(MerkleRoot(h, built))
    ensures
      var hashes := HashesOf(a.rows(day));
      || IsCollision(h, ListCollision(h, hashes, built))
      || (EndsAsAttested(hex, hashes, first, last) <==> EndsAsAttested(hex, built, first, last))
  {
    VerdictExact(h, LocalExport, a, from, to);
    assert DayAccepted(h, LocalExport, a, from, day);
    RootBindsEnds(h, HashesOf(a.rows(day)), built);
  }

  /** One day, one row, attested with its root and with any last hash at all. */
  function OneDay(h: Hash, day: int, row: ExportRow, first: Text, last: Text): Archive {
    Archive(_ => Attested(Some(MerkleRoot(h, [row.rowHash])), first, last, true), _ => [row])
  }

  /** An accepted export need not end in the attested hash. */
  lemma AttestedLastHashUnread(h: Hash, hex: Hex, day: int, row: ExportRow, first: Text, last: Text)
    requires hex(row.rowHash) != last
    ensures
      var a := OneDay(h, day, row, first, last);
      && ReportOf(h, LocalExport, a, day, day).exit == AllOk
      && !EndsAsAttested(hex, HashesOf(a.rows(day)), first, last)
  {
    var a := OneDay(h, day, row, first, last);
    VerdictExact(h, LocalExport, a, day, day);
    assert HashesOf([row]) == [row.rowHash];
    assert DayAccepted(h, LocalExport, a, day, day);
  }

  // -------------------------------------------------------------- the walk of the rows

  /** Each exported row names the row hash before it. */
  predicate Walks(hex: Hex, rows: seq<ExportRow>) {
    forall i :: 0 < i < |rows| ==> rows[i].prevHash == hex(rows[i - 1].rowHash)
  }

  /** The verdict depends on the row hashes alone. */
  lemma PrevHashesUnread(h: Hash, mode: Mode, a: Archive, rows: int -> seq<ExportRow>, from: int, to: int)
    requires forall day :: HashesOf(rows(day)) == HashesOf(a.rows(day))
    ensures ReportOf(h, mode, a.(rows := rows), from, to).exit == ReportOf(h, mode, a, from, to).exit
  {
    VerdictExact(h, mode, a, from, to);
    VerdictExact(h, mode, a.(rows := rows), from, to);
    forall d | from <= d < to + 1
      ensures DayAccepted(h, mode, a, from, d) <==> DayAccepted(h, mode, a.(rows := rows), from, d)
    {
      assert HashesOf(rows(d)) == HashesOf(a.rows(d));
    }
  }

  /** The rows of one day replaced. */
  function WithRows(a: Archive, day: int, rows: seq<ExportRow>): Archive {
    a.(rows := d => if d == day then rows else a.rows(d))
  }

  /** The walk that the tool's header announces is not made: on any day of two rows or
      more, writing another previous hash into a row leaves the verdict as it was, and the
      rows then do not walk. */
  lemma BrokenWalkUnnoticed(h: Hash, hex: Hex, mode: Mode, a: Archive, from: int, to: int, day: int, i: nat, prevHash: Text)
    requires 0 < i < |a.rows(day)| && prevHash != hex(a.rows(day)[i - 1].rowHash)
    ensures
      var rows := a.rows(day)[i := ExportRow(prevHash, a.rows(day)[i].rowHash)];
      && !Walks(hex, rows)
      && ReportOf(h, mode, WithRows(a, day, rows), from, to).exit == ReportOf(h, mode, a, from, to).exit
  {
    var rows := a.rows(day)[i := ExportRow(prevHash, a.rows(day)[i].rowHash)];
    assert rows[i].prevHash == prevHash && rows[i - 1] == a.rows(day)[i - 1];
    assert HashesOf(rows) == HashesOf(a.rows(day));
    PrevHashesUnread(h, mode, a, WithRows(a, day, rows).rows, from, to);
  }

  // ------------------------------------------------------------------- what else passes

  lemma SameRootsSameVerdict(h: Hash, mode: Mode, a: Archive, from: int, to: int, day: int, rows: seq<ExportRow>)
    requires MerkleRoot(h, HashesOf(rows)) == MerkleRoot(h, HashesOf(a.rows(day)))
    ensures ReportOf(h, mode, WithRows(a, day, rows), from, to).exit == ReportOf(h, mode, a, from, to).exit
  {
    var b := WithRows(a, day, rows);
    VerdictExact(h, mode, a, from, to);
    VerdictExact(h, mode, b, from, to);
    forall d | from <= d < to + 1 ensures DayAccepted(h, mode, a, from, d) <==> DayAccepted(h, mode, b, from, d) {
      assert MerkleRoot(h, HashesOf(b.rows(d))) == MerkleRoot(h, HashesOf(a.rows(d)));
    }
  }

  /** The counts matter: repeating the last row of an odd day of three rows or more
      never changes the verdict. */
  lemma RepeatedRowUnnoticed(h: Hash, mode: Mode, a: Archive, from: int, to: int, day: int)
    requires |a.rows(day)| >= 3 && |a.rows(day)| % 2 == 1
    ensures
      var rows := a.rows(day);
      var longer := rows + [rows[|rows| - 1]];
      ReportOf(h, mode, WithRows(a, day, longer), from, to).exit == ReportOf(h, mode, a, from, to).exit
  {
    var rows := a.rows(day);
    var longer := rows + [rows[|rows| - 1]];
    RepeatedLastRowSameRoot(h, HashesOf(rows));
    assert HashesOf(longer) == HashesOf(rows) + [HashesOf(rows)[|rows| - 1]];
    SameRootsSameVerdict(h, mode, a, from, to, day, longer);
  }

  /** So does the row hash: a single row without one passes for an empty day. */
  lemma HashlessRowUnnoticed(h: Hash, mode: Mode, a: Archive, from: int, to: int, day: int, row: ExportRow)
    requires a.rows(day) == [] && row.rowHash == []
    ensures ReportOf(h, mode, WithRows(a, day, [row]), from, to).exit == ReportOf(h, mode, a, from, to).exit
  {
    assert HashesOf([row]) == [[]] && HashesOf(a.rows(day)) == [];
    RootsEqualExact(h, [[]], []);
    SameRootsSameVerdict(h, mode, a, from, to, day, [row]);
  }
}
