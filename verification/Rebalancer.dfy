/** Rendezvous choice of a node, and the re-pinning of campaigns off a failed one. */
module Rebalancer {
  import opened Wrappers

  datatype NodeStatus = ACTIVE | DRAINING | UNHEALTHY | OFFLINE

  datatype Node = Node(id: int, weight: int, status: NodeStatus)

  /** Any score of a campaign id and a node id; products wrap at 64 bits. */
  type Score = (string, int) -> nat

  const TWO_TO_THE_64: nat := 0x1_0000_0000_0000_0000

  function Weighted(score: Score, campaign: string, n: Node): nat {
    score(campaign, n.id) * (if n.weight <= 0 then 1 else n.weight) % TWO_TO_THE_64
  }

  predicate Eligible(exclude: int, n: Node) { n.id != exclude && n.status == ACTIVE }

  /** The first of the eligible nodes with the largest weighted score. */
  function Winner(score: Score, campaign: string, exclude: int, nodes: seq<Node>): (k: Option<nat>)
    ensures k.Some? ==> k.value < |nodes|
  {
    if nodes == [] then None
    else
      var m := |nodes| - 1;
      var best := Winner(score, campaign, exclude, nodes[..m]);
      if !Eligible(exclude, nodes[m]) then best
      else if best.None? || Weighted(score, campaign, nodes[m]) > Weighted(score, campaign, nodes[best.value]) then Some(m)
      else best
  }

  method NextHealthyNode(score: Score, campaign: string, exclude: int, nodes: seq<Node>) returns (best: Option<Node>)
    ensures best == Target(score, campaign, exclude, nodes)
  {
    best := None;
    var bestScore := 0;
    for i := 0 to |nodes|
      invariant best == Target(score, campaign, exclude, nodes[..i])
      invariant best.Some? ==> bestScore == Weighted(score, campaign, best.value)
    {
      assert nodes[..i + 1][..i] == nodes[..i];
      var n := nodes[i];
      if n.id == exclude {
        continue;
      }
      if n.status != ACTIVE {
        continue;
      }
      var w := if n.weight <= 0 then 1 else n.weight;
      var weighted := score(campaign, n.id) * w % TWO_TO_THE_64;
      if best.None? || weighted > bestScore {
        best := Some(n);
        bestScore := weighted;
      }
    }
    assert nodes[..|nodes|] == nodes;
  }

  function Target(score: Score, campaign: string, exclude: int, nodes: seq<Node>): Option<Node> {
    var k := Winner(score, campaign, exclude, nodes);
    if k.Some? then Some(nodes[k.value]) else None
  }

  // ------------------------------------------------------------ what the winner is

  /** Node k beats every eligible node: those before it strictly. */
  predicate Wins(score: Score, campaign: string, exclude: int, nodes: seq<Node>, k: nat) {
    && k < |nodes| && Eligible(exclude, nodes[k])
    && (forall j :: 0 <= j < |nodes| && Eligible(exclude, nodes[j]) ==>
          Weighted(score, campaign, nodes[j]) <= Weighted(score, campaign, nodes[k]))
    && (forall j :: 0 <= j < k && Eligible(exclude, nodes[j]) ==>
          Weighted(score, campaign, nodes[j]) < Weighted(score, campaign, nodes[k]))
  }

  predicate NoneEligible(exclude: int, nodes: seq<Node>) {
    forall j :: 0 <= j < |nodes| ==> !Eligible(exclude, nodes[j])
  }

  lemma {:induction false} WinnerWins(score: Score, campaign: string, exclude: int, nodes: seq<Node>)
    ensures
      var k := Winner(score, campaign, exclude, nodes);
      if k.Some? then Wins(score, campaign, exclude, nodes, k.value) else NoneEligible(exclude, nodes)
  {
    if nodes != [] {
      var m := |nodes| - 1;
      WinnerWins(score, campaign, exclude, nodes[..m]);
      assert forall j :: 0 <= j < m ==> nodes[..m][j] == nodes[j];
    }
  }

  lemma OneWinner(score: Score, campaign: string, exclude: int, nodes: seq<Node>, j: nat, k: nat)
    requires Wins(score, campaign, exclude, nodes, j) && Wins(score, campaign, exclude, nodes, k)
    ensures j == k
  {}

  /** The winner is the one node that beats all others. */
  lemma WinnerExact(score: Score, campaign: string, exclude: int, nodes: seq<Node>, k: nat)
    ensures Winner(score, campaign, exclude, nodes) == Some(k) <==> Wins(score, campaign, exclude, nodes, k)
    ensures Winner(score, campaign, exclude, nodes) == None <==> NoneEligible(exclude, nodes)
  {
    WinnerWins(score, campaign, exclude, nodes);
    var w := Winner(score, campaign, exclude, nodes);
    if w.Some? && Wins(score, campaign, exclude, nodes, k) {
      OneWinner(score, campaign, exclude, nodes, w.value, k);
    }
  }

  function Insert(nodes: seq<Node>, p: nat, n: Node): seq<Node>
    requires p <= |nodes|
  {
    nodes[..p] + [n] + nodes[p..]
  }

  /** Where node k stands once another is inserted at p. */
  function Shifted(k: nat, p: nat): nat { if k < p then k else k + 1 }

  lemma InsertAt(nodes: seq<Node>, p: nat, n: Node, j: nat)
    requires p <= |nodes| && j < |nodes|
    ensures Insert(nodes, p, n)[Shifted(j, p)] == nodes[j] && Insert(nodes, p, n)[p] == n
  {}

  lemma WinsWithout(score: Score, campaign: string, exclude: int, nodes: seq<Node>, p: nat, n: Node, k: nat)
    requires p <= |nodes| && k < |nodes|
    requires Wins(score, campaign, exclude, Insert(nodes, p, n), Shifted(k, p))
    ensures Wins(score, campaign, exclude, nodes, k)
  {
    var all := Insert(nodes, p, n);
    InsertAt(nodes, p, n, k);
    forall j | 0 <= j < |nodes| && Eligible(exclude, nodes[j])
      ensures Weighted(score, campaign, nodes[j]) <= Weighted(score, campaign, nodes[k])
      ensures j < k ==> Weighted(score, campaign, nodes[j]) < Weighted(score, campaign, nodes[k])
    {
      InsertAt(nodes, p, n, j);
      assert Eligible(exclude, all[Shifted(j, p)]);
    }
  }

  lemma NoneWithout(exclude: int, nodes: seq<Node>, p: nat, n: Node)
    requires p <= |nodes| && NoneEligible(exclude, Insert(nodes, p, n))
    ensures NoneEligible(exclude, nodes)
  {
    forall j | 0 <= j < |nodes| ensures !Eligible(exclude, nodes[j]) {
      InsertAt(nodes, p, n, j);
    }
  }

  /** Minimal disruption: with one node more, anywhere in the list, the winner is that
      node or the one that won without it. Read the other way: taking away a node that
      does not win changes nothing. */
  lemma OneNodeMore(score: Score, campaign: string, exclude: int, nodes: seq<Node>, p: nat, n: Node)
    requires p <= |nodes|
    ensures
      var before, after := Winner(score, campaign, exclude, nodes), Winner(score, campaign, exclude, Insert(nodes, p, n));
      after == Some(p) || after == if before.Some? then Some(Shifted(before.value, p)) else None
  {
    var all := Insert(nodes, p, n);
    var after := Winner(score, campaign, exclude, all);
    WinnerWins(score, campaign, exclude, all);
    match after
    case None =>
      NoneWithout(exclude, nodes, p, n);
      WinnerExact(score, campaign, exclude, nodes, 0);
    case Some(a) =>
      if a != p {
        var k := if a < p then a else a - 1;
        WinsWithout(score, campaign, exclude, nodes, p, n, k);
        WinnerExact(score, campaign, exclude, nodes, k);
      }
  }

  // ----------------------------------------------------------------------- re-pinning

  /** The primary key is the tenant and the id together. */
  datatype Campaign = Campaign(tenantId: nat, id: string, node: Option<int>)

  /** Calls in progress; zero when none are recorded. */
  type ActiveCalls = (nat, string) -> int

  predicate Idle(active: ActiveCalls, c: Campaign) { active(c.tenantId, c.id) <= 0 }

  predicate ToMove(active: ActiveCalls, failed: int, c: Campaign) { c.node == Some(failed) && Idle(active, c) }

  /** A pin set by campaign id alone, on every row with that id. */
  function SetPin(rows: seq<Campaign>, id: string, node: int): (after: seq<Campaign>)
    ensures |after| == |rows|
  {
    seq(|rows|, i requires 0 <= i < |rows| => if rows[i].id == id then rows[i].(node := Some(node)) else rows[i])
  }

  predicate IdMoved(active: ActiveCalls, failed: int, pinned: seq<Campaign>, id: string) {
    exists j :: 0 <= j < |pinned| && pinned[j].id == id && ToMove(active, failed, pinned[j])
  }

  /** The table after a re-pin off `failed`, with `pinned` the campaigns dealt with. */
  predicate Repinned(score: Score, nodes: seq<Node>, active: ActiveCalls, failed: int, before: seq<Campaign>,
                     pinned: seq<Campaign>, after: seq<Campaign>) {
    && |after| == |before|
    && forall i :: 0 <= i < |before| ==>
         var target := Target(score, before[i].id, failed, nodes);
         after[i] == if target.Some? && IdMoved(active, failed, pinned, before[i].id)
                     then before[i].(node := Some(target.value.id)) else before[i]
  }

  function PinnedTo(rows: seq<Campaign>, failed: int): seq<Campaign> {
    if rows == [] then []
    else PinnedTo(rows[..|rows| - 1], failed)
         + if rows[|rows| - 1].node == Some(failed) then [rows[|rows| - 1]] else []
  }

  datatype Outcome = Busy | NoNode | Moved

  function OutcomeOf(score: Score, nodes: seq<Node>, active: ActiveCalls, failed: int, c: Campaign): Outcome {
    if !Idle(active, c) then Busy else if Target(score, c.id, failed, nodes).None? then NoNode else Moved
  }

  function Count(score: Score, nodes: seq<Node>, active: ActiveCalls, failed: int, pinned: seq<Campaign>, o: Outcome): nat {
    if pinned == [] then 0
    else Count(score, nodes, active, failed, pinned[..|pinned| - 1], o)
         + if OutcomeOf(score, nodes, active, failed, pinned[|pinned| - 1]) == o then 1 else 0
  }

  class CampaignTable {
    var rows: seq<Campaign>

    constructor (rows: seq<Campaign>)
      ensures this.rows == rows
    {
      this.rows := rows;
    }

    /** Queries, updates and the node list succeed. */
    method RepinCampaigns(score: Score, nodes: seq<Node>, active: ActiveCalls, failed: int)
      returns (repinned: nat, skipped: nat)
      modifies this
      ensures Repinned(score, nodes, active, failed, old(rows), PinnedTo(old(rows), failed), rows)
      ensures skipped == Count(score, nodes, active, failed, PinnedTo(old(rows), failed), Busy)
      ensures repinned == Count(score, nodes, active, failed, PinnedTo(old(rows), failed), Moved)
    {
      var campaigns := PinnedTo(rows, failed);
      AllPinned(rows, failed);
      repinned, skipped := 0, 0;
      for i := 0 to |campaigns|
        invariant Repinned(score, nodes, active, failed, old(rows), campaigns[..i], rows)
        invariant skipped == Count(score, nodes, active, failed, campaigns[..i], Busy)
        invariant repinned == Count(score, nodes, active, failed, campaigns[..i], Moved)
      {
        var c := campaigns[i];
        assert campaigns[..i + 1][..i] == campaigns[..i];
        OneMoreMoved(active, failed, campaigns, i);
        if active(c.tenantId, c.id) > 0 {
          skipped := skipped + 1;
          continue;
        }
        var target := NextHealthyNode(score, c.id, failed, nodes);
        if target.None? {
          continue;
        }
        rows := SetPin(rows, c.id, target.value.id);
        repinned := repinned + 1;
      }
      assert campaigns[..|campaigns|] == campaigns;
    }
  }

  lemma {:induction false} AllPinned(rows: seq<Campaign>, failed: int)
    ensures forall i :: 0 <= i < |PinnedTo(rows, failed)| ==> PinnedTo(rows, failed)[i].node == Some(failed)
    ensures forall i :: 0 <= i < |rows| && rows[i].node == Some(failed) ==> rows[i] in PinnedTo(rows, failed)
    ensures forall c :: c in PinnedTo(rows, failed) ==> c in rows
  {
    if rows != [] {
      var m := |rows| - 1;
      AllPinned(rows[..m], failed);
      assert rows == rows[..m] + [rows[m]];
    }
  }

  lemma OneMoreMoved(active: ActiveCalls, failed: int, pinned: seq<Campaign>, i: nat)
    requires i < |pinned|
    ensures forall id :: IdMoved(active, failed, pinned[..i + 1], id) <==>
                         IdMoved(active, failed, pinned[..i], id) || (pinned[i].id == id && ToMove(active, failed, pinned[i]))
  {
    forall id ensures IdMoved(active, failed, pinned[..i + 1], id) <==>
                      IdMoved(active, failed, pinned[..i], id) || (pinned[i].id == id && ToMove(active, failed, pinned[i]))
    {
      assert forall j :: 0 <= j < i ==> pinned[..i + 1][j] == pinned[..i][j];
      assert pinned[..i + 1][i] == pinned[i];
    }
  }

  /** Moved to its target if it is an idle campaign of the failed node, else unchanged. */
  predicate MovedRight(score: Score, nodes: seq<Node>, active: ActiveCalls, failed: int, before: Campaign, after: Campaign) {
    var target := Target(score, before.id, failed, nodes);
    after == if target.Some? && ToMove(active, failed, before) then before.(node := Some(target.value.id)) else before
  }

  /** Exactly the idle campaigns of the failed node have moved. */
  predicate ExactlyIdleMoved(score: Score, nodes: seq<Node>, active: ActiveCalls, failed: int,
                             before: seq<Campaign>, after: seq<Campaign>) {
    |after| == |before| &&
    forall i :: 0 <= i < |before| ==> MovedRight(score, nodes, active, failed, before[i], after[i])
  }

  /** A row that is not itself to move, but shares its id - with another tenant - with a
      campaign that is, and is pinned elsewhere than that campaign's target. */
  predicate Bystander(score: Score, nodes: seq<Node>, active: ActiveCalls, failed: int, rows: seq<Campaign>, c: Campaign) {
    && !ToMove(active, failed, c)
    && IdMoved(active, failed, rows, c.id)
    && Target(score, c.id, failed, nodes).Some?
    && c.node != Some(Target(score, c.id, failed, nodes).value.id)
  }

  predicate NoBystander(score: Score, nodes: seq<Node>, active: ActiveCalls, failed: int, rows: seq<Campaign>) {
    forall i :: 0 <= i < |rows| ==> !Bystander(score, nodes, active, failed, rows, rows[i])
  }

  lemma IdMovedOfPinned(active: ActiveCalls, failed: int, rows: seq<Campaign>, id: string)
    ensures IdMoved(active, failed, PinnedTo(rows, failed), id) <==> IdMoved(active, failed, rows, id)
  {
    var pinned := PinnedTo(rows, failed);
    AllPinned(rows, failed);
    if j :| 0 <= j < |pinned| && pinned[j].id == id && ToMove(active, failed, pinned[j]) {
      assert pinned[j] in rows;
    }
    if j :| 0 <= j < |rows| && rows[j].id == id && ToMove(active, failed, rows[j]) {
      assert rows[j] in pinned;
    }
  }

  lemma RowRightExact(score: Score, nodes: seq<Node>, active: ActiveCalls, failed: int,
                      before: seq<Campaign>, after: seq<Campaign>, i: nat)
    requires i < |before| && Repinned(score, nodes, active, failed, before, PinnedTo(before, failed), after)
    ensures MovedRight(score, nodes, active, failed, before[i], after[i]) <==>
            !Bystander(score, nodes, active, failed, before, before[i])
  {
    IdMovedOfPinned(active, failed, before, before[i].id);
    if ToMove(active, failed, before[i]) {
      assert IdMoved(active, failed, before, before[i].id);
    }
    var target := Target(score, before[i].id, failed, nodes);
    if target.Some? && before[i].node == Some(target.value.id) {
      assert before[i].(node := Some(target.value.id)) == before[i];
    }
  }

  /** A re-pin moves exactly the idle campaigns of the failed node exactly when there is
      no bystander: the update names the campaign by its id without its tenant. */
  lemma RepinExact(score: Score, nodes: seq<Node>, active: ActiveCalls, failed: int,
                   before: seq<Campaign>, after: seq<Campaign>)
    requires Repinned(score, nodes, active, failed, before, PinnedTo(before, failed), after)
    ensures ExactlyIdleMoved(score, nodes, active, failed, before, after) <==>
            NoBystander(score, nodes, active, failed, before)
  {
    forall i | 0 <= i < |before|
      ensures MovedRight(score, nodes, active, failed, before[i], after[i]) <==>
              !Bystander(score, nodes, active, failed, before, before[i])
    {
      RowRightExact(score, nodes, active, failed, before, after, i);
    }
  }

  /** Where no two tenants share a campaign id there is no bystander. */
  lemma DistinctIdsNoBystander(score: Score, nodes: seq<Node>, active: ActiveCalls, failed: int, rows: seq<Campaign>)
    requires forall j, k :: 0 <= j < |rows| && 0 <= k < |rows| && rows[j].id == rows[k].id ==> j == k
    ensures NoBystander(score, nodes, active, failed, rows)
  {}

  /** Two tenants with a campaign of one id, the first pinned to the failed node, the
      second to a node of its own. */
  function SharedId(id: string, failed: int, own: int): seq<Campaign> {
    [Campaign(1, id, Some(failed)), Campaign(2, id, Some(own))]
  }

  /** Re-pinning the first tenant's idle campaign moves the second tenant's too. */
  lemma SharedIdMovesBystander(score: Score, id: string, failed: int, own: int, target: Node, after: seq<Campaign>)
    requires target.status == ACTIVE && target.id != failed && own != failed && own != target.id
    requires Repinned(score, [target], (_, _) => 0, failed, SharedId(id, failed, own),
                      PinnedTo(SharedId(id, failed, own), failed), after)
    ensures !NoBystander(score, [target], (_, _) => 0, failed, SharedId(id, failed, own))
    ensures after == [Campaign(1, id, Some(target.id)), Campaign(2, id, Some(target.id))]
  {
    var active: ActiveCalls := (_, _) => 0;
    var rows := SharedId(id, failed, own);
    WinnerExact(score, id, failed, [target], 0);
    assert Target(score, id, failed, [target]) == Some(target);
    assert ToMove(active, failed, rows[0]) && !ToMove(active, failed, rows[1]);
    assert IdMoved(active, failed, rows, id);
    IdMovedOfPinned(active, failed, rows, id);
    assert Bystander(score, [target], active, failed, rows, rows[1]);
  }

  // ------------------------------------------------------------- in the columns alone

  /** A node that may be chosen. */
  predicate MayServe(failed: int, n: Node) { n.status == ACTIVE && n.id != failed }

  /** Score times weight, a weight below one counting as one, cut to 64 bits. */
  function Strength(score: Score, campaign: string, n: Node): nat {
    score(campaign, n.id) * (if n.weight < 1 then 1 else n.weight) % 18446744073709551616
  }

  /** The node chosen is the strongest that may serve, the first of several. */
  lemma StrongestWins(score: Score, campaign: string, failed: int, nodes: seq<Node>, k: nat)
    ensures Winner(score, campaign, failed, nodes) == Some(k) <==>
            && k < |nodes| && MayServe(failed, nodes[k])
            && forall j :: 0 <= j < |nodes| && MayServe(failed, nodes[j]) ==>
                 && Strength(score, campaign, nodes[j]) <= Strength(score, campaign, nodes[k])
                 && (j < k ==> Strength(score, campaign, nodes[j]) < Strength(score, campaign, nodes[k]))
  {
    WinnerExact(score, campaign, failed, nodes, k);
    forall j | 0 <= j < |nodes|
      ensures Weighted(score, campaign, nodes[j]) == Strength(score, campaign, nodes[j])
      ensures Eligible(failed, nodes[j]) <==> MayServe(failed, nodes[j])
    {
      SameStrength(score, campaign, failed, nodes[j]);
    }
  }

  lemma SameStrength(score: Score, campaign: string, failed: int, n: Node)
    ensures Weighted(score, campaign, n) == Strength(score, campaign, n)
    ensures Eligible(failed, n) <==> MayServe(failed, n)
  {}

  /** A campaign that a re-pin is for: pinned to the failed node, with no call in progress. */
  predicate Stranded(active: ActiveCalls, failed: int, c: Campaign) {
    c.node == Some(failed) && active(c.tenantId, c.id) <= 0
  }

  /** A campaign that is left because it is busy, and one that is moved. */
  predicate LeftBusy(active: ActiveCalls, failed: int, c: Campaign) {
    c.node == Some(failed) && active(c.tenantId, c.id) > 0
  }

  predicate MovesOn(score: Score, nodes: seq<Node>, active: ActiveCalls, failed: int, c: Campaign) {
    Stranded(active, failed, c) && Target(score, c.id, failed, nodes).Some?
  }

  function BusyRows(active: ActiveCalls, failed: int, rows: seq<Campaign>): set<nat> {
    set i | 0 <= i < |rows| && LeftBusy(active, failed, rows[i])
  }

  function MovedRows(score: Score, nodes: seq<Node>, active: ActiveCalls, failed: int, rows: seq<Campaign>): set<nat> {
    set i | 0 <= i < |rows| && MovesOn(score, nodes, active, failed, rows[i])
  }

  lemma CountMore(score: Score, nodes: seq<Node>, active: ActiveCalls, failed: int, pinned: seq<Campaign>, c: Campaign, o: Outcome)
    ensures Count(score, nodes, active, failed, pinned + [c], o) ==
            Count(score, nodes, active, failed, pinned, o)
            + if OutcomeOf(score, nodes, active, failed, c) == o then 1 else 0
  {
    assert (pinned + [c])[..|pinned|] == pinned;
  }

  /** The counters are the numbers of rows left busy and of rows moved. */
  lemma {:induction false} CountsExact(score: Score, nodes: seq<Node>, active: ActiveCalls, failed: int, rows: seq<Campaign>)
    ensures Count(score, nodes, active, failed, PinnedTo(rows, failed), Busy) == |BusyRows(active, failed, rows)|
    ensures Count(score, nodes, active, failed, PinnedTo(rows, failed), Moved) ==
            |MovedRows(score, nodes, active, failed, rows)|
  {
    if rows == [] {
      assert BusyRows(active, failed, rows) == {} && MovedRows(score, nodes, active, failed, rows) == {};
    } else {
      var m := |rows| - 1;
      var pinned := PinnedTo(rows[..m], failed);
      CountsExact(score, nodes, active, failed, rows[..m]);
      BusyMore(active, failed, rows);
      MovedMore(score, nodes, active, failed, rows);
      if rows[m].node == Some(failed) {
        CountMore(score, nodes, active, failed, pinned, rows[m], Busy);
        CountMore(score, nodes, active, failed, pinned, rows[m], Moved);
      } else {
        assert pinned + [] == pinned;
      }
    }
  }

  lemma BusyMore(active: ActiveCalls, failed: int, rows: seq<Campaign>)
    requires rows != []
    ensures
      var m := |rows| - 1;
      |BusyRows(active, failed, rows)| ==
        |BusyRows(active, failed, rows[..m])| + if LeftBusy(active, failed, rows[m]) then 1 else 0
  {
    var m := |rows| - 1;
    var before := BusyRows(active, failed, rows[..m]);
    assert BusyRows(active, failed, rows) == if LeftBusy(active, failed, rows[m]) then before + {m} else before;
  }

  lemma MovedMore(score: Score, nodes: seq<Node>, active: ActiveCalls, failed: int, rows: seq<Campaign>)
    requires rows != []
    ensures
      var m := |rows| - 1;
      |MovedRows(score, nodes, active, failed, rows)| ==
        |MovedRows(score, nodes, active, failed, rows[..m])|
        + if MovesOn(score, nodes, active, failed, rows[m]) then 1 else 0
  {
    var m := |rows| - 1;
    var before := MovedRows(score, nodes, active, failed, rows[..m]);
    assert MovedRows(score, nodes, active, failed, rows) ==
           if MovesOn(score, nodes, active, failed, rows[m]) then before + {m} else before;
  }

  /** Without a bystander: every stranded campaign is on the node chosen for it, if there
      is one, and no other campaign has changed. */
  lemma StrandedMove(score: Score, nodes: seq<Node>, active: ActiveCalls, failed: int,
                     before: seq<Campaign>, after: seq<Campaign>, i: nat)
    requires Repinned(score, nodes, active, failed, before, PinnedTo(before, failed), after)
    requires NoBystander(score, nodes, active, failed, before) && i < |before|
    ensures
      var k := Winner(score, before[i].id, failed, nodes);
      && |after| == |before|
      && after[i].id == before[i].id && after[i].tenantId == before[i].tenantId
      && after[i].node == if Stranded(active, failed, before[i]) && k.Some? then Some(nodes[k.value].id) else before[i].node
  {
    RepinExact(score, nodes, active, failed, before, after);
    assert MovedRight(score, nodes, active, failed, before[i], after[i]);
  }
}
