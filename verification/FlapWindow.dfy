/** The fast cutter's record of recent flips, pruned in place. */
module FlapWindow {

  const WINDOW_MS := 60000

  /** The times after the cutoff, in order. */
  function Kept(times: seq<int>, cutoff: int): seq<int> {
    if times == [] then []
    else
      var m := |times| - 1;
      Kept(times[..m], cutoff) + if times[m] > cutoff then [times[m]] else []
  }

  /** The first n elements of `times` are the recorded flips; the kept ones are moved to
      the front of the same array. */
  method PruneFlaps(times: array<int>, n: nat, now: int) returns (kept: nat)
    requires n <= times.Length
    modifies times
    ensures kept <= n && times[..kept] == Kept(old(times[..n]), now - 60000)
    ensures times[n..] == old(times[n..])
  {
    var cutoff := now - WINDOW_MS;
    ghost var was := times[..n];
    kept := 0;
    for j := 0 to n
      invariant kept <= j
      invariant times[..kept] == Kept(was[..j], cutoff)
      invariant forall i :: j <= i < times.Length ==> times[i] == old(times[i])
    {
      var t := times[j];
      assert was[..j + 1][..j] == was[..j];
      if t > cutoff {
        times[kept] := t;
        kept := kept + 1;
      }
    }
    assert was[..n] == was;
  }

  predicate Ordered(times: seq<int>) {
    forall i, j :: 0 <= i < j < |times| ==> times[i] <= times[j]
  }

  lemma {:induction false} OldIsDropped(times: seq<int>, cutoff: int)
    requires forall i :: 0 <= i < |times| ==> times[i] <= cutoff
    ensures Kept(times, cutoff) == []
  {
    if times != [] {
      OldIsDropped(times[..|times| - 1], cutoff);
    }
  }

  /** The kept times are those from the k-th on, and they are the ones inside the window. */
  predicate KeptFrom(times: seq<int>, cutoff: int, k: int) {
    && 0 <= k <= |times| && Kept(times, cutoff) == times[k..]
    && (forall i :: 0 <= i < k ==> times[i] <= cutoff)
    && (forall i :: k <= i < |times| ==> times[i] > cutoff)
  }

  lemma KeptMore(times: seq<int>, cutoff: int, k: int)
    requires times != [] && times[|times| - 1] > cutoff && KeptFrom(times[..|times| - 1], cutoff, k)
    ensures KeptFrom(times, cutoff, k)
  {
    var m := |times| - 1;
    assert times[k..] == times[..m][k..] + [times[m]];
    assert forall i :: 0 <= i < m ==> times[..m][i] == times[i];
  }

  /** Of times recorded in order, what is kept is exactly the stretch at the end that
      lies inside the window. */
  lemma {:induction false} KeptIsSuffix(times: seq<int>, cutoff: int)
    requires Ordered(times)
    ensures
      var k := |times| - |Kept(times, cutoff)|;
      && 0 <= k && Kept(times, cutoff) == times[k..]
      && (forall i :: 0 <= i < k ==> times[i] <= cutoff)
      && (forall i :: k <= i < |times| ==> times[i] > cutoff)
  {
    if times != [] {
      var m := |times| - 1;
      if times[m] > cutoff {
        KeptIsSuffix(times[..m], cutoff);
        KeptMore(times, cutoff, m - |Kept(times[..m], cutoff)|);
      } else {
        OldIsDropped(times, cutoff);
      }
    }
  }
}
