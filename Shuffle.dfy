/** The Fisher–Yates roster shuffle (`shuffleArray`, app/page.tsx). The
    random draw `Math.floor(Math.random() * (i + 1))` is modelled as an
    arbitrary choice of an index in `0..i`; the ghost trace `picks` records
    the choices so that the result can be stated exactly. */
module Shuffle {
  import opened Roster

  /** The roster with the names at positions `i` and `j` exchanged. */
  function Swap(s: seq<Name>, i: nat, j: nat): (r: seq<Name>)
    requires i < |s| && j < |s|
    ensures |r| == |s| && r[i] == s[j] && r[j] == s[i]
    ensures forall k :: 0 <= k < |s| && k != i && k != j ==> r[k] == s[k]
    ensures multiset(r) == multiset(s)
  {
    s[i := s[j]][j := s[i]]
  }

  /** `picks[k]` is the swap partner drawn at step `k`, when the loop index
      is `n - 1 - k`; a partner never lies above the index it is swapped with,
      and the loop stops before index 0. */
  predicate SwapTrace(n: nat, picks: seq<nat>)
  {
    && (picks == [] || |picks| < n)
    && forall k :: 0 <= k < |picks| ==> picks[k] <= n - 1 - k
  }

  /** The roster after the swaps recorded in `picks`, taken in order. */
  function Shuffled(s: seq<Name>, picks: seq<nat>): (r: seq<Name>)
    requires SwapTrace(|s|, picks)
    ensures |r| == |s|
    decreases |picks|
  {
    if picks == [] then s
    else
      var k := |picks| - 1;
      Swap(Shuffled(s, picks[..k]), |s| - 1 - k, picks[k])
  }

  /** However the partners are drawn, the shuffle only reorders the roster. */
  lemma {:induction false} ShuffledIsPermutation(s: seq<Name>, picks: seq<nat>)
    requires SwapTrace(|s|, picks)
    ensures multiset(Shuffled(s, picks)) == multiset(s)
    decreases |picks|
  {
    if picks != [] {
      ShuffledIsPermutation(s, picks[..|picks| - 1]);
    }
  }

  /** A trace extended by one partner in range is still a trace. */
  lemma SwapTraceSnoc(n: nat, picks: seq<nat>, j: nat)
    requires SwapTrace(n, picks)
    requires |picks| + 1 < n && j <= n - 1 - |picks|
    ensures SwapTrace(n, picks + [j])
  {
    var extended := picks + [j];
    forall k | 0 <= k < |extended|
      ensures extended[k] <= n - 1 - k
    {
      if k < |picks| {
        assert extended[k] == picks[k];
      }
    }
  }

  /** The last swap of a trace is the outermost one. */
  lemma ShuffledLast(s: seq<Name>, picks: seq<nat>)
    requires SwapTrace(|s|, picks) && picks != []
    ensures SwapTrace(|s|, picks[..|picks| - 1])
    ensures Shuffled(s, picks) == Swap(Shuffled(s, picks[..|picks| - 1]), |s| - |picks|, picks[|picks| - 1])
  {
  }

  /** One more swap, at index `i = n - 1 - |picks|` with a partner `j <= i`,
      extends the trace at its end. */
  lemma ShuffledSnoc(s: seq<Name>, picks: seq<nat>, i: nat, j: nat)
    requires SwapTrace(|s|, picks)
    requires i == |s| - 1 - |picks| && 0 < i && j <= i
    ensures SwapTrace(|s|, picks + [j])
    ensures Shuffled(s, picks + [j]) == Swap(Shuffled(s, picks), i, j)
  {
    SwapTraceSnoc(|s|, picks, j);
    var extended := picks + [j];
    ShuffledLast(s, extended);
    var last := |extended| - 1;
    assert extended[..last] == picks;
    var i1, j1 := |s| - |extended|, extended[last];
    assert i1 == i && j1 == j;
  }

  /** `shuffleArray`: copies the roster, then walks `i` from the last index
      down to 1, swapping position `i` with a partner drawn from `0..i`. The
      input array is only read (no `modifies` clause), so it is left as it was. */
  method ShuffleArray(input: array<Name>) returns (shuffled: seq<Name>, ghost picks: seq<nat>)
    ensures SwapTrace(input.Length, picks)
    ensures |picks| == if input.Length == 0 then 0 else input.Length - 1
    ensures shuffled == Shuffled(input[..], picks)
    ensures multiset(shuffled) == multiset(input[..])
  {
    var copy := input[..];
    var a := new Name[|copy|](k requires 0 <= k < |copy| => copy[k]);
    assert a[..] == copy;
    picks := [];
    var i := a.Length - 1;
    while i > 0
      invariant i == a.Length - 1 - |picks|
      invariant 0 <= i || a.Length == 0
      invariant SwapTrace(a.Length, picks)
      invariant a[..] == Shuffled(copy, picks)
    {
      var j: nat :| j <= i;
      ghost var before := a[..];
      a[i], a[j] := a[j], a[i];
      assert a[..] == Swap(before, i, j);
      ShuffledSnoc(copy, picks, i, j);
      picks := picks + [j];
      i := i - 1;
    }
    shuffled := a[..];
    ShuffledIsPermutation(copy, picks);
  }
}
