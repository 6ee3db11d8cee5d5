/** General mode: splitting the shuffled roster into groups of a fixed size
    (the nested grouping loop of `generatePairs`, app/page.tsx and
    hooks/useGameGenerator.ts). */
module Grouping {
  import opened Roster

  /** The full consecutive blocks of `k` names. */
  function Chunks(s: seq<Name>, k: nat): seq<seq<Name>>
    requires k >= 1
    decreases |s|
  {
    if |s| < k then [] else [s[..k]] + Chunks(s[k..], k)
  }

  /** What is left after the full blocks of `k` names. */
  function Leftover(s: seq<Name>, k: nat): seq<Name>
    requires k >= 1
    decreases |s|
  {
    if |s| < k then s else Leftover(s[k..], k)
  }

  /** Every group in `gs` has exactly `size` members. */
  predicate AllOfSize(gs: seq<seq<Name>>, size: int)
  {
    forall g :: g in gs ==> |g| == size
  }

  datatype Partition = Partition(groups: seq<seq<Name>>, remaining: seq<Name>)

  /** The intended outcome of grouping `players` by `size`: the first
      occurrences of the names, cut into consecutive blocks of `size`, the
      final short block being left over. A size below 1 commits no group. */
  function Grouped(players: seq<Name>, size: int): Partition
  {
    if size >= 1 then Partition(Chunks(Dedup(players), size), Leftover(Dedup(players), size))
    else Partition([], Dedup(players))
  }

  /** Blocks and leftover put back together give the roster, in order; every
      block is full and the leftover is short. */
  lemma ChunksReassemble(s: seq<Name>, k: nat)
    requires k >= 1
    ensures Flatten(Chunks(s, k)) + Leftover(s, k) == s
    ensures AllOfSize(Chunks(s, k), k)
    ensures |Leftover(s, k)| < k
  {
    ChunksConcat(s, k);
    ChunksFull(s, k);
    LeftoverShort(s, k);
  }

  lemma {:induction false} ChunksConcat(s: seq<Name>, k: nat)
    requires k >= 1
    ensures Flatten(Chunks(s, k)) + Leftover(s, k) == s
    decreases |s|
  {
    if |s| >= k {
      var block, rest := s[..k], s[k..];
      ChunksConcat(rest, k);
      var cs := Chunks(rest, k);
      ChunksUnfold(s, k);
      FlattenCons(block, cs);
      AppendAssoc(block, Flatten(cs), Leftover(rest, k));
      assert block + rest == s;
    }
  }

  /** One block off the front. */
  lemma ChunksUnfold(s: seq<Name>, k: nat)
    requires 1 <= k <= |s|
    ensures Chunks(s, k) == [s[..k]] + Chunks(s[k..], k)
    ensures Leftover(s, k) == Leftover(s[k..], k)
  {
  }

  lemma {:induction false} ChunksFull(s: seq<Name>, k: nat)
    requires k >= 1
    ensures AllOfSize(Chunks(s, k), k)
    decreases |s|
  {
    if |s| >= k {
      ChunksFull(s[k..], k);
      var cs := Chunks(s[k..], k);
      assert forall g :: g in [s[..k]] + cs ==> g == s[..k] || g in cs;
    }
  }

  lemma {:induction false} LeftoverShort(s: seq<Name>, k: nat)
    requires k >= 1
    ensures |Leftover(s, k)| < k
    decreases |s|
  {
    if |s| >= k {
      LeftoverShort(s[k..], k);
    }
  }

  lemma FlattenCons(g: seq<Name>, gs: seq<seq<Name>>)
    ensures Flatten([g] + gs) == g + Flatten(gs)
  {
    assert ([g] + gs)[1..] == gs;
  }

  /** Conversely, a split of `s` into full blocks of `k` followed by fewer
      than `k` names is the block split. */
  lemma {:induction false} ChunksUnique(s: seq<Name>, k: nat, gs: seq<seq<Name>>, r: seq<Name>)
    requires k >= 1
    requires AllOfSize(gs, k)
    requires |r| < k
    requires Flatten(gs) + r == s
    ensures gs == Chunks(s, k) && r == Leftover(s, k)
    decreases |gs|
  {
    if gs == [] {
      assert r == s;
    } else {
      assert gs[0] in gs;
      assert s == gs[0] + (Flatten(gs[1..]) + r);
      assert s[..k] == gs[0];
      assert s[k..] == Flatten(gs[1..]) + r;
      assert forall g :: g in gs[1..] ==> g in gs;
      ChunksUnique(s[k..], k, gs[1..], r);
    }
  }

  /** In a distinct roster no name lands in two groups, nor in a group and
      the leftover. */
  lemma {:induction false} GroupsDisjoint(gs: seq<seq<Name>>, r: seq<Name>)
    requires Distinct(Flatten(gs) + r)
    ensures forall a, b :: 0 <= a < b < |gs| ==> Elems(gs[a]) !! Elems(gs[b])
    ensures forall a :: 0 <= a < |gs| ==> Elems(gs[a]) !! Elems(r) && Distinct(gs[a])
    decreases |gs|
  {
    if gs != [] {
      assert Flatten(gs) + r == gs[0] + (Flatten(gs[1..]) + r);
      DistinctAppend(gs[0], Flatten(gs[1..]) + r);
      GroupsDisjoint(gs[1..], r);
      ElemsAppend(Flatten(gs[1..]), r);
      forall b | 1 <= b < |gs|
        ensures Elems(gs[b]) <= Elems(Flatten(gs[1..]))
      {
        FlattenContains(gs[1..], b - 1);
      }
    }
  }

  /** Whatever the roster, the grouping never places a name twice: the
      groups are pairwise disjoint, disjoint from the remainder, and no group
      repeats a name. */
  lemma GroupedDisjoint(players: seq<Name>, size: int)
    ensures var p := Grouped(players, size);
            && (forall a, b :: 0 <= a < b < |p.groups| ==> Elems(p.groups[a]) !! Elems(p.groups[b]))
            && (forall a :: 0 <= a < |p.groups| ==> Elems(p.groups[a]) !! Elems(p.remaining) && Distinct(p.groups[a]))
            && Distinct(p.remaining)
  {
    var p := Grouped(players, size);
    DedupElems(players);
    if size >= 1 {
      ChunksReassemble(Dedup(players), size);
    }
    assert Flatten(p.groups) + p.remaining == Dedup(players);
    GroupsDisjoint(p.groups, p.remaining);
    DistinctAppend(Flatten(p.groups), p.remaining);
  }

  lemma {:induction false} FlattenContains(gs: seq<seq<Name>>, b: nat)
    requires b < |gs|
    ensures Elems(gs[b]) <= Elems(Flatten(gs))
    decreases b
  {
    ElemsAppend(gs[0], Flatten(gs[1..]));
    if b > 0 {
      FlattenContains(gs[1..], b - 1);
    }
  }

  lemma Regroup(placed: seq<Name>, g: seq<Name>, rest: seq<Name>, restBefore: seq<Name>, all: seq<Name>)
    requires placed + restBefore == all
    requires g + rest == restBefore
    ensures (placed + g) + rest == all
  {
  }

  /** A split of the deduplicated roster into full groups and a short
      remainder is the intended grouping. */
  lemma GroupedOf(players: seq<Name>, size: int, gs: seq<seq<Name>>, r: seq<Name>)
    requires Flatten(gs) + r == Dedup(players)
    requires AllOfSize(gs, size)
    requires size >= 1 ==> |r| < size
    requires size < 1 ==> gs == []
    ensures Partition(gs, r) == Grouped(players, size)
  {
    if size >= 1 {
      ChunksUnique(Dedup(players), size, gs, r);
    }
  }

  /** One step of the scan of unused names. */
  lemma UnseenStep(s: seq<Name>, j: nat, seen: set<Name>)
    requires j < |s|
    ensures Unseen(s[j..], seen) == if s[j] in seen then Unseen(s[j + 1..], seen)
                                   else [s[j]] + Unseen(s[j + 1..], seen + {s[j]})
  {
    assert s[j..][1..] == s[j + 1..];
  }

  /** The inner loop's invariant after it has visited the positions before
      `j`: the names taken so far, then the names the scan has yet to take
      from `j` on, are the scan from `i`; `usedAfter` adds exactly the names
      taken; every visited position holds a used name. */
  ghost predicate Collecting(players: seq<Name>, i: nat, used: set<Name>,
                             j: nat, currentGroup: seq<Name>, usedAfter: set<Name>)
    requires i < j <= |players|
  {
    && usedAfter == used + Elems(currentGroup)
    && currentGroup + Unseen(players[j..], usedAfter) == Unseen(players[i..], used)
    && forall k :: i < k < j ==> players[k] in usedAfter
  }

  /** The group starts with the unused name at position `i`. */
  lemma CollectStart(players: seq<Name>, i: nat, used: set<Name>)
    requires i < |players| && players[i] !in used
    ensures Collecting(players, i, used, i + 1, [players[i]], used + {players[i]})
  {
    UnseenStep(players, i, used);
    assert Elems([players[i]]) == {players[i]};
  }

  /** The inner loop visits position `j`: an unused name is taken and marked,
      a used one is passed over. */
  lemma CollectNext(players: seq<Name>, i: nat, used: set<Name>,
                    j: nat, currentGroup: seq<Name>, usedAfter: set<Name>)
    requires i < j < |players|
    requires Collecting(players, i, used, j, currentGroup, usedAfter)
    ensures players[j] in usedAfter ==>
              Collecting(players, i, used, j + 1, currentGroup, usedAfter)
    ensures players[j] !in usedAfter ==>
              Collecting(players, i, used, j + 1, currentGroup + [players[j]], usedAfter + {players[j]})
  {
    var next := players[j];
    UnseenStep(players, j, usedAfter);
    if next !in usedAfter {
      ElemsAppend(currentGroup, [next]);
      assert Elems([next]) == {next};
      var rest := Unseen(players[j + 1..], usedAfter + {next});
      assert currentGroup + ([next] + rest) == (currentGroup + [next]) + rest;
    }
  }

  /** When the inner loop stops, the names it passed over are all used, so
      the scan resumes right after position `i`. */
  lemma CollectEnd(players: seq<Name>, i: nat, used: set<Name>,
                   j: nat, currentGroup: seq<Name>, usedAfter: set<Name>)
    requires i < j <= |players|
    requires Collecting(players, i, used, j, currentGroup, usedAfter)
    ensures currentGroup + Unseen(players[i + 1..], usedAfter) == Unseen(players[i..], used)
    ensures Unseen(players[i + 1..], usedAfter) == Unseen(players[j..], usedAfter)
  {
    UnseenSkipsSeen(players[i + 1..], j - (i + 1), usedAfter);
    assert players[i + 1..][j - (i + 1)..] == players[j..];
  }

  /** The inner loop of the grouping: starting from the unused name at
      position `i`, takes it and then every further unused name, left to
      right, until the group holds `size` names or the roster ends. What it
      takes is exactly the next names of the scan of unused names, and a
      group that stays short means that no unused name is left. */
  method CollectGroup(availablePlayers: seq<Name>, i: nat, size: int, used: set<Name>)
    returns (currentGroup: seq<Name>, usedAfter: set<Name>)
    requires i < |availablePlayers| && availablePlayers[i] !in used
    ensures currentGroup + Unseen(availablePlayers[i + 1..], usedAfter) == Unseen(availablePlayers[i..], used)
    ensures usedAfter == used + Elems(currentGroup)
    ensures 1 <= |currentGroup| && (size >= 1 ==> |currentGroup| <= size)
    ensures |currentGroup| < size ==> Unseen(availablePlayers[i + 1..], usedAfter) == []
  {
    CollectStart(availablePlayers, i, used);
    currentGroup := [availablePlayers[i]];
    usedAfter := used + {availablePlayers[i]};
    var filled := 1;
    var j := i + 1;
    while j < |availablePlayers| && filled < size
      invariant i + 1 <= j <= |availablePlayers|
      invariant filled == |currentGroup| >= 1
      invariant size >= 1 ==> filled <= size
      invariant Collecting(availablePlayers, i, used, j, currentGroup, usedAfter)
    {
      CollectNext(availablePlayers, i, used, j, currentGroup, usedAfter);
      if availablePlayers[j] !in usedAfter {
        currentGroup := currentGroup + [availablePlayers[j]];
        usedAfter := usedAfter + {availablePlayers[j]};
        filled := filled + 1;
      }
      j := j + 1;
    }
    CollectEnd(availablePlayers, i, used, j, currentGroup, usedAfter);
    if |currentGroup| < size {
      assert availablePlayers[j..] == [];
    }
  }

  /** The grouping loop's invariant after the names before position `i` have
      been visited: the groups committed, then `remaining`, then the names the
      scan has yet to take, spell out the deduplicated roster; `used` holds
      exactly the names placed so far; a short group is only ever the last. */
  ghost predicate GroupedSoFar(players: seq<Name>, size: int, i: nat,
                               groups: seq<seq<Name>>, remaining: seq<Name>, used: set<Name>)
    requires i <= |players|
  {
    && Flatten(groups) + remaining + Unseen(players[i..], used) == Dedup(players)
    && used == Elems(Flatten(groups) + remaining)
    && AllOfSize(groups, size)
    && (size >= 1 ==> |remaining| < size)
    && (size >= 1 && remaining != [] ==> Unseen(players[i..], used) == [])
    && (size < 1 ==> groups == [])
  }

  /** Visiting a name that is already used changes nothing. */
  lemma SkipStep(players: seq<Name>, size: int, i: nat,
                 groups: seq<seq<Name>>, remaining: seq<Name>, used: set<Name>)
    requires i < |players| && players[i] in used
    requires GroupedSoFar(players, size, i, groups, remaining, used)
    ensures GroupedSoFar(players, size, i + 1, groups, remaining, used)
  {
    assert players[i..] == [players[i]] + players[i + 1..];
    assert Unseen(players[i..], used) == Unseen(players[i + 1..], used);
  }

  /** The names the inner loop collected from position `i` follow what is
      already placed, in the order of the deduplicated roster. */
  lemma Collected(players: seq<Name>, size: int, i: nat,
                  groups: seq<seq<Name>>, remaining: seq<Name>, used: set<Name>,
                  currentGroup: seq<Name>, usedAfter: set<Name>)
    requires i < |players| && players[i] !in used
    requires GroupedSoFar(players, size, i, groups, remaining, used)
    requires currentGroup + Unseen(players[i + 1..], usedAfter) == Unseen(players[i..], used)
    requires usedAfter == used + Elems(currentGroup)
    ensures Flatten(groups) + remaining + currentGroup + Unseen(players[i + 1..], usedAfter) == Dedup(players)
    ensures usedAfter == Elems(Flatten(groups) + remaining + currentGroup)
    ensures size >= 1 ==> remaining == []
  {
    assert players[i..] == [players[i]] + players[i + 1..];
    assert Unseen(players[i..], used) != [];
    var placed := Flatten(groups) + remaining;
    Regroup(placed, currentGroup, Unseen(players[i + 1..], usedAfter), Unseen(players[i..], used), Dedup(players));
    ElemsAppend(placed, currentGroup);
  }

  /** A full group is committed. */
  lemma CommitStep(players: seq<Name>, size: int, i: nat,
                   groups: seq<seq<Name>>, remaining: seq<Name>, used: set<Name>,
                   currentGroup: seq<Name>, usedAfter: set<Name>)
    requires i < |players| && players[i] !in used
    requires GroupedSoFar(players, size, i, groups, remaining, used)
    requires currentGroup + Unseen(players[i + 1..], usedAfter) == Unseen(players[i..], used)
    requires usedAfter == used + Elems(currentGroup)
    requires 1 <= |currentGroup| == size
    ensures GroupedSoFar(players, size, i + 1, groups + [currentGroup], remaining, usedAfter)
  {
    Collected(players, size, i, groups, remaining, used, currentGroup, usedAfter);
    assert remaining == [];
    FlattenAppend(groups, currentGroup);
    assert Flatten(groups + [currentGroup]) + remaining == Flatten(groups) + remaining + currentGroup;
    assert forall g :: g in groups + [currentGroup] ==> g in groups || g == currentGroup;
  }

  /** A short group goes to `remaining`; it is the last one. */
  lemma DeferStep(players: seq<Name>, size: int, i: nat,
                  groups: seq<seq<Name>>, remaining: seq<Name>, used: set<Name>,
                  currentGroup: seq<Name>, usedAfter: set<Name>)
    requires i < |players| && players[i] !in used
    requires GroupedSoFar(players, size, i, groups, remaining, used)
    requires currentGroup + Unseen(players[i + 1..], usedAfter) == Unseen(players[i..], used)
    requires usedAfter == used + Elems(currentGroup)
    requires size >= 1 ==> |currentGroup| <= size
    requires |currentGroup| < size ==> Unseen(players[i + 1..], usedAfter) == []
    requires |currentGroup| != size
    ensures GroupedSoFar(players, size, i + 1, groups, remaining + currentGroup, usedAfter)
  {
    Collected(players, size, i, groups, remaining, used, currentGroup, usedAfter);
    assert Flatten(groups) + (remaining + currentGroup) == Flatten(groups) + remaining + currentGroup;
  }

  /** The grouping loop. For each name not yet used it starts a group and
      greedily takes the next unused names until the group holds `size`; a
      full group is committed, a short one goes to `remaining`. A later copy
      of a name already used is skipped and lands nowhere. */
  method GroupPlayers(availablePlayers: seq<Name>, size: int)
    returns (groups: seq<seq<Name>>, remaining: seq<Name>, used: set<Name>)
    ensures Partition(groups, remaining) == Grouped(availablePlayers, size)
    ensures AllOfSize(groups, size)
    ensures size >= 1 ==> |remaining| < size
    ensures Flatten(groups) + remaining == Dedup(availablePlayers)
    ensures Distinct(availablePlayers) ==> Flatten(groups) + remaining == availablePlayers
    ensures used == Elems(availablePlayers)
  {
    groups, remaining, used := [], [], {};
    assert availablePlayers[0..] == availablePlayers;
    var i := 0;
    while i < |availablePlayers|
      invariant 0 <= i <= |availablePlayers|
      invariant GroupedSoFar(availablePlayers, size, i, groups, remaining, used)
    {
      if availablePlayers[i] !in used {
        var currentGroup, usedAfter := CollectGroup(availablePlayers, i, size, used);
        if |currentGroup| == size {
          CommitStep(availablePlayers, size, i, groups, remaining, used, currentGroup, usedAfter);
          groups := groups + [currentGroup];
        } else {
          DeferStep(availablePlayers, size, i, groups, remaining, used, currentGroup, usedAfter);
          remaining := remaining + currentGroup;
        }
        used := usedAfter;
      } else {
        SkipStep(availablePlayers, size, i, groups, remaining, used);
      }
      i := i + 1;
    }
    assert Unseen(availablePlayers[i..], used) == [];
    DedupElems(availablePlayers);
    GroupedOf(availablePlayers, size, groups, remaining);
    if Distinct(availablePlayers) {
      DedupOfDistinct(availablePlayers);
    }
  }
}
