/** Head-to-head modes: pairing the shuffled roster into matches
    (`generateGameMatches`, app/page.tsx and hooks/useGameGenerator.ts). */
module Matches {
  import opened Roster

  datatype GameMode = OneVsOne | TwoVsTwo

  datatype GameMatch = GameMatch(team1: seq<Name>, team2: seq<Name>)

  /** The matches made and the players left over (`luckyPeople`). */
  datatype Pairing = Pairing(matches: seq<GameMatch>, luckyPeople: seq<Name>)

  /** `playersPerMatch`: a 2v2 match takes four players, any other mode two. */
  function PlayersPerMatch(mode: GameMode): nat
  {
    if mode == TwoVsTwo then 4 else 2
  }

  /** The size of each of the two teams of a match. */
  function TeamSize(mode: GameMode): nat
  {
    PlayersPerMatch(mode) / 2
  }

  /** What the pairing loop does with `players`, stated one block at a time.
      2v2: the next four are drawn, each pair filtered for truthy names; if
      both teams keep two players a match is made, otherwise the survivors
      are put back behind the rest and pairing stops. 1v1: the next two are
      drawn; a match is made only if both names are truthy, and otherwise
      both are dropped. Fewer than a block's worth of players are left over. */
  function PairFrom(mode: GameMode, players: seq<Name>): Pairing
    decreases |players|
  {
    if |players| < PlayersPerMatch(mode) then Pairing([], players)
    else if mode == TwoVsTwo then
      var team1 := TruthyPair(players[0], players[1]);
      var team2 := TruthyPair(players[2], players[3]);
      if |team1| == 2 && |team2| == 2 then
        var rest := PairFrom(mode, players[4..]);
        Pairing([GameMatch(team1, team2)] + rest.matches, rest.luckyPeople)
      else
        Pairing([], players[4..] + team1 + team2)
    else
      var rest := PairFrom(mode, players[2..]);
      if Named(players[0]) && Named(players[1]) then
        Pairing([GameMatch([players[0]], [players[1]])] + rest.matches, rest.luckyPeople)
      else rest
  }

  /** Every match has two teams of the mode's team size, made of truthy
      names only; 1v1 always leaves fewer than two players over, and with
      truthy names no mode leaves a full block over. */
  lemma {:induction false} PairFromShape(mode: GameMode, players: seq<Name>)
    ensures forall m :: m in PairFrom(mode, players).matches ==>
              |m.team1| == TeamSize(mode) && |m.team2| == TeamSize(mode)
              && AllNamed(m.team1) && AllNamed(m.team2)
    ensures mode == OneVsOne ==> |PairFrom(mode, players).luckyPeople| < 2
    ensures AllNamed(players) ==> |PairFrom(mode, players).luckyPeople| < PlayersPerMatch(mode)
    decreases |players|
  {
    var k := PlayersPerMatch(mode);
    if |players| >= k {
      AllNamedSuffix(players, k);
      PairFromShape(mode, players[k..]);
      if mode == TwoVsTwo {
        AllNamedPrefix(players, 4);
      }
    }
  }

  lemma AllNamedSuffix(s: seq<Name>, n: nat)
    requires n <= |s|
    ensures AllNamed(s) ==> AllNamed(s[n..])
  {
    if AllNamed(s) {
      forall i | 0 <= i < |s[n..]| ensures Named(s[n..][i]) {
        assert s[n..][i] == s[n + i];
      }
    }
  }

  lemma AllNamedPrefix(s: seq<Name>, n: nat)
    requires 4 <= n <= |s|
    ensures AllNamed(s) ==> AllNamed(s[..2]) && AllNamed(s[2..4])
  {
    if AllNamed(s) {
      assert forall i :: 0 <= i < 2 ==> s[..2][i] == s[i] && s[2..4][i] == s[2 + i];
    }
  }

  /** `newPairs`: each match flattened to `team1` followed by `team2`. */
  function NewPairs(matches: seq<GameMatch>): seq<seq<Name>>
  {
    seq(|matches|, i requires 0 <= i < |matches| => matches[i].team1 + matches[i].team2)
  }

  /** Everyone placed in a match, match by match, team 1 before team 2. */
  function Matched(matches: seq<GameMatch>): seq<Name>
    decreases |matches|
  {
    if matches == [] then [] else matches[0].team1 + matches[0].team2 + Matched(matches[1..])
  }

  lemma MatchedCons(m: GameMatch, ms: seq<GameMatch>)
    ensures Matched([m] + ms) == m.team1 + m.team2 + Matched(ms)
  {
    assert ([m] + ms)[1..] == ms;
  }

  lemma {:induction false} MatchedSnoc(ms: seq<GameMatch>, m: GameMatch)
    ensures Matched(ms + [m]) == Matched(ms) + m.team1 + m.team2
    decreases |ms|
  {
    if ms == [] {
      assert [] + [m] == [m];
      MatchedCons(m, []);
    } else {
      assert ms + [m] == [ms[0]] + (ms[1..] + [m]);
      MatchedCons(ms[0], ms[1..] + [m]);
      MatchedSnoc(ms[1..], m);
      MatchedCons(ms[0], ms[1..]);
      assert ms == [ms[0]] + ms[1..];
    }
  }

  /** The flattened `newPairs` are exactly the matched players, in order. */
  lemma {:induction false} NewPairsFlatten(matches: seq<GameMatch>)
    ensures Flatten(NewPairs(matches)) == Matched(matches)
    decreases |matches|
  {
    if matches != [] {
      NewPairsFlatten(matches[1..]);
      assert NewPairs(matches)[1..] == NewPairs(matches[1..]);
    }
  }

  /** The players of one more match join the used set. */
  lemma UsedSnoc(ms: seq<GameMatch>, m: GameMatch)
    ensures Elems(Matched(ms + [m])) == Elems(Matched(ms)) + Elems(m.team1) + Elems(m.team2)
  {
    MatchedSnoc(ms, m);
    ElemsAppend(Matched(ms) + m.team1, m.team2);
    ElemsAppend(Matched(ms), m.team1);
  }

  /** No player is invented or duplicated: the matched players and the
      leftover together are a sub-multiset of the roster (only empty names,
      and in 1v1 the partner of an empty name, can be lost). */
  lemma PairFromConserves(mode: GameMode, players: seq<Name>)
    ensures multiset(Matched(PairFrom(mode, players).matches)) + multiset(PairFrom(mode, players).luckyPeople)
            <= multiset(players)
  {
    if mode == TwoVsTwo {
      TwoVsTwoConserves(players);
    } else {
      OneVsOneConserves(players);
    }
  }

  lemma {:induction false} TwoVsTwoConserves(players: seq<Name>)
    ensures multiset(Matched(PairFrom(TwoVsTwo, players).matches)) + multiset(PairFrom(TwoVsTwo, players).luckyPeople)
            <= multiset(players)
    decreases |players|
  {
    if |players| < 4 {
      assert Matched([]) == [];
    } else {
      var team1 := TruthyPair(players[0], players[1]);
      var team2 := TruthyPair(players[2], players[3]);
      assert multiset(players)
             == multiset([players[0], players[1]]) + multiset([players[2], players[3]]) + multiset(players[4..]) by {
        assert players == [players[0], players[1]] + [players[2], players[3]] + players[4..];
      }
      TruthyPairSub(players[0], players[1]);
      TruthyPairSub(players[2], players[3]);
      if |team1| == 2 && |team2| == 2 {
        var rest := PairFrom(TwoVsTwo, players[4..]);
        TwoVsTwoConserves(players[4..]);
        MatchedCons(GameMatch(team1, team2), rest.matches);
        assert PairFrom(TwoVsTwo, players) == Pairing([GameMatch(team1, team2)] + rest.matches, rest.luckyPeople);
      } else {
        assert PairFrom(TwoVsTwo, players) == Pairing([], players[4..] + team1 + team2);
        assert Matched([]) == [];
      }
    }
  }

  lemma {:induction false} OneVsOneConserves(players: seq<Name>)
    ensures multiset(Matched(PairFrom(OneVsOne, players).matches)) + multiset(PairFrom(OneVsOne, players).luckyPeople)
            <= multiset(players)
    decreases |players|
  {
    if |players| < 2 {
      assert Matched([]) == [];
    } else {
      var tail := players[2..];
      var drawn := [players[0], players[1]];
      OneVsOneConserves(tail);
      var rest := PairFrom(OneVsOne, tail);
      assert players == drawn + tail;
      OneVsOneDraw(players);
      if Named(players[0]) && Named(players[1]) {
        ConservedStep(drawn, tail, Matched(rest.matches), rest.luckyPeople);
      } else {
        DroppedStep(drawn, tail, Matched(rest.matches), rest.luckyPeople);
      }
    }
  }

  /** One 1v1 draw: a match of the two drawn players, or nothing. */
  lemma OneVsOneDraw(players: seq<Name>)
    requires |players| >= 2
    ensures var rest := PairFrom(OneVsOne, players[2..]);
            && PairFrom(OneVsOne, players).luckyPeople == rest.luckyPeople
            && Matched(PairFrom(OneVsOne, players).matches)
               == if Named(players[0]) && Named(players[1]) then [players[0], players[1]] + Matched(rest.matches)
                  else Matched(rest.matches)
  {
    OneVsOneUnfold(players);
    var rest := PairFrom(OneVsOne, players[2..]);
    if Named(players[0]) && Named(players[1]) {
      var m := GameMatch([players[0]], [players[1]]);
      MatchedCons(m, rest.matches);
      assert m.team1 + m.team2 == [players[0], players[1]];
    }
  }

  /** A drawn block that becomes a match keeps the count. */
  lemma ConservedStep(drawn: seq<Name>, tail: seq<Name>, matched: seq<Name>, lucky: seq<Name>)
    requires multiset(matched) + multiset(lucky) <= multiset(tail)
    ensures multiset(drawn + matched) + multiset(lucky) <= multiset(drawn + tail)
  {
  }

  /** A drawn block that is dropped only loses players. */
  lemma DroppedStep(drawn: seq<Name>, tail: seq<Name>, matched: seq<Name>, lucky: seq<Name>)
    requires multiset(matched) + multiset(lucky) <= multiset(tail)
    ensures multiset(matched) + multiset(lucky) <= multiset(drawn + tail)
  {
  }

  /** 2v2 loses no non-empty name: a drawn block either becomes a match or,
      with its empty names filtered out, is put back behind the leftover. */
  lemma {:induction false} TwoVsTwoKeepsNamed(players: seq<Name>)
    ensures forall x :: Named(x) ==>
              multiset(Matched(PairFrom(TwoVsTwo, players).matches))[x]
              + multiset(PairFrom(TwoVsTwo, players).luckyPeople)[x] == multiset(players)[x]
    decreases |players|
  {
    if |players| < 4 {
      assert Matched([]) == [];
    } else {
      var tail := players[4..];
      var pair1, pair2 := [players[0], players[1]], [players[2], players[3]];
      var team1, team2 := TruthyPair(players[0], players[1]), TruthyPair(players[2], players[3]);
      assert players == pair1 + pair2 + tail;
      TruthyPairSub(players[0], players[1]);
      TruthyPairSub(players[2], players[3]);
      TwoVsTwoUnfold(players);
      if |team1| == 2 && |team2| == 2 {
        var rest := PairFrom(TwoVsTwo, tail);
        TwoVsTwoKeepsNamed(tail);
        MatchedCons(GameMatch(team1, team2), rest.matches);
        assert Matched(PairFrom(TwoVsTwo, players).matches) == team1 + team2 + Matched(rest.matches);
      } else {
        assert Matched([]) == [];
        assert PairFrom(TwoVsTwo, players).luckyPeople == tail + team1 + team2;
      }
    }
  }

  /** 1v1 drops both drawn players when one name is empty, so a non-empty
      partner of an empty name is in neither a match nor the leftover. */
  lemma OneVsOneDropsPartner()
    ensures PairFrom(OneVsOne, ["", "a"]) == Pairing([], [])
  {
    OneVsOneUnfold(["", "a"]);
    assert ["", "a"][2..] == [];
  }

  /** With every name truthy nobody is lost: the matched players followed by
      the leftover are the roster, in order; there are `|players| / k`
      matches for blocks of `k`, and the leftover is the last
      `|players| % k` players. */
  lemma PairFromNamed(mode: GameMode, players: seq<Name>)
    requires AllNamed(players)
    ensures Matched(PairFrom(mode, players).matches) + PairFrom(mode, players).luckyPeople == players
    ensures |PairFrom(mode, players).matches| == |players| / PlayersPerMatch(mode)
    ensures PairFrom(mode, players).luckyPeople == players[|players| - |players| % PlayersPerMatch(mode)..]
  {
    var r := PairFrom(mode, players);
    if mode == TwoVsTwo {
      TwoVsTwoNamed(players);
    } else {
      OneVsOneNamed(players);
    }
    var k := PlayersPerMatch(mode);
    QuotientAndRemainder(|players|, k, |r.matches|, |r.luckyPeople|);
    assert players[|Matched(r.matches)|..] == r.luckyPeople;
  }

  /** `n = k * q + rem` with `0 <= rem < k` determines quotient and remainder. */
  lemma QuotientAndRemainder(n: nat, k: nat, q: nat, rem: nat)
    requires k == 2 || k == 4
    requires n == k * q + rem && rem < k
    ensures q == n / k && rem == n % k
  {
  }

  lemma {:induction false} TwoVsTwoNamed(players: seq<Name>)
    requires AllNamed(players)
    ensures Matched(PairFrom(TwoVsTwo, players).matches) + PairFrom(TwoVsTwo, players).luckyPeople == players
    ensures |Matched(PairFrom(TwoVsTwo, players).matches)| == 4 * |PairFrom(TwoVsTwo, players).matches|
    ensures |PairFrom(TwoVsTwo, players).luckyPeople| < 4
    decreases |players|
  {
    if |players| < 4 {
      assert Matched([]) == [];
    } else {
      assert Named(players[0]) && Named(players[1]) && Named(players[2]) && Named(players[3]);
      var tail := players[4..];
      AllNamedSuffix(players, 4);
      TwoVsTwoNamed(tail);
      var rest := PairFrom(TwoVsTwo, tail);
      var block := [players[0], players[1]] + [players[2], players[3]];
      var m := GameMatch([players[0], players[1]], [players[2], players[3]]);
      TwoVsTwoUnfold(players);
      assert PairFrom(TwoVsTwo, players) == Pairing([m] + rest.matches, rest.luckyPeople);
      MatchedCons(m, rest.matches);
      AppendAssoc(block, Matched(rest.matches), rest.luckyPeople);
      assert block + tail == players;
    }
  }

  lemma {:induction false} OneVsOneNamed(players: seq<Name>)
    requires AllNamed(players)
    ensures Matched(PairFrom(OneVsOne, players).matches) + PairFrom(OneVsOne, players).luckyPeople == players
    ensures |Matched(PairFrom(OneVsOne, players).matches)| == 2 * |PairFrom(OneVsOne, players).matches|
    ensures |PairFrom(OneVsOne, players).luckyPeople| < 2
    decreases |players|
  {
    if |players| < 2 {
      assert Matched([]) == [];
    } else {
      assert Named(players[0]) && Named(players[1]);
      var tail := players[2..];
      AllNamedSuffix(players, 2);
      OneVsOneNamed(tail);
      var rest := PairFrom(OneVsOne, tail);
      var block := [players[0]] + [players[1]];
      var m := GameMatch([players[0]], [players[1]]);
      OneVsOneUnfold(players);
      assert PairFrom(OneVsOne, players) == Pairing([m] + rest.matches, rest.luckyPeople);
      MatchedCons(m, rest.matches);
      AppendAssoc(block, Matched(rest.matches), rest.luckyPeople);
      assert block + tail == players;
    }
  }

  /** 2v2 with truthy names: match `m` is players `4m, 4m+1` against
      `4m+2, 4m+3`. */
  lemma {:induction false} TwoVsTwoBlocks(players: seq<Name>, m: nat)
    requires AllNamed(players)
    requires m < |PairFrom(TwoVsTwo, players).matches|
    ensures 4 * m + 4 <= |players|
    ensures PairFrom(TwoVsTwo, players).matches[m]
            == GameMatch([players[4 * m], players[4 * m + 1]], [players[4 * m + 2], players[4 * m + 3]])
    decreases m
  {
    assert |players| >= 4;
    assert Named(players[0]) && Named(players[1]) && Named(players[2]) && Named(players[3]);
    var rest := PairFrom(TwoVsTwo, players[4..]);
    assert PairFrom(TwoVsTwo, players).matches
           == [GameMatch([players[0], players[1]], [players[2], players[3]])] + rest.matches;
    if m > 0 {
      AllNamedSuffix(players, 4);
      TwoVsTwoBlocks(players[4..], m - 1);
      assert players[4..][4 * (m - 1)] == players[4 * m];
      assert players[4..][4 * (m - 1) + 1] == players[4 * m + 1];
      assert players[4..][4 * (m - 1) + 2] == players[4 * m + 2];
      assert players[4..][4 * (m - 1) + 3] == players[4 * m + 3];
    }
  }

  /** 1v1 with truthy names: match `m` is player `2m` against player `2m+1`. */
  lemma {:induction false} OneVsOneBlocks(players: seq<Name>, m: nat)
    requires AllNamed(players)
    requires m < |PairFrom(OneVsOne, players).matches|
    ensures 2 * m + 2 <= |players|
    ensures PairFrom(OneVsOne, players).matches[m] == GameMatch([players[2 * m]], [players[2 * m + 1]])
    decreases m
  {
    AllNamedSuffix(players, 2);
    if m > 0 {
      OneVsOneBlocks(players[2..], m - 1);
    }
  }

  /** In a distinct, truthy roster nobody who played is also left over. */
  lemma MatchedDisjointFromLeftover(mode: GameMode, players: seq<Name>)
    requires Distinct(players)
    ensures Elems(Matched(PairFrom(mode, players).matches)) !! Elems(PairFrom(mode, players).luckyPeople)
  {
    var matched, lucky := Matched(PairFrom(mode, players).matches), PairFrom(mode, players).luckyPeople;
    PairFromConserves(mode, players);
    forall x | x in matched
      ensures x !in lucky
    {
      DistinctCount(players, x);
      assert multiset(matched)[x] >= 1;
      assert multiset(lucky)[x] <= multiset(players)[x] - multiset(matched)[x];
    }
  }


  /** The loop's invariant: the matches made so far, followed by what the
      rest of the working copy will still give, are what the whole roster
      gives, and so is the final leftover. */
  ghost predicate PairedSoFar(mode: GameMode, availablePlayers: seq<Name>, matches: seq<GameMatch>, players: seq<Name>)
  {
    && matches + PairFrom(mode, players).matches == PairFrom(mode, availablePlayers).matches
    && PairFrom(mode, players).luckyPeople == PairFrom(mode, availablePlayers).luckyPeople
  }

  lemma TwoVsTwoUnfold(drawn: seq<Name>)
    requires |drawn| >= 4
    ensures var team1, team2 := TruthyPair(drawn[0], drawn[1]), TruthyPair(drawn[2], drawn[3]);
            var rest := PairFrom(TwoVsTwo, drawn[4..]);
            PairFrom(TwoVsTwo, drawn)
            == if |team1| == 2 && |team2| == 2
               then Pairing([GameMatch(team1, team2)] + rest.matches, rest.luckyPeople)
               else Pairing([], drawn[4..] + team1 + team2)
  {
  }

  lemma OneVsOneUnfold(drawn: seq<Name>)
    requires |drawn| >= 2
    ensures var rest := PairFrom(OneVsOne, drawn[2..]);
            PairFrom(OneVsOne, drawn)
            == if Named(drawn[0]) && Named(drawn[1])
               then Pairing([GameMatch([drawn[0]], [drawn[1]])] + rest.matches, rest.luckyPeople)
               else rest
  {
  }

  lemma MatchStep(mode: GameMode, availablePlayers: seq<Name>, matches: seq<GameMatch>,
                  drawn: seq<Name>, m: GameMatch, rest: seq<Name>)
    requires PairedSoFar(mode, availablePlayers, matches, drawn)
    requires PairFrom(mode, drawn) == Pairing([m] + PairFrom(mode, rest).matches, PairFrom(mode, rest).luckyPeople)
    ensures PairedSoFar(mode, availablePlayers, matches + [m], rest)
  {
    assert (matches + [m]) + PairFrom(mode, rest).matches == matches + ([m] + PairFrom(mode, rest).matches);
  }

  /** The pairing loop: repeatedly shifts one block off a working copy of the
      roster, records the match and adds its players to `usedPlayers`; what
      is still in the working copy at the end is `luckyPeople`. */
  method GenerateGameMatches(mode: GameMode, availablePlayers: seq<Name>)
    returns (matches: seq<GameMatch>, luckyPeople: seq<Name>, usedPlayers: set<Name>)
    ensures Pairing(matches, luckyPeople) == PairFrom(mode, availablePlayers)
    ensures usedPlayers == Elems(Matched(matches))
    ensures AllNamed(availablePlayers) ==> Matched(matches) + luckyPeople == availablePlayers
  {
    matches, usedPlayers := [], {};
    var players := availablePlayers;
    var playersPerMatch := PlayersPerMatch(mode);
    while |players| >= playersPerMatch
      invariant PairedSoFar(mode, availablePlayers, matches, players)
      invariant usedPlayers == Elems(Matched(matches))
      decreases |players|
    {
      ghost var drawn := players;
      if mode == TwoVsTwo {
        var team1 := TruthyPair(players[0], players[1]);
        players := players[2..];
        var team2 := TruthyPair(players[0], players[1]);
        players := players[2..];
        TwoVsTwoUnfold(drawn);
        assert team1 == TruthyPair(drawn[0], drawn[1]) && team2 == TruthyPair(drawn[2], drawn[3]);
        assert players == drawn[4..];
        if |team1| == 2 && |team2| == 2 {
          var m := GameMatch(team1, team2);
          MatchStep(mode, availablePlayers, matches, drawn, m, players);
          UsedSnoc(matches, m);
          matches := matches + [m];
          usedPlayers := usedPlayers + Elems(team1) + Elems(team2);
        } else {
          players := players + team1 + team2;
          assert matches + [] == matches;
          break;
        }
      } else {
        var player1 := players[0];
        var player2 := players[1];
        players := players[2..];
        OneVsOneUnfold(drawn);
        assert players == drawn[2..];
        if Named(player1) && Named(player2) {
          var m := GameMatch([player1], [player2]);
          MatchStep(mode, availablePlayers, matches, drawn, m, players);
          UsedSnoc(matches, m);
          assert Elems([player1]) + Elems([player2]) == {player1, player2};
          matches := matches + [m];
          usedPlayers := usedPlayers + {player1, player2};
        }
      }
    }
    luckyPeople := players;
    if AllNamed(availablePlayers) {
      PairFromNamed(mode, availablePlayers);
    }
  }
}
