/** The roster picker page (app/page.tsx): which roster a game draws from,
    the group-size input, and one round of generation for the general tab
    or a game tab. The page's React state is left to the caller: a round is
    returned as a value. */
module Page {
  import opened Roster
  import opened Shuffle
  import opened Grouping
  import opened Matches

  /** The four player lists the page imports. Their contents are data, so
      they are a parameter of the model. */
  datatype Rosters = Rosters(speakers: seq<Name>, chessPlayers: seq<Name>,
                             carromPlayers: seq<Name>, badmintonPlayers: seq<Name>)

  /** `speakers.filter(s => !excludedSpeakers.includes(s))` with
      `excludedSpeakers == [""]`: the speakers in order, without empty names. */
  function EligibleSpeakers(speakers: seq<Name>): (r: seq<Name>)
    ensures AllNamed(r)
    ensures Elems(r) == Elems(speakers) - {""}
    ensures multiset(r) == multiset(speakers)["" := 0]
    ensures AllNamed(speakers) ==> r == speakers
    decreases |speakers|
  {
    if speakers == [] then []
    else
      var rest := EligibleSpeakers(speakers[1..]);
      ElemsCons(speakers);
      assert speakers == [speakers[0]] + speakers[1..];
      if speakers[0] == "" then rest
      else
        ElemsCons([speakers[0]] + rest);
        assert ([speakers[0]] + rest)[1..] == rest;
        [speakers[0]] + rest
  }

  /** The roster `getPlayersForGame` starts from: the chess, carrom or
      badminton list for those games, the eligible speakers for any other. */
  function RosterFor(game: string, rosters: Rosters): seq<Name>
  {
    match game
    case "chess" => rosters.chessPlayers
    case "carrom" => rosters.carromPlayers
    case "badminton" => rosters.badmintonPlayers
    case _ => EligibleSpeakers(rosters.speakers)
  }

  /** `getPlayersForGame`: a shuffled copy of the game's roster. */
  method GetPlayersForGame(game: string, rosters: Rosters)
    returns (players: seq<Name>, ghost picks: seq<nat>)
    ensures SwapTrace(|RosterFor(game, rosters)|, picks)
    ensures players == Shuffled(RosterFor(game, rosters), picks)
    ensures multiset(players) == multiset(RosterFor(game, rosters))
    ensures game !in {"chess", "carrom", "badminton"} ==> AllNamed(players)
  {
    var roster := RosterFor(game, rosters);
    var copy := new Name[|roster|](k requires 0 <= k < |roster| => roster[k]);
    assert copy[..] == roster;
    players, picks := ShuffleArray(copy);
    if game !in {"chess", "carrom", "badminton"} {
      forall k | 0 <= k < |players|
        ensures Named(players[k])
      {
        assert players[k] in multiset(roster);
      }
    }
  }

  /** The page plays carrom and badminton two against two, anything else one
      against one. */
  function ModeForGame(game: string): GameMode
  {
    if game == "carrom" || game == "badminton" then TwoVsTwo else OneVsOne
  }

  /** The page's `generateGameMatches`, which picks the mode by game name. */
  method GenerateGameMatches(game: string, availablePlayers: seq<Name>)
    returns (matches: seq<GameMatch>, luckyPeople: seq<Name>, usedPlayers: set<Name>)
    ensures Pairing(matches, luckyPeople) == PairFrom(ModeForGame(game), availablePlayers)
    ensures usedPlayers == Elems(Matched(matches))
    ensures AllNamed(availablePlayers) ==> Matched(matches) + luckyPeople == availablePlayers
    ensures AllNamed(availablePlayers) ==>
              |luckyPeople| == |availablePlayers| % (if game == "carrom" || game == "badminton" then 4 else 2)
  {
    matches, luckyPeople, usedPlayers := Matches.GenerateGameMatches(ModeForGame(game), availablePlayers);
    if AllNamed(availablePlayers) {
      PairFromNamed(ModeForGame(game), availablePlayers);
    }
  }

  /** `Math.max(2, Number.parseInt(value) || 2)`: `None` is a parse that gave
      `NaN`; a parsed `0` is falsy too. */
  function ClampPairSize(parsed: Option<int>): (size: int)
    ensures size >= 2
    ensures parsed.Some? && parsed.value >= 2 ==> size == parsed.value
    ensures !(parsed.Some? && parsed.value >= 2) ==> size == 2
  {
    var n := if parsed.Some? && parsed.value != 0 then parsed.value else 2;
    if n > 2 then n else 2
  }

  /** What one round of `generatePairs` produces. */
  datatype Round =
    | GeneralRound(pairs: seq<seq<Name>>, luckyPeople: seq<Name>, usedPlayers: set<Name>)
    | GameRound(matches: seq<GameMatch>, luckyPeople: seq<Name>, usedPlayers: set<Name>)

  /** The page's `generatePairs` once its timer fires: the general tab groups
      the shuffled eligible speakers by `pairSize`; a game tab pairs the
      shuffled game roster into matches. */
  method GeneratePairs(game: string, pairSize: int, rosters: Rosters)
    returns (round: Round, availablePlayers: seq<Name>)
    ensures multiset(availablePlayers) == multiset(RosterFor(game, rosters))
    ensures game == "general" ==>
              && round.GeneralRound?
              && Partition(round.pairs, round.luckyPeople) == Grouped(availablePlayers, pairSize)
              && AllOfSize(round.pairs, pairSize)
              && (pairSize >= 1 ==> |round.luckyPeople| < pairSize)
              && round.usedPlayers == Elems(rosters.speakers) - {""}
    ensures game != "general" ==>
              && round.GameRound?
              && Pairing(round.matches, round.luckyPeople) == PairFrom(ModeForGame(game), availablePlayers)
              && round.usedPlayers == Elems(Matched(round.matches))
  {
    ghost var picks;
    availablePlayers, picks := GetPlayersForGame(game, rosters);
    if game == "general" {
      var groups, remaining, used := GroupPlayers(availablePlayers, pairSize);
      round := GeneralRound(groups, remaining, used);
      MultisetElems(availablePlayers, RosterFor(game, rosters));
    } else {
      var matches, luckyPeople, usedPlayers := GenerateGameMatches(game, availablePlayers);
      round := GameRound(matches, luckyPeople, usedPlayers);
    }
  }

  /** Rosters with the same multiset hold the same names. */
  lemma MultisetElems(a: seq<Name>, b: seq<Name>)
    requires multiset(a) == multiset(b)
    ensures Elems(a) == Elems(b)
  {
    forall x ensures x in a <==> x in b {
      assert x in a <==> x in multiset(a);
      assert x in b <==> x in multiset(b);
    }
  }
}
