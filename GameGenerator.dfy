/** The `useGameGenerator` hook (hooks/useGameGenerator.ts): the same round
    generation as the page, behind two guards, with the mode of a game taken
    from its stored state and the matches flattened into `newPairs`. */
module GameGenerator {
  import opened Roster
  import opened Grouping
  import opened Matches
  import opened Page

  /** JavaScript truthiness of the hook's `pairSize: number | null`. `None`
      stands for `null` and for `NaN`; `0` is falsy as well. */
  predicate PairSizeGiven(pairSize: Option<int>)
  {
    pairSize.Some? && pairSize.value != 0
  }

  /** `pairSize || 2`. */
  function GroupSize(pairSize: Option<int>): int
  {
    if PairSizeGiven(pairSize) then pairSize.value else 2
  }

  /** How `generatePairs` ends: refused for want of a group size, stopped
      because the roster is empty, or a round with its flattened groups. */
  datatype Outcome =
    | InvalidGroupSize
    | NoPlayers
    | Generated(round: Round, newPairs: seq<seq<Name>>)

  /** `generatePairs` of the hook. `mode` is `gameStates[game].gameMode`. */
  method GeneratePairs(game: string, mode: GameMode, pairSize: Option<int>, rosters: Rosters)
    returns (outcome: Outcome, availablePlayers: seq<Name>)
    ensures outcome == InvalidGroupSize <==> game == "general" && !PairSizeGiven(pairSize)
    ensures outcome == InvalidGroupSize ==> availablePlayers == []
    ensures outcome == NoPlayers <==>
              !(game == "general" && !PairSizeGiven(pairSize)) && RosterFor(game, rosters) == []
    ensures outcome != InvalidGroupSize ==> multiset(availablePlayers) == multiset(RosterFor(game, rosters))
    ensures outcome.Generated? && game == "general" ==>
              && outcome.round.GeneralRound?
              && outcome.newPairs == outcome.round.pairs
              && Partition(outcome.round.pairs, outcome.round.luckyPeople)
                   == Grouped(availablePlayers, GroupSize(pairSize))
              && AllOfSize(outcome.newPairs, pairSize.value)
              && (pairSize.value >= 1 ==> |outcome.round.luckyPeople| < pairSize.value)
              && Flatten(outcome.newPairs) + outcome.round.luckyPeople == Dedup(availablePlayers)
              && outcome.round.usedPlayers == Elems(rosters.speakers) - {""}
    ensures outcome.Generated? && game != "general" ==>
              && outcome.round.GameRound?
              && Pairing(outcome.round.matches, outcome.round.luckyPeople) == PairFrom(mode, availablePlayers)
              && outcome.newPairs == NewPairs(outcome.round.matches)
              && outcome.round.usedPlayers == Elems(Flatten(outcome.newPairs))
    ensures outcome.Generated? && game != "general" && AllNamed(availablePlayers) ==>
              Flatten(outcome.newPairs) + outcome.round.luckyPeople == availablePlayers
  {
    if !PairSizeGiven(pairSize) && game == "general" {
      return InvalidGroupSize, [];
    }
    ghost var picks;
    availablePlayers, picks := GetPlayersForGame(game, rosters);
    if |availablePlayers| == 0 {
      return NoPlayers, availablePlayers;
    }
    if game == "general" {
      var size := GroupSize(pairSize);
      var groups, remaining, used := GroupPlayers(availablePlayers, size);
      outcome := Generated(GeneralRound(groups, remaining, used), groups);
      MultisetElems(availablePlayers, RosterFor(game, rosters));
    } else {
      var matches, luckyPeople, usedPlayers := Matches.GenerateGameMatches(mode, availablePlayers);
      outcome := Generated(GameRound(matches, luckyPeople, usedPlayers), NewPairs(matches));
      NewPairsFlatten(matches);
    }
  }
}
