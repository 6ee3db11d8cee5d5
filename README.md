# Friday fun roster picker — a Dafny model

The roster picker is a small web page that, once a week, splits a list of
people into random groups ("general" tab) or into random matches for chess
(one against one) and for carrom and badminton (two against two). Under the
React interface sits a little roster-partitioning logic, and that is what
this project models and proves:

- `Roster` — names, JavaScript truthiness of a name (only `""` is falsy),
  the set of names of a roster, and the left-to-right scan that skips names
  already used (`Unseen`, `Dedup`).
- `Shuffle` — the Fisher–Yates `shuffleArray`. The random partner index is an
  arbitrary choice in `0..i`; a ghost trace of the choices pins the result down
  as `Shuffled(input, picks)`, a permutation of the input.
- `Grouping` — the nested grouping loop of `generatePairs` (used in the same
  form by the page and by the hook). Its result is proved equal to the
  block split (`Chunks`/`Leftover`) of the roster's first occurrences. Names
  are kept distinct, and for a distinct roster the groups followed by the
  remainder are the roster itself.
- `Matches` — `generateGameMatches`, the `shift`ing `while` loop, by game
  mode. It is proved equal to the recursive `PairFrom`. With non-empty names,
  match `m` takes positions `4m..4m+3` (or `2m, 2m+1`), and the leftover is
  the last `n mod 4` (or `n mod 2`) players.
- `Page` — what the page adds: the roster per game, the eligible speakers,
  the mode by game name, the clamp of the group-size input, and one round
  of `generatePairs`.
- `GameGenerator` — the `useGameGenerator` hook: the two guards (no group
  size, empty roster), `pairSize || 2`, the mode taken from the game's
  stored state, and the flattened `newPairs`.
- `CricketMatch` — the split of the reserves at the rounded-up half.

The page and the hook are imperative and are modelled as methods with loops
(`ShuffleArray` over an `array`, `GroupPlayers`/`CollectGroup`,
`GenerateGameMatches`). Each is proved against a specification function whose
properties are proved as lemmas. The reserve split is a pure function.

## Model

| member | source | states |
|---|---|---|
| Roster.TruthyPair | app/page.tsx:87-88 | `[a, b].filter(Boolean)` keeps exactly the non-empty names, in order: one entry per non-empty name, `a` first when non-empty, `b` last when non-empty; it has two members exactly when both names are non-empty, and then it is `[a, b]` |
| Roster.TruthyPairSub | app/page.tsx:87-88 | the filter's multiset is that of `[a, b]` with `""` removed: every non-empty name keeps its count |
| Roster.UnseenElems | app/page.tsx:137-147 | scanning while skipping used names takes exactly the names not yet used, each once |
| Roster.DedupElems | app/page.tsx:136-156 | the first occurrences hold exactly the names of the roster, without repetition |
| Roster.DedupOfDistinct | app/page.tsx:136-156 | on a roster without repeated names the skip-used scan takes every name, in order |
| Roster.UnseenSkipsSeen | app/page.tsx:142-148 | a stretch of names already used contributes nothing to the scan |
| Shuffle.Swap | app/page.tsx:31 | the destructuring swap exchanges positions `i` and `j`, leaves every other position alone and keeps the multiset |
| Shuffle.ShuffledIsPermutation | app/page.tsx:27-34 | whatever partners are drawn, the shuffled roster is a permutation of the input |
| Shuffle.ShuffledSnoc | app/page.tsx:29-31 | one more swap at index `n-1-k` with a partner no higher than it extends a valid trace |
| Shuffle.ShuffleArray | app/page.tsx:27-34 | `i` runs from the last index down to 1 (one draw per step, `|picks| = n-1`), every partner satisfies `0 <= j <= i`, the result is the input with those swaps applied and has the input's multiset; the input array is only read |
| Grouping.ChunksReassemble | app/page.tsx:150-153 | the full blocks followed by the leftover give back the roster in order, each block has exactly `k` names, the leftover fewer than `k` |
| Grouping.ChunksUnique | app/page.tsx:136-156 | any split into full blocks of `k` followed by fewer than `k` names is the block split |
| Grouping.GroupsDisjoint | app/page.tsx:137-147 | cutting a distinct roster into groups and a remainder places no name twice |
| Grouping.GroupedDisjoint | app/page.tsx:137-147 | for every roster (duplicates included) the groups are pairwise disjoint, each is free of repeats and none shares a name with `remaining` |
| Grouping.GroupedOf | app/page.tsx:150-154 | a split of the first occurrences into full groups and a short remainder is the intended grouping |
| Grouping.UnseenStep | app/page.tsx:143 | visiting one position of the scan either skips a used name or takes and marks it |
| Grouping.CollectGroup | app/page.tsx:138-148 | starting from an unused name, the inner loop takes the next unused names in roster order, marks exactly those as used, takes between 1 and `pairSize`, and stops short only when no unused name is left |
| Grouping.CollectNext | app/page.tsx:142-148 | one inner-loop step takes and marks an unused name, or passes over a used one, and keeps the inner loop's invariant |
| Grouping.SkipStep | app/page.tsx:137 | a later copy of a used name is skipped and lands neither in a group nor in `remaining` |
| Grouping.CommitStep | app/page.tsx:150-151 | a group of exactly `pairSize` is committed and keeps the loop invariant |
| Grouping.DeferStep | app/page.tsx:152-153 | a short group goes to `remaining`, which then holds the last names of the scan |
| Grouping.GroupPlayers | app/page.tsx:132-156 | the result is the block split of the first occurrences; every group has `pairSize` names; `remaining` fewer; groups then `remaining` spell the first occurrences, and for a distinct roster the roster itself; `used` is exactly the roster's names |
| Matches.PairFromShape | hooks/useGameGenerator.ts:42-64 | every team holds `TeamSize` non-empty names (1 in 1v1, 2 in 2v2); a 1v1 leftover has fewer than 2 players; with non-empty names the leftover has fewer than `playersPerMatch` |
| Matches.PairFromConserves | app/page.tsx:84-115 | matched players and leftover together never hold more of any name than the roster (the multiset of matched players plus leftover is contained in the roster's) |
| Matches.PairFromNamed | app/page.tsx:82-115 | with non-empty names the matches followed by the leftover are the roster in order, there are `n / playersPerMatch` matches and the leftover is the last `n mod playersPerMatch` players |
| Matches.TwoVsTwoBlocks | app/page.tsx:85-93 | with non-empty names 2v2 match `m` is `team1 = [p[4m], p[4m+1]]`, `team2 = [p[4m+2], p[4m+3]]` |
| Matches.OneVsOneBlocks | app/page.tsx:100-111 | with non-empty names 1v1 match `m` is `[p[2m]]` against `[p[2m+1]]` |
| Matches.MatchedDisjointFromLeftover | app/page.tsx:90-115 | with distinct names (an empty name included) no matched player is also lucky |
| Matches.TwoVsTwoKeepsNamed | app/page.tsx:85-97 | in 2v2 only empty names are lost: every non-empty name occurs in the matches plus the leftover exactly as often as in the roster |
| Matches.OneVsOneDropsPartner | app/page.tsx:101-111 | in 1v1 a draw of an empty name and a non-empty one drops both: `["", "a"]` gives no match and no leftover |
| Matches.MatchedSnoc | app/page.tsx:91 | pushing a match appends its teams to the matched players |
| Matches.UsedSnoc | app/page.tsx:92-93 | adding a match's teams to `used` adds exactly their names |
| Matches.OneVsOneDraw | app/page.tsx:101-111 | one 1v1 draw matches the two drawn players when both names are non-empty and otherwise drops both; the leftover is unaffected |
| Matches.NewPairsFlatten | hooks/useGameGenerator.ts:119 | flattening `newPairs` gives exactly the matched players, match by match, team 1 before team 2 |
| Matches.GenerateGameMatches | hooks/useGameGenerator.ts:35-65 | the loop computes `PairFrom(mode, players)`, including the 2v2 break that puts the drawn non-empty names back; `usedPlayers` is exactly the set of matched players; with non-empty names matches and leftover are the roster |
| Page.EligibleSpeakers | app/page.tsx:12-13 | the eligible speakers are non-empty, are the speakers' names minus `""`, hold every non-empty speaker exactly as often as the speakers do (the speakers' multiset without `""`), and are the speakers themselves when none is empty |
| Page.GetPlayersForGame | app/page.tsx:36-48 | the result is a shuffle (same multiset) of the chess, carrom or badminton list, or of the eligible speakers for any other game, in which case every name is non-empty |
| Page.GenerateGameMatches | app/page.tsx:77-116 | the page's pairing is the hook's with the mode chosen by game name; with non-empty names the leftover has `n mod 4` players for carrom and badminton, `n mod 2` otherwise |
| Page.ClampPairSize | app/page.tsx:410 | the stored group size is always at least 2; a parsed value of 2 or more is kept, anything else (NaN, 0, 1, negatives) becomes 2 |
| Page.GeneratePairs | app/page.tsx:118-170 | the general tab groups a shuffle of the eligible speakers by `pairSize` and marks exactly the non-empty speakers as used; a game tab pairs a shuffle of its roster and marks exactly the matched players |
| GameGenerator.GeneratePairs | hooks/useGameGenerator.ts:67-129 | general mode without a truthy `pairSize` is refused before anything is drawn; otherwise an empty roster stops the round; general mode groups the shuffled speakers (committed groups of `pairSize`, shorter remainder, each name once, used = the non-empty speakers, `newPairs` = the groups); a game is paired in its stored mode, `newPairs` is the flattened matches and `usedPlayers` their names, and with non-empty names `newPairs` then the leftover spell the shuffled roster |
| CricketMatch.MidPoint | components/CricketMatch.tsx:12 | `Math.ceil(n / 2)` is the least `m` with `2m >= n` |
| CricketMatch.SplitReserves | components/CricketMatch.tsx:12-14 | team 1's reserves followed by team 2's are the reserves; team 1 gets `ceil(n/2)`, team 2 `floor(n/2)`, so team 1 never has fewer and at most one more; team 1's share is empty only for no reserves, team 2's only for at most one |
| CricketMatch.ShowReserves | components/CricketMatch.tsx:126 | the reserves block shows exactly when team 1 has reserves; when it is hidden both halves are empty |

## Left out

- React state (`useState`, `setGameState` merging, `setPairs` and the other setters) is left to the caller: a round is returned as a value (`Page.Round`, `GameGenerator.Outcome`).
- The `isGenerating` flags are not modelled. In the hook, an empty roster returns after the flag was set, so the flag stays on; the model only reports `NoPlayers`.
- `setTimeout` delays and the race between overlapping generate requests are not modelled; a round is one atomic step.
- `Math.random` is not modelled as a floating-point source. The partner index is an arbitrary choice in `0..i`, so the model says nothing about how uniform the shuffle is.
- `pickRandomSpeaker` is not modelled: it makes one random pick with no logic beyond the index bound.
- Toast messages and the `luckyCount` computation are not modelled; they only affect interface text.
- Rendering and animation (the JSX of app/page.tsx and components/CricketMatch.tsx, and components/GameMatches.tsx, LuckyPeople.tsx, GameIcon.tsx, LoadingSpinner.tsx, SlotMachine.tsx) are not modelled.
- The player lists (`app/players`) are not part of this model; they are a parameter (`Page.Rosters`).
- `lib/utils` (the hook's `shuffleArray`) is not part of this model; the hook is modelled with the page's shuffle.
- The hook looks up `gameStates[game].gameMode`; the model takes that mode as a parameter and does not model a game with no stored state.
- GameGenerator.GeneratePairs: `pairSize` is an integer or absent (`null`, `NaN`); fractional sizes are not modelled.
- Page.GeneratePairs: the page's `pairSize` is any integer here, although the clamp keeps it at 2 or more; the grouping is proved for every size, and a size below 1 commits no group.
- 1v1 pairing loses the non-empty partner of an empty name (`player1 && player2` drops both drawn players), so `Matches.PairFromConserves` only bounds what is kept; `Matches.OneVsOneDropsPartner` exhibits the loss, and `Matches.TwoVsTwoKeepsNamed` states that 2v2 loses only empty names.
- Grouping.CollectGroup: the inner `for` loop is a method of its own, called by `GroupPlayers`; it runs the same steps.
