# Tennis match scheduler: a Dafny model of both engines

The repository schedules a tennis subscription. A roster of players meets over a
season of weekly dates. Each date has a fixed number of courts. A match is two
players on one court, or one player and a bye. Players name the dates they cannot
play. A local search then improves the generated schedule against a fairness score.

The repository holds two generations of the engine, and both are modelled.

**The current engine (`src/matchscheduler/`).** Players are indices into the
roster.
- `Matches` covers the canonical match tuple: `create_match`, `can_match_be_added`,
  `get_players_of_match` and `replace_player_in_match`.
- `Indices` covers the two coordinate lookups of `schedule.py`.
- `Rounds` collects what the season needs about one round's list of matches:
  - its set of real players (`get_players_of_round`);
  - the player swap, match by match;
  - the exchange of two slots.
- `Generation` holds the weekly date loop, the greedy full round, the shuffled
  partial round and the per-date schedule generation.
- `Seasons.Season` is a class whose `schedule` field the guarded operations
  overwrite in place and restore on failure. It also holds the `to_dict`/`from_dict`
  round trip of the schedule.
- `Optimizers.Optimizer` is a class holding the hill-climb and its three moves:
  - Move A re-pairs a slot with every roster pair;
  - Move B swaps two players between two matches of a round;
  - Move C exchanges two slots, visited in shuffled order.

  Each move is kept only when the abstract score strictly drops. The outer loop
  runs until a whole pass accepts nothing. The schedule it stops at is proved to be
  a local optimum of all three moves.

**The earlier engine (`matchscheduler/`).** It is object based.
- `LegacyMatches` builds the validating `Match` constructor, `Match.__str__` and
  the generator of every admissible pair.
- `LegacyRounds.Round` is a class. Its swap operations overwrite its match list
  in place and restore it before raising. The module also holds the greedy
  `RoundFactory`.
- `LegacySchedules.Schedule` is a class that owns its rounds. It provides:
  - validity;
  - the filtering getters;
  - `swap_matches`, which reverts both slots after a failure;
  - `ScheduleFactory`.

**Shared modelling choices.**
- Dates are day numbers (`int`).
- Each `random.shuffle` is an arbitrary permutation supplied by the caller, together
  with a draw counter (`Randomness.IsShuffler`).
- The score is an abstract function from schedules to `nat`.
- Raised exceptions become `Result` failures. On those paths the model states the
  schedule or round that the exception leaves behind.

## Model

| member | source | states |
|---|---|---|
| Matches.Canonical | src/matchscheduler/match.py:13-21 | the tuple shape `create_match` returns: a bye in the second slot, or the smaller id first |
| Matches.Members | src/matchscheduler/match.py:30-31 | the real players of a match as a set: both ids of a game, the first id alone for a bye |
| Matches.CreateMatch | src/matchscheduler/match.py:13-21 | fails exactly when both ids are the same player; otherwise canonical (smaller id first), keeps the bye, and holds exactly the given players |
| Matches.CanonicalUnique | src/matchscheduler/match.py:19-21 | two canonical matches with the same players and the same bye status are equal |
| Matches.CreateMatchSymmetric | src/matchscheduler/match.py:19-21 | for different ids, `create_match(a, b)` and `create_match(b, a)` both succeed and are equal |
| Matches.CreateMatchIdempotent | src/matchscheduler/match.py:15-21 | rebuilding a canonical match from its own two slots gives it back unchanged |
| Matches.Slots | src/matchscheduler/match.py:26 | the values `for p in match` iterates: the first id, then the second slot, `None` for a bye |
| Matches.SharesSlot | src/matchscheduler/match.py:26 | the inner `p in r` of `can_match_be_added` for one listed match: some slot value of the candidate, `None` included, is a slot value of it |
| Matches.CanMatchBeAdded | src/matchscheduler/match.py:25-26 | true iff no listed match shares a player with the candidate and the two are not both byes (the `None` slot counts); true on the empty list |
| Matches.PlayersOf | src/matchscheduler/match.py:30-31 | the real players in slot order, the first always present, the second exactly when it is not a bye |
| Matches.ReplacePlayerInMatch | src/matchscheduler/match.py:40-44 | an absent player gives `(match, False)`; otherwise a canonical match with the outgoing player replaced by the incoming one, flagged `True`, failing only when the incoming player is the other slot |
| Matches.ReplaceTwiceRestores | src/matchscheduler/match.py:40-44 | replacing a player and then replacing it back restores the original match |
| Indices.SlotsWhere | src/matchscheduler/schedule.py:16-17 | row-major slots of one round, exactly those from `mi` on whose match passes the filter |
| Indices.CoordsWhere | src/matchscheduler/schedule.py:13-18 | row-major coordinates, exactly the in-bounds ones from round `ri` on whose match passes the filter |
| Indices.MatchIndicesOfPlayer | src/matchscheduler/schedule.py:10-18 | exactly the in-bounds coordinates whose match contains the player (a bye match included), in row-major order |
| Indices.MatchIndicesOfMatch | src/matchscheduler/schedule.py:22-30 | exactly the in-bounds coordinates whose match equals the argument, in row-major order |
| Indices.RowMajorRoundsMonotone | src/matchscheduler/schedule.py:13-18 | along a row-major coordinate list the round index never decreases, and later entries come strictly after earlier ones |
| Indices.PlayerRoundsStrictlyIncrease | src/matchscheduler/schedule.py:13-18 | if each round holds the player at most once, the player's round indices strictly increase and number at most the count of rounds |
| Rounds.RoundPlayers | tests/unit/test_round.py:7-16 | a player is in the set iff some match of the round holds it |
| Rounds.RoundPlayersConcat | src/matchscheduler/season.py:105-108 | the players of two concatenated rounds are the union of their players |
| Rounds.DisjointConcat | src/matchscheduler/season.py:105-108 | a concatenation is pairwise disjoint iff both parts are and their player sets are disjoint |
| Rounds.RoundPlayersCount | src/matchscheduler/season.py:105-108 | a round of `n` matches has at most `2n` players, and exactly `2n` iff every match is a game of two and the matches are pairwise disjoint |
| Rounds.SwapInMatch | src/matchscheduler/season.py:122-126 | on a canonical match, fails iff the two players are different and both in the match; otherwise a canonical match whose players are the old ones with `p` and `q` exchanged |
| Rounds.SwapRound | src/matchscheduler/season.py:122-126 | the loop over the round's matches computes the match-by-match swap `SwapEach` |
| Rounds.SwapEach | src/matchscheduler/season.py:122-126 | the match-by-match swap of one round, keeping its length: each match is swapped in turn, and the first `ValueError` stops the loop with the matches before it swapped and the rest untouched |
| Rounds.SwapEachEffect | src/matchscheduler/season.py:122-126 | the swap raises iff some match holds both (different) players; otherwise every match is the exchanged one |
| Rounds.SwapEachBounded | src/matchscheduler/season.py:122-126 | the swap keeps matches canonical and, for roster players, within the roster |
| Rounds.SwapInMatchTwice | src/matchscheduler/season.py:122-126 | swapping the same two players twice restores the match |
| Rounds.SwapEachTwice | src/matchscheduler/season.py:122-126 | swapping the same two players twice restores the round |
| Rounds.SwapEachPlayers | src/matchscheduler/season.py:122-126 | the swapped round's player set is the old one with `p` and `q` exchanged |
| Rounds.TransposedMember | src/matchscheduler/season.py:122-126 | `x` is in the exchanged set iff its image under the exchange is in the original |
| Rounds.SwapAcrossMatches | src/matchscheduler/season.py:122-126 | with `p` and `q` in two different matches, the swap moves `q` into `p`'s match and `p` into `q`'s, leaves the other matches alone and keeps the round's player set |
| Rounds.Switched | src/matchscheduler/season.py:133-136 | exchanging two slots keeps the number of rounds and every round's length |
| Rounds.SwitchedEffect | src/matchscheduler/season.py:133-136 | after the exchange each slot holds the other's match, and every other slot is untouched |
| Rounds.SwitchedTwice | src/matchscheduler/season.py:139-142 | exchanging the same two slots again restores the schedule |
| Generation.SeasonDates | src/matchscheduler/season.py:42-48 | the dates are strictly increasing; each lies between start and end, is a whole number of weeks after start and is not excluded |
| Generation.SeasonDatesComplete | src/matchscheduler/season.py:42-48 | every non-excluded weekly date between start and end is among the dates |
| Generation.FiveWeeksExample | src/matchscheduler/season.py:42-48 | a 31-day season without exclusions has the five weekly dates from its start |
| Generation.WeeklyDates | src/matchscheduler/season.py:42-48 | the `while d <= end` loop computes exactly `SeasonDates` |
| Generation.EligibleFrom | src/matchscheduler/season.py:64-66 | exactly the roster indices from `i` on that can play on the date, in increasing order |
| Players.CanPlay | src/matchscheduler/season.py:66 | the test `match_date not in player.cannot_play` |
| Generation.IsPartialDate | src/matchscheduler/season.py:67 | the negation of the test `len(possible_player_idx) >= num_courts * 2`: the date gets a partial round |
| Generation.Eligible | src/matchscheduler/season.py:64-66 | exactly the roster indices that can play on the date, without repetition |
| Generation.AddableGame | src/matchscheduler/match.py:25-26 | a two-player candidate can be added iff neither of its players is already in the round |
| Generation.ScanPartners | src/matchscheduler/season.py:87-90 | the pairs `(x, y)` of `combinations` that start with `x`, scanned in order of `y`: `Raised` at the first `create_match` that raises its `ValueError` (`y == x`), `Found` at the first addable match, `Exhausted` when none is left |
| Generation.ScanPairs | src/matchscheduler/season.py:87-90 | `itertools.combinations(xs, 2)`, each element with every later one in list order, scanned for the first outcome that is not `Exhausted`: the first `Raised` or the first addable pair `Found` |
| Generation.ScanResult | src/matchscheduler/season.py:90-91 | the returned match when the scan found one, and `None` for the trailing `ValueError` (and for a raising `create_match`) |
| Generation.ScanPartnersSound | src/matchscheduler/season.py:87-90 | a match found for `x` is a canonical game of `x` and a listed partner that can be added |
| Generation.ScanPartnersComplete | src/matchscheduler/season.py:87-90 | if `x` and some listed partner are both free, a match is found |
| Generation.ScanPairsSound | src/matchscheduler/season.py:87-90 | a found pair is a canonical addable game of listed players; on a list without repetition the scan never raises |
| Generation.ScanPairsComplete | src/matchscheduler/season.py:87-90 | on a list without repetition that holds two free players, a pair is found |
| Generation.ScanPartnersAt | src/matchscheduler/season.py:87-90 | the inner loop over the later indices computes the partner scan |
| Generation.GenerateValidMatch | src/matchscheduler/season.py:84-91 | the first addable pair, in `combinations` order, of the shuffled eligible players, or nothing (the `ValueError`) |
| Generation.TwoFreePlayers | src/matchscheduler/season.py:67-72 | a round of fewer than `n` picks, with at least `2n` eligible players, leaves two different free eligible players |
| Generation.ExtendFullRound | src/matchscheduler/season.py:69 | adding an addable game of eligible players to a full round of `k` matches gives a full round of `k + 1` |
| Generation.NextPickFits | src/matchscheduler/season.py:67-72 | with at least `2n` eligible players every greedy pick succeeds and extends the round, so the `ValueError`s are unreachable |
| Generation.GenerateFullRound | src/matchscheduler/season.py:67-72 | exactly `n` canonical, pairwise disjoint games of eligible players |
| Generation.PairUp | src/matchscheduler/season.py:76-81 | the pairing that the `pop` loop builds: the last two players form a match, then the rest is paired, and a single player left over gets a bye |
| Generation.PairUpPlayers | src/matchscheduler/season.py:76-81 | pairing up a list without repetition gives pairwise disjoint matches holding exactly its players |
| Generation.PairUpByes | src/matchscheduler/season.py:76-81 | the pairing has `(len + 1) / 2` canonical matches, and a bye only in the last match and only for an odd count |
| Generation.PairUpIsPartial | src/matchscheduler/season.py:74-82 | pairing up a permutation of the eligible players is a partial round: every eligible player exactly once, at most one bye |
| Generation.GeneratePartialRound | src/matchscheduler/season.py:74-82 | the `pop` loop pairs the shuffled eligible players from the end, giving a partial round |
| Generation.GenerateValidRound | src/matchscheduler/season.py:62-82 | raises the `ValueError` iff `num_courts` is negative (the eligibility test passes, `range` adds nothing and the length test fails); otherwise the round is partial iff fewer than `2 * num_courts` players are eligible, and full with `num_courts` matches when not |
| Generation.GenerateSchedule | src/matchscheduler/season.py:53-60 | raises iff `num_courts` is negative and there is a date; otherwise one generated round per date, and `fixed_rounds` lists exactly the indices of the partial dates in increasing order |
| Seasons.Season.WellFormedRound | src/matchscheduler/season.py:94-127 | a round's matches are well formed iff they are canonical and name roster players only |
| Seasons.Season.RoundOk | src/matchscheduler/season.py:105-110 | the round check on a date: exactly `2 * num_courts` distinct real players, each a roster index (the source raises `IndexError` for any other) who can play on the date |
| Seasons.Season.CheckIfRoundIsValid | src/matchscheduler/season.py:105-110 | the round check applied to round `r` of the current schedule on its own date |
| Seasons.Season.FullRoundValidIff | src/matchscheduler/season.py:105-110 | for `num_courts` canonical games, the round check holds iff the games are pairwise disjoint and all their players can play on the date |
| Seasons.Season.RoundOkDisjoint | src/matchscheduler/season.py:105-110 | a round of `num_courts` matches that passes the check is made of pairwise disjoint two-player games |
| Seasons.Season.PartialRoundFailsCheck | src/matchscheduler/season.py:105-110 | a partial round never passes the round check |
| Seasons.Season.GeneratedRoundFacts | src/matchscheduler/season.py:62-82 | generated matches are well formed, and a round generated on a non-partial date has `num_courts` matches and passes the check |
| Seasons.Season.SwapAcrossKeepsRound | src/matchscheduler/season.py:119-127 | in a valid round, swapping players of two different matches does not raise, keeps the round valid, and repeating it restores the round |
| Seasons.Season.OpenValidAfter | src/matchscheduler/season.py:137 | changing at most two rounds, each to one that passes the check, keeps every open round valid |
| Seasons.Season.constructor | src/matchscheduler/season.py:19-51 | on the inputs where the source does not raise (a non-negative court count, or no dates): stores the arguments, computes the weekly dates and generates the schedule, with `fixed_rounds` increasing; the season invariant holds and every open round is valid |
| Seasons.NewSeason | src/matchscheduler/season.py:19-51 | constructing a season raises iff the court count is negative and the season has a date; otherwise it is a fresh valid season on the weekly dates with the given roster and court count |
| Seasons.Season.Courts | src/matchscheduler/optimizer.py:65 | the courts `range(num_courts)` visits: `num_courts` itself, or none for a negative count |
| Seasons.Season.ChangeMatch | src/matchscheduler/season.py:94-102 | `True` iff the round is not fixed and passes the check with the new match; the match is written on `True` and the schedule is unchanged on `False` |
| Seasons.Season.CheckScheduleIsValid | src/matchscheduler/season.py:112-116 | true iff every round passes the round check |
| Seasons.Season.PartialSeasonFailsCheck | src/matchscheduler/season.py:112-116 | a fixed round fails the round check, so a season with a partial round fails the schedule check |
| Seasons.Season.SwapPlayersOfExistingMatches | src/matchscheduler/season.py:119-127 | `False` and no change on a fixed round; otherwise the round becomes the match-by-match swap, with `True`, or `ValueError` when some match holds both players |
| Seasons.Season.SwitchMatches | src/matchscheduler/season.py:130-143 | `True` iff neither round is fixed and both pass the check after the exchange; the exchange is kept on `True` and the schedule is unchanged on `False` |
| Seasons.RebuildRound | src/matchscheduler/season.py:181 | rebuilding a stored row fails iff some entry pairs a player with itself; otherwise it gives canonical matches with the same players and byes |
| Seasons.RebuildSchedule | src/matchscheduler/season.py:181 | fails iff some row fails; otherwise each round is its rebuilt row |
| Seasons.RoundTripRow | src/matchscheduler/season.py:181 | rebuilding a canonical row gives it back |
| Seasons.RoundTrip | src/matchscheduler/season.py:156-181 | rebuilding a stored schedule of canonical matches gives it back exactly |
| Seasons.SeasonRoundTrip | src/matchscheduler/season.py:145-182 | a valid season's schedule survives `to_dict` followed by `from_dict` unchanged |
| Optimizers.Game | src/matchscheduler/optimizer.py:34-35 | `create_match(p, q)` for different indices is the canonical game of exactly `p` and `q` |
| Optimizers.Product | src/matchscheduler/optimizer.py:66-70 | holds every pair of a player of the first match and one of the second, `|xs| * |ys|` of them |
| Optimizers.Pairs | src/matchscheduler/optimizer.py:104 | `itertools.combinations(xs, 2)`: each element paired with every later one, in lexicographic order of positions |
| Optimizers.PairsMember | src/matchscheduler/optimizer.py:104 | on a row-major list, `combinations(_, 2)` yields exactly the pairs of listed coordinates in which the first comes before the second |
| Optimizers.RowCoords | src/matchscheduler/optimizer.py:98-100 | the slots of round `i` from court `j` on, in order |
| Optimizers.GridCoords | src/matchscheduler/optimizer.py:98-100 | every (round, court) coordinate from round `from` on, in row-major order |
| Optimizers.CoordPairs | src/matchscheduler/optimizer.py:98-104 | Move C's `list(combinations(indizes, 2))` before the shuffle, over the row-major `indizes` of `rounds` rounds and `courts` courts |
| Optimizers.CoordPairsMember | src/matchscheduler/optimizer.py:98-104 | Move C's list holds exactly the in-grid coordinate pairs with the first before the second |
| Optimizers.SkipAsWritten | src/matchscheduler/optimizer.py:120-126 | the skip test as written raises iff a slot is past the end of its round; otherwise it skips identical matches and fixed rounds |
| Optimizers.SkipAsWrittenRaises | src/matchscheduler/optimizer.py:120-126 | a round shorter than the number of courts puts a pair on Move C's list at which the skip test raises |
| Optimizers.SkipAsWrittenExample | src/matchscheduler/optimizer.py:120-126 | with two courts and a first round holding one bye, the pair of slots (0, 0) and (0, 1) raises |
| Optimizers.SkipCorrected | src/matchscheduler/optimizer.py:120-126 | the fixed rounds are consulted first; the test skips exactly on a fixed round or on identical matches |
| Optimizers.SkipCorrectedAgrees | src/matchscheduler/optimizer.py:120-126 | wherever the test as written does not raise, the corrected test gives the same answer |
| Optimizers.SkipCorrectedDefined | src/matchscheduler/optimizer.py:98-126 | in a valid season the corrected test is defined on every pair Move C visits |
| Optimizers.Optimizer.constructor | src/matchscheduler/optimizer.py:15-18 | keeps the season, the score and the shuffle; no shuffle drawn yet |
| Optimizers.Optimizer.TryMatch | src/matchscheduler/optimizer.py:35-53 | a candidate is kept only when the round stays valid and the score strictly drops; otherwise the schedule is unchanged and the candidate is no improvement |
| Optimizers.Optimizer.RePairWith | src/matchscheduler/optimizer.py:34-53 | the score drops by at least the number of accepted candidates; with none, nothing changed and no `(p, q)` game with `q > p` improves the slot |
| Optimizers.Optimizer.RePairSlot | src/matchscheduler/optimizer.py:33-53 | the score drops by at least the number accepted; with none, no roster pair `p < q` improves the slot |
| Optimizers.Optimizer.RePairRound | src/matchscheduler/optimizer.py:26-53 | the same for every slot of one open round |
| Optimizers.Optimizer.RePairAll | src/matchscheduler/optimizer.py:24-53 | Move A over every open round: the score drops by at least the number accepted; with none, nothing changed and the schedule is optimal for Move A |
| Optimizers.Optimizer.TrySwap | src/matchscheduler/optimizer.py:71-88 | a player swap is kept only when the score strictly drops; otherwise the schedule is unchanged and the swap is no improvement |
| Optimizers.Optimizer.SwapBetween | src/matchscheduler/optimizer.py:65-88 | over the player pairs of two matches, stopping at the first accepted swap: with none, nothing changed and no pair improves |
| Optimizers.Optimizer.SwapWithinRound | src/matchscheduler/optimizer.py:57-88 | the same for every pair of matches of one open round |
| Optimizers.Optimizer.SwapAll | src/matchscheduler/optimizer.py:55-88 | Move B over every open round: the score drops by at least the number accepted; with none, nothing changed and the schedule is optimal for Move B |
| Optimizers.Optimizer.OptimizeBySwappingPlayers | src/matchscheduler/optimizer.py:21-90 | returns `swaps` plus the accepted moves, with the score lower by at least that many; with none, the schedule is unchanged and optimal for Moves A and B |
| Optimizers.Optimizer.TrySwitch | src/matchscheduler/optimizer.py:120-143 | an exchange of two slots is kept only when both rounds stay valid and the score strictly drops; otherwise the schedule is unchanged and the exchange is no improvement |
| Optimizers.Optimizer.SwitchInOrder | src/matchscheduler/optimizer.py:109-145 | over the pairs in the given order: the score drops by at least the number accepted; with none, no listed pair improves |
| Optimizers.Optimizer.OptimizeBySwappingMatches | src/matchscheduler/optimizer.py:93-145 | Move C over one shuffle of every coordinate pair, drawing one shuffle; with none accepted, the schedule is unchanged and optimal for Move C |
| Optimizers.Optimizer.OptimizeSchedule | src/matchscheduler/optimizer.py:147-170 | terminates; returns the final score, no higher than the initial one, with the schedule a local optimum of Moves A, B and C |
| LegacyMatches.Available | matchscheduler/match.py:15 | the test `date_of_play not in player.cannot_play` |
| LegacyMatches.Admissible | matchscheduler/match.py:14-19 | what `Match.__init__` accepts: every player available on the date, and exactly two players |
| LegacyMatches.Constructed | matchscheduler/match.py:13-22 | a match value the constructor could have built: its players admissible on its own date |
| LegacyMatches.Construct | matchscheduler/match.py:13-22 | a match exists iff every player can play on the date and there are exactly two; it keeps exactly the given players and date |
| LegacyMatches.NewMatch | matchscheduler/match.py:13-22 | `Match.__init__`: success iff admissible, keeping players and date; the availability error wins whenever some player cannot play, before the size check |
| LegacyMatches.PairSize | matchscheduler/match.py:18-19 | `{p, q}` has two members iff the players differ, so a repeated player is rejected |
| LegacyMatches.LexLeq | matchscheduler/match.py:35 | Python's string order used by `sorted`: character by character, a prefix before any longer string |
| LegacyMatches.LexLeqTotal | matchscheduler/match.py:35 | the string order `sorted` uses is total |
| LegacyMatches.LexLeqAntisymmetric | matchscheduler/match.py:35 | and antisymmetric |
| LegacyMatches.SortedPair | matchscheduler/match.py:35 | sorting two names gives the same two names in order |
| LegacyMatches.SortedPairSymmetric | matchscheduler/match.py:35 | and does not depend on the order they came in |
| LegacyMatches.LabelUnique | matchscheduler/match.py:34-36 | a two-player match has at most one label, whatever order its set is iterated in |
| LegacyMatches.LabelExists | matchscheduler/match.py:34-36 | every two-player match has a label |
| LegacyMatches.Joined | matchscheduler/match.py:36 | the f-string `{names[0]} vs {names[1]}` |
| LegacyMatches.Label | matchscheduler/match.py:34-36 | `__str__`: the two names sorted and joined by " vs " |
| LegacyMatches.LabelExample | matchscheduler/match.py:34-36 | John and Jane give "Jane vs John" |
| LegacyMatches.MatchesWithFirst | matchscheduler/match.py:54-61 | exactly one match per later player forming an admissible pair with the first, no more than there are later players |
| LegacyMatches.Candidates | matchscheduler/match.py:47-61 | every generated match is validly constructed on the date |
| LegacyMatches.CandidatesMember | matchscheduler/match.py:54-61 | a match is generated iff it is two different listed players, both able to play, on the date |
| LegacyMatches.NobodyAvailable | matchscheduler/match.py:60-61 | nothing is generated when nobody can play |
| LegacyMatches.AllAvailableCount | matchscheduler/match.py:54-61 | with `n` different players all available, all `n(n-1)/2` pairs are generated |
| LegacyRounds.Slot | matchscheduler/round.py:49-50 | Python list indexing: an index is valid iff `-n <= i < n`, and a negative one counts from the end |
| LegacyRounds.Disjoint | matchscheduler/round.py:32-39 | what the seen-list loop of `is_valid` accepts: no player in two matches |
| LegacyRounds.RoundValid | matchscheduler/round.py:28-45 | `Round.is_valid`: exactly `num_matches` matches, no player in two of them, and every match on the round's date |
| LegacyRounds.PlayersOf | matchscheduler/round.py:88-91 | a player is in the set iff some match holds it |
| LegacyRounds.DisjointAppend | matchscheduler/round.py:34-39 | appending a match keeps the players distinct iff they were and the new match shares no player |
| LegacyRounds.DisjointPlayerCount | matchscheduler/round.py:28-45 | disjoint two-player matches have exactly twice as many players as matches |
| LegacyRounds.Toggled | matchscheduler/round.py:70-73 | `symmetric_difference`: a player is in the result iff it is in exactly one of the two sets |
| LegacyRounds.SwapPlayersEffect | matchscheduler/round.py:47-58 | `IndexError` iff the index is out of range; success iff the new match is admissible and the round with it is valid, writing only that slot; any failure leaves the list unchanged |
| LegacyRounds.SwapExistingEffect | matchscheduler/round.py:60-82 | `IndexError` iff an index is out of range; success iff both toggled player sets are admissible matches on the round's date and the round with both written is valid; on success each of the two slots (also when both indices name the same slot) holds its players toggled by the swap set and nothing else changes; any failure leaves the list unchanged |
| LegacyRounds.RestoreTwoSlots | matchscheduler/round.py:79-81 | writing both old matches back restores the list |
| LegacyRounds.ExchangeAcross | matchscheduler/round.py:60-82 | with `p` in one match and `q` in another, toggling by `{p, q}` exchanges the two players |
| LegacyRounds.ExchangeSucceeds | matchscheduler/round.py:60-82 | in a valid round, exchanging `p` of one match with `q` of another succeeds, each match getting the other's player on the round's date with the rest unchanged, as tests/test_round.py:200-231 expects |
| LegacyRounds.SwapWithinMatchFails | matchscheduler/round.py:66-77 | with both players in the first match, the swap fails as an invalid match and changes nothing |
| LegacyRounds.SwapWithOutsiderFails | matchscheduler/round.py:66-77 | with neither player in the second match, the swap fails as an invalid match |
| LegacyRounds.SwapWithOutsiderFirstFails | matchscheduler/round.py:66-77 | with neither player in the first match, the swap fails as an invalid match |
| LegacyRounds.Round.constructor | matchscheduler/round.py:12-15 | stores matches, date and match count without checking them |
| LegacyRounds.Round.IsValid | matchscheduler/round.py:28-45 | the loops decide exactly `RoundValid`: the right number of matches, no player twice and every match on the round's date |
| LegacyRounds.Round.SwapPlayers | matchscheduler/round.py:47-58 | the new result and match list are those of `SwapPlayersEffect` on the old list |
| LegacyRounds.Round.SwapPlayersOfExistingMatches | matchscheduler/round.py:60-82 | the new result and match list are those of `SwapExistingEffect` on the old list |
| LegacyRounds.Round.GetPlayers | matchscheduler/round.py:88-91 | the union of the matches' players, `2 * num_matches` of them in a valid round of two-player matches |
| LegacyRounds.CourtPass | matchscheduler/round.py:110-113 | one pass of the inner loop: each candidate in turn is appended when the proposal with it is a valid round of `i + 1` matches |
| LegacyRounds.Greedy | matchscheduler/round.py:108-113 | `k` court passes in order over the same candidates, starting from no matches |
| LegacyRounds.Proposed | matchscheduler/round.py:106-113 | the greedy proposal for a date from the generated candidates, with no passes for a negative court count (`range` of a negative number is empty) |
| LegacyRounds.CourtPassFacts | matchscheduler/round.py:109-113 | one court pass keeps the list disjoint and on the date, adds at most one generated match, and adds one whenever some candidate fits |
| LegacyRounds.CourtPassRejectsAll | matchscheduler/round.py:109-113 | once the list is longer than the court index, no proposal is valid and the pass adds nothing |
| LegacyRounds.GreedyFacts | matchscheduler/round.py:108-113 | after `k` passes: at most `k` pairwise disjoint generated matches on the date |
| LegacyRounds.CandidatePlayers | matchscheduler/match.py:54-61 | a generated match is two available listed players |
| LegacyRounds.GreedyPlayersAvailable | matchscheduler/round.py:108-113 | the greedy matches are disjoint two-player matches on the date, using only available players |
| LegacyRounds.PairCandidate | matchscheduler/match.py:54-61 | any two different available players form a generated match |
| LegacyRounds.AppendValid | matchscheduler/round.py:111-113 | adding a match on the date with no player in common to a disjoint list is a valid proposal of length `i + 1` |
| LegacyRounds.GrowStep | matchscheduler/round.py:108-113 | if `k` passes gave `k` matches and `2(k + 1)` players are available, pass `k + 1` adds one |
| LegacyRounds.GreedyGrows | matchscheduler/round.py:108-113 | with at least `2k` available players, `k` passes give `k` matches |
| LegacyRounds.GreedySucceedsIff | matchscheduler/round.py:105-118 | the proposed round is valid iff the court count is non-negative and at least twice as many players are available |
| LegacyRounds.GreedyMatches | matchscheduler/round.py:108-113 | the nested loops compute the greedy proposal |
| LegacyRounds.GenerateValidRound | matchscheduler/round.py:105-118 | a fresh round of the proposal when it is valid, otherwise `NotValidRoundError` |
| LegacySchedules.Flatten | matchscheduler/schedule.py:30-32 | a match is in the concatenation iff it is in some row |
| LegacySchedules.FlattenAppend | matchscheduler/schedule.py:30-32 | concatenation distributes over appending rows |
| LegacySchedules.FlattenIndex | matchscheduler/schedule.py:30-32 | match `j` of row `k` lands after all earlier rows, in row-major order |
| LegacySchedules.Filter | matchscheduler/schedule.py:34-40 | the filtered list is no longer than the original |
| LegacySchedules.FilterCount | matchscheduler/schedule.py:34-40 | each kept match occurs as often as in the original, each dropped one not at all |
| LegacySchedules.FilterAppend | matchscheduler/schedule.py:34-40 | filtering distributes over concatenation, so order is kept |
| LegacySchedules.PairQuery | matchscheduler/schedule.py:38-40 | for two different players and a two-player match, the set query holds iff both are in the match |
| LegacySchedules.MatchLists | matchscheduler/schedule.py:32 | one match list per round, in order |
| LegacySchedules.PutFirst | matchscheduler/schedule.py:51-55 | a write of `round1.swap_players` (the swap or its revert) seen through both round variables: when both are one object the second sees the new list too |
| LegacySchedules.PutSecond | matchscheduler/schedule.py:52-56 | a write of `round2.swap_players` (the swap or its revert) seen through both round variables: when both are one object the first sees the new list too |
| LegacySchedules.SwapMatchesEffect | matchscheduler/schedule.py:42-60 | `IndexError` iff a slot is out of range, with nothing changed; on success both rounds are valid; lengths are kept, and a round aliased with itself stays one list |
| LegacySchedules.SwapMatchesExchanges | matchscheduler/schedule.py:46-52 | between two different rounds, a successful swap gives slot 1 match 2's players on match 1's date and slot 2 match 1's players on match 2's date, leaving every other slot alone |
| LegacySchedules.SwapMatchesRestores | matchscheduler/schedule.py:50-58 | on valid rounds of constructed matches, a failed swap restores both rounds and re-raises an invalid-swap error |
| LegacySchedules.SwapWithinRoundFails | matchscheduler/schedule.py:46-58 | two different slots of one round cannot be swapped: the swap fails and the round is restored |
| LegacySchedules.SwapWithItself | matchscheduler/schedule.py:46-58 | swapping a slot with itself succeeds and changes nothing |
| LegacySchedules.Schedule.constructor | matchscheduler/schedule.py:19-21 | stores the rounds and players |
| LegacySchedules.Schedule.IsValid | matchscheduler/schedule.py:23-28 | true iff every round is valid |
| LegacySchedules.Schedule.GetMatches | matchscheduler/schedule.py:30-32 | exactly the matches of the rounds |
| LegacySchedules.Schedule.GetMatchesOfPlayer | matchscheduler/schedule.py:34-36 | each match holding the player as often as in the schedule, no other; empty for a player who plays nowhere |
| LegacySchedules.Schedule.GetMatchesOfPlayers | matchscheduler/schedule.py:38-40 | each match of exactly the given players as often as in the schedule, no other |
| LegacySchedules.Schedule.SwapMatches | matchscheduler/schedule.py:42-60 | `IndexError` with nothing changed for a bad round index; otherwise the two rounds follow `SwapMatchesEffect` and the others are untouched, with `NotValidSchedule` after a swap that leaves some round invalid |
| LegacySchedules.GenerateValidSchedule | matchscheduler/schedule.py:214-229 | succeeds iff every date has `2 * num_courts` available players; then one fresh valid round per date with the proposal of that date; otherwise `NotValidSchedule` |

## Left out

- Scoring (`scoring_algorithm.py` in both engines, and `Schedule.get_score`/`get_std_*`) uses floating-point standard deviations. The optimizer takes the score as an abstract function from schedules to `nat`, so no property of the fairness terms is stated.
- Export code is out: `Schedule.export` and `printer.py`, which write Excel and iCalendar files.
- `Round.export_match_string`, logging and the `line_profiler` decorators are out. They have no effect on the schedule.
- `to_dict`/`from_dict` parse and format times, dates, the title and the cost; that I/O is out. Only the schedule part is modelled, by `RebuildSchedule`. `from_dict` first builds a fresh season, which generates a schedule, and then overwrites it. The model states the result of that overwrite only.
- `src/matchscheduler/round.py` is a half-migrated file whose code cannot run as written. The module-level `get_players_of_round`, which `src/matchscheduler/season.py` imports, is modelled as the set of real player indices of a round, following its unit test. Excluding the bye marker is an assumption; it matters only for partial rounds.
- `matchscheduler/season.py` and `matchscheduler/optimizer.py`, the bitmask-encoded intermediate version, are not part of this model. Their helpers are absent from the earlier engine's match and round files, and the current engine covers the same logic.
- Both `player.py` files are modelled only as data: a player datatype with a set of unavailable day numbers. ISO date parsing and `Season.create_from_settings` are out.
- Python's set iteration order is out. The earlier engine's player set is passed as a sequence, so the order in which `combinations` visits pairs is that sequence's order.
- Randomness enters only as the shuffle functions. Each answer is an arbitrary permutation chosen by the caller, so no distribution is modelled.
- The `m in matches` test in `generate_valid_new_match` compares by identity, because the earlier `Match` has no `__eq__`. It never filters a freshly built match, so the model does not filter either.
- The earlier `Match` keeps its players as a `set`. The tests that pass tuples are not modelled.
- `matchscheduler/schedule.py` imports `NotValidRound` and `NotValidSwap`, but `matchscheduler/round.py` defines `NotValidRoundError` and `NotValidSwapError`. The model treats the two spellings as the same error kinds of one `RoundError` result type, so the import failure is not modelled.
- Python exceptions become `Result` failures, so stack traces and exception chaining are not modelled.
- In the earlier `Schedule`, `rounds` is a fixed sequence of `Round` objects, whose match lists the swaps overwrite in place. When both round indices name the same round object, `swap_matches` works on one list through two names. The model covers this with the `same` flag of `SwapMatchesEffect`; other aliasing between rounds is not modelled.
- Seasons.Season.ChangeMatch: requires the new match to be canonical and of roster players, whereas the source writes any tuple. An index past the roster makes the source's round check raise `IndexError` and leave the new match in place. The optimizer only passes canonical roster games.
- Seasons.Season.SwapPlayersOfExistingMatches: requires both ids on the roster, whereas the source accepts any integers. The optimizer only passes roster ids.
- Seasons.Season.constructor: requires a non-negative court count or an empty date list, because a Dafny constructor cannot raise; the `ValueError` the source raises on the other inputs is modelled by `Seasons.NewSeason`, which returns a `Failure` there.
- Seasons.Season.ChangeMatch: takes `nat` coordinates inside the schedule, whereas the source takes any integers: Python's negative indices count from the end, past-the-end indices raise `IndexError`, and the fixed-round test compares the raw index, so a negative index escapes it (a partial round then still fails the round check). The optimizer only passes non-negative coordinates inside the schedule.
- Seasons.Season.SwapPlayersOfExistingMatches: takes a `nat` round index inside the schedule, whereas the source takes any integer. A negative index escapes the fixed-round test, so `swap_players_of_existing_matches(-1, p, q)` swaps inside a fixed last round and returns `True`, and a past-the-end index raises `IndexError`; neither is modelled. The optimizer only passes non-negative indices inside the schedule.
- Seasons.Season.SwitchMatches: takes `nat` coordinates inside the schedule, whereas the source takes any integers. A negative round index escapes the fixed-round test, where a partial round still fails the round check, and a past-the-end index raises `IndexError`; neither is modelled. The optimizer only passes non-negative coordinates inside the schedule.
- Optimizers.Optimizer.TryMatch and the rest of the optimizer require the season invariant and a valid, `num_courts`-match open round everywhere (`Ready`). On an invalid open round the source's revert can itself fail and keep a worse match; the model does not follow that path.
- Optimizers.Optimizer.TrySwitch uses the corrected skip test of Move C (see Findings), so the `IndexError` that the source raises on a partial round is not part of the optimizer's model.
- `optimize_schedule` adds each method's return value, which already includes the incoming `swaps`, to `swaps` again. The count can grow faster than the number of accepted moves, but it is zero exactly when nothing was accepted, and that is all the loop tests. The model keeps this arithmetic.
- Move B builds its list of player pairs from the two matches when it reaches them. Every rejected swap is undone and an accepted one ends that match pair, so the model builds the list from the schedule at that point as well. Move B also iterates over `combinations(range(num_courts), 2)` rather than over the round's length; on an open round both are `num_courts`.
- The multi-start parallel search and the fairness-convergence and timing tests are out. They concern randomness, concurrency or wall-clock time, not promised properties.

## Findings

| source | as written | input that shows it | evidently intended | confidence | as-written member | corrected member |
|---|---|---|---|---|---|---|
| src/matchscheduler/optimizer.py:120-126 | Move C reads both slots with `schedule[r][m]` before testing whether either round is fixed; the coordinate list covers `num_courts` slots in every round | two courts, a first round that is partial with one bye match (`[[(0, None)], [(0, 1), (2, 3)]]`, round 0 fixed); the pair of slots (0, 0) and (0, 1) indexes past the end of round 0 and raises `IndexError` | skip a pair whenever either round is fixed, before touching its slots | not executed | Optimizers.SkipAsWrittenExample | Optimizers.SkipCorrected |
