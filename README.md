# Conference tiebreakers, modelled in Dafny

This project models the tiebreaking engine of a college-football conference
standings tool, together with the schedule graph that engine reads.

- **The schedule graph** (`model.py`). A `Game` is a home/away pairing with an
  optional winner. A `Team` holds its own list of games. A `Conference` holds
  the team list, the game list and, once set, a standings list. Recording a
  game with propagation keeps three lists in step: the conference's and both
  participants'.
- **The helpers and rules** (`tiebreakers.py`). Each rule takes a tied group
  of teams and returns an ordered partition of it: a sequence of groups, best
  first. The teams inside one group stay tied.
  - `getCommonGames` collects the games played inside the group.
  - `getCommonOpponents` intersects the members' opponent lists.
  - `sortDictValuesDescending` and `groupDictKeysByValue` turn per-team win
    counts into ranked groups.
  - The rules modelled are `HeadToHeadTwo`, `HeadToHeadMulti`,
    `HeadToHeadLoserMulti`, `CommonOpponents` and the decline guard of
    `CommonOpponentsInOrder`.

## Modules

- `wrappers.dfy`, module `Wrappers`: `Option`.
- `seqs.dfy`, module `Seqs`: the sequence vocabulary the model uses.
  - `Filter` is the list comprehension `[x for x in s if p(x)]`.
  - `FirstWhere` is `next((x for x in s if p(x)), None)`.
  - `Flatten`, `Reverse` and `Singletons` work on groups.
  - `ReverseInPlace` is Python's in-place `list.reverse()`.
- `model.dfy`, module `Model`: `model.py`.
  - `Game` is a datatype, and `Game.played` is the predicate `Game.Played`.
  - `Team` and `Conference` are classes whose methods append to their fields.
  - The queries are functions over the lists they read.
  - A team is a class reference, so teams are compared by identity, as the
    source compares them with `is`.
- `ranking.dfy`, module `Ranking`: the two dict helpers.
  - A dict of counts is modelled as its key order plus a `map` from key to count.
  - `SortDescending` is the stable descending sort.
  - `GroupByValue` is the grouping the helper's comment describes.
    `GroupKeysByValue` is the item-by-item loop that computes it.
- `pairwise.dfy`, module `Pairwise`: `getCommonGames` and `getCommonOpponents`.
  Each has a specification function and the nested-loop method proved equal to it.
  The module also holds the pair counting behind the round-robin test.
- `tiebreakers.dfy`, module `Tiebreakers`: the rules.
  - Each head-to-head rule first counts the wins inside the group, then decides.
    That decision is a separate function (`MultiRanking`, `LoserRanking`) over
    the counts, so its properties are proved once for every set of counts.
  - The class `Tiebreaker` holds the conference whose standings
    `CommonOpponentsInOrder` consults.

## Model

| member | source | states |
|---|---|---|
| Model.Opponents | model.py:53-55 | One opponent per game, in list order; each entry took part in its game; for a game the team played, the entry is the other participant. |
| Model.OpponentIn | model.py:54 | The result took part in the game; for a game the team played, the team and the result are its two participants. |
| Model.OpponentsConcat | model.py:53-55 | The opponents over two runs of games are the opponents of the first run followed by those of the second. |
| Model.GameByOpponent | model.py:57-59 | `None` exactly when no game in the list was played by the opponent; otherwise the first game in the list that it played. |
| Model.GameByOpponentName | model.py:57-59 | Name lookup: a name no conference team has finds no game; otherwise the result is the lookup by the first conference team with that name, so a found game is in the list and was played by that team. |
| Model.TeamByName | model.py:90-91 | `None` exactly when no team has the name; otherwise the first team in the list with it. |
| Model.GameByTeams | model.py:104-105 | `None` exactly when no game has this home and this away team; otherwise the first game that has both. |
| Model.GamesByTeam | model.py:107-109 | Exactly the conference games the team played: each result is such a game, and each such game is in the result. |
| Model.GamesByTeamName | model.py:107-109 | A name no conference team has selects no game; otherwise the selection is that of the first conference team with that name, so every game selected is a conference game that team played. |
| Model.UnplayedGames | model.py:111-112 | Exactly the conference games without a winner. |
| Model.GamesByTeamAppend | model.py:107-109 | The selection preserves order: appending a game extends a team's selection by that game exactly when the team played it. |
| Model.UnplayedGamesAppend | model.py:111-112 | The selection preserves order: appending a game extends the unplayed list by it exactly when it has no winner. |
| Model.Team.constructor | model.py:30-34 | A new team has the given name and conference, no games and no non-conference wins. |
| Model.Team.AddGame | model.py:47-51 | Without propagation only this team's list grows, by the game. With propagation the conference list gets the game, each participant gets it once, a team that did not play it keeps its list, and a consistent conference stays consistent. |
| Model.Conference.constructor | model.py:62-66 | A new conference has the given names, no teams, no games and no standings, and its game lists are consistent. |
| Model.Conference.AddTeam | model.py:86-88 | The team is appended and points back to this conference; the conference stays consistent when the team already holds exactly its conference games. |
| Model.Conference.SetStandings | model.py:95-96 | The standings are the team list, the same teams in the same order; nothing else changes, so a consistent conference stays consistent. |
| Model.Conference.AddGame | model.py:98-102 | The conference list gets the game once. With propagation each participant's list gets it once; without, neither list changes. No other list changes. With propagation, and when home and away differ, a consistent conference stays consistent; without propagation the conference list gains a game its members do not hold. |
| Model.ConsistentGameLists | model.py:98-102 | In a consistent conference a member holds a game exactly when the conference records it and the member played it. |
| Model.ConsistentHoldsOwnGames | model.py:98-102 | In a consistent conference every member holds only games it played. |
| Pairwise.GetCommonGames | tiebreakers.py:25-31 | The nested loop over each member and the members after it returns exactly `CommonGames`. |
| Pairwise.GetGamesAgainst | tiebreakers.py:28-30 | The inner loop returns the first game found against each later member, in order, skipping members never met. |
| Pairwise.GamesAgainstCount | tiebreakers.py:28-30 | At most one game per later member, and one for each of them exactly when the team met all of them. |
| Pairwise.FoundGamePair | tiebreakers.py:29 | A game found against an opponent is in the team's list and has exactly the two teams as participants. |
| Pairwise.GamesAgainstPlayed | tiebreakers.py:28-30 | Another team takes part in exactly one of the games found, if it is one of the opponents met, and in none otherwise. |
| Pairwise.CommonGamesOutsider | tiebreakers.py:25-31 | A team outside the group takes part in none of the common games. |
| Pairwise.CommonGamesPlayed | tiebreakers.py:25-31 | Each member plays at most n-1 common games, and exactly n-1 of them when it met every other member. |
| Pairwise.GamesAgainstOpponents | tiebreakers.py:28-30 | Every game found comes from the team's list and was played by it; the opponents of the found games are the later members the team met, in order. |
| Pairwise.GamesAgainstPairs | tiebreakers.py:28-30 | Each game found has the team and a later member as its two participants, and no opponent repeats. |
| Pairwise.CommonGamesFromLists | tiebreakers.py:25-31 | Every common game comes from some member's own list. |
| Pairwise.CommonGamesMembers | tiebreakers.py:25-31 | Both participants of every common game are members of the group. |
| Pairwise.CommonGamesDistinctPairs | tiebreakers.py:25-31 | No two common games have the same pair of participants. |
| Pairwise.PairCountFormula | tiebreakers.py:93 | The number of unordered pairs among n teams is n(n-1)/2. |
| Pairwise.CommonGamesCount | tiebreakers.py:25-31 | There are at most n(n-1)/2 common games, and exactly that many when every pair of members has met. |
| Pairwise.RoundRobinSize | tiebreakers.py:93 | Without any division, the factorial test `len(games) == n!/(2(n-2)!)` holds exactly when there are n(n-1)/2 games. |
| Pairwise.RoundRobinIffAllMet | tiebreakers.py:93 | On the common games, the round-robin test holds exactly when every pair of members has met. |
| Pairwise.GetCommonOpponents | tiebreakers.py:33-36 | The loop that refilters the running list by each later member's opponents returns exactly `CommonOpponentsOf`. |
| Pairwise.CommonOpponentsMembers | tiebreakers.py:33-36 | A team is a common opponent exactly when it is in every member's opponent list. |
| Pairwise.NotOwnOpponent | model.py:53-55 | A team with no game against itself is not among its own opponents. |
| Pairwise.CommonOpponentsExcludeGroup | tiebreakers.py:33-36 | Without self-games, no member of the group is a common opponent of it. |
| Ranking.Dedup | tiebreakers.py:89 | The keys of the group's dict are members of the group, and a nonempty group gives a nonempty dict. |
| Ranking.DedupKeys | tiebreakers.py:89 | Every member of the group is a key of its dict, and no key appears twice. |
| Ranking.DedupDistinct | tiebreakers.py:89 | On a group without repeated teams, the dict's keys are the group in its own order. |
| Ranking.Insert | tiebreakers.py:38-39 | One insertion step adds exactly the inserted key. |
| Ranking.SortDescending | tiebreakers.py:38-39 | The sort keeps every key (same length, same multiset), and counts never increase along it. |
| Ranking.InsertDescending | tiebreakers.py:38-39 | Inserting into a descending sequence keeps it descending. |
| Ranking.InsertWithValue | tiebreakers.py:38-39 | Inserting a key places it ahead of every key with the same count, which is what keeps the sort stable. |
| Ranking.SortStable | tiebreakers.py:38-39 | The sort is stable: the keys with any one count keep their original order. |
| Ranking.SortFirst | tiebreakers.py:38-39 | The first sorted key has the largest count and is the first key, in original order, with that count. |
| Ranking.SortLast | tiebreakers.py:38-39 | The last sorted key has the smallest count and is the last key, in original order, with that count. |
| Ranking.SortFirstWith | tiebreakers.py:38-39 | If no count exceeds v and some key has v, the first sorted key has v and is the first such key in original order. |
| Ranking.SortFirstWithout | tiebreakers.py:38-39 | If no key has count v, the first sorted key does not have it. |
| Ranking.SortLastWith | tiebreakers.py:38-39 | If no count is below v and some key has v, the last sorted key has v and is the last such key in original order. |
| Ranking.SortLastWithout | tiebreakers.py:38-39 | If no key has count v, the last sorted key does not have it. |
| Ranking.SortUniform | tiebreakers.py:38-39 | Keys that all share one count are left in place. |
| Ranking.ExtendFlatten | tiebreakers.py:47-53 | Each step of the walk adds exactly its key at the end of the flattened groups. |
| Ranking.GroupByValueFlatten | tiebreakers.py:41-55 | Flattening the groups gives back the keys, in order, each once. |
| Ranking.GroupByValueRuns | tiebreakers.py:41-55 | Groups are nonempty, the keys of a group share one count, neighbouring groups differ in count, and on descending keys the counts strictly fall from group to group. |
| Ranking.GroupByValueUniform | tiebreakers.py:41-55 | Keys that all share one count form a single group. |
| Ranking.SortedGroupsPermute | tiebreakers.py:38-55 | Grouping the sorted keys loses no key, repeats none and invents none. |
| Ranking.GroupByValue | tiebreakers.py:41-55 | The grouping of the keys in order: no groups exactly when there are no keys (its other properties are the `GroupByValue…` rows above). |
| Ranking.GroupKeysByValue | tiebreakers.py:41-55 | The walk over the items returns exactly `GroupByValue`: it opens a new group whenever the count changes and closes the last group at the end. |
| Seqs.ReverseInPlace | tiebreakers.py:81 | `list.reverse()`: the array afterwards holds its old contents in reverse order. |
| Tiebreakers.WinTotal | tiebreakers.py:89 | A team wins at most as many games as there are. |
| Tiebreakers.WinTotalAppend | tiebreakers.py:89 | The count follows the games one by one: a further game adds one win exactly when the team won it. |
| Tiebreakers.WinTotalEmpty | tiebreakers.py:89 | Without games a team has no win. |
| Tiebreakers.WinTotals | tiebreakers.py:89 | The dict has exactly the members as keys. Each member's entry is its number of wins among the games, between 0 and the number of games. |
| Tiebreakers.HeadToHeadWins | tiebreakers.py:88-89 | The head-to-head dict has exactly the members as keys, each with between 0 and as many wins as there are common games. |
| Tiebreakers.Ranked | tiebreakers.py:89-90 | The dict's keys after sorting: descending by count, with exactly the deduplicated members of the group, and nonempty for a nonempty group. |
| Tiebreakers.RankedDistinct | tiebreakers.py:89-90 | On a group without repeated teams, the sorted dict is the stable sort of the group itself. |
| Tiebreakers.HeadToHeadTwoAsWritten | tiebreakers.py:73-81 | The rule as written, including the branch a meeting without a winner reaches. The groups hold the two teams, each once. |
| Tiebreakers.HeadToHeadTwo | tiebreakers.py:72-81 | The rule as corrected. The groups hold the members of the group, each once. |
| Tiebreakers.HeadToHeadTwoInPlace | tiebreakers.py:73-81 | The groups are those of `HeadToHeadTwo`. The caller's list is reversed in place exactly when the first meeting found has a winner and that winner is not the first team; otherwise it is left as it was. |
| Tiebreakers.HeadToHeadTwoOutcome | tiebreakers.py:72-81 | When the two teams never met, or the first meeting found is undecided, nobody is separated. When the meeting was decided, its winner comes first and the other team second. |
| Tiebreakers.HeadToHeadTwoUndecidedMeeting | tiebreakers.py:76-81 | A single scheduled meeting without a winner: the code as written puts the second team first, and the corrected rule separates nobody. |
| Tiebreakers.MultiRankingPartition | tiebreakers.py:86-104 | Whatever the counts, the groups of the head-to-head decision hold the members of the group, each once. |
| Tiebreakers.HeadToHeadMultiPartition | tiebreakers.py:86-104 | The groups of `HeadToHeadMulti` hold the members of the group, each once. |
| Tiebreakers.HeadToHeadMultiRoundRobin | tiebreakers.py:92-95 | When every pair has met, the teams are grouped by their wins inside the group. Each group has one count, and counts strictly fall from group to group. The teams with any one count appear in group order. |
| Tiebreakers.HeadToHeadMultiTied | tiebreakers.py:92-95 | A round robin in which every team has the same number of wins, such as a three-team cycle, separates nobody. |
| Tiebreakers.HeadToHeadWinsBound | tiebreakers.py:89 | A member wins at most the common games it played, and so at most n-1. |
| Tiebreakers.HeadToHeadWinsAtMost | tiebreakers.py:89 | No member has more than n-1 wins inside the group. |
| Tiebreakers.MultiRankingPromotes | tiebreakers.py:97-104 | Outside a round robin, with every count at most n-1: the first team with n-1 wins, in group order, is ranked alone first and the others follow in sorted order; when no team has n-1, the group is returned unchanged. |
| Tiebreakers.HeadToHeadMultiPromotes | tiebreakers.py:97-104 | When some pair has not met: a team that won n-1 games inside the group is ranked alone ahead of the rest, with the first such team in group order chosen; otherwise the group is returned unchanged. |
| Tiebreakers.DecidedGames | tiebreakers.py:114 | The games of the list that the team played and that have a winner: no more than the games it played. |
| Tiebreakers.DecidedGamesComplete | tiebreakers.py:114 | Every decided game of the list that the team played is among its decided games. |
| Tiebreakers.DecidedGamesAppend | tiebreakers.py:114 | The decided games follow the list: a further game is added, at the end, exactly when the team played it and it has a winner. |
| Tiebreakers.LoserRankingAsWritten | tiebreakers.py:111-115 | The demotion as written: either nobody is separated, or the last-ranked team is alone in the second group, has no win and played n-1 of the games, decided or not. |
| Tiebreakers.LoserRankingAsWrittenDemotes | tiebreakers.py:111-115 | As written, the team considered is the last winless team in group order. It is demoted alone below the rest exactly when it played n-1 of the games, decided or not, and otherwise nobody is separated. When every team has a win, nobody is separated. |
| Tiebreakers.LoserRanking | tiebreakers.py:106-115 | The demotion with "played" replaced by "lost", as the comment "lost to all others" states it (the comment's other condition, that not all teams played each other, is tested neither by the code nor by the model): either nobody is separated, or the last-ranked team is alone in the second group, has no win and lost n-1 decided games. |
| Tiebreakers.LoserRankingUndecidedMeeting | tiebreakers.py:106-115 | Two teams whose only meeting is undecided: the code as written demotes the second team, which lost nothing; the rule as stated separates nobody. |
| Tiebreakers.LoserRankingPartition | tiebreakers.py:107-115 | Whatever the counts, the groups of the demotion decision hold the members of the group, each once. |
| Tiebreakers.HeadToHeadLoserMultiPartition | tiebreakers.py:107-115 | The groups of `HeadToHeadLoserMulti` hold the members of the group, each once. |
| Tiebreakers.LoserRankingDemotes | tiebreakers.py:107-115 | With no negative count, the team considered is the last winless team in group order. It is demoted alone below the rest exactly when it lost n-1 decided games, and otherwise nobody is separated. When every team has a win, nobody is separated. |
| Tiebreakers.HeadToHeadLoserMultiDemotes | tiebreakers.py:107-115 | Only the last team in group order without a win inside the group is examined. It is ranked alone below the rest, which keep their sorted order, exactly when it lost n-1 decided games inside the group; otherwise, and when every team won a game, nobody is separated. |
| Tiebreakers.HeadToHeadLoserMultiMetAll | tiebreakers.py:114 | Playing n-1 of the group's games means having met every other member, and the converse holds; losing n-1 decided games also means having met every other member. |
| Tiebreakers.CommonOpponentTotals | tiebreakers.py:120 | The dict has exactly the members as keys. Each member's entry counts the common opponents it beat in its first game found against each, between 0 and the number of common opponents. |
| Tiebreakers.CommonOpponentWins | tiebreakers.py:120 | A team beats at most as many common opponents as there are. |
| Tiebreakers.CommonOpponentsRanks | tiebreakers.py:118-122 | The groups hold the members, each once. Each group has one count against the common opponents, counts strictly fall from group to group, and the teams with any one count appear in group order. |
| Tiebreakers.RankedUniform | tiebreakers.py:121-122 | Teams that all share one count are returned as a single group, in group order. |
| Tiebreakers.CommonOpponentTotalsNone | tiebreakers.py:120 | Without common opponents every member's count is zero. |
| Tiebreakers.CommonOpponentsNone | tiebreakers.py:118-122 | Without common opponents the rule separates nobody. |
| Tiebreakers.Tiebreaker.constructor | tiebreakers.py:58-60 | The tiebreaker is bound to the given conference, whose abbreviation must be a key of the rule registry. |
| Tiebreakers.Tiebreaker.CommonOpponentsInOrder | tiebreakers.py:124-129 | When the guard declines, the group is returned unchanged. |
| Tiebreakers.CommonOpponentsInOrderMissing | tiebreakers.py:124-129 | With distinct standings, a common opponent missing from the standings makes the guard decline, whatever the repetitions among the common opponents. |
| Tiebreakers.CommonOpponentsInOrderDeclines | tiebreakers.py:124-129 | With distinct standings and distinct common opponents, the guard declines exactly when some common opponent is missing from the standings. |

The functions that only compute are stated by the lemmas about them:
`MultiRanking` and `HeadToHeadMulti` by the `MultiRanking…` and `HeadToHeadMulti…` rows;
`HeadToHeadLoserMulti` by the `LoserRanking…` and `HeadToHeadLoserMulti…` rows;
`CommonOpponents` by `CommonOpponentsRanks` and `CommonOpponentsNone`;
`CommonGames` and `GamesAgainst` by the `CommonGames…` and `GamesAgainst…` rows;
`CommonOpponentsOf` by `CommonOpponentsMembers` and `CommonOpponentsExcludeGroup`;
`IsRoundRobin` by `RoundRobinSize` and `RoundRobinIffAllMet`;
`ReversesPair` by `HeadToHeadTwoInPlace`;
`BeatIn` by `CommonOpponentWins`; `Game.Played` by the `Opponents`, `GamesByTeam` and
`ConsistentGameLists` rows; and `Conference.Consistent` by the `Conference` rows,
`ConsistentGameLists` and `ConsistentHoldsOwnGames`.

## Left out

- I/O is not part of this model. That covers `main.py` (the interactive loop, argument parsing and command dispatch) and `DataController.py` (HTTP requests, the API key, JSON files and directories, the standings printout). Winners are given directly as data, home or away, as `DataController.py:105-108` produces them; `ResultsRecorded` and `Game.WellFormed` state that assumption.
- `Conference.setUpdateTimestamp`, the update time, and the `__str__`/`__repr__` methods are left out because they read the clock or only format text.
- `__copy__` and `__deepcopy__` are left out. `__deepcopy__` calls a method that does not exist (`model.py:79`).
- `Team.nonConfWins` is a field only. Nothing in the modelled code reads or changes it after the constructor.
- The Python 3 errors of `groupDictKeysByValue` are not modelled; the model follows the function's comment (`tiebreakers.py:41`). As written, the function indexes `d.values()[0]`, unpacks `for key, value in d`, and returns a one-team group as the bare team rather than a list. `GroupByValue` always returns a sequence of groups.
- `getCommonOpponents` has no `return` (`tiebreakers.py:33-36`). `CommonOpponentsOf` and `GetCommonOpponents` return the list the loop builds.
- `HeadToHeadTwo` as written returns a flat list when `teams[0]` won, and returns the `None` of `teams.reverse()` otherwise (`tiebreakers.py:79,81`). Both rule models return one single-team group per team, in the decided order. This means a call on more than two teams ranks every team separately, in list order or reversed.
- `HeadToHeadMulti` indexes `dict.items()` and `dict.keys()` (`tiebreakers.py:98,101`), which Python 3 refuses. The model reads them as the first sorted entry and the remaining sorted keys. The promoted team becomes a one-team group.
- `HeadToHeadLoserMulti` indexes `dict.items()` and `dict.keys()` (`tiebreakers.py:113,115`), which Python 3 refuses before any condition is tested, as in `HeadToHeadMulti`. The model reads them as the last sorted entry and the other sorted keys, and the demoted team becomes a one-team group (line 115 returns it bare). When the condition fails the function returns `None`; the model returns the group unchanged, as the other rules do when they separate nobody. On a one-team group the condition holds (no wins, and 0 = n-1 games), so the model returns an empty group followed by the team.
- `HeadToHeadMulti` requires at least two teams: `math.factorial(n - 2)` raises an error for fewer. The float division `n!/(2(n-2)!)` is exact here, so the test is modelled by cross-multiplication in `IsRoundRobin`.
- `HeadToHeadMulti`'s round-robin test counts the games found, decided or not. A round robin with undecided games therefore ranks by the decided wins only, as the code does.
- The dicts built by the rules have one entry per distinct team. A group that lists a team twice yields a dict with one entry for it, which `Dedup` models. The partition lemmas assume a group without repeats.
- `Tiebreaker.__init__` also looks up `self.tiebreakers` in the module-level registry (`tiebreakers.py:9-22,60`). Every entry of that registry is the pair `(None, None)`, and nothing reads the field, so the model leaves the field out. The lookup raises a `KeyError` for an abbreviation that is not one of the registry's keys (ACC, B12, B1G, SEC); the constructor requires one of those four instead.
- `Tiebreaker.orderStandings` raises `NotImplementedError` (`tiebreakers.py:65-68`), so there is no resolver to model. No rule-sequencing function is defined.
- `CommonOpponentsInOrder` is modelled up to its guard only. What follows the guard is a `#TODO` (`tiebreakers.py:131`), and the model returns `None` when the guard passes. The model requires the standings to be set, because reading them earlier raises an `AttributeError` in the source.
- `CommonOpponentsInOrderCollective`, `StrengthOfSchedule`, `TotalWins`, `StrengthOfScheduleMulti` and `TotalWinsMulti` consist of `pass`. They have no behaviour to model.
- The string overloads of `getGameByOpponent` and `getGamesByTeam` are modelled by `GameByOpponentName` and `GamesByTeamName`. These take the conference's team list as a parameter rather than following `team.conference`.
- Some requires exclude inputs on which the source raises an error rather than handling them:
  - `Team.AddGame` requires `propagate ==> conference != null`; the source calls `self.conference.addGame` (`model.py:49`).
  - `CommonOpponentsOf` and `GetCommonOpponents` require at least one team; the source reads `teams[0]` (`tiebreakers.py:34`).
  - `HeadToHeadTwo` requires at least two teams; the source reads `teams[1]` (`tiebreakers.py:74`).
  - `GroupKeysByValue` requires a nonempty dict; the source reads its first value (`tiebreakers.py:45`).
- Default arguments are not modelled: `Team`'s `conference = None` (`model.py:30`), `Team.addGame`'s `propagate = False` (`model.py:47`) and `Conference.addGame`'s `propagate = True` (`model.py:98`). Each model member takes the argument explicitly.
- Tiebreakers.CommonOpponentsInOrderDeclines: the converse direction assumes the common opponents are distinct. The common opponents keep the order and repetitions of the last member's opponent list; earlier members only filter it. So when the last member met the same opponent twice, that opponent is listed twice, and the count of common opponents (`tiebreakers.py:129`) exceeds the count found in the standings. The guard then declines although every common opponent is in the standings; `CommonOpponentsInOrderMissing` states the decline without that assumption.
- Model.Team.AddGame: a propagating call on a game whose home and away team coincide is not shown to keep the conference consistent, because the source then adds the game to that team's list twice.
- Model.Conference.AddGame: the same limitation applies when the home and away team coincide.

## Findings

| source | as written | input that shows it | evidently intended | confidence | as-written member | corrected member |
|---|---|---|---|---|---|---|
| tiebreakers.py:76-81 | A meeting found with no winner fails `teams[0] is game.winner`. It therefore takes the reverse branch, which ranks the second team first. | Teams a and b, where a's only game is a scheduled, undecided game against b | An undecided meeting separates nobody (the comment "If two teams played, advantage winner") | not executed | Tiebreakers.HeadToHeadTwoAsWritten, with Tiebreakers.HeadToHeadTwoUndecidedMeeting | Tiebreakers.HeadToHeadTwo |
| tiebreakers.py:106-115 | The demotion test counts the games the bottom team played (`g.played(bottom[0])`), decided or not. A winless team with n-1 scheduled but undecided games is therefore demoted. | Teams a and b whose only meeting is scheduled and undecided: b, ranked last with no win, is demoted | Demote only a team that lost to all the others (the comment "disadvantage team that lost to all others") | not executed | Tiebreakers.LoserRankingAsWritten, with Tiebreakers.LoserRankingUndecidedMeeting | Tiebreakers.LoserRanking |
