/** The rule evaluators of tiebreakers.py. Each maps a tied group of teams to an
    ordered partition of it: a sequence of groups, best first, where the teams of
    one group remain tied with each other. */
module Tiebreakers {
  import opened Wrappers
  import opened Seqs
  import opened Model
  import opened Ranking
  import opened Pairwise

  /** `g.winner is team`. */
  function WonBy(team: Team): (won: Game -> bool)
  {
    (g: Game) => g.winner == Some(team)
  }

  /** `len([g for g in games if g.winner is team])`. */
  function WinTotal(team: Team, games: seq<Game>): (wins: nat)
    ensures wins <= |games|
  {
    |Filter(games, WonBy(team))|
  }

  /** The count moves by one for each further game, exactly when `team` won it. */
  lemma WinTotalAppend(team: Team, games: seq<Game>, game: Game)
    ensures WinTotal(team, games + [game]) == WinTotal(team, games) + (if game.winner == Some(team) then 1 else 0)
  {
    FilterSnoc(games, game, WonBy(team));
  }

  /** No game, no win. */
  lemma WinTotalEmpty(team: Team)
    ensures WinTotal(team, []) == 0
  {
  }

  /** The `winTotals` dict of the head-to-head rules: each member's wins among `games`. */
  function WinTotals(teams: seq<Team>, games: seq<Game>): (totals: map<Team, int>)
    ensures totals.Keys == set t | t in teams
    ensures forall i :: 0 <= i < |teams| ==> teams[i] in totals && totals[teams[i]] == WinTotal(teams[i], games)
    ensures forall i :: 0 <= i < |teams| ==> 0 <= totals[teams[i]] <= |games|
  {
    map t | t in teams :: WinTotal(t, games)
  }

  /** Each member's wins in the games played inside the group. */
  function HeadToHeadWins(teams: seq<Team>): (totals: map<Team, int>)
    reads teams
    ensures totals.Keys == set t | t in teams
    ensures forall i :: 0 <= i < |teams| ==> teams[i] in totals && 0 <= totals[teams[i]] <= |CommonGames(teams)|
  {
    WinTotals(teams, CommonGames(teams))
  }

  /** The dict's keys after sortDictValuesDescending: each member once, by
      descending count, ties in group order. */
  function Ranked(teams: seq<Team>, totals: map<Team, int>): (r: seq<Team>)
    requires forall i :: 0 <= i < |teams| ==> teams[i] in totals
    ensures Descending(r, totals)
    ensures multiset(r) == multiset(Dedup(teams))
    ensures teams != [] ==> r != []
  {
    var keys := Dedup(teams);
    assert Covers(keys, totals) by {
      forall i | 0 <= i < |keys| ensures keys[i] in totals {
        var j :| 0 <= j < |teams| && teams[j] == keys[i];
      }
    }
    var r := SortDescending(keys, totals);
    assert |r| == |multiset(r)| == |multiset(keys)| == |keys|;
    r
  }

  /** On a group without repeated teams the dict keeps the group as it is. */
  lemma RankedDistinct(teams: seq<Team>, totals: map<Team, int>)
    requires forall i :: 0 <= i < |teams| ==> teams[i] in totals
    requires NoDuplicates(teams)
    ensures Covers(teams, totals)
    ensures Ranked(teams, totals) == SortDescending(teams, totals)
  {
    DedupDistinct(teams);
  }

  // ---------------------------------------------------------------- HeadToHeadTwo

  /** The branch of HeadToHeadTwo that reverses the group: the first meeting found
      has a winner other than teams[0]. */
  predicate ReversesPair(teams: seq<Team>)
    requires |teams| >= 2
    reads teams[0]
  {
    match GameByOpponent(teams[0].games, teams[1])
    case None => false
    case Some(game) => game.winner.Some? && game.winner != Some(teams[0])
  }

  /** HeadToHeadTwo as written: a meeting whose winner is not teams[0], including
      one not yet decided, reverses the group. */
  function HeadToHeadTwoAsWritten(teams: seq<Team>): (r: seq<seq<Team>>)
    requires |teams| >= 2
    reads teams[0]
    ensures multiset(Flatten(r)) == multiset(teams)
  {
    match GameByOpponent(teams[0].games, teams[1])
    case None => FlattenOne(teams); [teams]
    case Some(game) =>
      if game.winner == Some(teams[0]) then FlattenSingletons(teams); Singletons(teams)
      else FlattenSingletons(Reverse(teams)); ReverseMultiset(teams); Singletons(Reverse(teams))
  }

  /** HeadToHeadTwo: no separation unless the first meeting found has a winner;
      then the winner's order, each team a group of its own. */
  function HeadToHeadTwo(teams: seq<Team>): (r: seq<seq<Team>>)
    requires |teams| >= 2
    reads teams[0]
    ensures multiset(Flatten(r)) == multiset(teams)
  {
    match GameByOpponent(teams[0].games, teams[1])
    case None => FlattenOne(teams); [teams]
    case Some(game) =>
      if game.winner.None? then FlattenOne(teams); [teams]
      else if ReversesPair(teams) then FlattenSingletons(Reverse(teams)); ReverseMultiset(teams); Singletons(Reverse(teams))
      else FlattenSingletons(teams); Singletons(teams)
  }

  /** HeadToHeadTwo on the caller's list, reversed in place as `teams.reverse()` does. */
  method HeadToHeadTwoInPlace(teams: array<Team>) returns (ranked: seq<seq<Team>>)
    requires teams.Length >= 2
    modifies teams
    ensures ranked == old(HeadToHeadTwo(teams[..]))
    ensures teams[..] == if old(ReversesPair(teams[..])) then Reverse(old(teams[..])) else old(teams[..])
  {
    var game := GameByOpponent(teams[0].games, teams[1]);
    if game.None? || game.value.winner.None? {
      ranked := [teams[..]];
    } else if game.value.winner == Some(teams[0]) {
      ranked := Singletons(teams[..]);
    } else {
      ReverseInPlace(teams);
      ranked := Singletons(teams[..]);
    }
  }

  /** For two distinct teams: no separation when the first meeting found in
      teams[0]'s list is missing or undecided; otherwise its winner first and
      the other team second. */
  lemma HeadToHeadTwoOutcome(teams: seq<Team>)
    requires |teams| == 2 && teams[0] != teams[1] && HoldsOwnGames(teams[0])
    requires forall k :: 0 <= k < |teams[0].games| ==> teams[0].games[k].WellFormed()
    ensures !Met(teams[0], teams[1]) ==> HeadToHeadTwo(teams) == [teams]
    ensures var found := GameByOpponent(teams[0].games, teams[1]);
            found.Some? && found.value.winner.None? ==> HeadToHeadTwo(teams) == [teams]
    ensures var found := GameByOpponent(teams[0].games, teams[1]);
            found.Some? && found.value.winner.Some? ==>
              var r := HeadToHeadTwo(teams);
              |r| == 2 && r[0] == [found.value.winner.value] && |r[1]| == 1 &&
              r[1][0] in teams && r[1][0] != found.value.winner.value
  {
    var found := GameByOpponent(teams[0].games, teams[1]);
    if found.Some? {
      FoundGamePair(teams[0], teams[1], found.value);
      assert found.value.WellFormed();
    }
    if Met(teams[0], teams[1]) {
      var k :| 0 <= k < |teams[0].games| && teams[0].games[k].Played(teams[1]);
    }
    assert Reverse(teams) == [teams[1], teams[0]];
  }

  /** A scheduled meeting that is not yet decided: the code as written ranks the
      second team first, where no separation is the evident intent. */
  lemma HeadToHeadTwoUndecidedMeeting(a: Team, b: Team)
    requires a != b && a.games == [Game(b, a, None)]
    ensures HeadToHeadTwoAsWritten([a, b]) == [[b], [a]]
    ensures HeadToHeadTwo([a, b]) == [[a, b]]
  {
    var teams := [a, b];
    assert teams[0].games[0].Played(b);
    assert GameByOpponent(teams[0].games, teams[1]) == Some(Game(b, a, None));
    assert Reverse(teams) == [b, a];
  }

  // -------------------------------------------------------------- HeadToHeadMulti

  /** The decision of HeadToHeadMulti once the wins inside the group are
      counted: a round robin ranks the group by its counts; otherwise a first-ranked
      team with n-1 wins is ranked alone ahead of the rest, and else nobody is
      separated. */
  function MultiRanking(teams: seq<Team>, totals: map<Team, int>, roundRobin: bool): (r: seq<seq<Team>>)
    requires |teams| >= 2 && forall i :: 0 <= i < |teams| ==> teams[i] in totals
  {
    var ranked := Ranked(teams, totals);
    if roundRobin then GroupByValue(ranked, totals)
    else if totals[ranked[0]] == |teams| - 1 then [[ranked[0]], ranked[1..]]
    else [teams]
  }

  /** HeadToHeadMulti: the wins inside the group, and whether the group's games
      make up a round robin. */
  function HeadToHeadMulti(teams: seq<Team>): (r: seq<seq<Team>>)
    requires |teams| >= 2
    reads teams
  {
    var games := CommonGames(teams);
    MultiRanking(teams, WinTotals(teams, games), IsRoundRobin(teams, games))
  }

  /** The groups of MultiRanking hold the members of the group, each once. */
  lemma MultiRankingPartition(teams: seq<Team>, totals: map<Team, int>, roundRobin: bool)
    requires |teams| >= 2 && NoDuplicates(teams) && Covers(teams, totals)
    ensures multiset(Flatten(MultiRanking(teams, totals, roundRobin))) == multiset(teams)
  {
    RankedDistinct(teams, totals);
    var ranked := SortDescending(teams, totals);
    if roundRobin {
      SortedGroupsPermute(teams, totals);
    } else if totals[ranked[0]] == |teams| - 1 {
      FlattenSplitFirst(ranked);
    } else {
      FlattenOne(teams);
    }
  }

  /** The groups of HeadToHeadMulti hold the members of the group, each once. */
  lemma HeadToHeadMultiPartition(teams: seq<Team>)
    requires |teams| >= 2 && NoDuplicates(teams)
    ensures multiset(Flatten(HeadToHeadMulti(teams))) == multiset(teams)
  {
    var games := CommonGames(teams);
    MultiRankingPartition(teams, WinTotals(teams, games), IsRoundRobin(teams, games));
  }

  /** When every pair of the group has met, HeadToHeadMulti groups the teams by
      their wins inside the group: one count per group, counts strictly falling
      from each group to the next, and the teams of any one count in group order. */
  lemma HeadToHeadMultiRoundRobin(teams: seq<Team>, v: int)
    requires |teams| >= 2 && NoDuplicates(teams) && AllHoldOwnGames(teams) && AllPairsMet(teams)
    ensures RankedBy(HeadToHeadMulti(teams), HeadToHeadWins(teams))
    ensures WithValue(Flatten(HeadToHeadMulti(teams)), HeadToHeadWins(teams), v) ==
            WithValue(teams, HeadToHeadWins(teams), v)
  {
    var games := CommonGames(teams);
    var totals := WinTotals(teams, games);
    RoundRobinIffAllMet(teams);
    RankedDistinct(teams, totals);
    var ranked := SortDescending(teams, totals);
    GroupByValueRuns(ranked, totals);
    GroupByValueFlatten(ranked, totals);
    SortStable(teams, totals, v);
  }

  /** A round robin in which every team has the same number of wins, such as a
      three-team cycle, separates nobody. */
  lemma HeadToHeadMultiTied(teams: seq<Team>)
    requires |teams| >= 2 && NoDuplicates(teams) && AllHoldOwnGames(teams) && AllPairsMet(teams)
    requires forall i :: 0 <= i < |teams| ==> HeadToHeadWins(teams)[teams[i]] == HeadToHeadWins(teams)[teams[0]]
    ensures HeadToHeadMulti(teams) == [teams]
  {
    var games := CommonGames(teams);
    var totals := WinTotals(teams, games);
    RoundRobinIffAllMet(teams);
    RankedDistinct(teams, totals);
    SortUniform(teams, totals, totals[teams[0]]);
    GroupByValueUniform(teams, totals);
  }

  /** Every game in the members' lists has its winner among its participants. */
  ghost predicate ResultsRecorded(teams: seq<Team>)
    reads teams
  {
    forall i, k :: 0 <= i < |teams| && 0 <= k < |teams[i].games| ==> teams[i].games[k].WellFormed()
  }

  /** A member wins at most the common games it played, so at most n-1. */
  lemma HeadToHeadWinsBound(teams: seq<Team>, p: nat)
    requires p < |teams| && NoDuplicates(teams) && AllHoldOwnGames(teams) && ResultsRecorded(teams)
    ensures HeadToHeadWins(teams)[teams[p]] <= |GamesByTeam(CommonGames(teams), teams[p])| <= |teams| - 1
  {
    var games := CommonGames(teams);
    var t := teams[p];
    CommonGamesFromLists(teams);
    forall k | 0 <= k < |games| && WonBy(t)(games[k]) ensures games[k].Played(t) {
      var i :| 0 <= i < |teams| && games[k] in teams[i].games;
      var m :| 0 <= m < |teams[i].games| && teams[i].games[m] == games[k];
      assert teams[i].games[m].WellFormed();
    }
    FilterStronger(games, WonBy(t), (g: Game) => g.Played(t));
    CommonGamesPlayed(teams, p);
  }

  /** No member wins more than n-1 of the group's games. */
  lemma HeadToHeadWinsAtMost(teams: seq<Team>)
    requires NoDuplicates(teams) && AllHoldOwnGames(teams) && ResultsRecorded(teams)
    ensures forall i :: 0 <= i < |teams| ==> HeadToHeadWins(teams)[teams[i]] <= |teams| - 1
  {
    forall i | 0 <= i < |teams| ensures HeadToHeadWins(teams)[teams[i]] <= |teams| - 1 {
      HeadToHeadWinsBound(teams, i);
    }
  }

  /** Outside a round robin, with no count above n-1: the first team, in group
      order, with n-1 wins is ranked alone ahead of the others, which keep the
      sorted order; when no team has n-1, nobody is separated. */
  lemma MultiRankingPromotes(teams: seq<Team>, totals: map<Team, int>)
    requires |teams| >= 2 && NoDuplicates(teams) && Covers(teams, totals)
    requires forall i :: 0 <= i < |teams| ==> totals[teams[i]] <= |teams| - 1
    ensures var leaders := WithValue(teams, totals, |teams| - 1);
            leaders != [] ==>
              MultiRanking(teams, totals, false) == [[leaders[0]], SortDescending(teams, totals)[1..]]
    ensures WithValue(teams, totals, |teams| - 1) == [] ==> MultiRanking(teams, totals, false) == [teams]
  {
    RankedDistinct(teams, totals);
    if WithValue(teams, totals, |teams| - 1) != [] {
      SortFirstWith(teams, totals, |teams| - 1);
    } else {
      SortFirstWithout(teams, totals, |teams| - 1);
    }
  }

  /** Outside a round robin the first team, in group order, that won all n-1 of
      its games inside the group is ranked alone ahead of the others, which keep
      the sorted order; when no team did, nobody is separated. */
  lemma HeadToHeadMultiPromotes(teams: seq<Team>)
    requires |teams| >= 2 && NoDuplicates(teams) && AllHoldOwnGames(teams) && ResultsRecorded(teams)
    requires !AllPairsMet(teams)
    ensures var leaders := WithValue(teams, HeadToHeadWins(teams), |teams| - 1);
            leaders != [] ==>
              HeadToHeadMulti(teams) == [[leaders[0]], SortDescending(teams, HeadToHeadWins(teams))[1..]]
    ensures WithValue(teams, HeadToHeadWins(teams), |teams| - 1) == [] ==> HeadToHeadMulti(teams) == [teams]
  {
    RoundRobinIffAllMet(teams);
    HeadToHeadWinsAtMost(teams);
    MultiRankingPromotes(teams, HeadToHeadWins(teams));
  }

  // ---------------------------------------------------------- HeadToHeadLoserMulti

  /** `g.winner is not None`: the game has a result. */
  predicate Decided(g: Game)
  {
    g.winner.Some?
  }

  /** The games of `games` that `team` played and that have a result. */
  function DecidedGames(games: seq<Game>, team: Team): (r: seq<Game>)
    ensures |r| <= |GamesByTeam(games, team)|
    ensures forall k :: 0 <= k < |r| ==> r[k] in games && r[k].Played(team) && r[k].winner.Some?
  {
    var played := GamesByTeam(games, team);
    FilterMembers(played, Decided);
    Filter(played, Decided)
  }

  /** Every decided game of the list that `team` played is among its decided games. */
  lemma DecidedGamesComplete(games: seq<Game>, team: Team)
    ensures forall k :: 0 <= k < |games| && games[k].Played(team) && games[k].winner.Some? ==>
              games[k] in DecidedGames(games, team)
  {
    var played := GamesByTeam(games, team);
    FilterMembers(played, Decided);
    forall k | 0 <= k < |games| && games[k].Played(team) && games[k].winner.Some?
      ensures games[k] in DecidedGames(games, team)
    {
      var j :| 0 <= j < |played| && played[j] == games[k];
    }
  }

  /** The decided games follow the list one game at a time: a further game is added
      exactly when `team` played it and it has a winner. */
  lemma DecidedGamesAppend(games: seq<Game>, game: Game, team: Team)
    ensures DecidedGames(games + [game], team) ==
            DecidedGames(games, team) + (if game.Played(team) && game.winner.Some? then [game] else [])
  {
    var played := GamesByTeam(games, team);
    GamesByTeamAppend(games, game, team);
    assert DecidedGames(games, team) == Filter(played, Decided);
    assert DecidedGames(games + [game], team) == Filter(GamesByTeam(games + [game], team), Decided);
    if game.Played(team) {
      assert GamesByTeam(games + [game], team) == played + [game];
      FilterSnoc(played, game, Decided);
      assert Filter(played + [game], Decided) == Filter(played, Decided) + (if Decided(game) then [game] else []);
    } else {
      assert GamesByTeam(games + [game], team) == played;
    }
  }

  /** The decision of HeadToHeadLoserMulti as written: the last-ranked team is
      ranked alone below the rest when it has no win and played n-1 of `games`,
      decided or not; otherwise nobody is separated. */
  function LoserRankingAsWritten(teams: seq<Team>, totals: map<Team, int>, games: seq<Game>): (r: seq<seq<Team>>)
    requires |teams| >= 1 && forall i :: 0 <= i < |teams| ==> teams[i] in totals
    ensures r == [teams] ||
            (|r| == 2 && r[1] == [Last(Ranked(teams, totals))] &&
             totals[r[1][0]] == 0 && |GamesByTeam(games, r[1][0])| == |teams| - 1)
  {
    var ranked := Ranked(teams, totals);
    var bottom := Last(ranked);
    if totals[bottom] == 0 && |GamesByTeam(games, bottom)| == |teams| - 1 then
      [ranked[..|ranked| - 1], [bottom]]
    else [teams]
  }

  /** The decision of HeadToHeadLoserMulti as its comment states it: the
      last-ranked team is ranked alone below the rest when it has no win and lost
      n-1 decided games of `games`; otherwise nobody is separated. */
  function LoserRanking(teams: seq<Team>, totals: map<Team, int>, games: seq<Game>): (r: seq<seq<Team>>)
    requires |teams| >= 1 && forall i :: 0 <= i < |teams| ==> teams[i] in totals
    ensures r == [teams] ||
            (|r| == 2 && r[1] == [Last(Ranked(teams, totals))] &&
             totals[r[1][0]] == 0 && |DecidedGames(games, r[1][0])| == |teams| - 1)
  {
    var ranked := Ranked(teams, totals);
    var bottom := Last(ranked);
    if totals[bottom] == 0 && |DecidedGames(games, bottom)| == |teams| - 1 then
      [ranked[..|ranked| - 1], [bottom]]
    else [teams]
  }

  /** Two teams whose only meeting is scheduled but undecided: the code as written
      demotes the second team, which lost nothing; the rule as its comment states it
      separates nobody. */
  lemma LoserRankingUndecidedMeeting(a: Team, b: Team)
    requires a != b
    ensures var games := [Game(a, b, None)];
            var totals := WinTotals([a, b], games);
            LoserRankingAsWritten([a, b], totals, games) == [[a], [b]] &&
            LoserRanking([a, b], totals, games) == [[a, b]]
  {
    var games := [Game(a, b, None)];
    UndecidedPairRanked(a, b);
    UndecidedMeetingGames(a, b);
    PairDemotedAsWritten([a, b], WinTotals([a, b], games), games);
    PairKeptTogether([a, b], WinTotals([a, b], games), games);
  }

  /** The second team of an undecided meeting played that one game and has no
      decided game. */
  lemma UndecidedMeetingGames(a: Team, b: Team)
    ensures GamesByTeam([Game(a, b, None)], b) == [Game(a, b, None)]
    ensures DecidedGames([Game(a, b, None)], b) == []
  {
    var games := [Game(a, b, None)];
    assert GamesByTeam(games, b) == games;
  }

  /** A winless second-ranked team of a pair that played one game is demoted by
      the code as written. */
  lemma PairDemotedAsWritten(teams: seq<Team>, totals: map<Team, int>, games: seq<Game>)
    requires |teams| == 2 && forall i :: 0 <= i < |teams| ==> teams[i] in totals
    requires Ranked(teams, totals) == teams && totals[teams[1]] == 0
    requires |GamesByTeam(games, teams[1])| == 1
    ensures LoserRankingAsWritten(teams, totals, games) == [[teams[0]], [teams[1]]]
  {
    assert teams[..1] == [teams[0]];
  }

  /** A pair whose second-ranked team has no decided game is kept together by
      the rule as stated. */
  lemma PairKeptTogether(teams: seq<Team>, totals: map<Team, int>, games: seq<Game>)
    requires |teams| == 2 && forall i :: 0 <= i < |teams| ==> teams[i] in totals
    requires Ranked(teams, totals) == teams && DecidedGames(games, teams[1]) == []
    ensures LoserRanking(teams, totals, games) == [teams]
  {
  }

  /** Neither team of an undecided meeting has a win, so the pair keeps its order. */
  lemma UndecidedPairRanked(a: Team, b: Team)
    requires a != b
    ensures var totals := WinTotals([a, b], [Game(a, b, None)]);
            totals[a] == 0 && totals[b] == 0 && Ranked([a, b], totals) == [a, b]
  {
    var teams := [a, b];
    var games := [Game(a, b, None)];
    var totals := WinTotals(teams, games);
    assert Filter(games, WonBy(a)) == [] && Filter(games, WonBy(b)) == [];
    assert NoDuplicates(teams);
    RankedDistinct(teams, totals);
    SortUniform(teams, totals, 0);
  }

  /** HeadToHeadLoserMulti: the wins inside the group, and the games each member
      played inside it. */
  function HeadToHeadLoserMulti(teams: seq<Team>): (r: seq<seq<Team>>)
    requires |teams| >= 1
    reads teams
  {
    var games := CommonGames(teams);
    LoserRanking(teams, WinTotals(teams, games), games)
  }

  /** The groups of LoserRanking hold the members of the group, each once. */
  lemma LoserRankingPartition(teams: seq<Team>, totals: map<Team, int>, games: seq<Game>)
    requires |teams| >= 1 && NoDuplicates(teams) && Covers(teams, totals)
    ensures multiset(Flatten(LoserRanking(teams, totals, games))) == multiset(teams)
  {
    RankedDistinct(teams, totals);
    FlattenSplitLast(SortDescending(teams, totals));
    FlattenOne(teams);
  }

  /** The groups of HeadToHeadLoserMulti hold the members of the group, each once. */
  lemma HeadToHeadLoserMultiPartition(teams: seq<Team>)
    requires |teams| >= 1 && NoDuplicates(teams)
    ensures multiset(Flatten(HeadToHeadLoserMulti(teams))) == multiset(teams)
  {
    var games := CommonGames(teams);
    LoserRankingPartition(teams, WinTotals(teams, games), games);
  }

  /** With no negative count, the team considered for demotion is the last, in
      group order, of the teams without a win; it is demoted exactly when it lost
      n-1 decided games of `games`, and when every team has a win nobody is separated. */
  lemma LoserRankingDemotes(teams: seq<Team>, totals: map<Team, int>, games: seq<Game>)
    requires |teams| >= 1 && NoDuplicates(teams) && Covers(teams, totals)
    requires forall i :: 0 <= i < |teams| ==> totals[teams[i]] >= 0
    ensures var winless := WithValue(teams, totals, 0);
            winless != [] ==>
              (LoserRanking(teams, totals, games) ==
                 [SortDescending(teams, totals)[..|teams| - 1], [Last(winless)]]
               <==> |DecidedGames(games, Last(winless))| == |teams| - 1)
    ensures var winless := WithValue(teams, totals, 0);
            winless != [] && |DecidedGames(games, Last(winless))| != |teams| - 1 ==>
              LoserRanking(teams, totals, games) == [teams]
    ensures WithValue(teams, totals, 0) == [] ==> LoserRanking(teams, totals, games) == [teams]
  {
    var n := |teams|;
    RankedDistinct(teams, totals);
    var ranked := SortDescending(teams, totals);
    if WithValue(teams, totals, 0) != [] {
      SortLastWith(teams, totals, 0);
      assert |[ranked[..n - 1], [ranked[n - 1]]]| != |[teams]|;
    } else {
      SortLastWithout(teams, totals, 0);
    }
  }

  /** The code as written: the team considered for demotion is the last, in group
      order, of the teams without a win; it is demoted exactly when it played n-1
      games of `games`, decided or not, and when every team has a win nobody is
      separated. */
  lemma LoserRankingAsWrittenDemotes(teams: seq<Team>, totals: map<Team, int>, games: seq<Game>)
    requires |teams| >= 1 && NoDuplicates(teams) && Covers(teams, totals)
    requires forall i :: 0 <= i < |teams| ==> totals[teams[i]] >= 0
    ensures var winless := WithValue(teams, totals, 0);
            winless != [] ==>
              (LoserRankingAsWritten(teams, totals, games) ==
                 [SortDescending(teams, totals)[..|teams| - 1], [Last(winless)]]
               <==> |GamesByTeam(games, Last(winless))| == |teams| - 1)
    ensures var winless := WithValue(teams, totals, 0);
            winless != [] && |GamesByTeam(games, Last(winless))| != |teams| - 1 ==>
              LoserRankingAsWritten(teams, totals, games) == [teams]
    ensures WithValue(teams, totals, 0) == [] ==> LoserRankingAsWritten(teams, totals, games) == [teams]
  {
    var n := |teams|;
    RankedDistinct(teams, totals);
    var ranked := SortDescending(teams, totals);
    if WithValue(teams, totals, 0) != [] {
      SortLastWith(teams, totals, 0);
      assert |[ranked[..n - 1], [ranked[n - 1]]]| != |[teams]|;
    } else {
      SortLastWithout(teams, totals, 0);
    }
  }

  /** The team considered for demotion is the last, in group order, of the teams
      with no win inside the group; it is demoted exactly when it lost n-1 decided
      games inside the group, and when every team won a game nobody is separated. */
  lemma HeadToHeadLoserMultiDemotes(teams: seq<Team>)
    requires |teams| >= 1 && NoDuplicates(teams)
    ensures var winless := WithValue(teams, HeadToHeadWins(teams), 0);
            winless != [] ==>
              (HeadToHeadLoserMulti(teams) ==
                 [SortDescending(teams, HeadToHeadWins(teams))[..|teams| - 1], [Last(winless)]]
               <==> |DecidedGames(CommonGames(teams), Last(winless))| == |teams| - 1)
    ensures var winless := WithValue(teams, HeadToHeadWins(teams), 0);
            winless != [] && |DecidedGames(CommonGames(teams), Last(winless))| != |teams| - 1 ==>
              HeadToHeadLoserMulti(teams) == [teams]
    ensures WithValue(teams, HeadToHeadWins(teams), 0) == [] ==> HeadToHeadLoserMulti(teams) == [teams]
  {
    LoserRankingDemotes(teams, HeadToHeadWins(teams), CommonGames(teams));
  }

  /** Given the members' lists, playing n-1 of the group's games means having met,
      in the order the group is scanned, every other member; so does losing n-1. */
  lemma HeadToHeadLoserMultiMetAll(teams: seq<Team>, p: nat)
    requires p < |teams| && NoDuplicates(teams) && AllHoldOwnGames(teams)
    ensures |GamesByTeam(CommonGames(teams), teams[p])| == |teams| - 1 <==> MetAllAt(teams, p)
    ensures |DecidedGames(CommonGames(teams), teams[p])| == |teams| - 1 ==> MetAllAt(teams, p)
  {
    CommonGamesPlayed(teams, p);
  }

  // -------------------------------------------------------------- CommonOpponents

  /** `w is not None and w.winner == team` for `w = team.getGameByOpponent(o)`. */
  function BeatIn(games: seq<Game>, team: Team): (beat: Team -> bool)
  {
    (o: Team) => match GameByOpponent(games, o) case None => false case Some(g) => g.winner == Some(team)
  }

  /** The number of common opponents that `team` beat in its first game against each. */
  function CommonOpponentWins(team: Team, opponents: seq<Team>): (wins: nat)
    reads team
    ensures wins <= |opponents|
  {
    |Filter(opponents, BeatIn(team.games, team))|
  }

  /** The `winTotals` dict of CommonOpponents. */
  function CommonOpponentTotals(teams: seq<Team>): (totals: map<Team, int>)
    requires |teams| >= 1
    reads teams
    ensures totals.Keys == set t | t in teams
    ensures forall i :: 0 <= i < |teams| ==>
              teams[i] in totals && totals[teams[i]] == CommonOpponentWins(teams[i], CommonOpponentsOf(teams))
    ensures forall i :: 0 <= i < |teams| ==> 0 <= totals[teams[i]] <= |CommonOpponentsOf(teams)|
  {
    var opponents := CommonOpponentsOf(teams);
    map t | t in teams :: CommonOpponentWins(t, opponents)
  }

  /** CommonOpponents: the group ranked by wins against the common opponents. */
  function CommonOpponents(teams: seq<Team>): (r: seq<seq<Team>>)
    requires |teams| >= 1
    reads teams
  {
    var totals := CommonOpponentTotals(teams);
    GroupByValue(Ranked(teams, totals), totals)
  }

  /** CommonOpponents groups the members, each once, by their wins against the
      common opponents: one count per group, counts strictly falling, the teams of
      any one count in group order. */
  lemma CommonOpponentsRanks(teams: seq<Team>, v: int)
    requires |teams| >= 1 && NoDuplicates(teams)
    ensures multiset(Flatten(CommonOpponents(teams))) == multiset(teams)
    ensures RankedBy(CommonOpponents(teams), CommonOpponentTotals(teams))
    ensures WithValue(Flatten(CommonOpponents(teams)), CommonOpponentTotals(teams), v) ==
            WithValue(teams, CommonOpponentTotals(teams), v)
  {
    var totals := CommonOpponentTotals(teams);
    RankedDistinct(teams, totals);
    var ranked := SortDescending(teams, totals);
    GroupByValueRuns(ranked, totals);
    GroupByValueFlatten(ranked, totals);
    SortStable(teams, totals, v);
  }

  /** Keys that all share one count are ranked as one group, in their order. */
  lemma RankedUniform(teams: seq<Team>, totals: map<Team, int>, v: int)
    requires |teams| >= 1 && NoDuplicates(teams) && Covers(teams, totals)
    requires forall i :: 0 <= i < |teams| ==> totals[teams[i]] == v
    ensures GroupByValue(Ranked(teams, totals), totals) == [teams]
  {
    RankedDistinct(teams, totals);
    SortUniform(teams, totals, v);
    GroupByValueUniform(teams, totals);
  }

  /** Without common opponents every count is zero. */
  lemma CommonOpponentTotalsNone(teams: seq<Team>)
    requires |teams| >= 1 && CommonOpponentsOf(teams) == []
    ensures forall i :: 0 <= i < |teams| ==> CommonOpponentTotals(teams)[teams[i]] == 0
  {
    var none: seq<Team> := [];
    forall i | 0 <= i < |teams| ensures CommonOpponentWins(teams[i], none) == 0 {
      assert Filter(none, BeatIn(teams[i].games, teams[i])) == [];
    }
  }

  /** Without common opponents nobody is separated. */
  lemma CommonOpponentsNone(teams: seq<Team>)
    requires |teams| >= 1 && NoDuplicates(teams) && CommonOpponentsOf(teams) == []
    ensures CommonOpponents(teams) == [teams]
  {
    CommonOpponentTotalsNone(teams);
    RankedUniform(teams, CommonOpponentTotals(teams), 0);
  }

  // ------------------------------------------------------- CommonOpponentsInOrder

  /** A Tiebreaker bound to the conference whose standings it consults. */
  class Tiebreaker {
    const conference: Conference

    /** Tiebreaker(conference): the conference's abbreviation must be one of the
        registry's keys, or the lookup of its rule sequence fails. */
    constructor(conference: Conference)
      requires conference.abbrName in {"ACC", "B12", "B1G", "SEC"}
      ensures this.conference == conference
    {
      this.conference := conference;
    }

    /** The decline guard of CommonOpponentsInOrder: `Some([teams])` when some
        common opponent is missing from the standings; `None` when the guard
        passes into the part of the rule that is not implemented. */
    function CommonOpponentsInOrder(teams: seq<Team>): (r: Option<seq<seq<Team>>>)
      requires |teams| >= 1 && conference.standings.Some?
      reads conference, teams
      ensures r.Some? ==> r.value == [teams]
    {
      var opponents := CommonOpponentsOf(teams);
      var ordered := Filter(conference.standings.value, Among(opponents));
      if |opponents| > |ordered| then Some([teams]) else None
    }
  }

  /** With distinct standings, a common opponent missing from them makes the rule
      decline: the group comes back unchanged. */
  lemma CommonOpponentsInOrderMissing(tb: Tiebreaker, teams: seq<Team>, i: nat)
    requires |teams| >= 1 && tb.conference.standings.Some?
    requires NoDuplicates(tb.conference.standings.value)
    requires i < |CommonOpponentsOf(teams)| && CommonOpponentsOf(teams)[i] !in tb.conference.standings.value
    ensures tb.CommonOpponentsInOrder(teams) == Some([teams])
  {
    FilterAmongMissing(tb.conference.standings.value, CommonOpponentsOf(teams), i);
  }

  /** With distinct standings and distinct common opponents, the rule declines
      exactly when some common opponent is not in the standings. */
  lemma CommonOpponentsInOrderDeclines(tb: Tiebreaker, teams: seq<Team>)
    requires |teams| >= 1 && tb.conference.standings.Some?
    requires NoDuplicates(tb.conference.standings.value) && NoDuplicates(CommonOpponentsOf(teams))
    ensures tb.CommonOpponentsInOrder(teams) == Some([teams]) <==>
            (exists i :: 0 <= i < |CommonOpponentsOf(teams)| &&
               CommonOpponentsOf(teams)[i] !in tb.conference.standings.value)
  {
    var opponents := CommonOpponentsOf(teams);
    var standings := tb.conference.standings.value;
    FilterAmongCount(standings, opponents);
    var declines := |opponents| > |Filter(standings, Among(opponents))|;
    assert tb.CommonOpponentsInOrder(teams) == if declines then Some([teams]) else None;
    if declines {
      var i :| 0 <= i < |opponents| && opponents[i] !in standings;
      assert CommonOpponentsOf(teams)[i] !in tb.conference.standings.value;
    } else {
      assert forall i :: 0 <= i < |opponents| ==> opponents[i] in standings;
    }
  }
}
