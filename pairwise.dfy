/** The helpers of tiebreakers.py that read the schedule graph for one tied
    group: the games played inside the group, the opponents every member has
    met, and the win tallies the rules rank by. */
module Pairwise {
  import opened Wrappers
  import opened Seqs
  import opened Model

  /** `a` holds a game that `b` played. */
  ghost predicate Met(a: Team, b: Team)
    reads a
  {
    exists k :: 0 <= k < |a.games| && a.games[k].Played(b)
  }

  /** Every pair of distinct positions of the group has met. */
  ghost predicate AllPairsMet(teams: seq<Team>)
    reads teams
  {
    forall i, j :: 0 <= i < j < |teams| ==> Met(teams[i], teams[j])
  }

  /** The two participants of a game, as an unordered pair. */
  function Pair(game: Game): (r: set<Team>)
  {
    {game.home, game.away}
  }

  /** For each of `opponents` in turn, the first game of `team`'s own list that the
      opponent played, when there is one: the inner loop of getCommonGames. */
  function GamesAgainst(team: Team, opponents: seq<Team>): (r: seq<Game>)
    reads team
  {
    if opponents == [] then []
    else
      (match GameByOpponent(team.games, opponents[0])
       case None => []
       case Some(g) => [g])
      + GamesAgainst(team, opponents[1..])
  }

  /** getCommonGames: for every pair of positions i < j of the group, the first
      game of teams[i]'s list that teams[j] played, pairs taken row by row. */
  function CommonGames(teams: seq<Team>): (r: seq<Game>)
    reads teams
  {
    if teams == [] then [] else GamesAgainst(teams[0], teams[1..]) + CommonGames(teams[1..])
  }

  /** getCommonGames: for each member in turn, the games against the members
      after it. */
  method GetCommonGames(teams: seq<Team>) returns (games: seq<Game>)
    ensures games == CommonGames(teams)
  {
    games := [];
    var i := 0;
    while i < |teams|
      invariant 0 <= i <= |teams|
      invariant games + CommonGames(teams[i..]) == CommonGames(teams)
    {
      ghost var before := games;
      var row := GetGamesAgainst(teams[i], teams[i + 1..]);
      games := games + row;
      CommonGamesStep(teams, i, before, games);
      i := i + 1;
    }
    assert teams[|teams|..] == [];
  }

  /** The inner loop of getCommonGames: the game against each opponent, when found. */
  method GetGamesAgainst(team: Team, opponents: seq<Team>) returns (games: seq<Game>)
    ensures games == GamesAgainst(team, opponents)
  {
    games := [];
    var j := 0;
    while j < |opponents|
      invariant 0 <= j <= |opponents|
      invariant games + GamesAgainst(team, opponents[j..]) == GamesAgainst(team, opponents)
    {
      var game := GameByOpponent(team.games, opponents[j]);
      ghost var prior := games;
      if game.Some? {
        games := games + [game.value];
      }
      GamesAgainstStep(team, opponents, j, GamesAgainst(team, opponents), prior, games);
      j := j + 1;
    }
    assert opponents[j..] == [];
  }

  /** One row of getCommonGames' outer loop. */
  lemma CommonGamesStep(teams: seq<Team>, i: nat, before: seq<Game>, games: seq<Game>)
    requires i < |teams|
    requires before + CommonGames(teams[i..]) == CommonGames(teams)
    requires games == before + GamesAgainst(teams[i], teams[i + 1..])
    ensures games + CommonGames(teams[i + 1..]) == CommonGames(teams)
  {
    CommonGamesUnfold(teams, i);
    AppendAssoc(before, GamesAgainst(teams[i], teams[i + 1..]), CommonGames(teams[i + 1..]));
  }

  /** One opponent of getCommonGames' inner loop. */
  lemma GamesAgainstStep(team: Team, opponents: seq<Team>, j: nat, total: seq<Game>, prior: seq<Game>, games: seq<Game>)
    requires j < |opponents|
    requires prior + GamesAgainst(team, opponents[j..]) == total
    requires games == match GameByOpponent(team.games, opponents[j]) case None => prior case Some(g) => prior + [g]
    ensures games + GamesAgainst(team, opponents[j + 1..]) == total
  {
    GamesAgainstUnfold(team, opponents, j);
    var found: seq<Game> := match GameByOpponent(team.games, opponents[j]) case None => [] case Some(g) => [g];
    AppendAssoc(prior, found, GamesAgainst(team, opponents[j + 1..]));
    assert games == prior + found;
  }

  lemma CommonGamesUnfold(teams: seq<Team>, i: nat)
    requires i < |teams|
    ensures CommonGames(teams[i..]) == GamesAgainst(teams[i], teams[i + 1..]) + CommonGames(teams[i + 1..])
  {
    assert teams[i..][1..] == teams[i + 1..];
  }

  lemma GamesAgainstUnfold(team: Team, opponents: seq<Team>, j: nat)
    requires j < |opponents|
    ensures GamesAgainst(team, opponents[j..]) ==
            (match GameByOpponent(team.games, opponents[j]) case None => [] case Some(g) => [g])
            + GamesAgainst(team, opponents[j + 1..])
  {
    assert opponents[j..][1..] == opponents[j + 1..];
  }

  /** At most one game per opponent, and one for each opponent met. */
  lemma {:induction false} GamesAgainstCount(team: Team, opponents: seq<Team>)
    ensures |GamesAgainst(team, opponents)| <= |opponents|
    ensures |GamesAgainst(team, opponents)| == |opponents| <==>
            forall j :: 0 <= j < |opponents| ==> Met(team, opponents[j])
  {
    if opponents != [] {
      GamesAgainstCount(team, opponents[1..]);
      var first := GameByOpponent(team.games, opponents[0]);
      assert first.Some? <==> Met(team, opponents[0]);
      if forall j :: 0 <= j < |opponents| ==> Met(team, opponents[j]) {
        assert forall j :: 0 <= j < |opponents[1..]| ==> Met(team, opponents[1..][j]) by {
          forall j | 0 <= j < |opponents[1..]| ensures Met(team, opponents[1..][j]) {
            assert opponents[1..][j] == opponents[j + 1];
          }
        }
      }
      if first.Some? && forall j :: 0 <= j < |opponents[1..]| ==> Met(team, opponents[1..][j]) {
        forall j | 0 <= j < |opponents| ensures Met(team, opponents[j]) {
          if j > 0 {
            assert opponents[j] == opponents[1..][j - 1];
          }
        }
      }
    }
  }

  /** A game found in `team`'s own list against another team `o` is between
      exactly those two teams. */
  lemma FoundGamePair(team: Team, o: Team, g: Game)
    requires HoldsOwnGames(team) && team != o
    requires GameByOpponent(team.games, o) == Some(g)
    ensures g in team.games
    ensures Pair(g) == {team, o}
  {
    var k :| 0 <= k < |team.games| && team.games[k] == g && g.Played(o);
    assert g.Played(team);
  }

  /** Against distinct opponents, other than `team` itself, the inner loop finds
      one game with `t` when `t` is an opponent that `team` has met, and none otherwise. */
  lemma {:induction false} GamesAgainstPlayed(team: Team, opponents: seq<Team>, t: Team)
    requires HoldsOwnGames(team) && team !in opponents && NoDuplicates(opponents) && t != team
    ensures |GamesByTeam(GamesAgainst(team, opponents), t)| == (if t in opponents && Met(team, t) then 1 else 0)
  {
    if opponents != [] {
      var o := opponents[0];
      var rest := opponents[1..];
      var found: seq<Game> := match GameByOpponent(team.games, o) case None => [] case Some(g) => [g];
      assert GamesAgainst(team, opponents) == found + GamesAgainst(team, rest);
      FilterConcat(found, GamesAgainst(team, rest), (g: Game) => g.Played(t));
      assert NoDuplicates(rest) by {
        forall i, j | 0 <= i < j < |rest| ensures rest[i] != rest[j] {
          assert rest[i] == opponents[i + 1] && rest[j] == opponents[j + 1];
        }
      }
      GamesAgainstPlayed(team, rest, t);
      assert t in opponents <==> t == o || t in rest;
      forall j | 0 <= j < |rest| ensures rest[j] != o {
        assert rest[j] == opponents[j + 1];
      }
      match GameByOpponent(team.games, o)
      case None =>
        assert found == [];
        assert !Met(team, o);
      case Some(g) =>
        FoundGamePair(team, o, g);
        assert Met(team, o) by {
          var k :| 0 <= k < |team.games| && team.games[k] == g;
        }
        FilterCons(g, [], (x: Game) => x.Played(t));
        assert g.Played(t) <==> t == o;
    }
  }

  /** Every member holds only games it played. */
  ghost predicate AllHoldOwnGames(teams: seq<Team>)
    reads teams
  {
    forall i :: 0 <= i < |teams| ==> HoldsOwnGames(teams[i])
  }

  /** `team` played every game the inner loop finds for it. */
  lemma {:induction false} GamesAgainstAllPlayed(team: Team, opponents: seq<Team>)
    requires HoldsOwnGames(team)
    ensures GamesByTeam(GamesAgainst(team, opponents), team) == GamesAgainst(team, opponents)
  {
    if opponents != [] {
      var found: seq<Game> := match GameByOpponent(team.games, opponents[0]) case None => [] case Some(g) => [g];
      var rest := GamesAgainst(team, opponents[1..]);
      assert GamesAgainst(team, opponents) == found + rest;
      FilterConcat(found, rest, (g: Game) => g.Played(team));
      GamesAgainstAllPlayed(team, opponents[1..]);
      if found != [] {
        FilterCons(found[0], [], (g: Game) => g.Played(team));
        assert found == [found[0]] + [];
      }
    }
  }

  lemma TailFacts(teams: seq<Team>)
    requires teams != [] && NoDuplicates(teams) && AllHoldOwnGames(teams)
    ensures NoDuplicates(teams[1..]) && AllHoldOwnGames(teams[1..]) && teams[0] !in teams[1..]
    ensures HoldsOwnGames(teams[0])
    ensures CommonGames(teams) == GamesAgainst(teams[0], teams[1..]) + CommonGames(teams[1..])
  {
    var rest := teams[1..];
    forall i | 0 <= i < |rest| ensures rest[i] != teams[0] && HoldsOwnGames(rest[i]) {
      assert rest[i] == teams[i + 1];
    }
    forall i, j | 0 <= i < j < |rest| ensures rest[i] != rest[j] {
      assert rest[i] == teams[i + 1] && rest[j] == teams[j + 1];
    }
  }

  /** A team outside the group played none of the common games. */
  lemma {:induction false} CommonGamesOutsider(teams: seq<Team>, t: Team)
    requires NoDuplicates(teams) && AllHoldOwnGames(teams) && t !in teams
    ensures GamesByTeam(CommonGames(teams), t) == []
  {
    if teams != [] {
      TailFacts(teams);
      var rest := teams[1..];
      FilterConcat(GamesAgainst(teams[0], rest), CommonGames(rest), (g: Game) => g.Played(t));
      GamesAgainstPlayed(teams[0], rest, t);
      CommonGamesOutsider(rest, t);
    }
  }

  /** Each member has met, in the direction the loops look, every other member. */
  ghost predicate MetAllAt(teams: seq<Team>, p: nat)
    requires p < |teams|
    reads teams
  {
    (forall i :: 0 <= i < p ==> Met(teams[i], teams[p])) &&
    (forall j :: p < j < |teams| ==> Met(teams[p], teams[j]))
  }

  lemma MetAllAtShift(teams: seq<Team>, p: nat)
    requires 0 < p < |teams|
    ensures MetAllAt(teams, p) <==> Met(teams[0], teams[p]) && MetAllAt(teams[1..], p - 1)
  {
    var rest := teams[1..];
    assert forall i :: 0 <= i < |rest| ==> rest[i] == teams[i + 1];
    if Met(teams[0], teams[p]) && MetAllAt(rest, p - 1) {
      forall i | 0 <= i < p ensures Met(teams[i], teams[p]) {
        if i > 0 {
          assert teams[i] == rest[i - 1];
        }
      }
      forall j | p < j < |teams| ensures Met(teams[p], teams[j]) {
        assert teams[j] == rest[j - 1];
      }
    }
  }

  lemma MetAllAtFirst(teams: seq<Team>)
    requires teams != []
    ensures MetAllAt(teams, 0) <==> forall j :: 0 <= j < |teams[1..]| ==> Met(teams[0], teams[1..][j])
  {
    var rest := teams[1..];
    if forall j :: 0 <= j < |rest| ==> Met(teams[0], rest[j]) {
      forall j | 0 < j < |teams| ensures Met(teams[0], teams[j]) {
        assert teams[j] == rest[j - 1];
      }
    }
  }

  /** The first member played every game of its own row and none of the others. */
  lemma CommonGamesPlayedFirst(teams: seq<Team>)
    requires teams != [] && NoDuplicates(teams) && AllHoldOwnGames(teams)
    ensures |GamesByTeam(CommonGames(teams), teams[0])| <= |teams| - 1
    ensures |GamesByTeam(CommonGames(teams), teams[0])| == |teams| - 1 <==> MetAllAt(teams, 0)
  {
    TailFacts(teams);
    var t := teams[0];
    var rest := teams[1..];
    var row := GamesAgainst(t, rest);
    FilterConcat(row, CommonGames(rest), (g: Game) => g.Played(t));
    GamesAgainstAllPlayed(t, rest);
    GamesAgainstCount(t, rest);
    CommonGamesOutsider(rest, t);
    MetAllAtFirst(teams);
  }

  /** A member played at most n-1 of the common games, and exactly n-1 when the
      group found a game for each of its pairs with another member. */
  lemma {:induction false} CommonGamesPlayed(teams: seq<Team>, p: nat)
    requires NoDuplicates(teams) && AllHoldOwnGames(teams) && p < |teams|
    ensures |GamesByTeam(CommonGames(teams), teams[p])| <= |teams| - 1
    ensures |GamesByTeam(CommonGames(teams), teams[p])| == |teams| - 1 <==> MetAllAt(teams, p)
  {
    if p == 0 {
      CommonGamesPlayedFirst(teams);
    } else {
      TailFacts(teams);
      var t := teams[p];
      var rest := teams[1..];
      assert t == rest[p - 1];
      FilterConcat(GamesAgainst(teams[0], rest), CommonGames(rest), (g: Game) => g.Played(t));
      GamesAgainstPlayed(teams[0], rest, t);
      CommonGamesPlayed(rest, p - 1);
      MetAllAtShift(teams, p);
    }
  }

  /** `o` played one of `games`: getGameByOpponent finds something. */
  function Meets(games: seq<Game>): Team -> bool
  {
    (o: Team) => GameByOpponent(games, o).Some?
  }

  /** The inner loop's games are `team`'s own, and their opponents are exactly the
      given opponents that `team` has met, in order. */
  lemma {:induction false} GamesAgainstOpponents(team: Team, opponents: seq<Team>)
    requires HoldsOwnGames(team) && team !in opponents
    ensures forall k :: 0 <= k < |GamesAgainst(team, opponents)| ==>
              GamesAgainst(team, opponents)[k] in team.games && GamesAgainst(team, opponents)[k].Played(team)
    ensures Opponents(team, GamesAgainst(team, opponents)) == Filter(opponents, Meets(team.games))
  {
    if opponents != [] {
      var o := opponents[0];
      var rest := opponents[1..];
      var found: seq<Game> := match GameByOpponent(team.games, o) case None => [] case Some(g) => [g];
      var tail := GamesAgainst(team, rest);
      assert GamesAgainst(team, opponents) == found + tail;
      assert opponents == [o] + rest;
      FilterCons(o, rest, Meets(team.games));
      GamesAgainstOpponents(team, rest);
      OpponentsConcat(team, found, tail);
      if found != [] {
        FoundGamePair(team, o, found[0]);
        assert Opponents(team, found) == [o];
      }
    } else {
      assert GamesAgainst(team, opponents) == [];
    }
  }

  /** Against distinct opponents other than itself, `team`'s row of games pairs
      it with a different opponent each time. */
  lemma GamesAgainstPairs(team: Team, opponents: seq<Team>)
    requires HoldsOwnGames(team) && team !in opponents && NoDuplicates(opponents)
    ensures forall k :: 0 <= k < |GamesAgainst(team, opponents)| ==>
              Pair(GamesAgainst(team, opponents)[k]) == {team, Opponents(team, GamesAgainst(team, opponents))[k]} &&
              Opponents(team, GamesAgainst(team, opponents))[k] in opponents
    ensures NoDuplicates(Opponents(team, GamesAgainst(team, opponents)))
  {
    GamesAgainstOpponents(team, opponents);
    FilterMembers(opponents, Meets(team.games));
    FilterNoDuplicates(opponents, Meets(team.games));
  }

  /** Every common game comes from the list of one of the members. */
  lemma {:induction false} CommonGamesFromLists(teams: seq<Team>)
    requires NoDuplicates(teams) && AllHoldOwnGames(teams)
    ensures forall k :: 0 <= k < |CommonGames(teams)| ==>
              exists i :: 0 <= i < |teams| && CommonGames(teams)[k] in teams[i].games
  {
    if teams != [] {
      TailFacts(teams);
      var rest := teams[1..];
      var row := GamesAgainst(teams[0], rest);
      var tail := CommonGames(rest);
      var all := CommonGames(teams);
      GamesAgainstOpponents(teams[0], rest);
      CommonGamesFromLists(rest);
      forall k | 0 <= k < |all| ensures exists i :: 0 <= i < |teams| && all[k] in teams[i].games {
        if k < |row| {
          assert all[k] in teams[0].games;
        } else {
          assert all[k] == tail[k - |row|];
          var i :| 0 <= i < |rest| && tail[k - |row|] in rest[i].games;
          assert rest[i] == teams[i + 1];
        }
      }
    } else {
      assert CommonGames(teams) == [];
    }
  }

  /** Both participants of every common game are members. */
  lemma {:induction false} CommonGamesMembers(teams: seq<Team>)
    requires NoDuplicates(teams) && AllHoldOwnGames(teams)
    ensures forall k :: 0 <= k < |CommonGames(teams)| ==>
              CommonGames(teams)[k].home in teams && CommonGames(teams)[k].away in teams
  {
    if teams != [] {
      TailFacts(teams);
      var t := teams[0];
      var rest := teams[1..];
      var row := GamesAgainst(t, rest);
      var tail := CommonGames(rest);
      var all := CommonGames(teams);
      GamesAgainstPairs(t, rest);
      CommonGamesMembers(rest);
      forall k | 0 <= k < |all| ensures all[k].home in teams && all[k].away in teams {
        if k >= |row| {
          assert all[k] == tail[k - |row|];
        } else {
          assert Pair(all[k]) == {t, Opponents(t, row)[k]};
        }
      }
    } else {
      assert CommonGames(teams) == [];
    }
  }

  /** No two common games are between the same two members. */
  lemma {:induction false} CommonGamesDistinctPairs(teams: seq<Team>)
    requires NoDuplicates(teams) && AllHoldOwnGames(teams)
    ensures forall k1, k2 :: 0 <= k1 < k2 < |CommonGames(teams)| ==>
              Pair(CommonGames(teams)[k1]) != Pair(CommonGames(teams)[k2])
  {
    if teams != [] {
      TailFacts(teams);
      var t := teams[0];
      var rest := teams[1..];
      var row := GamesAgainst(t, rest);
      var tail := CommonGames(rest);
      var all := CommonGames(teams);
      var met := Opponents(t, row);
      GamesAgainstPairs(t, rest);
      CommonGamesMembers(rest);
      CommonGamesDistinctPairs(rest);
      forall k1, k2 | 0 <= k1 < k2 < |all| ensures Pair(all[k1]) != Pair(all[k2]) {
        if k2 < |row| {
          assert all[k1] == row[k1] && all[k2] == row[k2];
          assert met[k2] in Pair(all[k2]) && met[k2] !in Pair(all[k1]);
        } else if k1 < |row| {
          assert all[k2] == tail[k2 - |row|];
          assert t in Pair(all[k1]) && t !in Pair(all[k2]);
        } else {
          assert all[k1] == tail[k1 - |row|] && all[k2] == tail[k2 - |row|];
        }
      }
    } else {
      assert CommonGames(teams) == [];
    }
  }

  /** The number of unordered pairs among n teams. */
  function PairCount(n: nat): (p: nat)
  {
    if n == 0 then 0 else (n - 1) + PairCount(n - 1)
  }

  /** PairCount is n(n-1)/2. */
  lemma {:induction false} PairCountFormula(n: nat)
    ensures 2 * PairCount(n) == n * (n - 1)
  {
    if n > 0 {
      PairCountFormula(n - 1);
      PairsStep(n);
    }
  }

  /** There are at most as many common games as pairs, and as many exactly when
      every pair of the group has met. */
  lemma {:induction false} CommonGamesCount(teams: seq<Team>)
    ensures |CommonGames(teams)| <= PairCount(|teams|)
    ensures |CommonGames(teams)| == PairCount(|teams|) <==> AllPairsMet(teams)
  {
    if teams != [] {
      var n := |teams|;
      var rest := teams[1..];
      GamesAgainstCount(teams[0], rest);
      CommonGamesCount(rest);
      var a := |GamesAgainst(teams[0], rest)|;
      var b := |CommonGames(rest)|;
      if AllPairsMet(teams) {
        forall j | 0 <= j < |rest| ensures Met(teams[0], rest[j]) {
          assert rest[j] == teams[j + 1];
        }
        forall i, j | 0 <= i < j < |rest| ensures Met(rest[i], rest[j]) {
          assert rest[i] == teams[i + 1] && rest[j] == teams[j + 1];
        }
      }
      if a == n - 1 && AllPairsMet(rest) {
        forall i, j | 0 <= i < j < n ensures Met(teams[i], teams[j]) {
          if i == 0 {
            assert teams[j] == rest[j - 1];
          } else {
            assert teams[i] == rest[i - 1] && teams[j] == rest[j - 1];
          }
        }
      }
    }
  }

  /** Pairs among n teams: those with the first team plus those among the rest. */
  lemma PairsStep(n: int)
    requires n >= 1
    ensures 2 * (n - 1) + (n - 1) * (n - 2) == n * (n - 1)
  {
  }

  function Factorial(n: nat): (f: nat)
    ensures f >= 1
  {
    if n == 0 then 1 else n * Factorial(n - 1)
  }

  /** A product with a factor of at least one is at least the other factor. */
  lemma {:induction false} MulAtLeast(d: nat, f: nat)
    requires d >= 1
    ensures d * f >= f
  {
    if d > 1 {
      MulAtLeast(d - 1, f);
      assert d * f == (d - 1) * f + f;
    }
  }

  /** A positive factor cancels from both sides of an equation. */
  lemma MulCancel(x: int, y: int, f: nat)
    requires f > 0
    ensures x * f == y * f <==> x == y
  {
    if x < y {
      MulAtLeast(y - x, f);
      assert y * f - x * f == (y - x) * f;
    } else if y < x {
      MulAtLeast(x - y, f);
      assert x * f - y * f == (x - y) * f;
    }
  }

  /** The round-robin test of HeadToHeadMulti: as many common games as
      n! / (2 (n-2)!), an exact division in tiebreakers.py, written here
      cross-multiplied. */
  predicate IsRoundRobin(teams: seq<Team>, games: seq<Game>)
    requires |teams| >= 2
  {
    |games| * (2 * Factorial(|teams| - 2)) == Factorial(|teams|)
  }

  /** The size test holds exactly when there are as many games as pairs. */
  lemma RoundRobinSize(teams: seq<Team>, games: seq<Game>)
    requires |teams| >= 2
    ensures IsRoundRobin(teams, games) <==> |games| == PairCount(|teams|)
  {
    var n := |teams|;
    var f := Factorial(n - 2);
    var p := PairCount(n);
    PairCountFormula(n);
    assert Factorial(n) == n * ((n - 1) * f);
    assert n * ((n - 1) * f) == (n * (n - 1)) * f;
    assert |games| * (2 * f) == (2 * |games|) * f;
    MulCancel(2 * |games|, 2 * p, f);
  }

  /** The round-robin test holds exactly when every pair of the group has met. */
  lemma RoundRobinIffAllMet(teams: seq<Team>)
    requires |teams| >= 2
    ensures IsRoundRobin(teams, CommonGames(teams)) <==> AllPairsMet(teams)
  {
    RoundRobinSize(teams, CommonGames(teams));
    CommonGamesCount(teams);
  }

  /** getCommonOpponents, as its loop computes it: the first member's opponents,
      then, member by member, that member's opponents that are still common. The
      order and repetitions are those of the last member's list. */
  function CommonOpponentsOf(teams: seq<Team>): (r: seq<Team>)
    requires |teams| >= 1
    reads teams
    decreases |teams|
  {
    if |teams| == 1 then Opponents(teams[0], teams[0].games)
    else
      var last := teams[|teams| - 1];
      Filter(Opponents(last, last.games), Among(CommonOpponentsOf(teams[..|teams| - 1])))
  }

  /** getCommonOpponents: the loop that narrows the list, returning it at the end. */
  method GetCommonOpponents(teams: seq<Team>) returns (commonOpponents: seq<Team>)
    requires |teams| >= 1
    ensures commonOpponents == CommonOpponentsOf(teams)
  {
    commonOpponents := Opponents(teams[0], teams[0].games);
    assert teams[..1] == [teams[0]];
    var i := 1;
    while i < |teams|
      invariant 1 <= i <= |teams|
      invariant commonOpponents == CommonOpponentsOf(teams[..i])
    {
      var team := teams[i];
      commonOpponents := Filter(Opponents(team, team.games), Among(commonOpponents));
      assert teams[..i + 1][..i] == teams[..i];
      i := i + 1;
    }
    assert teams[..|teams|] == teams;
  }

  /** A team is a common opponent exactly when it is an opponent of every member. */
  lemma {:induction false} CommonOpponentsMembers(teams: seq<Team>, o: Team)
    requires |teams| >= 1
    ensures o in CommonOpponentsOf(teams) <==>
            forall i :: 0 <= i < |teams| ==> o in Opponents(teams[i], teams[i].games)
    decreases |teams|
  {
    if |teams| > 1 {
      var n := |teams|;
      var front := teams[..n - 1];
      var last := teams[n - 1];
      var prior := CommonOpponentsOf(front);
      assert CommonOpponentsOf(teams) == Filter(Opponents(last, last.games), Among(prior));
      CommonOpponentsMembers(front, o);
      InFilter(Opponents(last, last.games), Among(prior), o);
      assert Among(prior)(o) == (o in prior);
      if forall i :: 0 <= i < n ==> o in Opponents(teams[i], teams[i].games) {
        forall i | 0 <= i < n - 1 ensures o in Opponents(front[i], front[i].games) {
          assert front[i] == teams[i];
        }
      }
      if o in prior && o in Opponents(last, last.games) {
        forall i | 0 <= i < n ensures o in Opponents(teams[i], teams[i].games) {
          if i < n - 1 {
            assert front[i] == teams[i];
          }
        }
      }
    }
  }

  /** No game of the group's lists is a team playing itself. */
  ghost predicate NoSelfGames(teams: seq<Team>)
    reads teams
  {
    forall i, k :: 0 <= i < |teams| && 0 <= k < |teams[i].games| ==>
      teams[i].games[k].home != teams[i].games[k].away
  }

  /** A team that holds only its own games, none against itself, is not its own opponent. */
  lemma NotOwnOpponent(team: Team)
    requires HoldsOwnGames(team)
    requires forall k :: 0 <= k < |team.games| ==> team.games[k].home != team.games[k].away
    ensures team !in Opponents(team, team.games)
  {
    var r := Opponents(team, team.games);
    forall k | 0 <= k < |r| ensures r[k] != team {
      assert {team, r[k]} == {team.games[k].home, team.games[k].away};
    }
  }

  /** No member of the group is one of its common opponents. */
  lemma CommonOpponentsExcludeGroup(teams: seq<Team>)
    requires |teams| >= 1 && AllHoldOwnGames(teams) && NoSelfGames(teams)
    ensures forall i :: 0 <= i < |teams| ==> teams[i] !in CommonOpponentsOf(teams)
  {
    forall i | 0 <= i < |teams| ensures teams[i] !in CommonOpponentsOf(teams) {
      NotOwnOpponent(teams[i]);
      CommonOpponentsMembers(teams, teams[i]);
    }
  }
}
