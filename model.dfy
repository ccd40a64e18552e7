/** The schedule graph of model.py: games, the teams that hold them and the
    conference that owns both. Teams are compared by identity, as the source
    compares them with `is`. */
module Model {
  import opened Wrappers
  import opened Seqs

  /** A game between a home and an away team; `winner` is absent until the game is decided. */
  datatype Game = Game(home: Team, away: Team, winner: Option<Team>)
  {
    /** Game.played: `team` is one of the two participants. */
    predicate Played(team: Team)
    {
      home == team || away == team
    }

    /** A recorded winner is one of the participants (results are recorded as home or away). */
    predicate WellFormed()
    {
      winner.Some? ==> Played(winner.value)
    }
  }

  /** The participant of `game` that is not `team`: the home team unless `team` is the home team. */
  function OpponentIn(game: Game, team: Team): (r: Team)
    ensures game.Played(r)
    ensures game.Played(team) ==> {team, r} == {game.home, game.away}
  {
    if game.home != team then game.home else game.away
  }

  /** Team.getOpponents, over the team's own game list: one entry per game, the other participant. */
  function Opponents(team: Team, games: seq<Game>): (r: seq<Team>)
    ensures |r| == |games|
    ensures forall i :: 0 <= i < |games| ==> games[i].Played(r[i])
    ensures forall i :: 0 <= i < |games| && games[i].Played(team) ==>
              {team, r[i]} == {games[i].home, games[i].away}
  {
    if games == [] then [] else [OpponentIn(games[0], team)] + Opponents(team, games[1..])
  }

  /** The opponents over two runs of games are those of each run in turn. */
  lemma {:induction false} OpponentsConcat(team: Team, a: seq<Game>, b: seq<Game>)
    ensures Opponents(team, a + b) == Opponents(team, a) + Opponents(team, b)
  {
    if a == [] {
      assert a + b == b;
    } else {
      assert (a + b)[0] == a[0];
      assert (a + b)[1..] == a[1..] + b;
      OpponentsConcat(team, a[1..], b);
    }
  }

  /** Team.getGameByOpponent: the first game of `games` that `opponent` played. */
  function GameByOpponent(games: seq<Game>, opponent: Team): (r: Option<Game>)
    ensures r.None? <==> forall i :: 0 <= i < |games| ==> !games[i].Played(opponent)
    ensures r.Some? ==> exists k :: 0 <= k < |games| && games[k] == r.value && r.value.Played(opponent) &&
                                    forall j :: 0 <= j < k ==> !games[j].Played(opponent)
  {
    var p := (g: Game) => g.Played(opponent);
    var r := FirstWhere(games, p);
    assert r.Some? ==> games[FirstIndex(games, p)] == r.value;
    r
  }

  /** Conference.getTeamByName: the first team of `teams` called `name`. */
  function TeamByName(teams: seq<Team>, name: string): (r: Option<Team>)
    ensures r.None? <==> forall i :: 0 <= i < |teams| ==> teams[i].name != name
    ensures r.Some? ==> exists k :: 0 <= k < |teams| && teams[k] == r.value && r.value.name == name &&
                                    forall j :: 0 <= j < k ==> teams[j].name != name
    ensures forall k :: 0 <= k < |teams| && teams[k].name == name && (forall j :: 0 <= j < k ==> teams[j].name != name) ==>
              r == Some(teams[k])
  {
    var p := (t: Team) => t.name == name;
    var r := FirstWhere(teams, p);
    assert r.Some? ==> teams[FirstIndex(teams, p)] == r.value;
    r
  }

  /** Team.getGameByOpponent called with a name: the opponent is looked up among
      the conference's teams first, and an unknown name matches no game. */
  function GameByOpponentName(games: seq<Game>, teams: seq<Team>, name: string): (r: Option<Game>)
    ensures (forall i :: 0 <= i < |teams| ==> teams[i].name != name) ==> r.None?
    ensures r.Some? ==> r.value in games
    ensures r.Some? ==> exists i :: 0 <= i < |teams| && teams[i].name == name && r.value.Played(teams[i])
    ensures forall k :: 0 <= k < |teams| && teams[k].name == name && (forall j :: 0 <= j < k ==> teams[j].name != name) ==>
              r == GameByOpponent(games, teams[k])
  {
    match TeamByName(teams, name)
    case None => None
    case Some(t) => GameByOpponent(games, t)
  }

  /** Conference.getGameByTeams: the first game with exactly this home and away team. */
  function GameByTeams(games: seq<Game>, home: Team, away: Team): (r: Option<Game>)
    ensures r.None? <==> forall i :: 0 <= i < |games| ==> !(games[i].home == home && games[i].away == away)
    ensures r.Some? ==> exists k :: 0 <= k < |games| && games[k] == r.value &&
                                    r.value.home == home && r.value.away == away &&
                                    forall j :: 0 <= j < k ==> !(games[j].home == home && games[j].away == away)
  {
    var p := (g: Game) => g.home == home && g.away == away;
    var r := FirstWhere(games, p);
    assert r.Some? ==> games[FirstIndex(games, p)] == r.value;
    r
  }

  /** Conference.getGamesByTeam: the games `team` played, in conference order. */
  function GamesByTeam(games: seq<Game>, team: Team): (r: seq<Game>)
    ensures forall i :: 0 <= i < |r| ==> r[i] in games && r[i].Played(team)
    ensures forall i :: 0 <= i < |games| && games[i].Played(team) ==> games[i] in r
  {
    FilterMembers(games, (g: Game) => g.Played(team));
    Filter(games, (g: Game) => g.Played(team))
  }

  /** Conference.getGamesByTeam called with a name; an unknown name selects no game. */
  function GamesByTeamName(games: seq<Game>, teams: seq<Team>, name: string): (r: seq<Game>)
    ensures (forall i :: 0 <= i < |teams| ==> teams[i].name != name) ==> r == []
    ensures forall k :: 0 <= k < |r| ==> r[k] in games
    ensures forall k :: 0 <= k < |r| ==>
              exists i :: 0 <= i < |teams| && teams[i].name == name && r[k].Played(teams[i])
    ensures forall k :: 0 <= k < |teams| && teams[k].name == name && (forall j :: 0 <= j < k ==> teams[j].name != name) ==>
              r == GamesByTeam(games, teams[k])
  {
    match TeamByName(teams, name)
    case None => []
    case Some(t) => GamesByTeam(games, t)
  }

  /** Conference.getUnplayedGames: the games without a winner, in conference order. */
  function UnplayedGames(games: seq<Game>): (r: seq<Game>)
    ensures forall i :: 0 <= i < |r| ==> r[i] in games && r[i].winner.None?
    ensures forall i :: 0 <= i < |games| && games[i].winner.None? ==> games[i] in r
  {
    FilterMembers(games, (g: Game) => g.winner.None?);
    Filter(games, (g: Game) => g.winner.None?)
  }

  /** Recording a game extends the played-by filter by that game exactly when the team played it. */
  lemma GamesByTeamAppend(games: seq<Game>, game: Game, team: Team)
    ensures GamesByTeam(games + [game], team) ==
            GamesByTeam(games, team) + (if game.Played(team) then [game] else [])
  {
    FilterSnoc(games, game, (g: Game) => g.Played(team));
  }

  /** Recording a game extends the unplayed list by it exactly when it has no winner. */
  lemma UnplayedGamesAppend(games: seq<Game>, game: Game)
    ensures UnplayedGames(games + [game]) ==
            UnplayedGames(games) + (if game.winner.None? then [game] else [])
  {
    FilterSnoc(games, game, (g: Game) => g.winner.None?);
  }

  /** Every game in the team's own list is one the team played. */
  ghost predicate HoldsOwnGames(team: Team)
    reads team
  {
    forall i :: 0 <= i < |team.games| ==> team.games[i].Played(team)
  }

  /** Both participants of `game` received it once each (twice when home and away coincide). */
  twostate predicate ParticipantsReceived(game: Game)
    reads game.home, game.away
  {
    if game.home == game.away then
      game.home.games == old(game.home.games) + [game, game]
    else
      game.home.games == old(game.home.games) + [game] &&
      game.away.games == old(game.away.games) + [game]
  }

  /** A team: its name, the conference it belongs to and its own list of games. */
  class Team {
    const name: string
    var conference: Conference?
    var games: seq<Game>
    var nonConfWins: int

    /** Team(name, conference=None): no games and no non-conference wins yet. */
    constructor (name: string, conference: Conference?)
      ensures this.name == name && this.conference == conference
      ensures games == [] && nonConfWins == 0
    {
      this.name := name;
      this.conference := conference;
      games := [];
      nonConfWins := 0;
    }

    /** Team.addGame: with `propagate` the conference records the game, which hands it
        to both participants; without, only this team's own list grows. */
    method AddGame(game: Game, propagate: bool)
      requires propagate ==> conference != null
      modifies this`games, game.home`games, game.away`games, if propagate then {conference} else {}
      ensures !propagate ==> games == old(games) + [game]
      ensures !propagate && game.home != this ==> game.home.games == old(game.home.games)
      ensures !propagate && game.away != this ==> game.away.games == old(game.away.games)
      ensures propagate ==> conference.games == old(conference.games) + [game] && ParticipantsReceived(game)
      ensures propagate && game.home != this && game.away != this ==> games == old(games)
      ensures propagate ==> conference.teams == old(conference.teams) && conference.standings == old(conference.standings)
      ensures propagate && old(conference.Consistent()) && game.home != game.away ==> conference.Consistent()
      decreases if propagate then 2 else 0
    {
      if propagate {
        conference.AddGame(game, true);
      } else {
        games := games + [game];
      }
    }
  }

  /** A conference: the member teams, the conference games and, once set, the standings list. */
  class Conference {
    const name: string
    const abbrName: string
    var teams: seq<Team>
    var games: seq<Game>
    var standings: Option<seq<Team>>

    /** Conference(name, abbrName): no teams, no games, standings not yet set. */
    constructor (name: string, abbrName: string)
      ensures this.name == name && this.abbrName == abbrName
      ensures teams == [] && games == [] && standings == None
      ensures Consistent()
    {
      this.name := name;
      this.abbrName := abbrName;
      teams := [];
      games := [];
      standings := None;
    }

    /** The three game lists agree: each member points back to this conference and
        holds exactly the conference games it played, in conference order. */
    ghost predicate Consistent()
      reads this, teams
    {
      forall i :: 0 <= i < |teams| ==>
        teams[i].conference == this && teams[i].games == GamesByTeam(games, teams[i])
    }

    /** Conference.addTeam: append the team and make this its conference. */
    method AddTeam(team: Team)
      modifies this`teams, team`conference
      ensures teams == old(teams) + [team] && team.conference == this
      ensures old(Consistent()) && team.games == GamesByTeam(games, team) ==> Consistent()
    {
      teams := teams + [team];
      team.conference := this;
    }

    /** Conference.setStandings: a copy of the team list, in the same order; later
        changes to `teams` do not reach it. */
    method SetStandings()
      modifies this`standings
      ensures standings == Some(teams)
      ensures old(Consistent()) ==> Consistent()
    {
      standings := Some(teams);
    }

    /** Conference.addGame: the conference list gets the game and, with `propagate`, so
        does each participant's own list; no other list changes. */
    method AddGame(game: Game, propagate: bool)
      modifies this`games, game.home`games, game.away`games
      ensures games == old(games) + [game]
      ensures propagate ==> ParticipantsReceived(game)
      ensures !propagate ==> game.home.games == old(game.home.games) && game.away.games == old(game.away.games)
      ensures old(Consistent()) && propagate && game.home != game.away ==> Consistent()
      decreases 1
    {
      games := games + [game];
      if propagate {
        game.home.AddGame(game, false);
        game.away.AddGame(game, false);
      }
      if old(Consistent()) && propagate && game.home != game.away {
        forall i | 0 <= i < |teams|
          ensures teams[i].games == GamesByTeam(games, teams[i])
        {
          GamesByTeamAppend(old(games), game, teams[i]);
        }
      }
    }
  }

  /** In a consistent conference a member holds a game exactly when the conference
      records it and the member played it: the three lists name the same games. */
  lemma ConsistentGameLists(c: Conference, i: nat, game: Game)
    requires c.Consistent() && i < |c.teams|
    ensures game in c.teams[i].games <==> game in c.games && game.Played(c.teams[i])
  {
    var t := c.teams[i];
    if game in c.games && game.Played(t) {
      var k :| 0 <= k < |c.games| && c.games[k] == game;
    }
  }

  /** In a consistent conference every member holds only games it played. */
  lemma ConsistentHoldsOwnGames(c: Conference)
    requires c.Consistent()
    ensures forall i :: 0 <= i < |c.teams| ==> HoldsOwnGames(c.teams[i])
  {
  }
}
