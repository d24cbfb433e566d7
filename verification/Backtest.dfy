/** The rebound-score backtest: player-games scored day by day from games dated before them. */
module Backtest {
  import opened Options
  import opened Sorting

  const LAST_N := 15

  datatype TeamFact = TeamFact(team: int, opponent: int)

  datatype PlayerFact = PlayerFact(player: int, team: int, minutes: real, rebounds: int)

  datatype Game = Game(id: string, date: int, season: string, regular: bool, teams: seq<TeamFact>,
                       players: seq<PlayerFact>)

  /** Every player's team is one of the game's teams, as the ledger keeps it. */
  predicate WellFormed(g: Game)
  {
    forall p :: p in g.players ==> exists t :: t in g.teams && t.team == p.team
  }

  /** The window materializers, the diet derivation and the scoring methods, as functions: a
      window index from the prior games, the day before, the team universe and, for the last-15
      window, each team's expected games; the players' diets; the score pair; the share. */
  datatype Services<!I, !D> = Services(
    window: (seq<Game>, int, set<int>, Option<map<int, set<string>>>) -> Option<I>,
    diets: seq<Game> -> map<int, D>,
    score: (string, I, int, Option<D>) -> Option<(real, real, bool)>,
    share: Option<D> -> real)

  datatype Rules = Rules(minPriorGames: int, minMinutes: real)

  datatype Sample = Sample(gameId: string, date: int, player: int, target: real, share: real,
                           scores: map<string, (real, real)>, fellBack: bool)

  predicate GameLess(a: Game, b: Game) { a.date < b.date || (a.date == b.date && LexLess(a.id, b.id)) }

  // ----- what a day is scored from

  function Filtered(games: seq<Game>, keep: Game -> bool): (r: seq<Game>)
    ensures forall g :: g in r <==> g in games && keep(g)
  {
    if |games| == 0 then []
    else
      var init, last := games[..|games| - 1], games[|games| - 1];
      assert forall g :: g in games <==> g in init || g == last;
      Filtered(init, keep) + (if keep(last) then [last] else [])
  }

  function Before(games: seq<Game>, day: int): seq<Game> { Filtered(games, (g: Game) => g.date < day) }

  function On(games: seq<Game>, day: int): (r: seq<Game>)
    ensures forall g :: g in r <==> g in games && g.date == day
  {
    Filtered(games, (g: Game) => g.date == day)
  }

  function UpTo(games: seq<Game>, day: int): seq<Game> { Filtered(games, (g: Game) => g.date <= day) }

  function PlayedIn(players: seq<PlayerFact>, player: int): nat
  {
    if |players| == 0 then 0
    else
      var last := players[|players| - 1];
      PlayedIn(players[..|players| - 1], player) + (if last.player == player && last.minutes > 0.0 then 1 else 0)
  }

  function ReboundsIn(players: seq<PlayerFact>, player: int): int
  {
    if |players| == 0 then 0
    else
      var last := players[|players| - 1];
      ReboundsIn(players[..|players| - 1], player)
      + (if last.player == player && last.minutes > 0.0 then last.rebounds else 0)
  }

  function PriorGames(prior: seq<Game>, player: int): nat
  {
    if |prior| == 0 then 0
    else PriorGames(prior[..|prior| - 1], player) + PlayedIn(prior[|prior| - 1].players, player)
  }

  function PriorRebounds(prior: seq<Game>, player: int): int
  {
    if |prior| == 0 then 0
    else PriorRebounds(prior[..|prior| - 1], player) + ReboundsIn(prior[|prior| - 1].players, player)
  }

  predicate Plays(g: Game, team: int) { exists i :: 0 <= i < |g.teams| && g.teams[i].team == team }

  function TeamGames(prior: seq<Game>, team: int): seq<Game> { Filtered(prior, (g: Game) => Plays(g, team)) }

  /** A team's last games, latest last. */
  function LastGames(prior: seq<Game>, team: int): seq<Game>
  {
    var sorted := Sort(GameLess, TeamGames(prior, team));
    if |sorted| <= LAST_N then sorted else sorted[|sorted| - LAST_N..]
  }

  function TeamsIn(games: seq<Game>): set<int>
  {
    set i, j | 0 <= i < |games| && 0 <= j < |games[i].teams| :: games[i].teams[j].team
  }

  function Ids(games: seq<Game>): set<string> { set i | 0 <= i < |games| :: games[i].id }

  function Windows<I, D>(svc: Services<I, D>, teams: set<int>, prior: seq<Game>, day: int): (Option<I>, Option<I>)
  {
    var season := svc.window(prior, day - 1, teams, None);
    var ready := TeamsIn(prior) == teams && forall t :: t in teams ==> |LastGames(prior, t)| >= LAST_N;
    var expected := map t | t in teams :: Ids(LastGames(prior, t));
    (season, if ready then svc.window(prior, day - 1, teams, Some(expected)) else None)
  }

  function OpponentOf(teams: seq<TeamFact>, team: int): int
    requires exists t :: t in teams && t.team == team
  {
    if teams[0].team == team then teams[0].opponent
    else
      assert forall t :: t in teams ==> t == teams[0] || t in teams[1..];
      OpponentOf(teams[1..], team)
  }

  function ScoreIn<I, D>(svc: Services<I, D>, name: string, index: Option<I>, opponent: int, diet: Option<D>)
    : Option<(real, real, bool)>
  {
    if index.None? then None else svc.score(name, index.value, opponent, diet)
  }

  /** A day's window indexes, and the diets derived when there is an index to score with. */
  datatype Indexes<I, D> = Indexes(season: Option<I>, last: Option<I>, diets: map<int, D>)

  function IndexesBefore<I, D>(svc: Services<I, D>, teams: set<int>, prior: seq<Game>, day: int): Indexes<I, D>
  {
    var (season, last) := Windows(svc, teams, prior, day);
    Indexes(season, last, if season.Some? || last.Some? then svc.diets(prior) else map[])
  }

  /** The sample of a player-game against the player's average so far; `None` when no window scores it. */
  function SampleFrom<I, D>(svc: Services<I, D>, x: Indexes<I, D>, day: int, g: Game, p: PlayerFact, average: real)
    : Option<Sample>
    requires WellFormed(g) && p in g.players
  {
    var diet := if p.player in x.diets then Some(x.diets[p.player]) else None;
    var opponent := OpponentOf(g.teams, p.team);
    var a, b := ScoreIn(svc, "season", x.season, opponent, diet), ScoreIn(svc, "last_15", x.last, opponent, diet);
    if a.None? && b.None? then None
    else
      var scores := (if a.Some? then map["season" := (a.value.0, a.value.1)] else map[])
                    + (if b.Some? then map["last_15" := (b.value.0, b.value.1)] else map[]);
      Some(Sample(g.id, day, p.player, p.rebounds as real - average, svc.share(diet), scores,
                  (a.Some? && a.value.2) || (b.Some? && b.value.2)))
  }

  /** The sample of one eligible player-game, from the games before its day alone. */
  function SampleOf<I, D>(svc: Services<I, D>, teams: set<int>, prior: seq<Game>, day: int, g: Game, p: PlayerFact)
    : Option<Sample>
    requires WellFormed(g) && p in g.players && PriorGames(prior, p.player) > 0
  {
    SampleFrom(svc, IndexesBefore(svc, teams, prior, day), day, g, p,
               PriorRebounds(prior, p.player) as real / PriorGames(prior, p.player) as real)
  }

  predicate Eligible(rules: Rules, prior: seq<Game>, p: PlayerFact)
  {
    PriorGames(prior, p.player) >= rules.minPriorGames && p.minutes >= rules.minMinutes
  }

  /** The samples of one game: they read the games before its day, and the game itself. */
  function GameSamples<I, D>(svc: Services<I, D>, rules: Rules, teams: set<int>, prior: seq<Game>, day: int, g: Game,
                             players: seq<PlayerFact>): (r: seq<Sample>)
    requires rules.minPriorGames >= 1 && WellFormed(g) && forall p :: p in players ==> p in g.players
    ensures forall i :: 0 <= i < |r| ==> r[i].gameId == g.id && r[i].date == day
  {
    if |players| == 0 then []
    else
      var p := players[|players| - 1];
      var s := if Eligible(rules, prior, p) then SampleOf(svc, teams, prior, day, g, p) else None;
      GameSamples(svc, rules, teams, prior, day, g, players[..|players| - 1]) + (if s.Some? then [s.value] else [])
  }

  function DaySamples<I, D>(svc: Services<I, D>, rules: Rules, teams: set<int>, prior: seq<Game>, day: int,
                            games: seq<Game>): (r: seq<Sample>)
    requires rules.minPriorGames >= 1 && forall g :: g in games ==> WellFormed(g)
    ensures forall i :: 0 <= i < |r| ==> r[i].date == day && r[i].gameId in Ids(games)
  {
    if |games| == 0 then []
    else
      var init, last := games[..|games| - 1], games[|games| - 1];
      assert Ids(games) == Ids(init) + {last.id} by { assert games == init + [last]; }
      DaySamples(svc, rules, teams, prior, day, init) + GameSamples(svc, rules, teams, prior, day, last, last.players)
  }

  /** The samples of the given days, each from the games before it and its own. */
  function AllSamples<I, D>(svc: Services<I, D>, rules: Rules, teams: set<int>, sorted: seq<Game>, days: seq<int>)
    : seq<Sample>
    requires rules.minPriorGames >= 1 && forall g :: g in sorted ==> WellFormed(g)
  {
    if |days| == 0 then []
    else
      var day := days[|days| - 1];
      AllSamples(svc, rules, teams, sorted, days[..|days| - 1])
      + DaySamples(svc, rules, teams, Before(sorted, day), day, On(sorted, day))
  }

  predicate InScope(g: Game, season: string) { g.season == season && g.regular }

  function InOrder(games: seq<Game>, season: string): seq<Game>
  {
    Sort(GameLess, Filtered(games, (g: Game) => InScope(g, season)))
  }

  /** The league's team ids, and the fixture ids 1 to 30 that stand in for them. */
  datatype League = League(nba: set<int>, fixture: set<int>)

  /** `_team_universe`: decided by every game of the season, later ones included. */
  function Universe(league: League, games: seq<Game>): set<int>
  {
    if TeamsIn(games) * league.nba != {} then league.nba else league.fixture
  }

  function Dates(games: seq<Game>): (r: seq<int>)
    ensures |r| == |games| && forall i :: 0 <= i < |games| ==> r[i] == games[i].date
  {
    seq(|games|, i requires 0 <= i < |games| => games[i].date)
  }

  /** The game days in order. */
  function Days(games: seq<Game>): (r: seq<int>)
    ensures StrictlySorted(IntLess, r)
    ensures forall d :: d in r <==> d in Dates(games)
  {
    var d := Distinct(Dates(games));
    assert PairwiseComparable(IntLess, d);
    SortSorts(IntLess, d);
    SortPermutes(IntLess, d);
    Sort(IntLess, d)
  }

  function Samples<I, D>(svc: Services<I, D>, rules: Rules, league: League, season: string, games: seq<Game>)
    : seq<Sample>
    requires rules.minPriorGames >= 1 && forall g :: g in games ==> WellFormed(g)
  {
    SortPermutes(GameLess, Filtered(games, (g: Game) => InScope(g, season)));
    var sorted := InOrder(games, season);
    AllSamples(svc, rules, Universe(league, sorted), sorted, Days(sorted))
  }

  // ----- the day-by-day loop

  ghost predicate DateSorted(games: seq<Game>) { forall i, j :: 0 <= i < j < |games| ==> games[i].date <= games[j].date }

  lemma {:induction false} NoneKept(games: seq<Game>, keep: Game -> bool)
    requires forall i :: 0 <= i < |games| ==> !keep(games[i])
    ensures Filtered(games, keep) == []
  {
    if |games| == 0 {
    } else {
      NoneKept(games[..|games| - 1], keep);
    }
  }

  lemma FilteredNext(init: seq<Game>, last: Game, keep: Game -> bool)
    ensures Filtered(init + [last], keep) == Filtered(init, keep) + (if keep(last) then [last] else [])
  {
    assert (init + [last])[..|init|] == init;
  }

  lemma Regroup<T>(a: seq<T>, b: seq<T>, x: T)
    ensures (a + b) + [x] == a + (b + [x])
    ensures b == [] ==> (a + b) + [x] == (a + [x]) + b
  {
  }

  /** Of games in date order, those kept early come before those kept late. */
  lemma {:induction false} FilteredSplit(games: seq<Game>, all: Game -> bool, early: Game -> bool, late: Game -> bool)
    requires forall i :: 0 <= i < |games| ==> (all(games[i]) <==> early(games[i]) || late(games[i]))
    requires forall i :: 0 <= i < |games| ==> !(early(games[i]) && late(games[i]))
    requires forall i, j :: 0 <= i < j < |games| && late(games[i]) ==> !early(games[j])
    ensures Filtered(games, all) == Filtered(games, early) + Filtered(games, late)
  {
    hide Filtered;
    if |games| == 0 {
      NoneKept(games, all);
      NoneKept(games, early);
      NoneKept(games, late);
    } else {
      var init, last := games[..|games| - 1], games[|games| - 1];
      assert games == init + [last];
      FilteredNext(init, last, all);
      FilteredNext(init, last, early);
      FilteredNext(init, last, late);
      FilteredSplit(init, all, early, late);
      if early(last) {
        assert forall i :: 0 <= i < |init| ==> !late(init[i]);
        NoneKept(init, late);
      }
      Regroup(Filtered(init, early), Filtered(init, late), last);
    }
  }

  /** Appending a day's games to the games before it gives the games up to it. */
  lemma BeforeAndOn(games: seq<Game>, day: int)
    requires DateSorted(games)
    ensures UpTo(games, day) == Before(games, day) + On(games, day)
  {
    hide Filtered;
    FilteredSplit(games, (g: Game) => g.date <= day, (g: Game) => g.date < day, (g: Game) => g.date == day);
  }

  lemma {:induction false} NoGamesBetween(games: seq<Game>, day: int, next: int)
    requires day < next && forall g :: g in games ==> g.date <= day || g.date >= next
    ensures UpTo(games, day) == Before(games, next)
  {
    if |games| == 0 {
    } else {
      NoGamesBetween(games[..|games| - 1], day, next);
    }
  }

  function Lookup(m: map<int, int>, k: int): int { if k in m then m[k] else 0 }

  /** One game's contribution to the running counts. */
  method CountGame(g: Game, games: map<int, int>, rebounds: map<int, int>)
    returns (games': map<int, int>, rebounds': map<int, int>)
    ensures forall p :: Lookup(games', p) == Lookup(games, p) + PlayedIn(g.players, p)
    ensures forall p :: Lookup(rebounds', p) == Lookup(rebounds, p) + ReboundsIn(g.players, p)
  {
    games', rebounds' := games, rebounds;
    for i := 0 to |g.players|
      invariant forall p :: Lookup(games', p) == Lookup(games, p) + PlayedIn(g.players[..i], p)
      invariant forall p :: Lookup(rebounds', p) == Lookup(rebounds, p) + ReboundsIn(g.players[..i], p)
    {
      var p := g.players[i];
      assert g.players[..i + 1][..i] == g.players[..i];
      if p.minutes > 0.0 {
        games' := games'[p.player := Lookup(games', p.player) + 1];
        rebounds' := rebounds'[p.player := Lookup(rebounds', p.player) + p.rebounds];
      }
    }
    assert g.players[..|g.players|] == g.players;
  }

  ghost predicate Tallied(prior: seq<Game>, games: map<int, int>, rebounds: map<int, int>)
  {
    forall p :: Lookup(games, p) == PriorGames(prior, p) && Lookup(rebounds, p) == PriorRebounds(prior, p)
  }

  lemma TallyGrows(prior: seq<Game>, g: Game)
    ensures forall p :: PriorGames(prior + [g], p) == PriorGames(prior, p) + PlayedIn(g.players, p)
    ensures forall p :: PriorRebounds(prior + [g], p) == PriorRebounds(prior, p) + ReboundsIn(g.players, p)
  {
    assert (prior + [g])[..|prior|] == prior;
  }

  /** A day's games join the counts only once all of them have been scored. */
  method CountDay(ghost prior: seq<Game>, today: seq<Game>, games: map<int, int>, rebounds: map<int, int>)
    returns (games': map<int, int>, rebounds': map<int, int>)
    requires Tallied(prior, games, rebounds)
    ensures Tallied(prior + today, games', rebounds')
  {
    hide PlayedIn, ReboundsIn, PriorGames, PriorRebounds, Lookup;
    games', rebounds' := games, rebounds;
    assert prior + today[..0] == prior;
    for i := 0 to |today|
      invariant Tallied(prior + today[..i], games', rebounds')
    {
      ghost var before := prior + today[..i];
      games', rebounds' := CountGame(today[i], games', rebounds');
      assert prior + today[..i + 1] == before + [today[i]];
      TallyGrows(before, today[i]);
    }
    assert today[..|today|] == today;
  }

  /** The samples of one day, eligibility and targets read off the running counts. */
  method ScoreDay<I, D>(svc: Services<I, D>, rules: Rules, teams: set<int>, prior: seq<Game>, day: int,
                        games: seq<Game>, priorGames: map<int, int>, priorRebounds: map<int, int>)
    returns (samples: seq<Sample>)
    requires rules.minPriorGames >= 1 && Tallied(prior, priorGames, priorRebounds)
    requires forall g :: g in games ==> WellFormed(g)
    ensures samples == DaySamples(svc, rules, teams, prior, day, games)
  {
    hide SampleFrom, IndexesBefore, PriorGames, PriorRebounds;
    samples := [];
    var indexes := IndexesBefore(svc, teams, prior, day);
    for i := 0 to |games|
      invariant samples == DaySamples(svc, rules, teams, prior, day, games[..i])
    {
      var g := games[i];
      ghost var sofar := samples;
      for j := 0 to |g.players|
        invariant samples == sofar + GameSamples(svc, rules, teams, prior, day, g, g.players[..j])
      {
        var p := g.players[j];
        assert g.players[..j + 1][..j] == g.players[..j];
        if Lookup(priorGames, p.player) >= rules.minPriorGames && p.minutes >= rules.minMinutes {
          var average := Lookup(priorRebounds, p.player) as real / Lookup(priorGames, p.player) as real;
          var s := SampleFrom(svc, indexes, day, g, p, average);
          if s.Some? { samples := samples + [s.value]; }
        }
      }
      assert g.players[..|g.players|] == g.players;
      assert games[..i + 1][..i] == games[..i];
    }
    assert games[..|games|] == games;
  }

  lemma EmptyTally()
    ensures Tallied([], map[], map[])
  {
  }

  lemma DateIsDay(sorted: seq<Game>, g: Game)
    requires g in sorted
    ensures g.date in Days(sorted)
  {
    hide Days;
    var i :| 0 <= i < |sorted| && sorted[i] == g;
    assert Dates(sorted)[i] == g.date;
  }

  lemma FirstDay(sorted: seq<Game>, day: int)
    requires |Days(sorted)| > 0 && day == Days(sorted)[0]
    ensures Before(sorted, day) == []
  {
    hide Days;
    forall g | g in sorted ensures g.date >= day {
      DateIsDay(sorted, g);
    }
    NoneKept(sorted, (g: Game) => g.date < day);
  }

  lemma NextDay(sorted: seq<Game>, days: seq<int>, k: nat)
    requires days == Days(sorted) && k + 1 < |days|
    ensures UpTo(sorted, days[k]) == Before(sorted, days[k + 1])
  {
    hide Days;
    forall g | g in sorted ensures g.date <= days[k] || g.date >= days[k + 1] {
      DateIsDay(sorted, g);
      var i :| 0 <= i < |days| && days[i] == g.date;
      assert i < k ==> IntLess(days[i], days[k]);
      assert i > k + 1 ==> IntLess(days[k + 1], days[i]);
    }
    assert IntLess(days[k], days[k + 1]);
    NoGamesBetween(sorted, days[k], days[k + 1]);
  }

  /** Game ids are unique, as the ledger's key makes them. */
  ghost predicate Keyed(games: seq<Game>) { forall i, j :: 0 <= i < j < |games| ==> games[i].id != games[j].id }

  lemma GameOrder()
    ensures StrictOrder(GameLess)
  {
    LexIsStrictOrder();
  }

  lemma {:induction false} FilteredKeyed(games: seq<Game>, keep: Game -> bool)
    requires Keyed(games)
    ensures Keyed(Filtered(games, keep))
  {
    if |games| == 0 {
    } else {
      var init := games[..|games| - 1];
      FilteredKeyed(init, keep);
      var kept := Filtered(init, keep);
      forall k | 0 <= k < |kept| ensures kept[k].id != games[|games| - 1].id {
        assert kept[k] in init;
        var i :| 0 <= i < |init| && init[i] == kept[k];
      }
    }
  }

  lemma KeyedComparable(games: seq<Game>)
    requires Keyed(games)
    ensures PairwiseComparable(GameLess, games)
  {
    forall i, j | 0 <= i < j < |games| ensures GameLess(games[i], games[j]) || GameLess(games[j], games[i]) {
      LexTotal(games[i].id, games[j].id);
    }
  }

  lemma InOrderFacts(games: seq<Game>, season: string)
    requires Keyed(games)
    ensures StrictlySorted(GameLess, InOrder(games, season)) && DateSorted(InOrder(games, season))
    ensures forall g :: g in InOrder(games, season) <==> g in games && InScope(g, season)
  {
    var kept := Filtered(games, (g: Game) => InScope(g, season));
    FilteredKeyed(games, (g: Game) => InScope(g, season));
    KeyedComparable(kept);
    GameOrder();
    SortSorts(GameLess, kept);
    SortPermutes(GameLess, kept);
  }

  // ----- what each sample is

  /** A player's earlier appearances with minutes. */
  function PlayedBy(players: seq<PlayerFact>, player: int): (r: seq<PlayerFact>)
    ensures forall p :: p in r <==> p in players && p.player == player && p.minutes > 0.0
  {
    if |players| == 0 then []
    else
      var init, last := players[..|players| - 1], players[|players| - 1];
      assert forall p :: p in players <==> p in init || p == last;
      PlayedBy(init, player) + (if last.player == player && last.minutes > 0.0 then [last] else [])
  }

  function Appearances(prior: seq<Game>, player: int): seq<PlayerFact>
  {
    if |prior| == 0 then []
    else Appearances(prior[..|prior| - 1], player) + PlayedBy(prior[|prior| - 1].players, player)
  }

  function Rebounds(facts: seq<PlayerFact>): int
  {
    if |facts| == 0 then 0 else Rebounds(facts[..|facts| - 1]) + facts[|facts| - 1].rebounds
  }

  lemma {:induction false} ReboundsAppend(a: seq<PlayerFact>, b: seq<PlayerFact>)
    ensures Rebounds(a + b) == Rebounds(a) + Rebounds(b)
  {
    if |b| == 0 {
      assert a + b == a;
    } else {
      ReboundsAppend(a, b[..|b| - 1]);
      assert (a + b)[..|a + b| - 1] == a + b[..|b| - 1];
    }
  }

  lemma {:induction false} PlayedByCounts(players: seq<PlayerFact>, player: int)
    ensures PlayedIn(players, player) == |PlayedBy(players, player)|
    ensures ReboundsIn(players, player) == Rebounds(PlayedBy(players, player))
  {
    if |players| == 0 {
    } else {
      var init, last := players[..|players| - 1], players[|players| - 1];
      PlayedByCounts(init, player);
      ReboundsAppend(PlayedBy(init, player), if last.player == player && last.minutes > 0.0 then [last] else []);
      assert [last][..0] == [];
    }
  }

  lemma {:induction false} AppearancesCount(prior: seq<Game>, player: int)
    ensures PriorGames(prior, player) == |Appearances(prior, player)|
    ensures PriorRebounds(prior, player) == Rebounds(Appearances(prior, player))
  {
    if |prior| == 0 {
    } else {
      var init, last := prior[..|prior| - 1], prior[|prior| - 1];
      AppearancesCount(init, player);
      PlayedByCounts(last.players, player);
      ReboundsAppend(Appearances(init, player), PlayedBy(last.players, player));
    }
  }

  /** `opponent` is the one that the game lists first for the team. */
  ghost predicate Faces(teams: seq<TeamFact>, team: int, opponent: int)
  {
    exists k :: 0 <= k < |teams| && teams[k] == TeamFact(team, opponent) && forall m :: 0 <= m < k ==> teams[m].team != team
  }

  lemma {:induction false} OpponentExact(teams: seq<TeamFact>, team: int)
    requires exists t :: t in teams && t.team == team
    ensures forall o :: Faces(teams, team, o) <==> o == OpponentOf(teams, team)
  {
    if teams[0].team == team {
      assert Faces(teams, team, teams[0].opponent);
    } else {
      var rest := teams[1..];
      assert forall t :: t in teams ==> t == teams[0] || t in rest;
      OpponentExact(rest, team);
      forall o ensures Faces(teams, team, o) <==> Faces(rest, team, o) {
        if Faces(teams, team, o) {
          var k :| 0 <= k < |teams| && teams[k] == TeamFact(team, o) && forall m :: 0 <= m < k ==> teams[m].team != team;
          assert rest[k - 1] == teams[k];
        }
        if Faces(rest, team, o) {
          var k :| 0 <= k < |rest| && rest[k] == TeamFact(team, o) && forall m :: 0 <= m < k ==> rest[m].team != team;
          assert teams[k + 1] == rest[k];
        }
      }
    }
  }

  /** Every team of the universe, and no other, has played, and each at least fifteen times. */
  ghost predicate LastWindowReady(teams: set<int>, prior: seq<Game>)
  {
    && (forall t :: t in teams <==> exists x :: x in prior && Plays(x, t))
    && forall t :: t in teams ==> |TeamGames(prior, t)| >= 15
  }

  /** What the services say of a player against an opponent in one window, from the earlier games. */
  ghost function WindowScore<I, D>(svc: Services<I, D>, teams: set<int>, prior: seq<Game>, day: int, name: string,
                                   player: int, opponent: int): Option<(real, real, bool)>
  {
    var index :=
      if name == "season" then svc.window(prior, day - 1, teams, None)
      else if LastWindowReady(teams, prior)
      then svc.window(prior, day - 1, teams, Some(map t | t in teams :: Ids(LastGames(prior, t))))
      else None;
    var diets := svc.diets(prior);
    if index.None? then None
    else svc.score(name, index.value, opponent, if player in diets then Some(diets[player]) else None)
  }

  /** The player has appeared often enough, plays long enough, and some window scores him. */
  ghost predicate Due<I, D>(svc: Services<I, D>, rules: Rules, teams: set<int>, prior: seq<Game>, g: Game, p: PlayerFact)
  {
    && |Appearances(prior, p.player)| >= rules.minPriorGames && p.minutes >= rules.minMinutes
    && exists o :: Faces(g.teams, p.team, o)
         && (|| WindowScore(svc, teams, prior, g.date, "season", p.player, o).Some?
             || WindowScore(svc, teams, prior, g.date, "last_15", p.player, o).Some?)
  }

  ghost predicate ScoresAre(s: Sample, name: string, got: Option<(real, real, bool)>)
  {
    if got.Some? then name in s.scores && s.scores[name] == (got.value.0, got.value.1) else name !in s.scores
  }

  /** The sample is the fact's: its rebounds against the average over the earlier appearances, and the
      services' scores at the opponent, share and fallback. */
  ghost predicate Explains<I, D>(svc: Services<I, D>, teams: set<int>, prior: seq<Game>, g: Game, p: PlayerFact, s: Sample)
  {
    var facts, diets := Appearances(prior, p.player), svc.diets(prior);
    && s.gameId == g.id && s.date == g.date && s.player == p.player
    && |facts| > 0 && s.target == p.rebounds as real - Rebounds(facts) as real / |facts| as real
    && s.share == svc.share(if p.player in diets then Some(diets[p.player]) else None)
    && s.scores.Keys <= {"season", "last_15"}
    && exists o :: Faces(g.teams, p.team, o)
         && var a := WindowScore(svc, teams, prior, g.date, "season", p.player, o);
            var b := WindowScore(svc, teams, prior, g.date, "last_15", p.player, o);
            && ScoresAre(s, "season", a) && ScoresAre(s, "last_15", b)
            && s.fellBack == ((a.Some? && a.value.2) || (b.Some? && b.value.2))
  }

  lemma {:induction false} FilteredSorted(games: seq<Game>, keep: Game -> bool)
    requires StrictlySorted(GameLess, games)
    ensures StrictlySorted(GameLess, Filtered(games, keep))
  {
    if |games| == 0 {
    } else {
      var init, last := games[..|games| - 1], games[|games| - 1];
      FilteredSorted(init, keep);
      var kept := Filtered(init, keep);
      forall k | 0 <= k < |kept| ensures GameLess(kept[k], last) {
        assert kept[k] in init;
        var i :| 0 <= i < |init| && init[i] == kept[k];
        assert GameLess(games[i], games[|games| - 1]);
      }
    }
  }

  lemma InOn(sorted: seq<Game>, day: int, g: Game)
    ensures g in On(sorted, day) <==> g in sorted && g.date == day
  {
  }

  lemma OnIsFiltered(sorted: seq<Game>, day: int)
    ensures On(sorted, day) == Filtered(sorted, (g: Game) => g.date == day)
  {
  }

  lemma TeamIsSeen(games: seq<Game>, g: Game, t: TeamFact)
    requires g in games && t in g.teams
    ensures t.team in TeamsIn(games)
  {
    var i :| 0 <= i < |games| && games[i] == g;
    var j :| 0 <= j < |g.teams| && g.teams[j] == t;
  }

  lemma TeamsAreThosePlaying(prior: seq<Game>)
    ensures forall t :: t in TeamsIn(prior) <==> exists x :: x in prior && Plays(x, t)
  {
    forall t ensures t in TeamsIn(prior) <==> exists x :: x in prior && Plays(x, t) {
      if x :| x in prior && Plays(x, t) {
        var i :| 0 <= i < |prior| && prior[i] == x;
        var j :| 0 <= j < |x.teams| && x.teams[j].team == t;
        assert prior[i].teams[j].team in TeamsIn(prior);
      }
      if t in TeamsIn(prior) {
        var i, j :| 0 <= i < |prior| && 0 <= j < |prior[i].teams| && prior[i].teams[j].team == t;
        assert prior[i] in prior && Plays(prior[i], t);
      }
    }
  }

  lemma LastGamesReady(prior: seq<Game>, t: int)
    ensures |LastGames(prior, t)| >= LAST_N <==> |TeamGames(prior, t)| >= 15
  {
    SortPermutes(GameLess, TeamGames(prior, t));
  }

  lemma WindowsExact<I, D>(svc: Services<I, D>, teams: set<int>, prior: seq<Game>, day: int)
    ensures Windows(svc, teams, prior, day) ==
      (svc.window(prior, day - 1, teams, None),
       if LastWindowReady(teams, prior)
       then svc.window(prior, day - 1, teams, Some(map t | t in teams :: Ids(LastGames(prior, t)))) else None)
  {
    hide Sort, LastGames, TeamGames, Plays, Ids;
    TeamsAreThosePlaying(prior);
    forall t { LastGamesReady(prior, t); }
    if LastWindowReady(teams, prior) {
      assert TeamsIn(prior) == teams by { forall t ensures t in TeamsIn(prior) <==> t in teams { } }
    }
  }

  lemma ScoresExact<I, D>(svc: Services<I, D>, teams: set<int>, prior: seq<Game>, day: int, player: int, opponent: int)
    ensures var x := IndexesBefore(svc, teams, prior, day);
      var diet := if player in x.diets then Some(x.diets[player]) else None;
      && ScoreIn(svc, "season", x.season, opponent, diet) == WindowScore(svc, teams, prior, day, "season", player, opponent)
      && ScoreIn(svc, "last_15", x.last, opponent, diet) == WindowScore(svc, teams, prior, day, "last_15", player, opponent)
      && (x.season.Some? || x.last.Some? ==> x.diets == svc.diets(prior))
  {
    hide LastWindowReady, Windows, LastGames, Ids;
    WindowsExact(svc, teams, prior, day);
    assert |"season"| == 6 && |"last_15"| == 7;
  }

  /** A fact has a sample from the games before its day exactly when it is due one, and then that one. */
  lemma SampleExact<I, D>(svc: Services<I, D>, rules: Rules, teams: set<int>, prior: seq<Game>, g: Game, p: PlayerFact)
    requires rules.minPriorGames >= 1 && WellFormed(g) && p in g.players
    ensures Due(svc, rules, teams, prior, g, p) <==>
      Eligible(rules, prior, p) && SampleOf(svc, teams, prior, g.date, g, p).Some?
    ensures Eligible(rules, prior, p) && SampleOf(svc, teams, prior, g.date, g, p).Some?
      ==> Explains(svc, teams, prior, g, p, SampleOf(svc, teams, prior, g.date, g, p).value)
  {
    hide Appearances, Rebounds, PriorGames, PriorRebounds, Faces, IndexesBefore, WindowScore;
    AppearancesCount(prior, p.player);
    OpponentExact(g.teams, p.team);
    var o := OpponentOf(g.teams, p.team);
    ScoresExact(svc, teams, prior, g.date, p.player, o);
    assert |"season"| == 6 && |"last_15"| == 7;
  }

  /** A player-game: a game and the position of a fact in it. */
  datatype Fact = Fact(game: Game, at: nat)

  predicate FactLess(a: Fact, b: Fact) { GameLess(a.game, b.game) || (a.game == b.game && a.at < b.at) }

  /** Sample by sample, `of` names the fact it is of: in order of date, game and position, each due,
      and every due fact of `games` among them. `before` gives the games before a day. */
  ghost predicate Tracks<I, D>(svc: Services<I, D>, rules: Rules, teams: set<int>, before: int -> seq<Game>,
                                           games: seq<Game>, samples: seq<Sample>, of: seq<Fact>)
  {
    && |of| == |samples|
    && (forall i :: 0 <= i < |of| ==>
          && of[i].game in games && of[i].at < |of[i].game.players|
          && Due(svc, rules, teams, before(of[i].game.date), of[i].game, of[i].game.players[of[i].at])
          && Explains(svc, teams, before(of[i].game.date), of[i].game, of[i].game.players[of[i].at], samples[i]))
    && (forall i, j :: 0 <= i < j < |of| ==> FactLess(of[i], of[j]))
    && forall f: Fact | f.game in games && f.at < |f.game.players| ::
         Due(svc, rules, teams, before(f.game.date), f.game, f.game.players[f.at]) ==> f in of
  }

  lemma TracksAppend<I, D>(svc: Services<I, D>, rules: Rules, teams: set<int>, before: int -> seq<Game>, a: seq<Game>,
                           b: seq<Game>, sa: seq<Sample>, sb: seq<Sample>, oa: seq<Fact>, ob: seq<Fact>)
    requires Tracks(svc, rules, teams, before, a, sa, oa) && Tracks(svc, rules, teams, before, b, sb, ob)
    requires forall x, y :: x in a && y in b ==> GameLess(x, y)
    ensures Tracks(svc, rules, teams, before, a + b, sa + sb, oa + ob)
  {
    hide Due, Explains, GameLess;
    var of, samples := oa + ob, sa + sb;
    forall i | 0 <= i < |of|
      ensures of[i].game in a + b && of[i].at < |of[i].game.players|
      ensures Due(svc, rules, teams, before(of[i].game.date), of[i].game, of[i].game.players[of[i].at])
      ensures Explains(svc, teams, before(of[i].game.date), of[i].game, of[i].game.players[of[i].at], samples[i])
    {
      if i < |oa| { assert of[i] == oa[i]; } else { assert of[i] == ob[i - |oa|]; }
    }
    forall i, j | 0 <= i < j < |of| ensures FactLess(of[i], of[j]) {
      if i < |oa| <= j { assert of[i] == oa[i] && of[j] == ob[j - |oa|]; }
    }
  }

  lemma {:induction false} GameTracked<I, D>(svc: Services<I, D>, rules: Rules, teams: set<int>, before: int -> seq<Game>,
                                             g: Game, n: nat) returns (of: seq<Fact>)
    requires rules.minPriorGames >= 1 && WellFormed(g) && n <= |g.players|
    ensures var samples := GameSamples(svc, rules, teams, before(g.date), g.date, g, g.players[..n]);
      && |of| == |samples|
      && (forall i :: 0 <= i < |of| ==>
            && of[i].game == g && of[i].at < n && Due(svc, rules, teams, before(g.date), g, g.players[of[i].at])
            && Explains(svc, teams, before(g.date), g, g.players[of[i].at], samples[i]))
      && (forall i, j :: 0 <= i < j < |of| ==> of[i].at < of[j].at)
      && forall j: nat :: j < n && Due(svc, rules, teams, before(g.date), g, g.players[j]) ==> Fact(g, j) in of
    decreases n
  {
    hide Due, Explains, SampleOf, Eligible, WellFormed;
    if n == 0 {
      of := [];
    } else {
      var init := GameTracked(svc, rules, teams, before, g, n - 1);
      var p := g.players[n - 1];
      assert g.players[..n][..n - 1] == g.players[..n - 1];
      assert p in g.players;
      SampleExact(svc, rules, teams, before(g.date), g, p);
      of := if Due(svc, rules, teams, before(g.date), g, p) then init + [Fact(g, n - 1)] else init;
    }
  }

  lemma OneGameTracked<I, D>(svc: Services<I, D>, rules: Rules, teams: set<int>, before: int -> seq<Game>, g: Game)
    returns (of: seq<Fact>)
    requires rules.minPriorGames >= 1 && WellFormed(g)
    ensures Tracks(svc, rules, teams, before, [g], GameSamples(svc, rules, teams, before(g.date), g.date, g, g.players), of)
  {
    hide Due, Explains, GameSamples, GameLess, WellFormed;
    of := GameTracked(svc, rules, teams, before, g, |g.players|);
    assert g.players[..|g.players|] == g.players;
  }

  lemma {:induction false} DayTracked<I, D>(svc: Services<I, D>, rules: Rules, teams: set<int>, before: int -> seq<Game>,
                                            day: int, games: seq<Game>) returns (of: seq<Fact>)
    requires rules.minPriorGames >= 1 && StrictlySorted(GameLess, games)
    requires forall g :: g in games ==> WellFormed(g) && g.date == day
    ensures Tracks(svc, rules, teams, before, games, DaySamples(svc, rules, teams, before(day), day, games), of)
    decreases |games|
  {
    hide Due, Explains, GameSamples, GameLess, WellFormed;
    if |games| == 0 {
      of := [];
    } else {
      var init, last := games[..|games| - 1], games[|games| - 1];
      assert games == init + [last];
      assert forall g :: g in init ==> g in games;
      var oa := DayTracked(svc, rules, teams, before, day, init);
      var ob := OneGameTracked(svc, rules, teams, before, last);
      TracksAppend(svc, rules, teams, before, init, [last], DaySamples(svc, rules, teams, before(day), day, init),
                   GameSamples(svc, rules, teams, before(day), day, last, last.players), oa, ob);
      of := oa + ob;
    }
  }

  /** The games of the given days. */
  function Covered(sorted: seq<Game>, days: seq<int>): (r: seq<Game>)
    ensures forall g :: g in r <==> g in sorted && g.date in days
  {
    if |days| == 0 then []
    else
      assert forall d :: d in days <==> d in days[..|days| - 1] || d == days[|days| - 1];
      Covered(sorted, days[..|days| - 1]) + On(sorted, days[|days| - 1])
  }

  lemma NothingTracked<I, D>(svc: Services<I, D>, rules: Rules, teams: set<int>, before: int -> seq<Game>)
    ensures Tracks(svc, rules, teams, before, [], [], [])
  {
  }

  lemma OnSorted(sorted: seq<Game>, day: int)
    requires StrictlySorted(GameLess, sorted)
    ensures StrictlySorted(GameLess, On(sorted, day))
  {
    hide GameLess;
    FilteredSorted(sorted, (g: Game) => g.date == day);
    OnIsFiltered(sorted, day);
  }

  lemma {:induction false} AllTracked<I, D>(svc: Services<I, D>, rules: Rules, teams: set<int>, sorted: seq<Game>,
                                            days: seq<int>) returns (of: seq<Fact>)
    requires rules.minPriorGames >= 1 && StrictlySorted(GameLess, sorted) && StrictlySorted(IntLess, days)
    requires forall g :: g in sorted ==> WellFormed(g)
    ensures Tracks(svc, rules, teams, day => Before(sorted, day), Covered(sorted, days),
                   AllSamples(svc, rules, teams, sorted, days), of)
    decreases |days|
  {
    hide Due, Explains, DaySamples, WellFormed, Filtered, Tracks, On, Before;
    var before := day => Before(sorted, day);
    if |days| == 0 {
      of := [];
      NothingTracked(svc, rules, teams, before);
    } else {
      var init, last := days[..|days| - 1], days[|days| - 1];
      var today := On(sorted, last);
      var oa := AllTracked(svc, rules, teams, sorted, init);
      OnSorted(sorted, last);
      forall g | g in today ensures WellFormed(g) && g.date == last { InOn(sorted, last, g); }
      var ob := DayTracked(svc, rules, teams, before, last, today);
      forall x, y | x in Covered(sorted, init) && y in today ensures GameLess(x, y) {
        var i :| 0 <= i < |init| && init[i] == x.date;
        assert days[i] == x.date && IntLess(days[i], last);
      }
      TracksAppend(svc, rules, teams, before, Covered(sorted, init), today, AllSamples(svc, rules, teams, sorted, init),
                   DaySamples(svc, rules, teams, before(last), last, today), oa, ob);
      of := oa + ob;
    }
  }

  lemma TracksMembers<I, D>(svc: Services<I, D>, rules: Rules, teams: set<int>, before: int -> seq<Game>, a: seq<Game>,
                            b: seq<Game>, samples: seq<Sample>, of: seq<Fact>)
    requires Tracks(svc, rules, teams, before, a, samples, of) && forall g :: g in a <==> g in b
    ensures Tracks(svc, rules, teams, before, b, samples, of)
  {
    hide Due, Explains, GameLess;
  }

  /** The games before a day are exactly the season's regular games dated before it, in order, and the
      teams are the league's as soon as any game of the season, a later one included, lists one. */
  lemma PriorExact(league: League, season: string, games: seq<Game>, day: int)
    requires Keyed(games)
    ensures var sorted := InOrder(games, season);
      && (forall x :: x in sorted <==> x in games && x.season == season && x.regular)
      && StrictlySorted(GameLess, Before(sorted, day))
      && (forall x :: x in Before(sorted, day) <==> x in games && x.season == season && x.regular && x.date < day)
      && Universe(league, sorted)
         == if exists x, t :: x in games && x.season == season && x.regular && t in x.teams && t.team in league.nba
            then league.nba else league.fixture
  {
    hide InOrder;
    InOrderFacts(games, season);
    var sorted := InOrder(games, season);
    FilteredSorted(sorted, (g: Game) => g.date < day);
    if x, t :| x in games && x.season == season && x.regular && t in x.teams && t.team in league.nba {
      TeamIsSeen(sorted, x, t);
      assert t.team in TeamsIn(sorted) * league.nba;
    }
    if team :| team in TeamsIn(sorted) * league.nba {
      var i, j :| 0 <= i < |sorted| && 0 <= j < |sorted[i].teams| && sorted[i].teams[j].team == team;
      assert sorted[i] in sorted && sorted[i].teams[j] in sorted[i].teams;
    }
  }

  /** The samples are those of the due player-games of the season, each once, in order. */
  ghost predicate Accounts<I, D>(svc: Services<I, D>, rules: Rules, league: League, season: string, games: seq<Game>,
                                 samples: seq<Sample>, of: seq<Fact>)
  {
    var sorted := InOrder(games, season);
    Tracks(svc, rules, Universe(league, sorted), day => Before(sorted, day), sorted, samples, of)
  }

  lemma SamplesAccounted<I, D>(svc: Services<I, D>, rules: Rules, league: League, season: string, games: seq<Game>)
    returns (of: seq<Fact>)
    requires rules.minPriorGames >= 1 && Keyed(games) && forall g :: g in games ==> WellFormed(g)
    ensures Accounts(svc, rules, league, season, games, Samples(svc, rules, league, season, games), of)
  {
    hide InOrder, Universe, Tracks, AllSamples, Before, WellFormed, Days;
    InOrderFacts(games, season);
    var sorted := InOrder(games, season);
    of := AllTracked(svc, rules, Universe(league, sorted), sorted, Days(sorted));
    forall g ensures g in Covered(sorted, Days(sorted)) <==> g in sorted { if g in sorted { DateIsDay(sorted, g); } }
    TracksMembers(svc, rules, Universe(league, sorted), day => Before(sorted, day), Covered(sorted, Days(sorted)), sorted,
                  Samples(svc, rules, league, season, games), of);
  }

  /** `build_samples`: accumulating day by day yields, for each day, exactly the samples that the
      games before it and its own games determine, one for each player-game that is due. */
  method BuildSamples<I, D>(svc: Services<I, D>, rules: Rules, league: League, season: string, games: seq<Game>)
    returns (samples: seq<Sample>, ghost of: seq<Fact>)
    requires rules.minPriorGames >= 1 && forall g :: g in games ==> WellFormed(g)
    requires Keyed(games)
    ensures samples == Samples(svc, rules, league, season, games)
    ensures Accounts(svc, rules, league, season, games, samples, of)
  {
    hide DaySamples, Sort, Filtered, Days, On, Before, UpTo, WellFormed, Tallied, Universe, Accounts;
    var sorted := InOrder(games, season);
    InOrderFacts(games, season);
    var teams := Universe(league, sorted);
    var days := Days(sorted);
    samples := [];
    var prior: seq<Game> := [];
    var priorGames: map<int, int> := map[];
    var priorRebounds: map<int, int> := map[];
    EmptyTally();
    if |days| > 0 { FirstDay(sorted, days[0]); }
    for k := 0 to |days|
      invariant samples == AllSamples(svc, rules, teams, sorted, days[..k])
      invariant Tallied(prior, priorGames, priorRebounds)
      invariant k < |days| ==> prior == Before(sorted, days[k])
    {
      var day := days[k];
      var today := On(sorted, day);
      var scored := ScoreDay(svc, rules, teams, prior, day, today, priorGames, priorRebounds);
      assert days[..k + 1][..k] == days[..k];
      samples := samples + scored;
      priorGames, priorRebounds := CountDay(prior, today, priorGames, priorRebounds);
      prior := prior + today;
      BeforeAndOn(sorted, day);
      if k + 1 < |days| { NextDay(sorted, days, k); }
    }
    assert days[..|days|] == days;
    of := SamplesAccounted(svc, rules, league, season, games);
  }

  // ----- no leak

  function OnDay(samples: seq<Sample>, day: int): seq<Sample>
  {
    if |samples| == 0 then []
    else OnDay(samples[..|samples| - 1], day) + (if samples[|samples| - 1].date == day then [samples[|samples| - 1]] else [])
  }

  function OfGame(samples: seq<Sample>, id: string): seq<Sample>
  {
    if |samples| == 0 then []
    else OfGame(samples[..|samples| - 1], id) + (if samples[|samples| - 1].gameId == id then [samples[|samples| - 1]] else [])
  }

  lemma {:induction false} OnDayAppend(a: seq<Sample>, b: seq<Sample>, day: int)
    ensures OnDay(a + b, day) == OnDay(a, day) + OnDay(b, day)
  {
    if |b| == 0 {
      assert a + b == a;
    } else {
      OnDayAppend(a, b[..|b| - 1], day);
      assert (a + b)[..|a + b| - 1] == a + b[..|b| - 1];
    }
  }

  lemma {:induction false} OnDayUniform(a: seq<Sample>, d: int, day: int)
    requires forall i :: 0 <= i < |a| ==> a[i].date == d
    ensures OnDay(a, day) == if d == day then a else []
  {
    if |a| == 0 {
    } else {
      OnDayUniform(a[..|a| - 1], d, day);
      assert a == a[..|a| - 1] + [a[|a| - 1]];
    }
  }

  lemma {:induction false} OfGameAppend(a: seq<Sample>, b: seq<Sample>, id: string)
    ensures OfGame(a + b, id) == OfGame(a, id) + OfGame(b, id)
  {
    if |b| == 0 {
      assert a + b == a;
    } else {
      OfGameAppend(a, b[..|b| - 1], id);
      assert (a + b)[..|a + b| - 1] == a + b[..|b| - 1];
    }
  }

  lemma {:induction false} OfGameUniform(a: seq<Sample>, g: string, id: string)
    requires forall i :: 0 <= i < |a| ==> a[i].gameId == g
    ensures OfGame(a, id) == if g == id then a else []
  {
    if |a| == 0 {
    } else {
      OfGameUniform(a[..|a| - 1], g, id);
      assert a == a[..|a| - 1] + [a[|a| - 1]];
    }
  }

  /** One day's part of all the samples. */
  lemma {:induction false} DayOfAll<I, D>(svc: Services<I, D>, rules: Rules, teams: set<int>, sorted: seq<Game>,
                                          days: seq<int>, day: int)
    requires rules.minPriorGames >= 1 && forall g :: g in sorted ==> WellFormed(g)
    requires StrictlySorted(IntLess, days)
    ensures OnDay(AllSamples(svc, rules, teams, sorted, days), day)
      == if day in days then DaySamples(svc, rules, teams, Before(sorted, day), day, On(sorted, day)) else []
  {
    hide DaySamples, Before, On, Filtered, WellFormed, OnDay;
    if |days| == 0 {
      assert OnDay([], day) == [] by { OnDayUniform([], day, day); }
    } else {
      var init, last := days[..|days| - 1], days[|days| - 1];
      var today := DaySamples(svc, rules, teams, Before(sorted, last), last, On(sorted, last));
      DayOfAll(svc, rules, teams, sorted, init, day);
      OnDayAppend(AllSamples(svc, rules, teams, sorted, init), today, day);
      OnDayUniform(today, last, day);
      assert days == init + [last];
      assert forall i :: 0 <= i < |init| ==> IntLess(days[i], last);
    }
  }

  lemma {:induction false} NoneOfGame<I, D>(svc: Services<I, D>, rules: Rules, teams: set<int>, prior: seq<Game>, day: int,
                                            games: seq<Game>, id: string)
    requires rules.minPriorGames >= 1 && forall g :: g in games ==> WellFormed(g)
    requires forall i :: 0 <= i < |games| ==> games[i].id != id
    ensures OfGame(DaySamples(svc, rules, teams, prior, day, games), id) == []
  {
    hide GameSamples;
    if |games| == 0 {
    } else {
      var init, last := games[..|games| - 1], games[|games| - 1];
      var own := GameSamples(svc, rules, teams, prior, day, last, last.players);
      NoneOfGame(svc, rules, teams, prior, day, init, id);
      OfGameAppend(DaySamples(svc, rules, teams, prior, day, init), own, id);
      OfGameUniform(own, last.id, id);
    }
  }

  lemma {:induction false} GameOfDay<I, D>(svc: Services<I, D>, rules: Rules, teams: set<int>, prior: seq<Game>, day: int,
                                           games: seq<Game>, k: nat)
    requires rules.minPriorGames >= 1 && (forall g :: g in games ==> WellFormed(g)) && Keyed(games) && k < |games|
    ensures OfGame(DaySamples(svc, rules, teams, prior, day, games), games[k].id)
      == GameSamples(svc, rules, teams, prior, day, games[k], games[k].players)
    decreases |games|
  {
    hide GameSamples, WellFormed, OfGame, Ids;
    var init, last := games[..|games| - 1], games[|games| - 1];
    var rest := DaySamples(svc, rules, teams, prior, day, init);
    var own := GameSamples(svc, rules, teams, prior, day, last, last.players);
    OfGameAppend(rest, own, games[k].id);
    OfGameUniform(own, last.id, games[k].id);
    if k < |games| - 1 {
      GameOfDay(svc, rules, teams, prior, day, init, k);
    } else {
      NoneOfGame(svc, rules, teams, prior, day, init, last.id);
    }
  }

  lemma SameFilter(a: seq<Game>, b: seq<Game>, keep: Game -> bool)
    requires StrictlySorted(GameLess, a) && StrictlySorted(GameLess, b)
    requires forall g :: keep(g) ==> (g in a <==> g in b)
    ensures Filtered(a, keep) == Filtered(b, keep)
  {
    hide Filtered;
    FilteredSorted(a, keep);
    FilteredSorted(b, keep);
    GameOrder();
    SortedUnique(GameLess, Filtered(a, keep), Filtered(b, keep));
  }

  lemma DayListed(sorted: seq<Game>, day: int)
    ensures day in Days(sorted) <==> On(sorted, day) != []
  {
    hide Days, On;
    if day in Days(sorted) {
      var i :| 0 <= i < |sorted| && Dates(sorted)[i] == day;
      InOn(sorted, day, sorted[i]);
    }
    if |On(sorted, day)| > 0 {
      var g := On(sorted, day)[0];
      InOn(sorted, day, g);
      DateIsDay(sorted, g);
    }
  }

  /** Two seasons with one team universe that agree on the in-scope games up to and including a
      day have the same samples for it, whatever either holds later. */
  lemma NoLaterInfluence<I, D>(svc: Services<I, D>, rules: Rules, league: League, season: string, a: seq<Game>,
                               b: seq<Game>, day: int)
    requires rules.minPriorGames >= 1 && Keyed(a) && Keyed(b)
    requires (forall g :: g in a ==> WellFormed(g)) && (forall g :: g in b ==> WellFormed(g))
    requires Universe(league, InOrder(a, season)) == Universe(league, InOrder(b, season))
    requires forall g :: InScope(g, season) && g.date <= day ==> (g in a <==> g in b)
    ensures OnDay(Samples(svc, rules, league, season, a), day) == OnDay(Samples(svc, rules, league, season, b), day)
  {
    hide DaySamples, InOrder, Universe, Days, AllSamples;
    var sa, sb, teams := InOrder(a, season), InOrder(b, season), Universe(league, InOrder(a, season));
    InOrderFacts(a, season);
    InOrderFacts(b, season);
    DayOfAll(svc, rules, teams, sa, Days(sa), day);
    DayOfAll(svc, rules, teams, sb, Days(sb), day);
    SameFilter(sa, sb, (g: Game) => g.date < day);
    SameFilter(sa, sb, (g: Game) => g.date == day);
    assert Before(sa, day) == Before(sb, day) && On(sa, day) == On(sb, day);
    DayListed(sa, day);
    DayListed(sb, day);
  }

  lemma OnIsKeyed(sorted: seq<Game>, day: int)
    requires StrictlySorted(GameLess, sorted)
    ensures Keyed(On(sorted, day))
  {
    hide On;
    FilteredSorted(sorted, (g: Game) => g.date == day);
    var today := On(sorted, day);
    assert StrictlySorted(GameLess, today) by { OnIsFiltered(sorted, day); }
    forall i, j | 0 <= i < j < |today| ensures today[i].id != today[j].id {
      InOn(sorted, day, today[i]);
      InOn(sorted, day, today[j]);
      assert GameLess(today[i], today[j]);
      LexIrreflexive(today[i].id);
    }
  }

  lemma SamplesOfGame<I, D>(svc: Services<I, D>, rules: Rules, league: League, season: string, games: seq<Game>, g: Game)
    requires rules.minPriorGames >= 1 && Keyed(games) && g in games && InScope(g, season)
    requires forall x :: x in games ==> WellFormed(x)
    ensures var sorted := InOrder(games, season);
      OfGame(OnDay(Samples(svc, rules, league, season, games), g.date), g.id)
      == GameSamples(svc, rules, Universe(league, sorted), Before(sorted, g.date), g.date, g, g.players)
  {
    hide InOrder, Universe, Days, DaySamples, GameSamples, AllSamples, On, Before;
    var sorted := InOrder(games, season);
    var teams, today := Universe(league, sorted), On(sorted, g.date);
    InOrderFacts(games, season);
    DayOfAll(svc, rules, teams, sorted, Days(sorted), g.date);
    InOn(sorted, g.date, g);
    DayListed(sorted, g.date);
    var k :| 0 <= k < |today| && today[k] == g;
    OnIsKeyed(sorted, g.date);
    forall x | x in today ensures WellFormed(x) { InOn(sorted, g.date, x); }
    GameOfDay(svc, rules, teams, Before(sorted, g.date), g.date, today, k);
  }

  /** A game's samples depend on the games before its day and on itself: the other games of the
      day, like the later ones, cannot change them. */
  lemma NoSameDayInfluence<I, D>(svc: Services<I, D>, rules: Rules, league: League, season: string, a: seq<Game>,
                                 b: seq<Game>, g: Game)
    requires rules.minPriorGames >= 1 && Keyed(a) && Keyed(b)
    requires (forall x :: x in a ==> WellFormed(x)) && (forall x :: x in b ==> WellFormed(x))
    requires Universe(league, InOrder(a, season)) == Universe(league, InOrder(b, season))
    requires g in a && g in b && InScope(g, season)
    requires forall x :: InScope(x, season) && x.date < g.date ==> (x in a <==> x in b)
    ensures OfGame(OnDay(Samples(svc, rules, league, season, a), g.date), g.id)
      == OfGame(OnDay(Samples(svc, rules, league, season, b), g.date), g.id)
  {
    hide InOrder, Universe, Samples, GameSamples;
    var sa, sb, teams := InOrder(a, season), InOrder(b, season), Universe(league, InOrder(a, season));
    InOrderFacts(a, season);
    InOrderFacts(b, season);
    SameFilter(sa, sb, (x: Game) => x.date < g.date);
    assert Before(sa, g.date) == Before(sb, g.date);
    SamplesOfGame(svc, rules, league, season, a, g);
    SamplesOfGame(svc, rules, league, season, b, g);
  }

  lemma InOrderIgnoresOrder(a: seq<Game>, b: seq<Game>, season: string)
    requires Keyed(a) && Keyed(b) && forall g :: g in a <==> g in b
    ensures InOrder(a, season) == InOrder(b, season)
  {
    hide Sort;
    var keep := (g: Game) => InScope(g, season);
    FilteredKeyed(a, keep);
    FilteredKeyed(b, keep);
    KeyedComparable(Filtered(a, keep));
    KeyedComparable(Filtered(b, keep));
    GameOrder();
    SortIgnoresOrder(GameLess, Filtered(a, keep), Filtered(b, keep));
  }

  /** The order in which the games are given does not matter. */
  lemma InputOrderIrrelevant<I, D>(svc: Services<I, D>, rules: Rules, league: League, season: string, a: seq<Game>,
                                   b: seq<Game>)
    requires rules.minPriorGames >= 1 && Keyed(a) && Keyed(b)
    requires (forall g :: g in a ==> WellFormed(g)) && (forall g :: g in b ==> WellFormed(g))
    requires forall g :: g in a <==> g in b
    ensures Samples(svc, rules, league, season, a) == Samples(svc, rules, league, season, b)
  {
    hide InOrder, AllSamples;
    InOrderIgnoresOrder(a, b, season);
  }

  // ----- the one leak: the team universe

  lemma {:induction false} NoIndexNoSamples<I, D>(svc: Services<I, D>, rules: Rules, teams: set<int>, prior: seq<Game>,
                                                  day: int, g: Game, players: seq<PlayerFact>)
    requires rules.minPriorGames >= 1 && WellFormed(g) && forall p :: p in players ==> p in g.players
    requires Windows(svc, teams, prior, day) == (None, None)
    ensures GameSamples(svc, rules, teams, prior, day, g, players) == []
  {
    hide Windows, PriorGames, PriorRebounds;
    if |players| == 0 {
    } else {
      NoIndexNoSamples(svc, rules, teams, prior, day, g, players[..|players| - 1]);
    }
  }

  lemma {:induction false} NoIndexEmptyDay<I, D>(svc: Services<I, D>, rules: Rules, teams: set<int>, prior: seq<Game>,
                                                 day: int, games: seq<Game>)
    requires rules.minPriorGames >= 1 && forall g :: g in games ==> WellFormed(g)
    requires Windows(svc, teams, prior, day) == (None, None)
    ensures DaySamples(svc, rules, teams, prior, day, games) == []
  {
    hide Windows, GameSamples;
    if |games| == 0 {
    } else {
      var init, last := games[..|games| - 1], games[|games| - 1];
      NoIndexEmptyDay(svc, rules, teams, prior, day, init);
      NoIndexNoSamples(svc, rules, teams, prior, day, last, last.players);
    }
  }

  lemma SampleExists<I, D>(svc: Services<I, D>, x: Indexes<I, D>, day: int, g: Game, p: PlayerFact, average: real)
    requires WellFormed(g) && p in g.players && x.season.Some?
    requires forall name, i, opponent, diet :: svc.score(name, i, opponent, diet).Some?
    ensures SampleFrom(svc, x, day, g, p, average).Some?
  {
    var diet := if p.player in x.diets then Some(x.diets[p.player]) else None;
    assert svc.score("season", x.season.value, OpponentOf(g.teams, p.team), diet).Some?;
  }

  /** Where the season window scores everything, every eligible player-game is sampled. */
  lemma {:induction false} EligibleIsSampled<I, D>(svc: Services<I, D>, rules: Rules, teams: set<int>, prior: seq<Game>,
                                                   day: int, g: Game, players: seq<PlayerFact>, p: PlayerFact)
    requires rules.minPriorGames >= 1 && WellFormed(g) && forall q :: q in players ==> q in g.players
    requires Windows(svc, teams, prior, day).0.Some? && p in players && Eligible(rules, prior, p)
    requires forall name, x, opponent, diet :: svc.score(name, x, opponent, diet).Some?
    ensures GameSamples(svc, rules, teams, prior, day, g, players) != []
  {
    hide Windows, PriorGames, PriorRebounds, SampleFrom;
    var init, last := players[..|players| - 1], players[|players| - 1];
    if p == last {
      SampleExists(svc, IndexesBefore(svc, teams, prior, day), day, g, p,
                   PriorRebounds(prior, p.player) as real / PriorGames(prior, p.player) as real);
    } else {
      assert p in init;
      EligibleIsSampled(svc, rules, teams, prior, day, g, init, p);
    }
  }

  /** Services that have a window for one team universe only, and score everything in it. */
  ghost function ServicesFor<I, D>(teams: set<int>, index: I): Services<I, D>
  {
    Services((prior, day, universe, expected) => if universe == teams then Some(index) else None,
             prior => map[],
             (name, x, opponent, diet) => Some((0.0, 0.0, false)),
             diet => 0.0)
  }

  /** Whenever the universes differ and the day has an eligible player-game, some services tell
      the two seasons' samples for that day apart, even where the games agree through the day. */
  lemma UniverseLeaks<I, D>(index: I, rules: Rules, league: League, season: string, a: seq<Game>, b: seq<Game>, g: Game,
                            p: PlayerFact) returns (svc: Services<I, D>)
    requires rules.minPriorGames >= 1 && Keyed(a) && Keyed(b)
    requires (forall x :: x in a ==> WellFormed(x)) && (forall x :: x in b ==> WellFormed(x))
    requires g in a && InScope(g, season) && p in g.players
    requires Eligible(rules, Before(InOrder(a, season), g.date), p)
    requires Universe(league, InOrder(a, season)) != Universe(league, InOrder(b, season))
    ensures OnDay(Samples(svc, rules, league, season, a), g.date) != OnDay(Samples(svc, rules, league, season, b), g.date)
  {
    hide InOrder, Universe, Days, DaySamples, GameSamples, AllSamples, Filtered, PriorGames;
    var sa, sb := InOrder(a, season), InOrder(b, season);
    svc := ServicesFor(Universe(league, sa), index);
    InOrderFacts(a, season);
    InOrderFacts(b, season);
    SamplesOfGame(svc, rules, league, season, a, g);
    EligibleIsSampled(svc, rules, Universe(league, sa), Before(sa, g.date), g.date, g, g.players, p);
    DayOfAll(svc, rules, Universe(league, sb), sb, Days(sb), g.date);
    NoIndexEmptyDay(svc, rules, Universe(league, sb), Before(sb, g.date), g.date, On(sb, g.date));
  }

  /** Some game of the season involves a team of the league. */
  predicate SeesLeague(league: League, games: seq<Game>) { TeamsIn(games) * league.nba != {} }

  /** For a day with an eligible player-game through which two seasons agree: no services tell
      their samples for it apart if and only if both seasons see the league or neither does. */
  lemma LeakExact<I, D>(index: I, rules: Rules, league: League, season: string, a: seq<Game>, b: seq<Game>, g: Game,
                        p: PlayerFact)
    requires rules.minPriorGames >= 1 && Keyed(a) && Keyed(b) && league.nba != league.fixture
    requires (forall x :: x in a ==> WellFormed(x)) && (forall x :: x in b ==> WellFormed(x))
    requires forall x :: InScope(x, season) && x.date <= g.date ==> (x in a <==> x in b)
    requires g in a && InScope(g, season) && p in g.players
    requires Eligible(rules, Before(InOrder(a, season), g.date), p)
    ensures (forall svc: Services<I, D> ::
               OnDay(Samples(svc, rules, league, season, a), g.date) == OnDay(Samples(svc, rules, league, season, b), g.date))
      <==> (SeesLeague(league, InOrder(a, season)) <==> SeesLeague(league, InOrder(b, season)))
  {
    hide InOrder, Samples, OnDay, Filtered, PriorGames, TeamsIn;
    if SeesLeague(league, InOrder(a, season)) <==> SeesLeague(league, InOrder(b, season)) {
      forall svc: Services<I, D>
        ensures OnDay(Samples(svc, rules, league, season, a), g.date) == OnDay(Samples(svc, rules, league, season, b), g.date)
      {
        NoLaterInfluence(svc, rules, league, season, a, b, g.date);
      }
    } else {
      var svc := UniverseLeaks<I, D>(index, rules, league, season, a, b, g, p);
    }
  }

  /** Once a game through the day involves the league, nothing later can reach the day at all. */
  lemma SettledByEarlierGame<I, D>(svc: Services<I, D>, rules: Rules, league: League, season: string, a: seq<Game>,
                                   b: seq<Game>, day: int, g: Game, t: TeamFact)
    requires rules.minPriorGames >= 1 && Keyed(a) && Keyed(b)
    requires (forall x :: x in a ==> WellFormed(x)) && (forall x :: x in b ==> WellFormed(x))
    requires forall x :: InScope(x, season) && x.date <= day ==> (x in a <==> x in b)
    requires g in a && InScope(g, season) && g.date <= day && t in g.teams && t.team in league.nba
    ensures OnDay(Samples(svc, rules, league, season, a), day) == OnDay(Samples(svc, rules, league, season, b), day)
  {
    hide InOrder, Samples, OnDay;
    InOrderFacts(a, season);
    InOrderFacts(b, season);
    TeamIsSeen(InOrder(a, season), g, t);
    TeamIsSeen(InOrder(b, season), g, t);
    assert t.team in TeamsIn(InOrder(a, season)) * league.nba && t.team in TeamsIn(InOrder(b, season)) * league.nba;
    NoLaterInfluence(svc, rules, league, season, a, b, day);
  }

  lemma {:induction false} PlayedBefore(prior: seq<Game>, g: Game, player: int)
    requires g in prior
    ensures PriorGames(prior, player) >= PlayedIn(g.players, player)
  {
    var init, last := prior[..|prior| - 1], prior[|prior| - 1];
    if g == last {
    } else {
      assert g in init;
      PlayedBefore(init, g, player);
    }
  }

  /** One player of fixture team 1 on days 1 and 2, and a league team's game on day 3. */
  function ExamplePlayer(): PlayerFact { PlayerFact(7, 1, 30.0, 9) }

  function DayOne(): Game { Game("1", 1, "2025-26", true, [TeamFact(1, 2)], [ExamplePlayer()]) }
  function DayTwo(): Game { Game("2", 2, "2025-26", true, [TeamFact(1, 2)], [ExamplePlayer()]) }
  function DayThree(): Game { Game("3", 3, "2025-26", true, [TeamFact(1610612737, 2)], []) }

  function IdRange(first: int, n: nat): (ids: set<int>)
    ensures forall x :: x in ids <==> first <= x < first + n
  {
    if n == 0 then {} else IdRange(first, n - 1) + {first + n - 1}
  }

  /** The thirty league ids, and the fixture ids 1 to 30. */
  function ExampleLeague(): League { League(IdRange(1610612737, 30), IdRange(1, 30)) }

  lemma ExampleIsLedger()
    ensures Keyed([DayOne(), DayTwo()]) && Keyed([DayOne(), DayTwo(), DayThree()])
    ensures WellFormed(DayOne()) && WellFormed(DayTwo()) && WellFormed(DayThree())
  {
    assert DayOne().id[0] == '1' && DayTwo().id[0] == '2' && DayThree().id[0] == '3';
    assert DayOne().teams[0].team == 1 && DayTwo().teams[0].team == 1;
  }

  lemma ExampleIsEligible()
    ensures Eligible(Rules(1, 10.0), Before(InOrder([DayOne(), DayTwo()], "2025-26"), 2), ExamplePlayer())
  {
    hide InOrder, Filtered, PriorGames;
    ExampleIsLedger();
    InOrderFacts([DayOne(), DayTwo()], "2025-26");
    assert DayOne() in [DayOne(), DayTwo()];
    PlayedBefore(Before(InOrder([DayOne(), DayTwo()], "2025-26"), 2), DayOne(), 7);
    assert PlayedIn([ExamplePlayer()], 7) == 1;
  }

  lemma ExampleUniverse()
    ensures Universe(ExampleLeague(), InOrder([DayOne(), DayTwo()], "2025-26")) == ExampleLeague().fixture
  {
    hide InOrder, IdRange;
    ExampleIsLedger();
    var games := [DayOne(), DayTwo()];
    InOrderFacts(games, "2025-26");
    var sorted := InOrder(games, "2025-26");
    forall i | 0 <= i < |sorted| ensures sorted[i].teams == [TeamFact(1, 2)] { assert sorted[i] in games; }
    assert TeamsIn(sorted) * ExampleLeague().nba == {};
  }

  lemma ExampleLongerUniverse()
    ensures Universe(ExampleLeague(), InOrder([DayOne(), DayTwo(), DayThree()], "2025-26")) == ExampleLeague().nba
    ensures ExampleLeague().nba != ExampleLeague().fixture
  {
    hide InOrder, IdRange;
    ExampleIsLedger();
    var games := [DayOne(), DayTwo(), DayThree()];
    InOrderFacts(games, "2025-26");
    assert games[2] in games;
    TeamIsSeen(InOrder(games, "2025-26"), DayThree(), DayThree().teams[0]);
    assert 1610612737 in TeamsIn(InOrder(games, "2025-26")) * ExampleLeague().nba;
    assert 1610612737 !in ExampleLeague().fixture;
  }

  /** Adding a game of day 3 changes the samples of day 2. */
  lemma LaterGameMovesSample<I, D>(index: I) returns (svc: Services<I, D>, games: seq<Game>, later: Game)
    ensures later.date == 3 && forall g :: g in games + [later] ==> WellFormed(g)
    ensures OnDay(Samples(svc, Rules(1, 10.0), ExampleLeague(), "2025-26", games), 2)
      != OnDay(Samples(svc, Rules(1, 10.0), ExampleLeague(), "2025-26", games + [later]), 2)
  {
    hide Samples, OnDay, InOrder, Universe, Before, Eligible, WellFormed, Keyed, IdRange;
    games, later := [DayOne(), DayTwo()], DayThree();
    ExampleIsLedger();
    ExampleIsEligible();
    ExampleUniverse();
    ExampleLongerUniverse();
    assert games + [later] == [DayOne(), DayTwo(), DayThree()];
    assert games[1] == DayTwo() && ExamplePlayer() in DayTwo().players;
    svc := UniverseLeaks<I, D>(index, Rules(1, 10.0), ExampleLeague(), "2025-26", games, games + [later], DayTwo(),
                               ExamplePlayer());
  }

  lemma SuffixIsLatest(sorted: seq<Game>, offset: nat, g: Game, h: Game)
    requires StrictlySorted(GameLess, sorted) && offset <= |sorted|
    requires g in sorted && g !in sorted[offset..] && h in sorted[offset..]
    ensures GameLess(g, h)
  {
    hide GameLess;
    assert sorted == sorted[..offset] + sorted[offset..];
    assert g in sorted[..offset];
    var i :| 0 <= i < offset && sorted[i] == g;
    var j :| 0 <= j < |sorted| - offset && sorted[offset..][j] == h;
    assert sorted[offset + j] == h;
  }

  /** A last-15 selection is exactly the team's latest earlier games: at most 15 of them, all of
      them when there are no more, and every one left out precedes every one taken. */
  lemma LastGamesAreLatest(prior: seq<Game>, team: int)
    requires Keyed(prior)
    ensures var last := LastGames(prior, team);
      && |last| == (if |TeamGames(prior, team)| < LAST_N then |TeamGames(prior, team)| else LAST_N)
      && (forall g :: g in last ==> g in prior && Plays(g, team))
      && (forall g, h :: g in prior && Plays(g, team) && g !in last && h in last ==> GameLess(g, h))
  {
    hide Filtered, Sort, Plays, GameLess;
    var games := TeamGames(prior, team);
    var sorted := Sort(GameLess, games);
    FilteredKeyed(prior, (g: Game) => Plays(g, team));
    KeyedComparable(games);
    GameOrder();
    SortSorts(GameLess, games);
    SortPermutes(GameLess, games);
    var last := LastGames(prior, team);
    var offset := |sorted| - |last|;
    assert last == sorted[offset..];
    forall g | g in last ensures g in games { assert g in sorted; }
    forall g, h | g in prior && Plays(g, team) && g !in last && h in last ensures GameLess(g, h) {
      assert g in games;
      SuffixIsLatest(sorted, offset, g, h);
    }
  }
}
