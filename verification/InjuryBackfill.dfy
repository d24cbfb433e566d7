/** The injury-report backfill: every game in scope ends in exactly one summary counter. */
module InjuryBackfill {
  const MAX_CONSECUTIVE_NETWORK_FAILURES := 3

  datatype Game = Game(id: string, tip: string)

  /** One search for the report in force at a tip; a failure carries the run of failures it ends. */
  datatype Search = Found(url: string) | NoReport | Unreadable(url: string) | NetworkFailure(inARow: nat)

  /** The counter a game was put in. */
  datatype Fate = Chosen(url: string) | NothingFound | ParseFailed(url: string) | NetworkFailed

  datatype Summary = Summary(inScope: nat, stored: int, alreadyStored: int, noReport: nat, parseFailed: nat,
                             networkFailed: nat, notAttempted: nat, stopped: bool, parseFailures: seq<string>)

  /** Every game in scope is counted once. */
  predicate Balanced(s: Summary)
  {
    s.inScope == s.stored + s.alreadyStored + s.noReport + s.parseFailed + s.networkFailed + s.notAttempted
  }

  // ----- what the searches decide

  function FateOf(s: Search): Fate
  {
    match s
    case Found(url) => Chosen(url)
    case NoReport => NothingFound
    case Unreadable(url) => ParseFailed(url)
    case NetworkFailure(_) => NetworkFailed
  }

  /** The third failure in a row is the last. */
  predicate GivesUp(s: Search) { s.NetworkFailure? && s.inARow >= 3 }

  /** No search of this tip slot has got through yet. */
  predicate Fresh(todo: seq<Game>, fates: seq<Fate>, tip: string)
    requires |fates| <= |todo|
  {
    forall j :: 0 <= j < |fates| && todo[j].tip == tip ==> fates[j].NetworkFailed?
  }

  /** How many searches these fates took. */
  function Searches(todo: seq<Game>, fates: seq<Fate>): nat
    requires |fates| <= |todo|
  {
    if |fates| == 0 then 0
    else
      var init := fates[..|fates| - 1];
      Searches(todo, init) + (if Fresh(todo, init, todo[|init|].tip) then 1 else 0)
  }

  /** The last of these fates ended the run: it took a search, and the failures in a row are too many. */
  predicate GaveUp(todo: seq<Game>, search: (string, nat) -> Search, fates: seq<Fate>)
    requires |fates| <= |todo|
  {
    && |fates| > 0
    && var init := fates[..|fates| - 1];
       Fresh(todo, init, todo[|init|].tip) && GivesUp(search(todo[|init|].tip, Searches(todo, init)))
  }

  /** A found report is chosen, an unreadable file is a parse failure, no report and no network are themselves. */
  predicate Decides(s: Search, fate: Fate)
  {
    && (s.Found? <==> fate.Chosen?) && (s.Found? ==> fate.url == s.url)
    && (s.Unreadable? <==> fate.ParseFailed?) && (s.Unreadable? ==> fate.url == s.url)
    && (s.NoReport? <==> fate.NothingFound?) && (s.NetworkFailure? <==> fate.NetworkFailed?)
  }

  lemma FateDecided(s: Search)
    ensures Decides(s, FateOf(s))
  {
  }

  /** A slot is searched until a search gets through, and its later games share that outcome. */
  ghost predicate Trace(todo: seq<Game>, search: (string, nat) -> Search, fates: seq<Fate>)
    requires |fates| <= |todo|
  {
    |fates| > 0 ==>
      var init, fate := fates[..|fates| - 1], fates[|fates| - 1];
      var tip := todo[|init|].tip;
      && Trace(todo, search, init) && !GaveUp(todo, search, init)
      && if Fresh(todo, init, tip) then Decides(search(tip, Searches(todo, init)), fate)
         else exists j :: 0 <= j < |init| && todo[j].tip == tip && !init[j].NetworkFailed? && fate == init[j]
  }

  /** The run is over: every game has its fate, or the network gave out. */
  predicate Ended(todo: seq<Game>, search: (string, nat) -> Search, fates: seq<Fate>)
    requires |fates| <= |todo|
  {
    |fates| == |todo| || GaveUp(todo, search, fates)
  }

  /** Games of one slot share the outcome of its first search that got through. */
  lemma {:induction false} SlotsAgree(todo: seq<Game>, search: (string, nat) -> Search, fates: seq<Fate>, i: nat, j: nat)
    requires |fates| <= |todo| && Trace(todo, search, fates)
    requires i < j < |fates| && todo[i].tip == todo[j].tip && !fates[i].NetworkFailed?
    ensures fates[j] == fates[i]
    decreases |fates|
  {
    var init := fates[..|fates| - 1];
    if j < |init| {
      SlotsAgree(todo, search, init, i, j);
    } else {
      var k :| 0 <= k < |init| && todo[k].tip == todo[j].tip && !init[k].NetworkFailed? && fates[j] == init[k];
      if k < i { SlotsAgree(todo, search, init, k, i); }
      if i < k { SlotsAgree(todo, search, init, i, k); }
    }
  }

  lemma {:induction false} TracePrefix(todo: seq<Game>, search: (string, nat) -> Search, fates: seq<Fate>, n: nat)
    requires |fates| <= |todo| && n <= |fates| && Trace(todo, search, fates)
    ensures Trace(todo, search, fates[..n]) && (n < |fates| ==> !GaveUp(todo, search, fates[..n]))
    decreases |fates|
  {
    hide GaveUp, Searches, Fresh, Decides;
    if n < |fates| {
      var init := fates[..|fates| - 1];
      TracePrefix(todo, search, init, n);
      assert init[..n] == fates[..n];
    } else {
      assert fates[..n] == fates;
    }
  }

  lemma SharedFate(todo: seq<Game>, search: (string, nat) -> Search, fates: seq<Fate>, fate: Fate) returns (j: nat)
    requires |fates| < |todo| && Trace(todo, search, fates + [fate]) && !Fresh(todo, fates, todo[|fates|].tip)
    ensures j < |fates| && todo[j].tip == todo[|fates|].tip && !fates[j].NetworkFailed? && fate == fates[j]
  {
    hide Searches, GaveUp, FateOf, Fresh;
    assert (fates + [fate])[..|fates|] == fates;
    j :| 0 <= j < |fates| && todo[j].tip == todo[|fates|].tip && !fates[j].NetworkFailed? && fate == fates[j];
  }

  lemma NextFateAgrees(todo: seq<Game>, search: (string, nat) -> Search, fates: seq<Fate>, x: Fate, y: Fate)
    requires |fates| < |todo| && Trace(todo, search, fates + [x]) && Trace(todo, search, fates + [y])
    ensures x == y
  {
    hide Searches, GaveUp, FateOf, Fresh;
    if Fresh(todo, fates, todo[|fates|].tip) {
      assert (fates + [x])[..|fates|] == fates && (fates + [y])[..|fates|] == fates;
    } else {
      var j := SharedFate(todo, search, fates, x);
      SlotsAgree(todo, search, fates + [y], j, |fates|);
    }
  }

  lemma {:induction false} TracesAgree(todo: seq<Game>, search: (string, nat) -> Search, a: seq<Fate>, b: seq<Fate>)
    requires |a| == |b| <= |todo| && Trace(todo, search, a) && Trace(todo, search, b)
    ensures a == b
    decreases |a|
  {
    hide Trace;
    if |a| == 0 {
    } else {
      var n := |a| - 1;
      TracePrefix(todo, search, a, n);
      TracePrefix(todo, search, b, n);
      TracesAgree(todo, search, a[..n], b[..n]);
      assert a == a[..n] + [a[n]] && b == a[..n] + [b[n]];
      NextFateAgrees(todo, search, a[..n], a[n], b[n]);
    }
  }

  /** The games and the searches leave no choice: there is one ended run. */
  lemma RunDetermined(todo: seq<Game>, search: (string, nat) -> Search, a: seq<Fate>, b: seq<Fate>)
    requires |a| <= |todo| && |b| <= |todo|
    requires Trace(todo, search, a) && Ended(todo, search, a) && Trace(todo, search, b) && Ended(todo, search, b)
    ensures a == b
  {
    hide GaveUp, Searches, Fresh, Decides;
    var n := if |a| < |b| then |a| else |b|;
    TracePrefix(todo, search, a, n);
    TracePrefix(todo, search, b, n);
    TracesAgree(todo, search, a[..n], b[..n]);
    assert a[..|a|] == a && b[..|b|] == b;
  }

  // ----- counting and grouping fates

  function CountFates(fates: seq<Fate>, test: Fate -> bool): nat
  {
    if |fates| == 0 then 0
    else CountFates(fates[..|fates| - 1], test) + (if test(fates[|fates| - 1]) then 1 else 0)
  }

  predicate IsChosen(f: Fate) { f.Chosen? }
  predicate IsNothing(f: Fate) { f.NothingFound? }
  predicate IsParse(f: Fate) { f.ParseFailed? }
  predicate IsNetwork(f: Fate) { f.NetworkFailed? }

  lemma {:induction false} FatesPartition(fates: seq<Fate>)
    ensures CountFates(fates, IsChosen) + CountFates(fates, IsNothing) + CountFates(fates, IsParse)
            + CountFates(fates, IsNetwork) == |fates|
  {
    if |fates| == 0 {
    } else {
      FatesPartition(fates[..|fates| - 1]);
    }
  }

  /** The games whose chosen report is `url`, in order. */
  function GamesOf(todo: seq<Game>, fates: seq<Fate>, url: string): seq<Game>
    requires |fates| <= |todo|
  {
    if |fates| == 0 then []
    else
      var last := |fates| - 1;
      GamesOf(todo, fates[..last], url) + (if fates[last] == Chosen(url) then [todo[last]] else [])
  }

  /** The chosen reports, in the order they were first chosen. */
  function Urls(fates: seq<Fate>): seq<string>
  {
    if |fates| == 0 then []
    else
      var rest, last := Urls(fates[..|fates| - 1]), fates[|fates| - 1];
      if last.Chosen? && last.url !in rest then rest + [last.url] else rest
  }

  predicate DistinctUrls(urls: seq<string>) { forall i, j :: 0 <= i < j < |urls| ==> urls[i] != urls[j] }

  lemma {:induction false} UrlsDistinct(fates: seq<Fate>)
    ensures DistinctUrls(Urls(fates))
  {
    if |fates| == 0 {
    } else {
      UrlsDistinct(fates[..|fates| - 1]);
    }
  }

  lemma {:induction false} UrlsAreChosen(todo: seq<Game>, fates: seq<Fate>, url: string)
    requires |fates| <= |todo|
    ensures url in Urls(fates) <==> GamesOf(todo, fates, url) != []
  {
    if |fates| == 0 {
    } else {
      UrlsAreChosen(todo, fates[..|fates| - 1], url);
    }
  }

  /** The sum of `count` over the reports, each given the games grouped under it. */
  function Total(urls: seq<string>, todo: seq<Game>, fates: seq<Fate>, count: (string, seq<Game>) -> nat): nat
    requires |fates| <= |todo|
  {
    if |urls| == 0 then 0
    else
      var last := urls[|urls| - 1];
      Total(urls[..|urls| - 1], todo, fates, count) + count(last, GamesOf(todo, fates, last))
  }

  function Size(url: string, games: seq<Game>): nat { |games| }

  lemma {:induction false} TotalNext(urls: seq<string>, todo: seq<Game>, fates: seq<Fate>, fate: Fate)
    requires |fates| < |todo| && DistinctUrls(urls)
    ensures Total(urls, todo, fates + [fate], Size)
      == Total(urls, todo, fates, Size) + if fate.Chosen? && fate.url in urls then 1 else 0
  {
    if |urls| == 0 {
    } else {
      var init, last := urls[..|urls| - 1], urls[|urls| - 1];
      TotalNext(init, todo, fates, fate);
      assert (fates + [fate])[..|fates|] == fates;
      assert last !in init;
      assert urls == init + [last];
    }
  }

  /** The games grouped under the chosen reports are as many as were counted for storing. */
  lemma {:induction false} GroupedAreCounted(todo: seq<Game>, fates: seq<Fate>)
    requires |fates| <= |todo|
    ensures Total(Urls(fates), todo, fates, Size) == CountFates(fates, IsChosen)
  {
    if |fates| == 0 {
    } else {
      var init, fate := fates[..|fates| - 1], fates[|fates| - 1];
      assert fates == init + [fate];
      GroupedAreCounted(todo, init);
      UrlsDistinct(init);
      TotalNext(Urls(init), todo, init, fate);
      if fate.Chosen? && fate.url !in Urls(init) {
        UrlsAreChosen(todo, init, fate.url);
        assert Urls(fates)[..|Urls(init)|] == Urls(init);
      }
    }
  }

  lemma {:induction false} TotalBound(urls: seq<string>, todo: seq<Game>, fates: seq<Fate>,
                                      count: (string, seq<Game>) -> nat)
    requires |fates| <= |todo| && forall u, gs :: count(u, gs) <= |gs|
    ensures Total(urls, todo, fates, count) <= Total(urls, todo, fates, Size)
  {
    if |urls| == 0 {
    } else {
      TotalBound(urls[..|urls| - 1], todo, fates, count);
    }
  }

  // ----- choosing

  /** What the slots searched so far are remembered as. */
  ghost predicate Remembers(byTip: map<string, Fate>, todo: seq<Game>, fates: seq<Fate>)
    requires |fates| <= |todo|
  {
    && (forall t :: t in byTip <==> !Fresh(todo, fates, t))
    && (forall j :: 0 <= j < |fates| && !fates[j].NetworkFailed? ==> byTip[todo[j].tip] == fates[j])
  }

  /** The loop's counters and groups are those of the fates so far. */
  ghost predicate Tally(todo: seq<Game>, fates: seq<Fate>, order: seq<string>, chosen: map<string, seq<Game>>,
                        noReport: nat, parseFailed: nat, networkFailed: nat, stored: nat)
    requires |fates| <= |todo|
  {
    && stored == CountFates(fates, IsChosen) && noReport == CountFates(fates, IsNothing)
    && parseFailed == CountFates(fates, IsParse) && networkFailed == CountFates(fates, IsNetwork)
    && order == Urls(fates) && (forall u :: u in order <==> u in chosen)
    && (forall u :: u in chosen ==> chosen[u] == GamesOf(todo, fates, u))
  }

  /** `chosen.setdefault(url, ...)` and the append to its games. */
  function Grouped(chosen: map<string, seq<Game>>, url: string, g: Game): map<string, seq<Game>>
  {
    chosen[url := (if url in chosen then chosen[url] else []) + [g]]
  }

  lemma CountNext(fates: seq<Fate>, fate: Fate, test: Fate -> bool)
    ensures CountFates(fates + [fate], test) == CountFates(fates, test) + if test(fate) then 1 else 0
  {
    assert (fates + [fate])[..|fates|] == fates;
  }

  lemma GroupsNext(todo: seq<Game>, fates: seq<Fate>, fate: Fate, chosen: map<string, seq<Game>>)
    requires |fates| < |todo| && forall u :: u in Urls(fates) <==> u in chosen
    requires forall u :: u in chosen ==> chosen[u] == GamesOf(todo, fates, u)
    ensures var order', chosen' := Urls(fates + [fate]),
        if fate.Chosen? then Grouped(chosen, fate.url, todo[|fates|]) else chosen;
      && order' == (if fate.Chosen? && fate.url !in chosen then Urls(fates) + [fate.url] else Urls(fates))
      && (forall u :: u in order' <==> u in chosen')
      && (forall u :: u in chosen' ==> chosen'[u] == GamesOf(todo, fates + [fate], u))
  {
    assert (fates + [fate])[..|fates|] == fates;
    if fate.Chosen? { UrlsAreChosen(todo, fates, fate.url); }
  }

  lemma TallyNext(todo: seq<Game>, fates: seq<Fate>, fate: Fate, order: seq<string>, chosen: map<string, seq<Game>>,
                  noReport: nat, parseFailed: nat, networkFailed: nat, stored: nat)
    requires |fates| < |todo| && Tally(todo, fates, order, chosen, noReport, parseFailed, networkFailed, stored)
    ensures var g := todo[|fates|];
      Tally(todo, fates + [fate], if fate.Chosen? && fate.url !in chosen then order + [fate.url] else order,
            if fate.Chosen? then Grouped(chosen, fate.url, g) else chosen,
            if fate.NothingFound? then noReport + 1 else noReport, if fate.ParseFailed? then parseFailed + 1 else parseFailed,
            if fate.NetworkFailed? then networkFailed + 1 else networkFailed, if fate.Chosen? then stored + 1 else stored)
  {
    hide CountFates, Urls, GamesOf, Grouped;
    CountNext(fates, fate, IsChosen);
    CountNext(fates, fate, IsNothing);
    CountNext(fates, fate, IsParse);
    CountNext(fates, fate, IsNetwork);
    GroupsNext(todo, fates, fate, chosen);
  }

  lemma FreshNext(todo: seq<Game>, fates: seq<Fate>, fate: Fate, tip: string)
    requires |fates| < |todo|
    ensures Fresh(todo, fates + [fate], tip)
      <==> Fresh(todo, fates, tip) && (tip != todo[|fates|].tip || fate.NetworkFailed?)
  {
    var fates' := fates + [fate];
    assert fates'[|fates|] == fate && forall j :: 0 <= j < |fates| ==> fates'[j] == fates[j];
  }

  lemma NotFresh(todo: seq<Game>, fates: seq<Fate>, tip: string)
    requires |fates| <= |todo| && !Fresh(todo, fates, tip)
    ensures exists j :: 0 <= j < |fates| && todo[j].tip == tip && !fates[j].NetworkFailed?
  {
  }

  lemma SlotKnown(todo: seq<Game>, fates: seq<Fate>, j: nat)
    requires |fates| <= |todo| && j < |fates| && !fates[j].NetworkFailed?
    ensures !Fresh(todo, fates, todo[j].tip)
  {
  }

  lemma RememberNext(todo: seq<Game>, fates: seq<Fate>, fate: Fate, byTip: map<string, Fate>)
    requires |fates| < |todo| && Remembers(byTip, todo, fates)
    requires todo[|fates|].tip in byTip ==> fate == byTip[todo[|fates|].tip]
    ensures Remembers(if fate.NetworkFailed? then byTip else byTip[todo[|fates|].tip := fate], todo, fates + [fate])
  {
    hide Fresh;
    var fates', tip := fates + [fate], todo[|fates|].tip;
    forall t ensures Fresh(todo, fates', t) <==> Fresh(todo, fates, t) && (t != tip || fate.NetworkFailed?) {
      FreshNext(todo, fates, fate, t);
    }
    if tip in byTip { NotFresh(todo, fates, tip); }
    forall j | 0 <= j < |fates| && !fates[j].NetworkFailed? ensures todo[j].tip in byTip { SlotKnown(todo, fates, j); }
  }

  lemma TraceNext(todo: seq<Game>, search: (string, nat) -> Search, fates: seq<Fate>, fate: Fate, byTip: map<string, Fate>)
    requires |fates| < |todo| && Trace(todo, search, fates) && !GaveUp(todo, search, fates)
    requires Remembers(byTip, todo, fates)
    requires var tip := todo[|fates|].tip;
      fate == if tip in byTip then byTip[tip] else FateOf(search(tip, Searches(todo, fates)))
    ensures Trace(todo, search, fates + [fate])
    ensures var tip := todo[|fates|].tip;
      && Searches(todo, fates + [fate]) == Searches(todo, fates) + (if tip in byTip then 0 else 1)
      && (GaveUp(todo, search, fates + [fate]) <==> tip !in byTip && GivesUp(search(tip, Searches(todo, fates))))
  {
    hide Fresh, GivesUp, FateOf, Decides;
    assert (fates + [fate])[..|fates|] == fates;
    FateDecided(search(todo[|fates|].tip, Searches(todo, fates)));
    if todo[|fates|].tip in byTip { NotFresh(todo, fates, todo[|fates|].tip); }
  }

  lemma NothingYet(todo: seq<Game>, search: (string, nat) -> Search)
    ensures Trace(todo, search, []) && Remembers(map[], todo, []) && Tally(todo, [], [], map[], 0, 0, 0, 0)
    ensures Searches(todo, []) == 0 && !GaveUp(todo, search, [])
  {
  }

  /** The choosing loop of `run_backfill`. `search(tip, n)` is the n-th search of the run. */
  method ChooseReports(todo: seq<Game>, search: (string, nat) -> Search)
    returns (order: seq<string>, chosen: map<string, seq<Game>>, noReport: nat, parseFailed: nat, networkFailed: nat,
             stored: nat, notAttempted: nat, stopped: bool, parseFailures: seq<string>, ghost fates: seq<Fate>)
    ensures |fates| <= |todo| && Trace(todo, search, fates) && Ended(todo, search, fates)
    ensures notAttempted == |todo| - |fates| && (stopped <==> GaveUp(todo, search, fates))
    ensures Tally(todo, fates, order, chosen, noReport, parseFailed, networkFailed, stored)
    ensures DistinctUrls(parseFailures) && forall u :: u in parseFailures <==> ParseFailed(u) in fates
  {
    hide Trace, GaveUp, Searches, Remembers, Tally;
    order, chosen, noReport, parseFailed, networkFailed, stored := [], map[], 0, 0, 0, 0;
    notAttempted, stopped, parseFailures, fates := 0, false, [], [];
    var byTip: map<string, Fate> := map[];
    var calls := 0;
    NothingYet(todo, search);
    for k := 0 to |todo|
      invariant |fates| == k && notAttempted == 0 && !stopped && calls == Searches(todo, fates)
      invariant Trace(todo, search, fates) && !GaveUp(todo, search, fates) && Remembers(byTip, todo, fates)
      invariant Tally(todo, fates, order, chosen, noReport, parseFailed, networkFailed, stored)
      invariant DistinctUrls(parseFailures) && forall u :: u in parseFailures <==> ParseFailed(u) in fates
      invariant forall t :: t in byTip ==> byTip[t] in fates && !byTip[t].NetworkFailed?
    {
      var g := todo[k];
      ghost var before := fates;
      if g.tip !in byTip {
        var found := search(g.tip, calls);
        TraceNext(todo, search, fates, FateOf(found), byTip);
        RememberNext(todo, fates, FateOf(found), byTip);
        TallyNext(todo, fates, FateOf(found), order, chosen, noReport, parseFailed, networkFailed, stored);
        calls, fates := calls + 1, fates + [FateOf(found)];
        if found.NetworkFailure? {
          networkFailed := networkFailed + 1;
          if found.inARow >= MAX_CONSECUTIVE_NETWORK_FAILURES {
            stopped, notAttempted := true, |todo| - k - 1;
            return;
          }
          continue;
        }
        byTip := byTip[g.tip := FateOf(found)];
        if found.Unreadable? && found.url !in parseFailures { parseFailures := parseFailures + [found.url]; }
      } else {
        TraceNext(todo, search, fates, byTip[g.tip], byTip);
        RememberNext(todo, fates, byTip[g.tip], byTip);
        TallyNext(todo, fates, byTip[g.tip], order, chosen, noReport, parseFailed, networkFailed, stored);
        fates := fates + [byTip[g.tip]];
        assert byTip[g.tip := byTip[g.tip]] == byTip;
      }
      var fate := byTip[g.tip];
      assert fates == before + [fate];
      match fate
      case Chosen(url) =>
        if url !in chosen { order := order + [url]; }
        chosen := Grouped(chosen, url, g);
        stored := stored + 1;
      case NothingFound => noReport := noReport + 1;
      case ParseFailed(_) => parseFailed := parseFailed + 1;
      case NetworkFailed =>
    }
  }

  /** The games without a stored snapshot. */
  function Unstored(games: seq<Game>, already: set<string>): (todo: seq<Game>)
    ensures |todo| <= |games|
  {
    if |games| == 0 then []
    else
      var last := games[|games| - 1];
      Unstored(games[..|games| - 1], already) + (if last.id in already then [] else [last])
  }

  /** These positions pick the games of `todo` out of `games`, in order. */
  ghost predicate Picks(games: seq<Game>, todo: seq<Game>, at: seq<nat>)
  {
    && |at| == |todo|
    && (forall i :: 0 <= i < |at| ==> at[i] < |games| && todo[i] == games[at[i]])
    && forall i, j :: 0 <= i < j < |at| ==> at[i] < at[j]
  }

  lemma PicksNext(games: seq<Game>, todo: seq<Game>, at: seq<nat>)
    requires |games| > 0 && Picks(games[..|games| - 1], todo, at)
    ensures Picks(games, todo, at)
    ensures Picks(games, todo + [games[|games| - 1]], at + [|games| - 1])
  {
  }

  /** What is left to do is exactly the games whose id has no snapshot, each once and in order. */
  lemma {:induction false} UnstoredExact(games: seq<Game>, already: set<string>) returns (at: seq<nat>)
    ensures Picks(games, Unstored(games, already), at)
    ensures forall k: nat | k < |games| :: k in at <==> games[k].id !in already
  {
    if |games| == 0 {
      at := [];
    } else {
      var last := |games| - 1;
      var init := UnstoredExact(games[..last], already);
      PicksNext(games, Unstored(games[..last], already), init);
      assert last !in init by { assert forall i :: 0 <= i < |init| ==> init[i] < last; }
      hide Picks;
      at := if games[last].id in already then init else init + [last];
      forall k: nat | k < |games| ensures k in at <==> games[k].id !in already {
        assert k < last ==> games[..last][k] == games[k];
      }
    }
  }

  method KeepUnstored(games: seq<Game>, already: set<string>) returns (todo: seq<Game>)
    ensures todo == Unstored(games, already)
  {
    todo := [];
    for i := 0 to |games|
      invariant todo == Unstored(games[..i], already)
    {
      assert games[..i + 1][..i] == games[..i];
      if games[i].id !in already { todo := todo + [games[i]]; }
    }
    assert games[..|games|] == games;
  }

  /** The storing loop: what a report's games already had is moved from one counter to the other. */
  method StoreChosen(order: seq<string>, chosen: map<string, seq<Game>>, ghost todo: seq<Game>, ghost fates: seq<Fate>,
                     store: (string, seq<Game>) -> nat, count: int, before: int) returns (stored: int, skipped: int)
    requires |fates| <= |todo|
    requires forall u :: u in order ==> u in chosen && chosen[u] == GamesOf(todo, fates, u)
    ensures stored == count - Total(order, todo, fates, Size) + Total(order, todo, fates, store)
    ensures stored + skipped == count + before
  {
    hide GamesOf;
    stored, skipped := count, before;
    for k := 0 to |order|
      invariant stored + skipped == count + before
      invariant stored == count - Total(order[..k], todo, fates, Size) + Total(order[..k], todo, fates, store)
    {
      var given := chosen[order[k]];
      var added := store(order[k], given);
      assert order[..k + 1][..k] == order[..k];
      stored := stored - (|given| - added);
      skipped := skipped + (|given| - added);
    }
    assert order[..|order|] == order;
  }

  /** `run_backfill`. `store` answers how many of the given games' snapshots were new. */
  method RunBackfill(games: seq<Game>, already: set<string>, search: (string, nat) -> Search,
                     store: (string, seq<Game>) -> nat, dryRun: bool) returns (s: Summary, ghost fates: seq<Fate>)
    requires forall u, gs :: store(u, gs) <= |gs|
    ensures Balanced(s) && s.inScope == |games| && 0 <= s.stored && 0 <= s.alreadyStored
    ensures var todo := Unstored(games, already);
      && |fates| <= |todo| && Trace(todo, search, fates) && Ended(todo, search, fates)
      && s.stored == (if dryRun then CountFates(fates, IsChosen) else Total(Urls(fates), todo, fates, store))
      && s.noReport == CountFates(fates, IsNothing) && s.parseFailed == CountFates(fates, IsParse)
      && s.networkFailed == CountFates(fates, IsNetwork) && s.notAttempted == |todo| - |fates|
      && (s.stopped <==> GaveUp(todo, search, fates))
    ensures DistinctUrls(s.parseFailures) && forall u :: u in s.parseFailures <==> ParseFailed(u) in fates
  {
    hide Trace, GaveUp, Searches, CountFates, Total, Urls, GamesOf, Unstored;
    var todo := KeepUnstored(games, already);
    var order, chosen, noReport, parseFailed, networkFailed, count, notAttempted, stopped, parseFailures, f :=
      ChooseReports(todo, search);
    fates := f;
    FatesPartition(fates);
    GroupedAreCounted(todo, fates);
    TotalBound(Urls(fates), todo, fates, store);
    var stored: int, skipped := count, |games| - |todo|;
    if !dryRun { stored, skipped := StoreChosen(order, chosen, todo, fates, store, stored, skipped); }
    s := Summary(|games|, stored, skipped, noReport, parseFailed, networkFailed, notAttempted, stopped, parseFailures);
  }
}
