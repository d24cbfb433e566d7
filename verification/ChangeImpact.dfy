/** Test selection for a diff: the reference graph's reverse closure, the fixture worklist,
    and the plan they feed. */
module ChangeImpact {
  /** Module name to the modules it imports or names. */
  type Graph = map<string, set<string>>

  // ----- reaching a changed module

  /** `p` starts at `m`, follows references, and ends at a changed module. */
  ghost predicate PathTo(graph: Graph, changed: set<string>, m: string, p: seq<string>)
  {
    && |p| > 0 && p[0] == m && p[|p| - 1] in changed
    && forall i :: 0 <= i < |p| - 1 ==> p[i] in graph && p[i + 1] in graph[p[i]]
  }

  ghost predicate Reaches(graph: Graph, changed: set<string>, m: string)
  {
    exists p :: PathTo(graph, changed, m, p)
  }

  lemma ReachStep(graph: Graph, changed: set<string>, m: string, r: string)
    requires m in graph && r in graph[m] && Reaches(graph, changed, r)
    ensures Reaches(graph, changed, m)
  {
    var p :| PathTo(graph, changed, r, p);
    assert PathTo(graph, changed, m, [m] + p);
  }

  lemma {:induction false} ClosedUnderPaths(graph: Graph, changed: set<string>, reaches: set<string>, p: seq<string>)
    requires changed <= reaches
    requires forall m :: m in graph && m !in reaches ==> graph[m] * reaches == {}
    requires |p| > 0 && PathTo(graph, changed, p[0], p)
    ensures p[0] in reaches
    decreases |p|
  {
    if |p| == 1 {
    } else {
      assert PathTo(graph, changed, p[1], p[1..]);
      ClosedUnderPaths(graph, changed, reaches, p[1..]);
      assert p[1] in graph[p[0]] * reaches;
    }
  }

  /** The in-place growth loop, over any iteration order of the graph's keys, stops with exactly
      the modules that have a path to a changed one. */
  method Grow(graph: Graph, order: seq<string>, changed: set<string>) returns (reaches: set<string>)
    requires forall m :: m in order <==> m in graph
    ensures forall m :: m in reaches <==> Reaches(graph, changed, m)
  {
    reaches := changed;
    forall m | m in reaches ensures Reaches(graph, changed, m) { assert PathTo(graph, changed, m, [m]); }
    var grew := true;
    while grew
      invariant changed <= reaches && forall m :: m in reaches ==> Reaches(graph, changed, m)
      invariant !grew ==> forall i :: 0 <= i < |order| && order[i] !in reaches ==> graph[order[i]] * reaches == {}
      decreases graph.Keys - reaches, grew
    {
      grew := false;
      ghost var before := reaches;
      for k := 0 to |order|
        invariant before <= reaches && forall m :: m in reaches ==> Reaches(graph, changed, m)
        invariant grew ==> graph.Keys - reaches < graph.Keys - before
        invariant !grew ==> reaches == before
        invariant !grew ==> forall i :: 0 <= i < k && order[i] !in reaches ==> graph[order[i]] * reaches == {}
      {
        var m := order[k];
        if m !in reaches && graph[m] * reaches != {} {
          ghost var r :| r in graph[m] * reaches;
          ReachStep(graph, changed, m, r);
          assert m in graph.Keys - before;
          reaches := reaches + {m};
          grew := true;
        }
      }
    }
    forall m | Reaches(graph, changed, m) ensures m in reaches {
      var p :| PathTo(graph, changed, m, p);
      forall n | n in graph && n !in reaches ensures graph[n] * reaches == {} {
        var i :| 0 <= i < |order| && order[i] == n;
      }
      ClosedUnderPaths(graph, changed, reaches, p);
    }
  }

  /** Reachability is additive in the changed set. */
  lemma ReachesUnion(graph: Graph, a: set<string>, b: set<string>, m: string)
    ensures Reaches(graph, a + b, m) <==> Reaches(graph, a, m) || Reaches(graph, b, m)
  {
    if p :| PathTo(graph, a + b, m, p) {
      assert PathTo(graph, a, m, p) || PathTo(graph, b, m, p);
    }
    if p :| PathTo(graph, a, m, p) { assert PathTo(graph, a + b, m, p); }
    if p :| PathTo(graph, b, m, p) { assert PathTo(graph, a + b, m, p); }
  }

  // ----- fixtures

  /** A fixture's imports, and the fixtures it requests, in some order. */
  datatype Fixture = Fixture(imports: set<string>, requests: seq<string>)

  type Conftest = map<string, Fixture>

  ghost predicate Requests(conftests: seq<Conftest>, a: string, b: string)
  {
    exists c :: 0 <= c < |conftests| && a in conftests[c] && b in conftests[c][a].requests
  }

  /** `p` starts at a requested name and follows fixture requests in any visible conftest. */
  ghost predicate Chain(conftests: seq<Conftest>, requested: seq<string>, p: seq<string>)
  {
    && |p| > 0 && p[0] in requested
    && forall i :: 0 <= i < |p| - 1 ==> Requests(conftests, p[i], p[i + 1])
  }

  ghost predicate Used(conftests: seq<Conftest>, requested: seq<string>, name: string)
  {
    exists p :: Chain(conftests, requested, p) && p[|p| - 1] == name
  }

  ghost predicate ImportedBy(conftests: seq<Conftest>, name: string, ref: string)
  {
    exists c :: 0 <= c < |conftests| && name in conftests[c] && ref in conftests[c][name].imports
  }

  lemma UsedStep(conftests: seq<Conftest>, requested: seq<string>, a: string, b: string)
    requires Used(conftests, requested, a) && Requests(conftests, a, b)
    ensures Used(conftests, requested, b)
  {
    var p :| Chain(conftests, requested, p) && p[|p| - 1] == a;
    assert Chain(conftests, requested, p + [b]);
    assert (p + [b])[|p + [b]| - 1] == b;
  }

  lemma {:induction false} UsedIsSeen(conftests: seq<Conftest>, requested: seq<string>, seen: set<string>, p: seq<string>)
    requires Chain(conftests, requested, p)
    requires forall n :: n in requested ==> n in seen
    requires forall a, b :: a in seen && Requests(conftests, a, b) ==> b in seen
    ensures p[|p| - 1] in seen
    decreases |p|
  {
    if |p| == 1 {
    } else {
      var init := p[..|p| - 1];
      assert Chain(conftests, requested, init);
      UsedIsSeen(conftests, requested, seen, init);
      assert Requests(conftests, p[|p| - 2], p[|p| - 1]);
    }
  }

  function Mentioned(conftests: seq<Conftest>): (s: set<string>)
    ensures forall a, b :: Requests(conftests, a, b) ==> b in s
  {
    set c, a, i | 0 <= c < |conftests| && a in conftests[c] && 0 <= i < |conftests[c][a].requests| ::
      conftests[c][a].requests[i]
  }

  /** What one name contributes: the imports and requests of its fixture in every conftest. */
  method Visit(conftests: seq<Conftest>, name: string) returns (imports: set<string>, requests: seq<string>)
    ensures forall r :: r in imports <==> ImportedBy(conftests, name, r)
    ensures forall b :: b in requests <==> Requests(conftests, name, b)
  {
    imports, requests := {}, [];
    for c := 0 to |conftests|
      invariant forall r :: r in imports <==> exists d :: 0 <= d < c && name in conftests[d] && r in conftests[d][name].imports
      invariant forall b :: b in requests <==> exists d :: 0 <= d < c && name in conftests[d] && b in conftests[d][name].requests
    {
      if name in conftests[c] {
        imports := imports + conftests[c][name].imports;
        requests := requests + conftests[c][name].requests;
      }
    }
  }

  lemma RequestedIsUsed(conftests: seq<Conftest>, requested: seq<string>, n: string)
    requires n in requested
    ensures Used(conftests, requested, n)
  {
    assert Chain(conftests, requested, [n]) && [n][|[n]| - 1] == n;
  }

  lemma UsedHasChain(conftests: seq<Conftest>, requested: seq<string>, seen: set<string>, n: string)
    requires Used(conftests, requested, n)
    requires forall n :: n in requested ==> n in seen
    requires forall a, b :: a in seen && Requests(conftests, a, b) ==> b in seen
    ensures n in seen
  {
    var p :| Chain(conftests, requested, p) && p[|p| - 1] == n;
    UsedIsSeen(conftests, requested, seen, p);
  }

  /** The worklist, duplicates and all, returns exactly the imports of every fixture reachable
      from the requested names. */
  method FixtureRefs(conftests: seq<Conftest>, requested: seq<string>) returns (refs: set<string>)
    ensures forall r :: r in refs <==> exists n :: Used(conftests, requested, n) && ImportedBy(conftests, n, r)
  {
    hide Used, Requests, ImportedBy;
    refs := {};
    var seen: set<string> := {};
    var pending := requested;
    ghost var universe := Mentioned(conftests) + set n | n in requested;
    forall n | n in requested ensures Used(conftests, requested, n) { RequestedIsUsed(conftests, requested, n); }
    while |pending| > 0
      invariant seen <= universe && forall n :: n in pending ==> n in universe
      invariant forall n :: n in seen || n in pending ==> Used(conftests, requested, n)
      invariant forall n :: n in requested ==> n in seen || n in pending
      invariant forall a, b :: a in seen && Requests(conftests, a, b) ==> b in seen || b in pending
      invariant forall r :: r in refs <==> exists n :: n in seen && ImportedBy(conftests, n, r)
      decreases universe - seen, |pending|
    {
      var name := pending[|pending| - 1];
      assert name in pending;
      ghost var was := pending;
      pending := pending[..|pending| - 1];
      assert forall n :: n in was <==> n in pending || n == name;
      if name in seen { continue; }
      seen := seen + {name};
      var imports, requests := Visit(conftests, name);
      forall b | b in requests ensures Used(conftests, requested, b) { UsedStep(conftests, requested, name, b); }
      refs := refs + imports;
      pending := pending + requests;
    }
    forall n | Used(conftests, requested, n) ensures n in seen { UsedHasChain(conftests, requested, seen, n); }
  }

  // ----- selection

  /** One test file: its module, its own references, the conftests it sees and the fixtures it
      requests, what every test runs, and the data files its text names. */
  datatype Test = Test(path: string, name: string, refs: set<string>, visible: seq<Conftest>, requested: seq<string>,
                       always: set<string>, data: set<string>)

  /** The test refers to `r` itself or through a fixture it uses. */
  ghost predicate Refers(t: Test, r: string)
  {
    r in t.refs || exists n :: Used(t.visible, t.requested, n) && ImportedBy(t.visible, n, r)
  }

  /** The selection rule for one test, over a fixed graph. */
  ghost predicate Selected(graph: Graph, changed: set<string>, data: set<string>, t: Test)
  {
    || Reaches(graph, changed, t.name)
    || (exists r :: Refers(t, r) && Reaches(graph, changed, r))
    || t.always * changed != {}
    || t.data * data != {}
  }

  /** The selected test files, in file order. */
  ghost function Selection(graph: Graph, changed: set<string>, data: set<string>, tests: seq<Test>): seq<string>
  {
    if |tests| == 0 then []
    else
      var last := tests[|tests| - 1];
      Selection(graph, changed, data, tests[..|tests| - 1])
      + (if Selected(graph, changed, data, last) then [last.path] else [])
  }

  /** `affected_tests`. */
  method AffectedTests(graph: Graph, order: seq<string>, changed: set<string>, data: set<string>, tests: seq<Test>)
    returns (selected: seq<string>)
    requires forall m :: m in order <==> m in graph
    ensures selected == Selection(graph, changed, data, tests)
  {
    var reaches := Grow(graph, order, changed);
    hide Reaches, Used, ImportedBy;
    selected := [];
    for k := 0 to |tests|
      invariant selected == Selection(graph, changed, data, tests[..k])
    {
      var t := tests[k];
      var fixtureRefs := FixtureRefs(t.visible, t.requested);
      var refs := t.refs + fixtureRefs;
      assert forall r :: r in refs <==> Refers(t, r);
      if t.name in reaches || refs * reaches != {} || t.always * changed != {} || t.data * data != {} {
        selected := selected + [t.path];
      }
      assert (exists r :: Refers(t, r) && Reaches(graph, changed, r)) <==> refs * reaches != {} by {
        if r :| Refers(t, r) && Reaches(graph, changed, r) { assert r in refs * reaches; }
        if r :| r in refs * reaches { assert Refers(t, r) && Reaches(graph, changed, r); }
      }
      assert tests[..k + 1][..k] == tests[..k];
    }
    assert tests[..|tests|] == tests;
  }

  /** Selecting for the union of two diffs is the union of the selections, test by test. */
  lemma SelectedUnion(graph: Graph, a: set<string>, b: set<string>, da: set<string>, db: set<string>, t: Test)
    ensures Selected(graph, a + b, da + db, t) <==> Selected(graph, a, da, t) || Selected(graph, b, db, t)
  {
    hide Reaches, Refers;
    ReachesUnion(graph, a, b, t.name);
    forall r ensures Reaches(graph, a + b, r) <==> Reaches(graph, a, r) || Reaches(graph, b, r) {
      ReachesUnion(graph, a, b, r);
    }
    assert t.always * (a + b) == t.always * a + t.always * b;
    assert t.data * (da + db) == t.data * da + t.data * db;
  }

  /** Selecting for the union of two diffs gives the union of what each selects. */
  lemma {:induction false} SelectionAdditive(graph: Graph, a: set<string>, b: set<string>, da: set<string>,
                                             db: set<string>, tests: seq<Test>)
    ensures forall path :: path in Selection(graph, a + b, da + db, tests) <==>
      path in Selection(graph, a, da, tests) || path in Selection(graph, b, db, tests)
  {
    hide Selected;
    if |tests| == 0 {
    } else {
      SelectionAdditive(graph, a, b, da, db, tests[..|tests| - 1]);
      SelectedUnion(graph, a, b, da, db, tests[|tests| - 1]);
    }
  }

  // ----- the plan

  /** What the patterns say of one changed path. */
  datatype Path = Path(text: string, suiteRule: bool, testOrModule: bool, python: bool, inApp: bool, markdown: bool,
                       namedByCode: bool, lints: bool, migration: bool, name: string)

  datatype Mode = Nothing | Affected | Full

  datatype Plan = Plan(mode: Mode, tests: seq<string>, migrations: bool)

  /** The path forces the whole suite. */
  predicate ForcesFull(p: Path)
  {
    p.suiteRule || (!p.testOrModule && (p.python || p.inApp || (!p.markdown && p.namedByCode)))
  }

  function ChangedModules(changed: seq<Path>): set<string>
  {
    set i | 0 <= i < |changed| && changed[i].testOrModule :: changed[i].name
  }

  function DataFiles(changed: seq<Path>): set<string>
  {
    set i | 0 <= i < |changed| && !changed[i].testOrModule :: changed[i].text
  }

  ghost function PlanFor(graph: Graph, changed: seq<Path>, tests: seq<Test>): Plan
  {
    var migrations := exists p :: p in changed && p.migration;
    if changed == [] then Plan(Nothing, [], false)
    else if exists p :: p in changed && ForcesFull(p) then Plan(Full, [], migrations)
    else
      var modules := set i | 0 <= i < |changed| && changed[i].testOrModule :: changed[i].name;
      var files := set i | 0 <= i < |changed| && !changed[i].testOrModule :: changed[i].text;
      var selected := Selection(graph, modules, files, tests);
      if selected == [] && !migrations && !(exists p :: p in changed && p.lints)
      then Plan(Nothing, [], false)
      else Plan(Affected, selected, migrations)
  }

  /** `plan`: the loop stops at the first path that forces the suite; the tests are selected otherwise. */
  method MakePlan(graph: Graph, order: seq<string>, changed: seq<Path>, tests: seq<Test>) returns (plan: Plan)
    requires forall m :: m in order <==> m in graph
    ensures plan == PlanFor(graph, changed, tests)
    ensures plan.mode == Full <==> exists p :: p in changed && ForcesFull(p)
  {
    if changed == [] { return Plan(Nothing, [], false); }
    var migrations := exists p :: p in changed && p.migration;
    var lint := exists p :: p in changed && p.lints;
    var dataFiles: set<string> := {};
    for k := 0 to |changed|
      invariant forall i :: 0 <= i < k ==> !ForcesFull(changed[i])
      invariant dataFiles == DataFiles(changed[..k])
    {
      var p := changed[k];
      assert changed[..k + 1] == changed[..k] + [p];
      assert p in changed;
      if p.suiteRule { return Plan(Full, [], migrations); }
      if p.testOrModule { continue; }
      if p.python || p.inApp || (!p.markdown && p.namedByCode) { return Plan(Full, [], migrations); }
      dataFiles := dataFiles + {p.text};
    }
    assert changed[..|changed|] == changed;
    var selected := AffectedTests(graph, order, ChangedModules(changed), dataFiles, tests);
    if selected == [] && !lint && !migrations { return Plan(Nothing, [], false); }
    return Plan(Affected, selected, migrations);
  }

  /** The plan does not depend on the order, or the repetition, of the changed paths. */
  lemma PlanIgnoresOrder(graph: Graph, changed: seq<Path>, changed': seq<Path>, tests: seq<Test>)
    requires forall p :: p in changed <==> p in changed'
    ensures PlanFor(graph, changed, tests) == PlanFor(graph, changed', tests)
  {
    hide Selected;
    assert forall i :: 0 <= i < |changed| ==> changed[i] in changed';
    assert forall i :: 0 <= i < |changed'| ==> changed'[i] in changed;
    assert ChangedModules(changed) == ChangedModules(changed');
    assert DataFiles(changed) == DataFiles(changed');
    assert |changed| > 0 ==> changed[0] in changed';
    assert |changed'| > 0 ==> changed'[0] in changed;
  }
}
