/** The SQLite table rebuilds of migrations 070 and 079: rename, create, copy, drop, each
    step possibly the last one to reach the disk before the next start. */
module TableRebuild {
  import opened Options

  /** What the database enforces: which two rows share a value of some unique key, and which rows
      the old definition admits. The new definition admits them all. */
  datatype Rules<!R> = Rules(clash: (R, R) -> bool, legacy: R -> bool)

  /** `current` says whether the definition already has the new shape. */
  datatype Table<R(==)> = Table(current: bool, rows: set<R>)

  datatype Files<R(==)> = Files(main: Option<Table<R>>, leftover: Option<Table<R>>)

  datatype Action = Rename | Create | Copy | Drop

  ghost predicate Lawful<R(!new)>(rules: Rules<R>)
  {
    (forall a :: rules.clash(a, a)) && forall a, b :: rules.clash(a, b) ==> rules.clash(b, a)
  }

  predicate Admits<R(==)>(rules: Rules<R>, t: Table<R>, r: R) { t.current || rules.legacy(r) }

  /** No key of `r` is taken. */
  predicate Free<R(==)>(rules: Rules<R>, rows: set<R>, r: R) { forall m :: m in rows ==> !rules.clash(r, m) }

  ghost predicate Keyed<R>(rules: Rules<R>, rows: set<R>)
  {
    forall a, b :: a in rows && b in rows && rules.clash(a, b) ==> a == b
  }

  ghost predicate ValidTable<R>(rules: Rules<R>, t: Table<R>)
  {
    Keyed(rules, t.rows) && forall r :: r in t.rows ==> Admits(rules, t, r)
  }

  ghost predicate ValidFiles<R>(rules: Rules<R>, f: Files<R>)
  {
    && (f.main.Some? ==> ValidTable(rules, f.main.value))
    && (f.leftover.Some? ==> ValidTable(rules, f.leftover.value))
  }

  function RowsOf<R(==)>(t: Option<Table<R>>): set<R> { if t.Some? then t.value.rows else {} }

  /** What `INSERT OR IGNORE` takes of `rows`: it skips a row with any key taken, or not admitted. */
  function Taken<R(==)>(rules: Rules<R>, main: Table<R>, rows: set<R>): set<R>
  {
    set r | r in rows && Admits(rules, main, r) && Free(rules, main.rows, r)
  }

  /** Every row on the disk. */
  function AllRows<R(==)>(f: Files<R>): set<R> { RowsOf(f.main) + RowsOf(f.leftover) }

  /** The rows a completed rebuild ends with. */
  function Contents<R(==)>(rules: Rules<R>, f: Files<R>): set<R>
  {
    if f.main.None? then RowsOf(f.leftover)
    else f.main.value.rows + Taken(rules, f.main.value, RowsOf(f.leftover))
  }

  /** The leftover is dropped only once nothing of it remains to be taken. */
  predicate Enabled<R(==)>(rules: Rules<R>, f: Files<R>, a: Action)
  {
    match a
    case Rename => f.main.Some? && f.leftover.None?
    case Create => f.main.None?
    case Copy => f.main.Some? && f.leftover.Some?
    case Drop => f.main.Some? && f.leftover.Some? && Taken(rules, f.main.value, f.leftover.value.rows) == {}
  }

  function Do<R(==)>(rules: Rules<R>, f: Files<R>, a: Action): Files<R>
    requires Enabled(rules, f, a)
  {
    match a
    case Rename => Files(None, f.main)
    case Create => f.(main := Some(Table(true, {})))
    case Copy => f.(main := Some(f.main.value.(rows := Contents(rules, f))))
    case Drop => f.(leftover := None)
  }

  predicate Runnable<R(==)>(rules: Rules<R>, f: Files<R>, plan: seq<Action>)
    decreases |plan|
  {
    |plan| > 0 ==> Enabled(rules, f, plan[0]) && Runnable(rules, Do(rules, f, plan[0]), plan[1..])
  }

  function DoAll<R(==)>(rules: Rules<R>, f: Files<R>, plan: seq<Action>): Files<R>
    requires Runnable(rules, f, plan)
    decreases |plan|
  {
    if |plan| == 0 then f else DoAll(rules, Do(rules, f, plan[0]), plan[1..])
  }

  // ----- one step

  lemma TakenNext<R(!new)>(rules: Rules<R>, main: Table<R>, rows: set<R>, left: set<R>, r: R)
    requires Lawful(rules) && Keyed(rules, rows) && left <= rows && r in left
    ensures var sofar := Taken(rules, main, rows - left);
      && (Free(rules, main.rows + sofar, r) <==> Free(rules, main.rows, r))
      && Taken(rules, main, rows - (left - {r}))
         == if Admits(rules, main, r) && Free(rules, main.rows, r) then sofar + {r} else sofar
  {
    var sofar := Taken(rules, main, rows - left);
    forall m | m in sofar ensures !rules.clash(r, m) { assert m in rows && r in rows && m != r; }
    assert rows - (left - {r}) == rows - left + {r};
  }

  /** Copying row by row, in whatever order the leftover is scanned, takes exactly its rows with
      every key free: none of them can take a key from another. */
  method InsertOrIgnore<R(==, !new)>(rules: Rules<R>, main: Table<R>, rows: set<R>) returns (t: Table<R>)
    requires Lawful(rules) && Keyed(rules, rows)
    ensures t == main.(rows := main.rows + Taken(rules, main, rows))
  {
    t := main;
    var left := rows;
    while left != {}
      invariant left <= rows && t == main.(rows := main.rows + Taken(rules, main, rows - left))
    {
      var r :| r in left;
      TakenNext(rules, main, rows, left, r);
      if Admits(rules, t, r) && Free(rules, t.rows, r) { t := t.(rows := t.rows + {r}); }
      left := left - {r};
    }
    assert rows - {} == rows;
  }

  lemma NothingMoreToTake<R(!new)>(rules: Rules<R>, f: Files<R>)
    requires Lawful(rules) && f.main.Some?
    ensures Taken(rules, f.main.value.(rows := Contents(rules, f)), RowsOf(f.leftover)) == {}
  {
    var main, after := f.main.value, f.main.value.(rows := Contents(rules, f));
    forall r | r in RowsOf(f.leftover) && Admits(rules, after, r) ensures !Free(rules, after.rows, r) {
      if Free(rules, main.rows, r) {
        assert r in after.rows && rules.clash(r, r);
      } else {
        var m :| m in main.rows && rules.clash(r, m);
        assert m in after.rows;
      }
    }
  }

  lemma CopyKeepsValid<R(!new)>(rules: Rules<R>, f: Files<R>)
    requires Lawful(rules) && ValidFiles(rules, f) && Enabled(rules, f, Copy)
    ensures ValidFiles(rules, Do(rules, f, Copy))
  {
    var main, rows := f.main.value, Contents(rules, f);
    forall a, b | a in rows && b in rows && rules.clash(a, b) ensures a == b {
      if a in main.rows && b !in main.rows { assert rules.clash(b, a); }
    }
  }

  /** No step, taken when it is enabled, changes what the rebuild will end with, or breaks a key. */
  lemma StepKeepsContents<R(!new)>(rules: Rules<R>, f: Files<R>, a: Action)
    requires Lawful(rules) && ValidFiles(rules, f) && Enabled(rules, f, a)
    ensures var g := Do(rules, f, a);
      && ValidFiles(rules, g) && Contents(rules, g) == Contents(rules, f)
      && (AllRows(f) == Contents(rules, f) ==> AllRows(g) == AllRows(f))
  {
    match a
    case Rename => assert AllRows(Do(rules, f, a)) == AllRows(f);
    case Create => assert Contents(rules, Do(rules, f, a)) == RowsOf(f.leftover);
    case Copy =>
      NothingMoreToTake(rules, f);
      CopyKeepsValid(rules, f);
    case Drop =>
  }

  lemma {:induction false} StepsKeepContents<R(!new)>(rules: Rules<R>, f: Files<R>, plan: seq<Action>)
    requires Lawful(rules) && ValidFiles(rules, f) && Runnable(rules, f, plan)
    ensures var g := DoAll(rules, f, plan);
      && ValidFiles(rules, g) && Contents(rules, g) == Contents(rules, f)
      && (AllRows(f) == Contents(rules, f) ==> AllRows(g) == AllRows(f))
    decreases |plan|
  {
    hide ValidFiles, Contents, AllRows, Enabled, Do;
    if |plan| == 0 {
    } else {
      StepKeepsContents(rules, f, plan[0]);
      StepsKeepContents(rules, Do(rules, f, plan[0]), plan[1..]);
    }
  }

  lemma {:induction false} Append<R>(rules: Rules<R>, f: Files<R>, plan: seq<Action>, more: seq<Action>)
    requires Runnable(rules, f, plan) && Runnable(rules, DoAll(rules, f, plan), more)
    ensures Runnable(rules, f, plan + more)
    ensures DoAll(rules, f, plan + more) == DoAll(rules, DoAll(rules, f, plan), more)
    decreases |plan|
  {
    hide Enabled, Do;
    if |plan| == 0 {
      assert plan + more == more;
    } else {
      Append(rules, Do(rules, f, plan[0]), plan[1..], more);
      assert (plan + more)[1..] == plan[1..] + more;
    }
  }

  lemma {:induction false} PrefixRunnable<R>(rules: Rules<R>, f: Files<R>, plan: seq<Action>, stop: nat)
    requires Runnable(rules, f, plan) && stop <= |plan|
    ensures Runnable(rules, f, plan[..stop])
    decreases |plan|
  {
    hide Enabled, Do;
    if stop == 0 {
    } else {
      PrefixRunnable(rules, Do(rules, f, plan[0]), plan[1..], stop - 1);
      assert plan[..stop][1..] == plan[1..][..stop - 1];
    }
  }

  // ----- the plans

  /** `_rebuild_sqlite_diet_table` under its caller's guard: the steps from the state found. */
  function DietPlan<R(==)>(f: Files<R>): seq<Action>
  {
    if f.main.None? && f.leftover.None? then []
    else if f.leftover.None? && f.main.value.current then []
    else
      (if f.leftover.None? then [Rename] else [])
      + (if f.leftover.None? || f.main.None? then [Create] else [])
      + [Copy] + [Drop]
  }

  /** The table part of `_add_position_qualifiers`: an interrupted rebuild is finished first, a
      missing table is created, and an old-shaped one is rebuilt. */
  function QualifierPlan<R(==)>(f: Files<R>): seq<Action>
  {
    var finish := if f.leftover.None? then [] else (if f.main.None? then [Create] else []) + [Copy] + [Drop];
    var create := if f.main.None? && f.leftover.None? then [Create] else [];
    var rebuild := if f.main.Some? && !f.main.value.current then [Rename] + [Create] + [Copy] + [Drop] else [];
    finish + create + rebuild
  }

  lemma One<R>(rules: Rules<R>, f: Files<R>, done: seq<Action>, a: Action)
    requires Runnable(rules, f, done) && Enabled(rules, DoAll(rules, f, done), a)
    ensures Runnable(rules, f, done + [a])
    ensures DoAll(rules, f, done + [a]) == Do(rules, DoAll(rules, f, done), a)
  {
    assert Runnable(rules, DoAll(rules, f, done), [a]);
    Append(rules, f, done, [a]);
  }

  /** Two tables, one of them left over, end as one. */
  lemma Finish<R(!new)>(rules: Rules<R>, f: Files<R>, done: seq<Action>)
    requires Lawful(rules) && Runnable(rules, f, done)
    requires DoAll(rules, f, done).main.Some? && DoAll(rules, f, done).leftover.Some?
    ensures Runnable(rules, f, done + [Copy] + [Drop])
    ensures var g, h := DoAll(rules, f, done), DoAll(rules, f, done + [Copy] + [Drop]);
      h.leftover.None? && h.main.Some? && h.main.value.current == g.main.value.current
  {
    hide Runnable, DoAll, Taken;
    One(rules, f, done, Copy);
    NothingMoreToTake(rules, DoAll(rules, f, done));
    One(rules, f, done + [Copy], Drop);
  }

  lemma QualifierPlanRuns<R(!new)>(rules: Rules<R>, f: Files<R>)
    requires Lawful(rules)
    ensures Runnable(rules, f, QualifierPlan(f))
    ensures var g := DoAll(rules, f, QualifierPlan(f)); g.leftover.None? && g.main.Some? && g.main.value.current
  {
    hide Taken, Contents;
    var done: seq<Action> := [];
    if f.leftover.Some? {
      if f.main.None? {
        One(rules, f, done, Create);
        done := done + [Create];
      }
      Finish(rules, f, done);
      done := done + [Copy] + [Drop];
    } else if f.main.None? {
      One(rules, f, done, Create);
      done := done + [Create];
    }
    if f.main.Some? && !f.main.value.current {
      One(rules, f, done, Rename);
      One(rules, f, done + [Rename], Create);
      Finish(rules, f, done + [Rename] + [Create]);
      done := done + [Rename] + [Create] + [Copy] + [Drop];
    }
    assert QualifierPlan(f) == done;
  }

  // ----- interruptions

  /** An old-shaped main table beside a leftover: no interruption of a rebuild makes one. */
  predicate Stale<R(==)>(f: Files<R>) { f.main.Some? && !f.main.value.current && f.leftover.Some? }

  lemma DietPlanRuns<R(!new)>(rules: Rules<R>, f: Files<R>)
    requires Lawful(rules)
    ensures Runnable(rules, f, DietPlan(f))
    ensures var g := DoAll(rules, f, DietPlan(f));
      && g.leftover.None?
      && (g.main.Some? <==> f.main.Some? || f.leftover.Some?)
      && (g.main.Some? ==> (g.main.value.current <==> !Stale(f)))
  {
    hide Taken, Contents;
    if DietPlan(f) != [] {
      var done: seq<Action> := [];
      if f.leftover.None? {
        One(rules, f, done, Rename);
        done := done + [Rename];
      }
      if f.leftover.None? || f.main.None? {
        One(rules, f, done, Create);
        done := done + [Create];
      }
      Finish(rules, f, done);
      assert DietPlan(f) == done + [Copy] + [Drop];
    }
  }

  function Cut(plan: seq<Action>, stop: nat): seq<Action> { if stop <= |plan| then plan[..stop] else plan }

  function Plan<R(==)>(qualifiers: bool, f: Files<R>): seq<Action>
  {
    if qualifiers then QualifierPlan(f) else DietPlan(f)
  }

  lemma PlanRuns<R(!new)>(rules: Rules<R>, qualifiers: bool, f: Files<R>, stop: nat)
    requires Lawful(rules)
    ensures Runnable(rules, f, Plan(qualifiers, f)) && Runnable(rules, f, Cut(Plan(qualifiers, f), stop))
  {
    hide Runnable;
    if qualifiers { QualifierPlanRuns(rules, f); } else { DietPlanRuns(rules, f); }
    if stop <= |Plan(qualifiers, f)| { PrefixRunnable(rules, f, Plan(qualifiers, f), stop); }
  }

  /** The state after a number of starts, the i-th stopped after `stops[i]` of its steps. */
  ghost function Interrupted<R(!new)>(rules: Rules<R>, qualifiers: bool, f: Files<R>, stops: seq<nat>): Files<R>
    requires Lawful(rules)
  {
    if |stops| == 0 then f
    else
      var g := Interrupted(rules, qualifiers, f, stops[..|stops| - 1]);
      var stop := stops[|stops| - 1];
      PlanRuns(rules, qualifiers, g, stop);
      DoAll(rules, g, Cut(Plan(qualifiers, g), stop))
  }

  lemma {:induction false} StepsAvoidStale<R>(rules: Rules<R>, f: Files<R>, plan: seq<Action>)
    requires Runnable(rules, f, plan) && !Stale(f)
    ensures var g := DoAll(rules, f, plan);
      !Stale(g) && (f.main.Some? || f.leftover.Some? ==> g.main.Some? || g.leftover.Some?)
    decreases |plan|
  {
    hide Taken, Contents;
    if |plan| == 0 {
    } else {
      StepsAvoidStale(rules, Do(rules, f, plan[0]), plan[1..]);
    }
  }

  /** Wherever the starts were interrupted, every row that a rebuild would have kept is still there
      to be kept; and where a rebuild keeps every row, not one is missing from the disk. */
  lemma {:induction false} NoRowLost<R(!new)>(rules: Rules<R>, qualifiers: bool, f: Files<R>, stops: seq<nat>)
    requires Lawful(rules) && ValidFiles(rules, f)
    ensures var g := Interrupted(rules, qualifiers, f, stops);
      && ValidFiles(rules, g) && Contents(rules, g) == Contents(rules, f)
      && (AllRows(f) == Contents(rules, f) ==> AllRows(g) == AllRows(f))
      && (!Stale(f) ==> !Stale(g))
      && (!Stale(f) && (f.main.Some? || f.leftover.Some?) ==> g.main.Some? || g.leftover.Some?)
  {
    hide Runnable, DoAll, Contents, AllRows, ValidFiles, Stale, Plan, Cut;
    if |stops| == 0 {
    } else {
      var init, stop := stops[..|stops| - 1], stops[|stops| - 1];
      var g := Interrupted(rules, qualifiers, f, init);
      NoRowLost(rules, qualifiers, f, init);
      PlanRuns(rules, qualifiers, g, stop);
      StepsKeepContents(rules, g, Cut(Plan(qualifiers, g), stop));
      if !Stale(g) { StepsAvoidStale(rules, g, Cut(Plan(qualifiers, g), stop)); }
    }
  }

  function Rebuilt<R(==)>(rules: Rules<R>, f: Files<R>): Files<R>
  {
    Files(Some(Table(true, Contents(rules, f))), None)
  }

  lemma Complete<R(!new)>(rules: Rules<R>, qualifiers: bool, f: Files<R>) returns (g: Files<R>)
    requires Lawful(rules) && ValidFiles(rules, f)
    ensures Runnable(rules, f, Plan(qualifiers, f)) && g == DoAll(rules, f, Plan(qualifiers, f))
    ensures ValidFiles(rules, g) && g.leftover.None? && RowsOf(g.main) == Contents(rules, f)
    ensures Contents(rules, g) == Contents(rules, f)
  {
    hide Runnable, DoAll, ValidFiles;
    PlanRuns(rules, qualifiers, f, 0);
    if qualifiers { QualifierPlanRuns(rules, f); } else { DietPlanRuns(rules, f); }
    g := DoAll(rules, f, Plan(qualifiers, f));
    StepsKeepContents(rules, f, Plan(qualifiers, f));
    assert Contents(rules, g) == RowsOf(g.main);
  }

  /** After any interruptions, one start that completes leaves a single new-shaped table with the
      main table's rows and every leftover row with no key taken; another start does nothing. */
  lemma DietRecovers<R(!new)>(rules: Rules<R>, f: Files<R>, stops: seq<nat>) returns (g: Files<R>)
    requires Lawful(rules) && ValidFiles(rules, f) && !Stale(f) && (f.main.Some? || f.leftover.Some?)
    ensures g == Interrupted(rules, false, f, stops)
    ensures Runnable(rules, g, DietPlan(g)) && DoAll(rules, g, DietPlan(g)) == Rebuilt(rules, f)
    ensures DietPlan(Rebuilt(rules, f)) == []
  {
    hide Runnable, DoAll, ValidFiles, Contents;
    g := Interrupted(rules, false, f, stops);
    NoRowLost(rules, false, f, stops);
    DietPlanRuns(rules, g);
    var h := Complete(rules, false, g);
    assert h.main.Some? && h == Rebuilt(rules, f);
  }

  /** A completed start keeps the old shape exactly from a stale pair; a second call would change
      it, and keeps the same rows. */
  lemma DietShape<R(!new)>(rules: Rules<R>, f: Files<R>) returns (g: Files<R>, h: Files<R>)
    requires Lawful(rules) && ValidFiles(rules, f) && (f.main.Some? || f.leftover.Some?)
    ensures Runnable(rules, f, DietPlan(f)) && g == DoAll(rules, f, DietPlan(f))
    ensures g == Rebuilt(rules, f) <==> !(f.main.Some? && !f.main.value.current && f.leftover.Some?)
    ensures Runnable(rules, g, DietPlan(g)) && h == DoAll(rules, g, DietPlan(g)) && h == Rebuilt(rules, f)
  {
    hide Runnable, DoAll, ValidFiles, Contents;
    DietPlanRuns(rules, f);
    g := Complete(rules, false, f);
    assert g.main.Some?;
    DietPlanRuns(rules, g);
    h := Complete(rules, false, g);
  }

  /** The qualifier migration ends the same way from every state, interrupted anywhere any number of times. */
  lemma QualifiersRecover<R(!new)>(rules: Rules<R>, f: Files<R>, stops: seq<nat>) returns (g: Files<R>)
    requires Lawful(rules) && ValidFiles(rules, f)
    ensures g == Interrupted(rules, true, f, stops)
    ensures Runnable(rules, g, QualifierPlan(g)) && DoAll(rules, g, QualifierPlan(g)) == Rebuilt(rules, f)
    ensures QualifierPlan(Rebuilt(rules, f)) == []
  {
    hide Runnable, DoAll, ValidFiles, Contents;
    g := Interrupted(rules, true, f, stops);
    NoRowLost(rules, true, f, stops);
    QualifierPlanRuns(rules, g);
    var h := Complete(rules, true, g);
    assert h == Rebuilt(rules, f);
  }

  // ----- which rows survive

  /** A leftover row survives a completed rebuild exactly when it is in the main table already, or
      there is none, or it is admitted with every key free. */
  lemma SurvivalExact<R(!new)>(rules: Rules<R>, qualifiers: bool, f: Files<R>, r: R)
    requires Lawful(rules) && ValidFiles(rules, f) && r in RowsOf(f.leftover)
    ensures Runnable(rules, f, Plan(qualifiers, f))
    ensures r in RowsOf(DoAll(rules, f, Plan(qualifiers, f)).main) <==>
      || f.main.None?
      || r in f.main.value.rows
      || ((f.main.value.current || rules.legacy(r)) && forall m :: m in f.main.value.rows ==> !rules.clash(r, m))
  {
    hide Runnable, DoAll, ValidFiles;
    var g := Complete(rules, qualifiers, f);
  }

  /** Every row of a state reached by interruptions from a single table is kept. */
  lemma OneTableLosesNothing<R(!new)>(rules: Rules<R>, qualifiers: bool, f: Files<R>, stops: seq<nat>)
    requires Lawful(rules) && ValidFiles(rules, f) && (f.main.None? || f.leftover.None?)
    ensures var g := Interrupted(rules, qualifiers, f, stops);
      && Runnable(rules, g, Plan(qualifiers, g))
      && AllRows(g) == AllRows(f) && RowsOf(DoAll(rules, g, Plan(qualifiers, g)).main) == AllRows(f)
  {
    hide Runnable, DoAll, ValidFiles;
    assert AllRows(f) == Contents(rules, f);
    NoRowLost(rules, qualifiers, f, stops);
    var h := Complete(rules, qualifiers, Interrupted(rules, qualifiers, f, stops));
  }

  /** A row of `player_diet_facts`: its id is a key, and so is what it is a fact about. */
  datatype FactRow<F, V> = FactRow(id: int, fact: F, value: V)

  function FactRules<F(==), V>(legacy: FactRow<F, V> -> bool): Rules<FactRow<F, V>>
  {
    Rules((a: FactRow<F, V>, b: FactRow<F, V>) => a.id == b.id || a.fact == b.fact, legacy)
  }

  function Facts<F(==), V(==)>(rows: set<FactRow<F, V>>): set<F> { set r | r in rows :: r.fact }

  function FactIds<F(==), V(==)>(rows: set<FactRow<F, V>>): set<int> { set r | r in rows :: r.id }

  lemma FactKept<F(!new), V(!new)>(legacy: FactRow<F, V> -> bool, f: Files<FactRow<F, V>>, r: FactRow<F, V>)
    requires ValidFiles(FactRules(legacy), f) && f.main.Some?
    requires r in RowsOf(f.leftover) && r.fact !in Facts(f.main.value.rows)
    ensures r.fact in Facts(Contents(FactRules(legacy), f)) <==>
      r.id !in FactIds(f.main.value.rows) && Admits(FactRules(legacy), f.main.value, r)
  {
    var rules, main, leftover := FactRules(legacy), f.main.value, RowsOf(f.leftover);
    var kept := Contents(rules, f);
    if r.id !in FactIds(main.rows) && Admits(rules, main, r) {
      forall m | m in main.rows ensures !rules.clash(r, m) { assert m.fact in Facts(main.rows) && m.id in FactIds(main.rows); }
      assert r in kept;
    }
    if r.fact in Facts(kept) {
      var k :| k in kept && k.fact == r.fact;
      forall m | m in main.rows ensures m.fact != r.fact { assert m.fact in Facts(main.rows); }
      assert k in leftover && rules.clash(k, r);
      assert k == r && Free(rules, main.rows, r);
      assert forall m :: m in main.rows ==> m.id != r.id;
    }
  }

  lemma ContentsFacts<F(!new), V(!new)>(legacy: FactRow<F, V> -> bool, f: Files<FactRow<F, V>>)
    requires ValidFiles(FactRules(legacy), f) && f.main.Some?
    ensures Facts(Contents(FactRules(legacy), f)) == Facts(AllRows(f)) <==>
      forall r :: r in RowsOf(f.leftover) && r.fact !in Facts(f.main.value.rows) ==>
        r.id !in FactIds(f.main.value.rows) && Admits(FactRules(legacy), f.main.value, r)
  {
    var rules, main, leftover := FactRules(legacy), f.main.value, RowsOf(f.leftover);
    var kept := Contents(rules, f);
    assert Facts(kept) <= Facts(AllRows(f));
    forall r | r in leftover && r.fact !in Facts(main.rows)
      ensures r.fact in Facts(kept) <==> r.id !in FactIds(main.rows) && Admits(rules, main, r)
    {
      FactKept(legacy, f, r);
    }
    forall x | x in Facts(main.rows) ensures x in Facts(kept) {
      var m :| m in main.rows && m.fact == x;
      assert m in kept;
    }
    if forall r :: r in leftover && r.fact !in Facts(main.rows) ==> r.id !in FactIds(main.rows) && Admits(rules, main, r) {
      forall x | x in Facts(AllRows(f)) ensures x in Facts(kept) {
        var r :| r in AllRows(f) && r.fact == x;
      }
    }
    if Facts(kept) == Facts(AllRows(f)) {
      forall r | r in leftover && r.fact !in Facts(main.rows)
        ensures r.id !in FactIds(main.rows) && Admits(rules, main, r)
      {
        assert r in AllRows(f) && r.fact in Facts(AllRows(f));
      }
    }
  }

  /** A completed rebuild loses no fact if and only if no leftover row whose fact the main table
      lacks has an id the main table uses, or a value its definition refuses. */
  lemma FactsExact<F(!new), V(!new)>(legacy: FactRow<F, V> -> bool, f: Files<FactRow<F, V>>)
    requires ValidFiles(FactRules(legacy), f) && (f.main.Some? || f.leftover.Some?)
    ensures Lawful(FactRules(legacy)) && Runnable(FactRules(legacy), f, DietPlan(f))
    ensures Facts(RowsOf(DoAll(FactRules(legacy), f, DietPlan(f)).main)) == Facts(AllRows(f)) <==>
      (f.main.Some? ==>
         forall r :: r in RowsOf(f.leftover) && r.fact !in Facts(f.main.value.rows) ==>
           r.id !in FactIds(f.main.value.rows) && (f.main.value.current || legacy(r)))
  {
    hide Runnable, DoAll;
    var rules := FactRules(legacy);
    var g := Complete(rules, false, f);
    if f.main.None? {
      assert AllRows(f) == RowsOf(f.leftover);
    } else {
      ContentsFacts(legacy, f);
    }
  }

  lemma StoppedAfterCreate<R(!new)>(rules: Rules<R>, f: Files<R>)
    requires Lawful(rules) && f.main.Some? && f.leftover.None? && !f.main.value.current
    ensures Interrupted(rules, false, f, [2]) == Files(Some(Table(true, {})), f.main)
  {
    PlanRuns(rules, false, f, 2);
    assert [2][..0] == [] && Interrupted(rules, false, f, []) == f;
    assert Cut(DietPlan(f), 2) == [Rename, Create];
    assert DoAll(rules, f, [Rename, Create]) == DoAll(rules, Do(rules, f, Rename), [Create]);
    assert DoAll(rules, Do(rules, f, Rename), [Create]) == DoAll(rules, Do(rules, Do(rules, f, Rename), Create), []);
  }

  /** A table interrupted after its new form was created, and a refresh that then writes one fact
      there under the first id: the completed rebuild drops the old table's fact of that id. */
  lemma FactLost() returns (single: Files<FactRow<string, int>>, refreshed: Files<FactRow<string, int>>)
    ensures var rules := FactRules((r: FactRow<string, int>) => true);
      && Lawful(rules) && single.leftover.None? && single.main.Some? && Facts(single.main.value.rows) == {"B"}
      && var g := Interrupted(rules, false, single, [2]);
         && g.main == Some(Table(true, {}))
         && refreshed == g.(main := Some(Table(true, {FactRow(1, "A", 0)}))) && ValidFiles(rules, refreshed)
         && Runnable(rules, refreshed, DietPlan(refreshed))
         && Facts(RowsOf(DoAll(rules, refreshed, DietPlan(refreshed)).main)) == {"A"}
  {
    var rules := FactRules((r: FactRow<string, int>) => true);
    var a, b := FactRow(1, "A", 0), FactRow(1, "B", 0);
    single := Files(Some(Table(false, {b})), None);
    refreshed := Files(Some(Table(true, {a})), Some(Table(false, {b})));
    StoppedAfterCreate(rules, single);
    var g := Complete(rules, false, refreshed);
    assert rules.clash(b, a) && a in refreshed.main.value.rows;
    assert Taken(rules, refreshed.main.value, {b}) == {};
  }

  // ----- the rebuild as it runs

  lemma Nothing<R>(rules: Rules<R>, f: Files<R>)
    ensures Runnable(rules, f, []) && DoAll(rules, f, []) == f
  {
  }

  lemma LeftoverKeyed<R>(rules: Rules<R>, f: Files<R>)
    requires ValidFiles(rules, f) && f.leftover.Some?
    ensures Keyed(rules, f.leftover.value.rows)
  {
  }

  class Database<R(==, !new)> {
    const rules: Rules<R>
    var main: Option<Table<R>>
    var leftover: Option<Table<R>>

    ghost predicate Valid()
      reads this
    {
      Lawful(rules) && ValidFiles(rules, Files(main, leftover))
    }

    constructor (rules: Rules<R>, f: Files<R>)
      requires Lawful(rules) && ValidFiles(rules, f)
      ensures Valid() && this.rules == rules && Files(main, leftover) == f
    {
      this.rules := rules;
      main, leftover := f.main, f.leftover;
    }

    /** One start of the Diet rebuild, stopped after at most `budget` of its steps. */
    method RebuildDietTable(budget: nat) returns (finished: bool)
      requires Valid()
      modifies `main, `leftover
      ensures Valid()
      ensures var f := old(Files(main, leftover));
        && Runnable(rules, f, Cut(DietPlan(f), budget))
        && Files(main, leftover) == DoAll(rules, f, Cut(DietPlan(f), budget))
        && (finished <==> budget >= |DietPlan(f)|)
    {
      hide Runnable, DoAll, ValidFiles, Taken;
      ghost var f, plan := Files(main, leftover), DietPlan(Files(main, leftover));
      PlanRuns(rules, false, f, budget);
      StepsKeepContents(rules, f, Cut(plan, budget));
      Nothing(rules, f);
      if main.None? && leftover.None? { return true; }
      if leftover.None? && main.value.current { return true; }
      var left := budget;
      ghost var done: seq<Action> := [];
      var mainMissing := main.None?;
      if leftover.None? {
        if left == 0 { return false; }
        One(rules, f, done, Rename);
        leftover, main := main, None;
        left, done, mainMissing := left - 1, done + [Rename], true;
      }
      if mainMissing {
        if left == 0 { assert Cut(plan, budget) == done; return false; }
        One(rules, f, done, Create);
        main := Some(Table(true, {}));
        left, done := left - 1, done + [Create];
      }
      assert plan == done + [Copy] + [Drop];
      if left == 0 { assert Cut(plan, budget) == done; return false; }
      StepsKeepContents(rules, f, done);
      One(rules, f, done, Copy);
      LeftoverKeyed(rules, Files(main, leftover));
      var copied := InsertOrIgnore(rules, main.value, leftover.value.rows);
      main := Some(copied);
      if left == 1 { assert Cut(plan, budget) == done + [Copy]; return false; }
      NothingMoreToTake(rules, DoAll(rules, f, done));
      One(rules, f, done + [Copy], Drop);
      leftover := None;
      assert Cut(plan, budget) == plan;
      return true;
    }
  }
}
