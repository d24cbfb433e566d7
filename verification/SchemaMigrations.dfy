/** `run_migrations`: the recorded history, its legacy repair, and any number of
    lock-serialized migrators whose failed runs roll back. */
module SchemaMigrations {
  import opened Options
  import opened Sorting

  datatype Migration = Migration(version: int, name: string)

  datatype Record = Record(name: string, appliedAt: int)

  type History = map<int, Record>

  function LegacyName(): string { "040_team_matchup_provider_provenance" }
  function CanonicalName(): string { "042_team_matchup_provider_provenance" }

  /** `_repair_legacy_matchup_provider_migration`; `None` where it raises. */
  function Repair(h: History): Option<History>
  {
    if 40 !in h || h[40].name != LegacyName() then Some(h)
    else if 42 !in h then Some((h - {40})[42 := Record(CanonicalName(), h[40].appliedAt)])
    else if h[42].name == CanonicalName() then Some(h - {40})
    else None
  }

  /** The repair is idempotent, touches only the misnumbered row and its version-42 target, which then
      has the canonical name and that row's time, and fails only when version 42 is taken by another
      name. */
  lemma RepairExact(h: History)
    ensures Repair(h).None? <==> 40 in h && h[40].name == LegacyName() && 42 in h && h[42].name != CanonicalName()
    ensures Repair(h).Some? ==>
      var r := Repair(h).value;
      && Repair(r) == Some(r)
      && (forall v :: v != 40 && v != 42 ==> (v in r <==> v in h) && (v in h ==> r[v] == h[v]))
      && (40 in r <==> 40 in h && h[40].name != LegacyName()) && (40 in r ==> r[40] == h[40])
      && (42 in h ==> 42 in r && r[42] == h[42])
      && (42 in r && 42 !in h ==> 40 in h && r[42].appliedAt == h[40].appliedAt)
      && (40 in h && h[40].name == "040_team_matchup_provider_provenance" ==>
            40 !in r && 42 in r && r[42].name == "042_team_matchup_provider_provenance")
  {
    var legacy, canonical := LegacyName(), CanonicalName();
    assert legacy == "040_team_matchup_provider_provenance" && canonical == "042_team_matchup_provider_provenance";
    hide LegacyName, CanonicalName;
  }

  predicate Increasing(ms: seq<Migration>) { forall i, j :: 0 <= i < j < |ms| ==> ms[i].version < ms[j].version }

  function Versions(ms: seq<Migration>): (vs: seq<int>)
    ensures |vs| == |ms| && forall i :: 0 <= i < |ms| ==> vs[i] == ms[i].version
  {
    seq(|ms|, i requires 0 <= i < |ms| => ms[i].version)
  }

  /** `_validate_migration_order`: comparing the versions with their sorted set accepts
      exactly the strictly increasing lists. */
  lemma OrderCheckExact(ms: seq<Migration>)
    ensures Versions(ms) == Sort(IntLess, Distinct(Versions(ms))) <==> Increasing(ms)
  {
    var vs := Versions(ms);
    var d := Distinct(vs);
    assert PairwiseComparable(IntLess, d);
    SortSorts(IntLess, d);
    SortPermutes(IntLess, d);
    if Increasing(ms) {
      assert StrictlySorted(IntLess, vs);
      SortedUnique(IntLess, vs, Sort(IntLess, d));
    }
  }

  /** The migrations a run has to apply, in order. */
  function Missing(ms: seq<Migration>, h: History): (r: seq<Migration>)
    ensures forall m :: m in r <==> m in ms && m.version !in h
  {
    if |ms| == 0 then []
    else
      var rest := Missing(ms[..|ms| - 1], h);
      var last := ms[|ms| - 1];
      assert forall m :: m in ms <==> m in ms[..|ms| - 1] || m == last;
      if last.version in h then rest else rest + [last]
  }

  function Recorded(h: History, todo: seq<Migration>, now: int): History
  {
    if |todo| == 0 then h
    else
      var last := todo[|todo| - 1];
      Recorded(h, todo[..|todo| - 1], now)[last.version := Record(last.name, now)]
  }

  function VersionSet(ms: seq<Migration>): set<int>
  {
    if |ms| == 0 then {} else VersionSet(ms[..|ms| - 1]) + {ms[|ms| - 1].version}
  }

  lemma {:induction false} RecordedKeys(h: History, todo: seq<Migration>, now: int)
    ensures Recorded(h, todo, now).Keys == h.Keys + VersionSet(todo)
  {
    if |todo| == 0 {
    } else {
      RecordedKeys(h, todo[..|todo| - 1], now);
    }
  }

  lemma {:induction false} InVersionSet(ms: seq<Migration>, i: nat)
    requires i < |ms|
    ensures ms[i].version in VersionSet(ms)
    decreases |ms|
  {
    if i == |ms| - 1 {
    } else {
      InVersionSet(ms[..|ms| - 1], i);
    }
  }

  lemma {:induction false} VersionSetHas(ms: seq<Migration>, v: int) returns (i: nat)
    requires v in VersionSet(ms)
    ensures i < |ms| && ms[i].version == v
  {
    if ms[|ms| - 1].version == v { i := |ms| - 1; } else { i := VersionSetHas(ms[..|ms| - 1], v); }
  }

  /** A recorded version carries its migration's name; every other row is as it was. */
  lemma {:induction false} RecordedAt(h: History, todo: seq<Migration>, now: int, v: int)
    requires v in h || v in VersionSet(todo)
    ensures v in Recorded(h, todo, now)
    ensures v !in VersionSet(todo) ==> Recorded(h, todo, now)[v] == h[v]
    ensures v in VersionSet(todo) ==> exists m :: m in todo && m.version == v && Recorded(h, todo, now)[v] == Record(m.name, now)
  {
    RecordedKeys(h, todo, now);
    if |todo| == 0 {
    } else {
      var init, last := todo[..|todo| - 1], todo[|todo| - 1];
      if v != last.version {
        RecordedAt(h, init, now, v);
      } else {
        assert last in todo;
      }
    }
  }

  lemma {:induction false} MissingIncreases(ms: seq<Migration>, h: History)
    requires Increasing(ms)
    ensures Increasing(Missing(ms, h))
  {
    if |ms| == 0 {
    } else {
      var init := ms[..|ms| - 1];
      MissingIncreases(init, h);
      assert forall m :: m in Missing(init, h) ==> m in init && m.version < ms[|ms| - 1].version;
    }
  }

  function UpgradeAll<S>(todo: seq<Migration>, upgrade: (int, S) -> Option<S>, start: S): Option<S>
  {
    if |todo| == 0 then Some(start)
    else
      var s :- UpgradeAll(todo[..|todo| - 1], upgrade, start);
      upgrade(todo[|todo| - 1].version, s)
  }

  /** The upgrades of a list succeed exactly when each, in order, succeeds on what the one before it left. */
  ghost predicate Chain<S>(todo: seq<Migration>, upgrade: (int, S) -> Option<S>, states: seq<S>)
  {
    && |states| == |todo| + 1
    && forall i :: 0 <= i < |todo| ==> upgrade(todo[i].version, states[i]) == Some(states[i + 1])
  }

  lemma {:induction false} UpgradesChain<S(!new)>(todo: seq<Migration>, upgrade: (int, S) -> Option<S>, start: S, end: S)
    ensures UpgradeAll(todo, upgrade, start) == Some(end)
      <==> exists states :: Chain(todo, upgrade, states) && states[0] == start && states[|todo|] == end
  {
    if |todo| == 0 {
      assert Chain(todo, upgrade, [start]);
    } else {
      var init, last := todo[..|todo| - 1], todo[|todo| - 1];
      var before := UpgradeAll(init, upgrade, start);
      if before.Some? && upgrade(last.version, before.value) == Some(end) {
        UpgradesChain(init, upgrade, start, before.value);
        var states :| Chain(init, upgrade, states) && states[0] == start && states[|init|] == before.value;
        assert Chain(todo, upgrade, states + [end]);
      }
      if states :| Chain(todo, upgrade, states) && states[0] == start && states[|todo|] == end {
        assert Chain(init, upgrade, states[..|todo|]);
        UpgradesChain(init, upgrade, start, states[|init|]);
        assert upgrade(todo[|init|].version, states[|init|]) == Some(states[|init| + 1]);
      }
    }
  }

  // ----- one run

  /** `max(applied_versions, default=0) >= 36`. */
  predicate Reaches36(h: History) { exists v :: v in h.Keys && v >= 36 }

  /** What one run leaves; `None` where it raises. `upgrade` and `compatibility` return `None`
      where the functions they stand for raise. */
  function Attempt<S>(ms: seq<Migration>, upgrade: (int, S) -> Option<S>, compatibility: S -> Option<S>, h: History,
                      schema: S, now: int): Option<(History, S)>
  {
    if !Increasing(ms) then None
    else
      var repaired :- Repair(h);
      var upgraded :- UpgradeAll(Missing(ms, repaired), upgrade, schema);
      var recorded := Recorded(repaired, Missing(ms, repaired), now);
      var final :- if exists v :: v in recorded.Keys && v >= 36 then compatibility(upgraded) else Some(upgraded);
      Some((recorded, final))
  }

  function Names(ms: seq<Migration>): seq<string>
  {
    if |ms| == 0 then [] else Names(ms[..|ms| - 1]) + [ms[|ms| - 1].name]
  }

  lemma MissingVersions(ms: seq<Migration>, h: History, v: int)
    requires v in VersionSet(Missing(ms, h))
    ensures v !in h && exists m :: m in ms && m.version == v
  {
    var k := VersionSetHas(Missing(ms, h), v);
    assert Missing(ms, h)[k] in Missing(ms, h);
  }

  lemma NextMissing(ms: seq<Migration>, i: nat, h: History, now: int)
    requires Increasing(ms) && i < |ms|
    ensures ms[i].version in Recorded(h, Missing(ms[..i], h), now) <==> ms[i].version in h
    ensures var before, after := Missing(ms[..i], h), Missing(ms[..i + 1], h);
      if ms[i].version in h then after == before
      else after == before + [ms[i]] && after[..|after| - 1] == before
  {
    var before := Missing(ms[..i], h);
    assert ms[..i + 1][..i] == ms[..i];
    RecordedKeys(h, before, now);
    if ms[i].version in VersionSet(before) {
      MissingVersions(ms[..i], h, ms[i].version);
    }
  }

  /** A failed upgrade stays a failure of the whole list. */
  lemma {:induction false} NothingAfter<S>(ms: seq<Migration>, i: nat, h: History, upgrade: (int, S) -> Option<S>, start: S)
    requires i < |ms| && UpgradeAll(Missing(ms[..i + 1], h), upgrade, start).None?
    ensures UpgradeAll(Missing(ms, h), upgrade, start).None?
    decreases |ms|
  {
    var init := ms[..|ms| - 1];
    if i + 1 < |ms| {
      assert init[..i + 1] == ms[..i + 1];
      NothingAfter(init, i, h, upgrade, start);
      if ms[|ms| - 1].version !in h {
        assert Missing(ms, h)[..|Missing(init, h)|] == Missing(init, h);
      }
    } else {
      assert ms[..i + 1] == ms;
    }
  }

  /** A committed run records exactly the versions missing after the repair. */
  ghost predicate Commits(ms: seq<Migration>, h: History, log: seq<int>, h': History, log': seq<int>, now: int)
  {
    && Repair(h).Some?
    && var todo := Missing(ms, Repair(h).value);
       h' == Recorded(Repair(h).value, todo, now) && log' == log + Versions(todo)
  }

  class Database<S> {
    var records: History
    var schema: S
    /** Versions whose upgrade has been committed, in commit order. */
    ghost var log: seq<int>

    constructor (records: History, schema: S)
      ensures this.records == records && this.schema == schema && log == []
    {
      this.records, this.schema, log := records, schema, [];
    }

    /** The loop over the migration list: upgrades and records what is missing, in order. */
    method ApplyMissing(ms: seq<Migration>, upgrade: (int, S) -> Option<S>, now: int)
      returns (applied: Option<seq<string>>)
      requires Increasing(ms)
      modifies `records, `schema
      ensures var todo := Missing(ms, old(records)); var r := UpgradeAll(todo, upgrade, old(schema));
        if r.None? then applied.None?
        else applied == Some(Names(todo)) && schema == r.value && records == Recorded(old(records), todo, now)
    {
      var names := [];
      var appliedVersions := records.Keys;
      for i := 0 to |ms|
        invariant records == Recorded(old(records), Missing(ms[..i], old(records)), now)
        invariant appliedVersions == records.Keys
        invariant UpgradeAll(Missing(ms[..i], old(records)), upgrade, old(schema)) == Some(schema)
        invariant names == Names(Missing(ms[..i], old(records)))
      {
        var m := ms[i];
        NextMissing(ms, i, old(records), now);
        if m.version in appliedVersions { continue; }
        var upgraded := upgrade(m.version, schema);
        if upgraded.None? {
          NothingAfter(ms, i, old(records), upgrade, old(schema));
          return None;
        }
        schema := upgraded.value;
        records := records[m.version := Record(m.name, now)];
        appliedVersions := appliedVersions + {m.version};
        names := names + [m.name];
      }
      assert ms[..|ms|] == ms;
      return Some(names);
    }

    /** One run under the lock: any failure rolls the whole transaction back. */
    method RunMigrations(ms: seq<Migration>, upgrade: (int, S) -> Option<S>, compatibility: S -> Option<S>, now: int)
      returns (applied: Option<seq<string>>)
      modifies this
      ensures var r := Attempt(ms, upgrade, compatibility, old(records), old(schema), now);
        if r.None? then applied.None? && unchanged(this)
        else
          && records == r.value.0 && schema == r.value.1
          && Commits(ms, old(records), old(log), records, log, now)
          && applied == Some(Names(Missing(ms, Repair(old(records)).value)))
    {
      hide LegacyName, CanonicalName, Sort, Distinct, Missing, Recorded, UpgradeAll, Names;
      OrderCheckExact(ms);
      if Versions(ms) != Sort(IntLess, Distinct(Versions(ms))) { return None; }
      var savedRecords, savedSchema := records, schema;
      var repaired := Repair(records);
      if repaired.None? { return None; }
      records := repaired.value;
      applied := ApplyMissing(ms, upgrade, now);
      if applied.Some? && Reaches36(records) {
        var compatible := compatibility(schema);
        if compatible.None? { applied := None; } else { schema := compatible.value; }
      }
      if applied.None? {
        records, schema := savedRecords, savedSchema;
        return;
      }
      log := log + Versions(Missing(ms, repaired.value));
    }
  }

  // ----- any number of runs

  datatype Ledger = Ledger(history: History, log: seq<int>)

  ghost predicate Succeeds(ms: seq<Migration>, l: Ledger, l': Ledger)
  {
    exists now :: Commits(ms, l.history, l.log, l'.history, l'.log, now)
  }

  ghost predicate Runs(ms: seq<Migration>, ls: seq<Ledger>)
  {
    |ls| > 0 && forall i :: 0 <= i < |ls| - 1 ==> ls[i + 1] == ls[i] || Succeeds(ms, ls[i], ls[i + 1])
  }

  ghost predicate Named(ms: seq<Migration>, v: int, name: string)
  {
    exists m :: m in ms && m.version == v && m.name == name
  }

  /** Every committed upgrade is recorded under its own name, once. */
  ghost predicate LoggedOnce(ms: seq<Migration>, l: Ledger)
  {
    && (forall i, j :: 0 <= i < j < |l.log| ==> l.log[i] != l.log[j])
    && (forall v :: v in l.log ==> v in l.history && Named(ms, v, l.history[v].name))
  }

  predicate OwnsFortyAndFortyTwo(ms: seq<Migration>)
  {
    forall m :: m in ms ==> (m.version == 40 ==> m.name != LegacyName()) && (m.version == 42 ==> m.name == CanonicalName())
  }

  lemma CommitKeepsLoggedOnce(ms: seq<Migration>, l: Ledger, l': Ledger, now: int)
    requires Increasing(ms) && OwnsFortyAndFortyTwo(ms) && LoggedOnce(ms, l)
    requires Commits(ms, l.history, l.log, l'.history, l'.log, now)
    ensures LoggedOnce(ms, l')
  {
    hide LegacyName, CanonicalName, Repair;
    var h := Repair(l.history).value;
    var todo := Missing(ms, h);
    RepairExact(l.history);
    MissingIncreases(ms, h);
    forall v | v in l.log ensures v in h && h[v] == l.history[v] && v !in VersionSet(todo) {
      if v in VersionSet(todo) { MissingVersions(ms, h, v); }
    }
    forall v | v in l'.log ensures v in l'.history && Named(ms, v, l'.history[v].name) {
      if v in l.log {
        RecordedAt(h, todo, now, v);
        assert Named(ms, v, l.history[v].name);
      } else {
        var i :| 0 <= i < |todo| && Versions(todo)[i] == v;
        InVersionSet(todo, i);
        RecordedAt(h, todo, now, v);
      }
    }
    forall i, j | 0 <= i < j < |l'.log| ensures l'.log[i] != l'.log[j] {
      if i < |l.log| <= j {
        InVersionSet(todo, j - |l.log|);
        assert l'.log[i] == l.log[i];
      }
    }
  }

  /** However many migrators run, and whichever of them fail, each version's upgrade is
      committed at most once. */
  lemma {:induction false} AppliedAtMostOnce(ms: seq<Migration>, ls: seq<Ledger>, k: nat)
    requires Increasing(ms) && OwnsFortyAndFortyTwo(ms) && Runs(ms, ls) && ls[0].log == [] && k < |ls|
    ensures LoggedOnce(ms, ls[k])
    decreases k
  {
    if k == 0 {
    } else {
      AppliedAtMostOnce(ms, ls, k - 1);
      var l, l' := ls[k - 1], ls[k];
      if l != l' {
        assert Succeeds(ms, l, l');
        var now :| Commits(ms, l.history, l.log, l'.history, l'.log, now);
        CommitKeepsLoggedOnce(ms, l, l', now);
      }
    }
  }

  /** The boot guard: nothing recorded, or the newest record is at or past every migration. */
  ghost predicate GuardPasses(ms: seq<Migration>, h: History)
  {
    (forall v :: v !in h.Keys) || exists v :: v in h.Keys && forall i :: 0 <= i < |ms| ==> ms[i].version <= v
  }

  lemma CommitCoversAll(ms: seq<Migration>, h: History, log: seq<int>, h': History, log': seq<int>, now: int, i: nat)
    requires Commits(ms, h, log, h', log', now) && i < |ms|
    ensures ms[i].version in h'
  {
    hide Repair;
    var r := Repair(h).value;
    var todo := Missing(ms, r);
    RecordedKeys(r, todo, now);
    if ms[i].version !in r {
      assert ms[i] in todo;
      var k :| 0 <= k < |todo| && todo[k] == ms[i];
      InVersionSet(todo, k);
    }
  }

  lemma CommitIsRepaired(ms: seq<Migration>, h: History, log: seq<int>, h': History, log': seq<int>, now: int)
    requires OwnsFortyAndFortyTwo(ms) && Commits(ms, h, log, h', log', now)
    ensures Repair(h') == Some(h')
  {
    hide LegacyName, CanonicalName;
    var r := Repair(h).value;
    var todo := Missing(ms, r);
    RepairExact(h);
    RecordedKeys(r, todo, now);
    if 40 in h' { RecordedAt(r, todo, now, 40); }
  }

  lemma {:induction false} NoneMissing(ms: seq<Migration>, h: History)
    requires forall i :: 0 <= i < |ms| ==> ms[i].version in h
    ensures Missing(ms, h) == []
  {
    if |ms| == 0 {
    } else {
      NoneMissing(ms[..|ms| - 1], h);
    }
  }

  lemma NothingMissing(ms: seq<Migration>, h: History)
    requires Increasing(ms) && forall i :: 0 <= i < |ms| ==> ms[i].version in h
    ensures Missing(ms, h) == [] && GuardPasses(ms, h)
  {
    NoneMissing(ms, h);
    hide Missing;
    if |ms| > 0 {
      var v := ms[|ms| - 1].version;
      assert v in h.Keys && forall i :: 0 <= i < |ms| ==> ms[i].version <= v;
    }
  }

  /** After a success a rerun finds nothing to repair and nothing to apply, commits no upgrade,
      and the boot guard passes. */
  lemma RerunAppliesNothing(ms: seq<Migration>, h: History, log: seq<int>, h': History, log': seq<int>, now: int,
                            now': int)
    requires Increasing(ms) && OwnsFortyAndFortyTwo(ms) && Commits(ms, h, log, h', log', now)
    ensures Repair(h') == Some(h') && Missing(ms, h') == []
    ensures Commits(ms, h', log', h', log', now')
    ensures GuardPasses(ms, h')
  {
    hide Repair, GuardPasses, Missing;
    CommitIsRepaired(ms, h, log, h', log', now);
    forall i | 0 <= i < |ms| ensures ms[i].version in h' { CommitCoversAll(ms, h, log, h', log', now, i); }
    NothingMissing(ms, h');
    assert log' + Versions([]) == log';
  }
}
