/** Migration of the publication pointer history: restores are recognized from a snapshot of
    one stream, and the rows they prove wrong are corrected in place. */
module PointerHistory {
  import opened Options

  datatype Row = Row(publication: string, season: string, fence: int, activatedAt: int, revokedAt: Option<int>,
                     revokedFence: Option<int>, retiredAt: Option<int>, retiredBy: Option<string>)

  /** Version lineage (checksum and cutoff), the versions a rollback created, and the
      publications whose lineage is provably current. */
  datatype Evidence = Evidence(lineage: map<string, (string, int)>, rollbacks: set<string>, current: set<string>)

  /** Row `i`, when it was activated, withdrew the row before it: same fence, same time. */
  predicate Withdrawn(rows: seq<Row>, i: nat)
    requires i < |rows|
  {
    i > 0 && rows[i - 1].revokedAt == Some(rows[i].activatedAt) && rows[i - 1].revokedFence == Some(rows[i].fence)
  }

  predicate IsSource(ev: Evidence, rows: seq<Row>, i: nat, j: nat)
    requires i < |rows| && j < |rows|
  {
    && rows[j].season == rows[i].season
    && rows[i].publication in ev.lineage && rows[j].publication in ev.lineage
    && ev.lineage[rows[j].publication] == ev.lineage[rows[i].publication]
  }

  /** The latest row below `j` that restore `i` can have cloned. */
  function SourceBelow(ev: Evidence, rows: seq<Row>, i: nat, j: nat): (r: Option<nat>)
    requires i < |rows| && j <= |rows|
    ensures r.Some? ==> r.value < j && IsSource(ev, rows, i, r.value)
    ensures forall k :: 0 <= k < j && IsSource(ev, rows, i, k) ==> r.Some? && k <= r.value
  {
    if j == 0 then None
    else if IsSource(ev, rows, i, j - 1) then Some(j - 1)
    else SourceBelow(ev, rows, i, j - 1)
  }

  /** The source of restore `i`, when the evidence proves that `i` is one. */
  function Restores(ev: Evidence, rows: seq<Row>, i: nat): (r: Option<nat>)
    requires i < |rows|
    ensures r.Some? ==> r.value < i - 1
  {
    if Withdrawn(rows, i) && rows[i].publication in ev.rollbacks then SourceBelow(ev, rows, i, i - 1) else None
  }

  /** Restore `j + 1` moved the pointer across seasons, and row `j` is provably still good. */
  predicate Clears(ev: Evidence, rows: seq<Row>, j: nat)
    requires j < |rows|
  {
    && j + 1 < |rows| && Restores(ev, rows, j + 1).Some?
    && rows[j].season != rows[j + 1].season && rows[j].publication in ev.current
  }

  /** The lowest-fence restore, below `n`, whose source is row `j`. */
  function FirstRestore(ev: Evidence, rows: seq<Row>, j: nat, n: nat): (r: Option<nat>)
    requires j < |rows| && n <= |rows|
    ensures r.Some? ==> r.value < n && Restores(ev, rows, r.value) == Some(j)
    ensures r.Some? ==> forall k :: 0 <= k < r.value ==> Restores(ev, rows, k) != Some(j)
    ensures r.None? ==> forall k :: 0 <= k < n ==> Restores(ev, rows, k) != Some(j)
  {
    if n == 0 then None
    else
      var earlier := FirstRestore(ev, rows, j, n - 1);
      if earlier.Some? then earlier else if Restores(ev, rows, n - 1) == Some(j) then Some(n - 1) else None
  }

  /** Row `j` once the restores below `n` have been processed. */
  function Corrected(ev: Evidence, rows: seq<Row>, j: nat, n: nat): Row
    requires j < |rows| && n <= |rows|
  {
    var row := rows[j];
    var unrevoked := if j + 1 < n && Clears(ev, rows, j) then row.(revokedAt := None, revokedFence := None) else row;
    var first := FirstRestore(ev, rows, j, n);
    if row.retiredAt.None? && first.Some? then
      unrevoked.(retiredAt := Some(rows[first.value].activatedAt), retiredBy := Some(rows[first.value].publication))
    else unrevoked
  }

  /** What processing restore `i` does to the live row `j`. */
  function Processed(ev: Evidence, rows: seq<Row>, i: nat, j: nat, row: Row): Row
    requires i < |rows| && j < |rows|
  {
    var unrevoked := if i == j + 1 && Clears(ev, rows, j) then row.(revokedAt := None, revokedFence := None) else row;
    if Restores(ev, rows, i) == Some(j) && rows[j].retiredAt.None? && row.retiredAt.None? then
      unrevoked.(retiredAt := Some(rows[i].activatedAt), retiredBy := Some(rows[i].publication))
    else unrevoked
  }

  lemma CorrectedNext(ev: Evidence, rows: seq<Row>, j: nat, i: nat)
    requires j < |rows| && i < |rows|
    ensures Corrected(ev, rows, j, i + 1) == Processed(ev, rows, i, j, Corrected(ev, rows, j, i))
  {
    hide Restores, Clears;
    assert FirstRestore(ev, rows, j, i + 1) ==
      var earlier := FirstRestore(ev, rows, j, i);
      if earlier.Some? then earlier else if Restores(ev, rows, i) == Some(j) then Some(i) else None;
  }

  lemma CorrectedAtStart(ev: Evidence, rows: seq<Row>, j: nat)
    requires j < |rows|
    ensures Corrected(ev, rows, j, 0) == rows[j]
  {
  }

  // ----- what the columns and the evidence prove

  /** Row `i` is a rollback version whose activation revoked the row before it, at the same time and
      fence, and row `k` is an earlier row of its season with the same checksum and cutoff. */
  ghost predicate Clones(ev: Evidence, rows: seq<Row>, i: nat, k: nat)
    requires i < |rows|
  {
    && k + 1 < i
    && rows[i - 1].revokedAt == Some(rows[i].activatedAt) && rows[i - 1].revokedFence == Some(rows[i].fence)
    && rows[i].publication in ev.rollbacks && rows[k].season == rows[i].season
    && rows[i].publication in ev.lineage && rows[k].publication in ev.lineage
    && ev.lineage[rows[i].publication] == ev.lineage[rows[k].publication]
  }

  ghost predicate HasClone(ev: Evidence, rows: seq<Row>, i: nat)
    requires i < |rows|
  {
    exists k: nat :: Clones(ev, rows, i, k)
  }

  ghost predicate LatestClone(ev: Evidence, rows: seq<Row>, i: nat, j: nat)
    requires i < |rows|
  {
    Clones(ev, rows, i, j) && forall k :: k > j ==> !Clones(ev, rows, i, k)
  }

  /** The source search finds the latest row that the evidence proves to be cloned, when there is one. */
  lemma RestoresExact(ev: Evidence, rows: seq<Row>, i: nat)
    requires i < |rows|
    ensures forall j: nat :: Restores(ev, rows, i) == Some(j) <==> LatestClone(ev, rows, i, j)
    ensures Restores(ev, rows, i).Some? <==> HasClone(ev, rows, i)
  {
    hide SourceBelow;
    forall k: nat ensures Clones(ev, rows, i, k) <==>
      Withdrawn(rows, i) && rows[i].publication in ev.rollbacks && k < i - 1 && IsSource(ev, rows, i, k) { }
    if Restores(ev, rows, i).Some? { assert Clones(ev, rows, i, Restores(ev, rows, i).value); }
  }

  /** Row `row'` is row `j` without its revocation exactly when the next row is a rollback that revoked
      it, to a version of another season that an earlier row proves, while the publication of row `j`
      is still current; no revocation is ever created, and the identifying columns stay. */
  ghost predicate RevocationRight(ev: Evidence, rows: seq<Row>, j: nat, row': Row)
    requires j < |rows|
  {
    var row := rows[j];
    && row' == row.(revokedAt := row'.revokedAt, revokedFence := row'.revokedFence, retiredAt := row'.retiredAt,
                    retiredBy := row'.retiredBy)
    && (if j + 1 < |rows| && rows[j + 1].season != row.season && row.publication in ev.current
           && HasClone(ev, rows, j + 1)
        then row.revokedAt.Some? && row'.revokedAt.None? && row'.revokedFence.None?
        else row'.revokedAt == row.revokedAt && row'.revokedFence == row.revokedFence)
  }

  /** Row `row'` is retired by the rollback of lowest fence whose latest clone row `j` is; without one,
      or with a retirement already there, nothing of it changes. */
  ghost predicate RetirementRight(ev: Evidence, rows: seq<Row>, j: nat, row': Row)
    requires j < |rows|
  {
    var row := rows[j];
    if row.retiredAt.Some? || forall i: nat :: i < |rows| ==> !LatestClone(ev, rows, i, j) then
      row'.retiredAt == row.retiredAt && row'.retiredBy == row.retiredBy
    else
      exists i: nat ::
        && i < |rows| && LatestClone(ev, rows, i, j) && (forall k: nat :: k < i ==> !LatestClone(ev, rows, k, j))
        && row'.retiredAt == Some(rows[i].activatedAt) && row'.retiredBy == Some(rows[i].publication)
  }

  lemma RevocationExact(ev: Evidence, rows: seq<Row>, j: nat)
    requires j < |rows|
    ensures RevocationRight(ev, rows, j, Corrected(ev, rows, j, |rows|))
  {
    hide FirstRestore, SourceBelow, LatestClone;
    if j + 1 < |rows| { RestoresExact(ev, rows, j + 1); }
  }

  lemma RetirementExact(ev: Evidence, rows: seq<Row>, j: nat)
    requires j < |rows|
    ensures RetirementRight(ev, rows, j, Corrected(ev, rows, j, |rows|))
  {
    hide FirstRestore, Restores, Clears, Clones, LatestClone;
    forall i: nat | i < |rows| ensures Restores(ev, rows, i) == Some(j) <==> LatestClone(ev, rows, i, j) {
      RestoresExact(ev, rows, i);
    }
    var first := FirstRestore(ev, rows, j, |rows|);
  }

  /** The migration's loop. It decides from the snapshot, and its retirement update is guarded
      on the live row, so the lowest-fence restore of a shared source wins. */
  method Reclassify(ev: Evidence, table: array<Row>)
    modifies table
    ensures forall j :: 0 <= j < table.Length ==> table[j] == Corrected(ev, old(table[..]), j, table.Length)
    ensures forall j :: 0 <= j < table.Length ==> RevocationRight(ev, old(table[..]), j, table[j])
    ensures forall j :: 0 <= j < table.Length ==> RetirementRight(ev, old(table[..]), j, table[j])
  {
    hide Corrected, Withdrawn, SourceBelow, FirstRestore, RevocationRight, RetirementRight;
    var rows := table[..];
    forall j | 0 <= j < |rows| ensures Corrected(ev, rows, j, 0) == rows[j] { CorrectedAtStart(ev, rows, j); }
    for i := 0 to table.Length
      invariant rows == old(table[..])
      invariant forall j :: 0 <= j < table.Length ==> table[j] == Corrected(ev, rows, j, i)
    {
      ghost var live := table[..];
      var source := Restores(ev, rows, i);
      if source.Some? {
        var withdrawn := i - 1;
        if rows[withdrawn].season != rows[i].season && rows[withdrawn].publication in ev.current {
          table[withdrawn] := table[withdrawn].(revokedAt := None, revokedFence := None);
        }
        var s := source.value;
        if rows[s].retiredAt.None? && table[s].retiredAt.None? {
          table[s] := table[s].(retiredAt := Some(rows[i].activatedAt), retiredBy := Some(rows[i].publication));
        }
      }
      forall j | 0 <= j < table.Length ensures table[j] == Corrected(ev, rows, j, i + 1) {
        CorrectedNext(ev, rows, j, i);
        assert live[j] == Corrected(ev, rows, j, i);
      }
    }
    forall j | 0 <= j < |rows| ensures RevocationRight(ev, rows, j, table[j]) && RetirementRight(ev, rows, j, table[j]) {
      RevocationExact(ev, rows, j);
      RetirementExact(ev, rows, j);
    }
  }

  function Pass(ev: Evidence, rows: seq<Row>): (r: seq<Row>)
    ensures |r| == |rows| && forall j :: 0 <= j < |rows| ==> r[j] == Corrected(ev, rows, j, |rows|)
  {
    seq(|rows|, j requires 0 <= j < |rows| => Corrected(ev, rows, j, |rows|))
  }

  lemma SourceKept(ev: Evidence, rows: seq<Row>, i: nat, j: nat)
    requires i < |rows| && j <= |rows|
    ensures SourceBelow(ev, Pass(ev, rows), i, j) == SourceBelow(ev, rows, i, j)
  {
    if j == 0 {
    } else {
      assert IsSource(ev, Pass(ev, rows), i, j - 1) == IsSource(ev, rows, i, j - 1);
      SourceKept(ev, rows, i, j - 1);
    }
  }

  /** A restore still provable after a pass was provable before, with the same source, and its
      withdrawn row was not one the pass clears. */
  lemma RestoreKept(ev: Evidence, rows: seq<Row>, i: nat)
    requires i < |rows| && Restores(ev, Pass(ev, rows), i).Some?
    ensures Restores(ev, rows, i) == Restores(ev, Pass(ev, rows), i)
    ensures !Clears(ev, rows, i - 1)
  {
    SourceKept(ev, rows, i, i - 1);
  }

  lemma PassStable(ev: Evidence, rows: seq<Row>, once: seq<Row>, j: nat)
    requires once == Pass(ev, rows) && j < |rows|
    ensures Corrected(ev, once, j, |rows|) == once[j]
  {
    hide Restores, FirstRestore;
    if j + 1 < |rows| && Restores(ev, once, j + 1).Some? {
      RestoreKept(ev, rows, j + 1);
    }
    var first := FirstRestore(ev, once, j, |rows|);
    if first.Some? {
      RestoreKept(ev, rows, first.value);
      assert Restores(ev, rows, first.value) == Some(j);
    }
  }

  /** A second execution changes no row. */
  lemma PassIdempotent(ev: Evidence, rows: seq<Row>)
    ensures Pass(ev, Pass(ev, rows)) == Pass(ev, rows)
  {
    hide Corrected;
    forall j | 0 <= j < |rows| ensures Corrected(ev, Pass(ev, rows), j, |rows|) == Pass(ev, rows)[j] {
      PassStable(ev, rows, Pass(ev, rows), j);
    }
  }
}
