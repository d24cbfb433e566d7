/** The outbox's reads: what its text-comparing queries select and how they order it, against
    the true times of the rows. */
module OutboxQueries {
  import opened Options
  import opened Sorting
  import opened Timestamps
  import opened Envelopes
  import opened OutboxStore
  import CanonicalJson

  // ----- rows carry printed times

  /** Both of the row's times are texts the outbox itself printed. */
  predicate Stamped(r: Row)
  {
    var cutoff, created := ParseStamp(r.cutoff), ParseStamp(r.createdAt);
    cutoff.Some? && created.Some? && Iso(cutoff.value) == r.cutoff && Iso(created.value) == r.createdAt
  }

  predicate AllStamped(rows: map<nat, Row>) { forall id :: id in rows ==> Stamped(rows[id]) }

  function CutoffOf(r: Row): (t: DateTime)
    requires Stamped(r)
    ensures Valid(t) && Iso(t) == r.cutoff
  {
    ParseStamp(r.cutoff).value
  }

  function CreatedOf(r: Row): (t: DateTime)
    requires Stamped(r)
    ensures Valid(t) && Iso(t) == r.createdAt
  {
    ParseStamp(r.createdAt).value
  }

  lemma NewRowIsStamped(row: Row, item: Item, now: DateTime)
    requires Valid(item.cutoff) && Valid(now) && Records(row, item, now)
    ensures Stamped(row) && CutoffOf(row) == item.cutoff && CreatedOf(row) == now
  {
    hide Iso, ParseStamp;
    ParseIso(item.cutoff);
    ParseIso(now);
  }

  lemma StepKeepsStamped(cfg: Config, codec: Codec, s: State, op: Op, m: Measured, s': State, o: Outcome)
    requires AllStamped(s.rows) && ValidOp(op) && Step(cfg, codec, s, op, m, s', o)
    ensures AllStamped(s'.rows)
  {
    hide Iso, ParseStamp, Screen, Admitted, RefusalExplained, LexLess;
    if op.Enqueue? && s' != s { NewRowIsStamped(s'.rows[s'.lastId], op.item, op.now); }
  }

  lemma {:induction false} RunKeepsStamped(cfg: Config, codec: Codec, ss: seq<State>, txns: seq<Txn>, k: nat)
    requires Run(cfg, codec, ss, txns) && AllStamped(ss[0].rows) && k < |ss|
    ensures AllStamped(ss[k].rows)
    decreases k
  {
    hide Step, AllStamped;
    if k == 0 {
    } else {
      RunKeepsStamped(cfg, codec, ss, txns, k - 1);
      var t := txns[k - 1];
      StepKeepsStamped(cfg, codec, ss[k - 1], t.op, t.m, ss[k], t.o);
    }
  }

  // ----- selecting

  /** `now - retention`, in microseconds; `None` where Python raises OverflowError. */
  function Threshold(now: DateTime, retention: int): (r: Option<DateTime>)
    requires Valid(now)
    ensures r.Some? ==> Valid(r.value) && Micros(r.value) == Micros(now) - retention
  {
    FromMicros(Micros(now) - retention)
  }

  /** What `aged_pending` and `enforce_retention` select. */
  function Aged(rows: map<nat, Row>, threshold: DateTime): set<nat>
    requires Valid(threshold)
  {
    set id | id in rows && TextBefore(rows[id].createdAt, threshold)
  }

  /** `enforce_retention` raises. */
  predicate RetentionExceeded(rows: map<nat, Row>, threshold: DateTime)
    requires Valid(threshold)
  {
    Aged(rows, threshold) != {}
  }

  /** The pending rows whose cutoff is before this time. */
  function Older(rows: map<nat, Row>, before: DateTime): set<nat>
    requires AllStamped(rows) && Valid(before)
  {
    set id | id in rows && Micros(CutoffOf(rows[id])) < Micros(before)
  }

  ghost predicate NoneMixedWith(rows: map<nat, Row>, before: DateTime)
    requires AllStamped(rows)
  {
    forall id :: id in rows ==> !MixedFraction(CutoffOf(rows[id]), before)
  }

  /** Pruning deletes exactly the work older than the governed cutoff if and only if no pending
      cutoff forms a mixed pair with it. */
  lemma PruneExact(rows: map<nat, Row>, before: DateTime)
    requires AllStamped(rows) && Valid(before)
    ensures Obsolete(rows, before) == Older(rows, before) <==> NoneMixedWith(rows, before)
  {
    hide Iso, LexLess, Micros, ParseStamp, TextBefore, MixedFraction;
    var older := Older(rows, before);
    forall id | id in rows
      ensures (id in Obsolete(rows, before) <==> id in older) <==> !MixedFraction(CutoffOf(rows[id]), before)
    {
      TextBeforeExact(CutoffOf(rows[id]), before);
    }
  }

  /** A committed prune without mixed pairs leaves exactly the rows at or after the governed cutoff. */
  lemma PruneLeaves(cfg: Config, codec: Codec, s: State, before: DateTime, m: Measured, s': State, o: Outcome)
    requires AllStamped(s.rows) && Valid(before) && NoneMixedWith(s.rows, before)
    requires Step(cfg, codec, s, Prune(before), m, s', o) && !o.Refused?
    ensures s'.rows == s.rows - Older(s.rows, before) && o == Done(|Older(s.rows, before)|)
  {
    hide Iso, LexLess, Micros, ParseStamp, TextBefore, MixedFraction, Screen, Admitted, CanonicalJson.Print, AllStamped;
    PruneExact(s.rows, before);
  }

  /** The retention queries see exactly the rows older than the retention if and only if no row's
      creation forms a mixed pair with the threshold; then the bound is enforced by true age. */
  lemma RetentionExact(rows: map<nat, Row>, now: DateTime, retention: int, threshold: DateTime)
    requires AllStamped(rows) && Valid(now) && Threshold(now, retention) == Some(threshold)
    ensures Aged(rows, threshold) == (set id | id in rows && Micros(CreatedOf(rows[id])) < Micros(now) - retention)
      <==> forall id :: id in rows ==> !MixedFraction(CreatedOf(rows[id]), threshold)
    ensures (forall id :: id in rows ==> !MixedFraction(CreatedOf(rows[id]), threshold)) ==>
      (RetentionExceeded(rows, threshold)
       <==> exists id :: id in rows && Micros(CreatedOf(rows[id])) < Micros(now) - retention)
  {
    hide Iso, LexLess, Micros, ParseStamp, TextBefore, MixedFraction, FromMicros;
    var older := set id | id in rows && Micros(CreatedOf(rows[id])) < Micros(now) - retention;
    forall id | id in rows
      ensures (id in Aged(rows, threshold) <==> id in older) <==> !MixedFraction(CreatedOf(rows[id]), threshold)
    {
      TextBeforeExact(CreatedOf(rows[id]), threshold);
    }
    assert older != {} <==> exists id :: id in rows && Micros(CreatedOf(rows[id])) < Micros(now) - retention by {
      if id :| id in rows && Micros(CreatedOf(rows[id])) < Micros(now) - retention { assert id in older; }
      if id :| id in older { assert id in rows && Micros(CreatedOf(rows[id])) < Micros(now) - retention; }
    }
  }

  // ----- ordering

  /** The pending ids up to `n`, in insertion order. */
  function IdsUpTo(rows: map<nat, Row>, n: nat): (ids: seq<nat>)
    ensures forall id :: id in ids <==> id in rows && 1 <= id <= n
    ensures forall i, j :: 0 <= i < j < |ids| ==> ids[i] < ids[j]
  {
    if n == 0 then []
    else
      var rest := IdsUpTo(rows, n - 1);
      assert forall i :: 0 <= i < |rest| ==> rest[i] in rest;
      if n in rows then rest + [n] else rest
  }

  /** `ORDER BY cutoff DESC, created_at ASC, item_id ASC`. */
  function PendingLess(rows: map<nat, Row>): (nat, nat) -> bool
  {
    (i, j) =>
      && i in rows && j in rows
      && (|| LexLess(rows[j].cutoff, rows[i].cutoff)
          || (rows[i].cutoff == rows[j].cutoff
              && (|| LexLess(rows[i].createdAt, rows[j].createdAt)
                  || (rows[i].createdAt == rows[j].createdAt && i < j))))
  }

  function PendingOrder(s: State): seq<nat> { Sort(PendingLess(s.rows), IdsUpTo(s.rows, s.lastId)) }

  /** `pending`: at least 1 and at most 1000 rows. */
  function Pending(s: State, limit: int): seq<nat>
  {
    var all, bounded := PendingOrder(s), if limit < 1 then 1 else Min(limit, 1000);
    if |all| <= bounded then all else all[..bounded]
  }

  lemma PendingLessIsOrder(rows: map<nat, Row>)
    ensures StrictOrder(PendingLess(rows))
  {
    hide LexLess;
    LexIsStrictOrder();
    var less := PendingLess(rows);
    forall x ensures !less(x, x) {
      if x in rows { LexIrreflexive(rows[x].cutoff); LexIrreflexive(rows[x].createdAt); }
    }
    forall x, y, z | less(x, y) && less(y, z) ensures less(x, z) {
      assert LexLess(rows[z].cutoff, rows[y].cutoff) && LexLess(rows[y].cutoff, rows[x].cutoff)
        ==> LexLess(rows[z].cutoff, rows[x].cutoff);
      assert LexLess(rows[x].createdAt, rows[y].createdAt) && LexLess(rows[y].createdAt, rows[z].createdAt)
        ==> LexLess(rows[x].createdAt, rows[z].createdAt);
    }
  }

  lemma PendingIdsComparable(rows: map<nat, Row>, ids: seq<nat>)
    requires forall id :: id in ids ==> id in rows
    requires forall i, j :: 0 <= i < j < |ids| ==> ids[i] < ids[j]
    ensures PairwiseComparable(PendingLess(rows), ids)
  {
    hide LexLess;
    forall i, j | 0 <= i < j < |ids| ensures PendingLess(rows)(ids[i], ids[j]) || PendingLess(rows)(ids[j], ids[i]) {
      assert ids[i] in ids && ids[j] in ids;
      LexTotal(rows[ids[i]].cutoff, rows[ids[j]].cutoff);
      LexTotal(rows[ids[i]].createdAt, rows[ids[j]].createdAt);
    }
  }

  /** Latest cutoff text first, then earliest creation text, then lowest id. */
  ghost predicate ListedByColumns(rows: map<nat, Row>, ids: seq<nat>)
    requires forall id :: id in ids ==> id in rows
  {
    forall i, j :: 0 <= i < j < |ids| ==>
      var a, b := rows[ids[i]], rows[ids[j]];
      || LexLess(b.cutoff, a.cutoff)
      || (a.cutoff == b.cutoff && LexLess(a.createdAt, b.createdAt))
      || (a.cutoff == b.cutoff && a.createdAt == b.createdAt && ids[i] < ids[j])
  }

  lemma SortedIsListed(rows: map<nat, Row>, ids: seq<nat>)
    requires StrictlySorted(PendingLess(rows), ids) && forall id :: id in ids ==> id in rows
    ensures ListedByColumns(rows, ids)
  {
    hide LexLess;
    assert forall i, j :: 0 <= i < j < |ids| ==> PendingLess(rows)(ids[i], ids[j]);
  }

  lemma {:induction false} DistinctCount(ids: seq<nat>, keys: set<nat>)
    requires forall id :: id in ids <==> id in keys
    requires forall i, j :: 0 <= i < j < |ids| ==> ids[i] != ids[j]
    ensures |ids| == |keys|
    decreases |ids|
  {
    if |ids| == 0 {
      assert keys == {};
    } else {
      var last := ids[|ids| - 1];
      assert forall id :: id in ids[..|ids| - 1] <==> id in keys - {last} by {
        assert ids == ids[..|ids| - 1] + [last];
      }
      DistinctCount(ids[..|ids| - 1], keys - {last});
    }
  }

  /** The listing holds every pending row once, by cutoff text downwards, creation text and id. */
  lemma PendingOrderFacts(s: State)
    requires Conserved(s)
    ensures StrictlySorted(PendingLess(s.rows), PendingOrder(s))
    ensures forall id :: id in PendingOrder(s) <==> id in s.rows
    ensures ListedByColumns(s.rows, PendingOrder(s)) && |PendingOrder(s)| == |s.rows|
  {
    hide LexLess, Sort, PendingLess, SameRecord, ListedByColumns;
    var ids := IdsUpTo(s.rows, s.lastId);
    PendingLessIsOrder(s.rows);
    PendingIdsComparable(s.rows, ids);
    SortSorts(PendingLess(s.rows), ids);
    SortPermutes(PendingLess(s.rows), ids);
    forall id | id in s.rows ensures id in ids { assert Accounted(s, id); }
    SortedIsListed(s.rows, PendingOrder(s));
    DistinctCount(ids, s.rows.Keys);
  }

  /** A page is the start of the listing: as many rows as asked for, but at least one and at most a
      thousand, while there are so many. */
  lemma PageExact(s: State, limit: int)
    requires Conserved(s)
    ensures var n := if limit < 1 then 1 else if limit > 1_000 then 1_000 else limit;
      && Pending(s, limit) <= PendingOrder(s)
      && |Pending(s, limit)| == if |s.rows| < n then |s.rows| else n
  {
    hide PendingOrder, ListedByColumns, StrictlySorted;
    PendingOrderFacts(s);
  }

  ghost predicate NoMixedCutoffs(rows: map<nat, Row>)
    requires AllStamped(rows)
  {
    forall i, j :: i in rows && j in rows ==> !MixedFraction(CutoffOf(rows[i]), CutoffOf(rows[j]))
  }

  ghost predicate NewestFirst(rows: map<nat, Row>, ids: seq<nat>)
    requires AllStamped(rows) && forall id :: id in ids ==> id in rows
  {
    forall i, j :: 0 <= i < j < |ids| ==> Micros(CutoffOf(rows[ids[j]])) <= Micros(CutoffOf(rows[ids[i]]))
  }

  /** Of two rows, listed in this order, the first is at least as new exactly off the mixed pairs. */
  lemma ListedOrder(rows: map<nat, Row>, i: nat, j: nat)
    requires AllStamped(rows) && PendingLess(rows)(i, j)
    ensures i in rows && j in rows
    ensures Micros(CutoffOf(rows[j])) <= Micros(CutoffOf(rows[i])) <==>
      !MixedFraction(CutoffOf(rows[i]), CutoffOf(rows[j]))
  {
    hide Iso, LexLess, Micros, ParseStamp;
    var a, b := CutoffOf(rows[i]), CutoffOf(rows[j]);
    TextOrderExact(b, a);
    if rows[i].cutoff == rows[j].cutoff { IsoInjective(a, b); }
  }

  lemma MixedIsSymmetric(a: DateTime, b: DateTime)
    ensures MixedFraction(a, b) <==> MixedFraction(b, a)
    ensures !MixedFraction(a, a)
  {
  }

  /** `pending` lists newest first by true time if and only if no two pending cutoffs form a mixed pair. */
  lemma PendingNewestFirst(s: State)
    requires Conserved(s) && AllStamped(s.rows)
    ensures forall id :: id in PendingOrder(s) ==> id in s.rows
    ensures NewestFirst(s.rows, PendingOrder(s)) <==> NoMixedCutoffs(s.rows)
  {
    hide Iso, LexLess, Micros, ParseStamp, PendingLess, MixedFraction, Conserved, PendingOrder, Stamped, ListedByColumns;
    PendingOrderFacts(s);
    var all := PendingOrder(s);
    forall i, j | 0 <= i < j < |all|
      ensures Micros(CutoffOf(s.rows[all[j]])) <= Micros(CutoffOf(s.rows[all[i]]))
        <==> !MixedFraction(CutoffOf(s.rows[all[i]]), CutoffOf(s.rows[all[j]]))
    {
      ListedOrder(s.rows, all[i], all[j]);
    }
    if NewestFirst(s.rows, all) {
      forall x, y | x in s.rows && y in s.rows ensures !MixedFraction(CutoffOf(s.rows[x]), CutoffOf(s.rows[y])) {
        var i :| 0 <= i < |all| && all[i] == x;
        var j :| 0 <= j < |all| && all[j] == y;
        MixedIsSymmetric(CutoffOf(s.rows[x]), CutoffOf(s.rows[y]));
      }
    }
  }

  lemma FoundBeyond(all: seq<nat>, n: nat, x: nat) returns (i: nat)
    requires n <= |all| && x in all && x !in all[..n]
    ensures n <= i < |all| && all[i] == x
  {
    assert all == all[..n] + all[n..];
    var j :| 0 <= j < |all| - n && all[n..][j] == x;
    i := n + j;
  }

  /** Without mixed pairs, no row a page leaves out is newer than one it returns. */
  lemma PageIsNewest(s: State, limit: int, out: nat, k: nat)
    requires Conserved(s) && AllStamped(s.rows) && NoMixedCutoffs(s.rows)
    requires out in s.rows && out !in Pending(s, limit) && k < |Pending(s, limit)|
    ensures Pending(s, limit)[k] in s.rows
    ensures Micros(CutoffOf(s.rows[out])) <= Micros(CutoffOf(s.rows[Pending(s, limit)[k]]))
  {
    hide Iso, Micros, ParseStamp, MixedFraction, Conserved, PendingOrder, Stamped, NoMixedCutoffs, StrictlySorted;
    hide ListedByColumns;
    PendingNewestFirst(s);
    PendingOrderFacts(s);
    var all, page := PendingOrder(s), Pending(s, limit);
    assert page == all[..|page|];
    var i := FoundBeyond(all, |page|, out);
    assert all[k] == page[k];
  }
}
