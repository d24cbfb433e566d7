/** Verification of a held candidate against the reference figures, over exact reals. */
module SeasonVerify {
  import opened Options
  import opened Sorting

  datatype Cell = Cell(field: string, value: real)

  /** A ledger row keeps its fields in order; a reference row is looked up by field. */
  type Ledger = map<string, seq<Cell>>

  type Reference = map<string, map<string, real>>
  type Tolerance = map<string, real>

  datatype Mismatch = Mismatch(identity: string, cell: Cell, reference: real, difference: real)

  datatype Comparison = Comparison(compared: nat, exact: nat, within: nat, ledgerOnly: seq<string>,
                                   referenceOnly: seq<string>, mismatches: seq<Mismatch>)

  function Allowed(t: Tolerance, field: string): real { if field in t then t[field] else 0.0 }

  function Difference(c: Cell, row: map<string, real>): real
    requires c.field in row
  {
    var d := c.value - row[c.field];
    if d < 0.0 then -d else d
  }

  /** Every compared field has a reference figure, as the code's lookups demand. */
  predicate Covered(cells: seq<Cell>, row: map<string, real>) { forall i :: 0 <= i < |cells| ==> cells[i].field in row }

  predicate AllCovered(ledger: Ledger, reference: Reference)
  {
    forall i :: i in ledger && i in reference ==> Covered(ledger[i], reference[i])
  }

  /** The figures differ, by more than the field's tolerance in one direction or the other. */
  predicate Out(t: Tolerance, c: Cell, row: map<string, real>)
    requires c.field in row
  {
    var tolerance := if c.field in t then t[c.field] else 0.0;
    c.value != row[c.field] && (c.value > row[c.field] + tolerance || row[c.field] > c.value + tolerance)
  }

  lemma DifferenceExact(t: Tolerance, c: Cell, row: map<string, real>)
    requires c.field in row
    ensures Difference(c, row) == 0.0 <==> c.value == row[c.field]
    ensures Out(t, c, row) <==> Difference(c, row) != 0.0 && Difference(c, row) > Allowed(t, c.field)
  {
  }

  predicate Exact(cells: seq<Cell>, row: map<string, real>)
    requires Covered(cells, row)
  {
    forall i :: 0 <= i < |cells| ==> cells[i].value == row[cells[i].field]
  }

  predicate Within(t: Tolerance, cells: seq<Cell>, row: map<string, real>)
    requires Covered(cells, row)
  {
    forall i :: 0 <= i < |cells| ==> !Out(t, cells[i], row)
  }

  // ----- one identity

  /** `m` reports a field out of tolerance, and no field of the row is out by more. */
  ghost predicate IsWorst(t: Tolerance, identity: string, cells: seq<Cell>, row: map<string, real>, m: Mismatch)
    requires Covered(cells, row)
  {
    && m.identity == identity
    && (exists k :: 0 <= k < |cells| && m.cell == cells[k] && Out(t, cells[k], row)
          && m.reference == row[cells[k].field]
          && (m.difference == cells[k].value - m.reference || m.difference == m.reference - cells[k].value))
    && m.difference > 0.0
    && (forall k :: 0 <= k < |cells| && Out(t, cells[k], row) ==>
          row[cells[k].field] - m.difference <= cells[k].value <= row[cells[k].field] + m.difference)
  }

  method CompareOne(t: Tolerance, identity: string, cells: seq<Cell>, row: map<string, real>)
    returns (worst: Option<Mismatch>, allExact: bool)
    requires Covered(cells, row)
    ensures allExact <==> Exact(cells, row)
    ensures worst.None? <==> Within(t, cells, row)
    ensures worst.Some? ==> IsWorst(t, identity, cells, row, worst.value)
  {
    worst, allExact := None, true;
    for k := 0 to |cells|
      invariant allExact <==> forall i :: 0 <= i < k ==> cells[i].value == row[cells[i].field]
      invariant worst.None? <==> forall i :: 0 <= i < k ==> !Out(t, cells[i], row)
      invariant worst.Some? ==> IsWorst(t, identity, cells[..k], row, worst.value)
    {
      var c := cells[k];
      var d := Difference(c, row);
      DifferenceExact(t, c, row);
      assert cells[..k + 1] == cells[..k] + [c];
      if d == 0.0 { continue; }
      allExact := false;
      if d > Allowed(t, c.field) && (worst.None? || d > worst.value.difference) {
        worst := Some(Mismatch(identity, c, row[c.field], d));
        assert cells[..k + 1][k] == c;
      }
    }
    assert cells[..|cells|] == cells;
  }

  // ----- all of them

  function Shared(ledger: Ledger, reference: Reference): set<string> { ledger.Keys * reference.Keys }

  function ExactOnes(ledger: Ledger, reference: Reference, ids: set<string>): set<string>
    requires AllCovered(ledger, reference) && ids <= Shared(ledger, reference)
  {
    set i | i in ids && Exact(ledger[i], reference[i])
  }

  /** Identities whose every field is within tolerance: `matched`. */
  function Matched(ledger: Ledger, reference: Reference, t: Tolerance, ids: set<string>): set<string>
    requires AllCovered(ledger, reference) && ids <= Shared(ledger, reference)
  {
    set i | i in ids && Within(t, ledger[i], reference[i])
  }

  predicate WorseFirst(a: Mismatch, b: Mismatch)
  {
    a.difference > b.difference || (a.difference == b.difference && LexLess(a.identity, b.identity))
  }

  ghost predicate OnePerIdentity(ms: seq<Mismatch>, ids: set<string>)
  {
    && (forall i, j :: 0 <= i < j < |ms| ==> ms[i].identity != ms[j].identity)
    && (forall id :: id in ids <==> exists k :: 0 <= k < |ms| && ms[k].identity == id)
  }

  ghost predicate AllWorst(ledger: Ledger, reference: Reference, t: Tolerance, ms: seq<Mismatch>)
    requires AllCovered(ledger, reference)
  {
    forall k :: 0 <= k < |ms| ==>
      ms[k].identity in Shared(ledger, reference)
      && IsWorst(t, ms[k].identity, ledger[ms[k].identity], reference[ms[k].identity], ms[k])
  }

  /** `r` is the set, sorted. */
  ghost predicate Lists(r: seq<string>, ids: set<string>)
  {
    StrictlySorted(LexLess, r) && |r| == |ids| && forall x :: x in r <==> x in ids
  }

  /** `sorted` of a set of identities. */
  method SortedIds(ids: set<string>) returns (r: seq<string>)
    ensures Lists(r, ids)
  {
    LexIsStrictOrder();
    var left := ids;
    r := [];
    while left != {}
      invariant left <= ids && |r| + |left| == |ids|
      invariant StrictlySorted(LexLess, r) && forall x :: x in r <==> x in ids && x !in left
    {
      var x :| x in left;
      forall y | y in r ensures LexLess(x, y) || LexLess(y, x) { LexTotal(x, y); }
      InsertSorted(LexLess, x, r);
      InsertPermutes(LexLess, x, r);
      assert forall y :: y in Insert(LexLess, x, r) <==> y in multiset(Insert(LexLess, x, r));
      r := Insert(LexLess, x, r);
      left := left - {x};
    }
  }

  /** The counts and mismatches are those of the identities `seen`. */
  ghost predicate Tally(ledger: Ledger, reference: Reference, t: Tolerance, seen: set<string>, exact: nat, within: nat,
                        ms: seq<Mismatch>)
    requires AllCovered(ledger, reference) && seen <= Shared(ledger, reference)
  {
    && exact == |ExactOnes(ledger, reference, seen)| && exact + within == |Matched(ledger, reference, t, seen)|
    && OnePerIdentity(ms, seen - Matched(ledger, reference, t, seen)) && AllWorst(ledger, reference, t, ms)
  }

  lemma EmptyTally(ledger: Ledger, reference: Reference, t: Tolerance)
    requires AllCovered(ledger, reference)
    ensures Tally(ledger, reference, t, {}, 0, 0, [])
  {
    assert ExactOnes(ledger, reference, {}) == {} && Matched(ledger, reference, t, {}) == {};
  }

  lemma TallyMeans(ledger: Ledger, reference: Reference, t: Tolerance, seen: set<string>, exact: nat, within: nat,
                   ms: seq<Mismatch>)
    requires AllCovered(ledger, reference) && seen <= Shared(ledger, reference)
    requires Tally(ledger, reference, t, seen, exact, within, ms)
    ensures exact == |ExactOnes(ledger, reference, seen)| && exact + within == |Matched(ledger, reference, t, seen)|
    ensures OnePerIdentity(ms, seen - Matched(ledger, reference, t, seen)) && AllWorst(ledger, reference, t, ms)
  {
  }

  lemma ExactNext(ledger: Ledger, reference: Reference, seen: set<string>, id: string)
    requires AllCovered(ledger, reference) && seen <= Shared(ledger, reference)
    requires id in Shared(ledger, reference) && id !in seen
    ensures var before, after := ExactOnes(ledger, reference, seen), ExactOnes(ledger, reference, seen + {id});
      if Exact(ledger[id], reference[id]) then |after| == |before| + 1 else after == before
  {
    hide Exact;
    var before := ExactOnes(ledger, reference, seen);
    assert ExactOnes(ledger, reference, seen + {id})
      == if Exact(ledger[id], reference[id]) then before + {id} else before;
  }

  lemma MatchedNext(ledger: Ledger, reference: Reference, t: Tolerance, seen: set<string>, id: string)
    requires AllCovered(ledger, reference) && seen <= Shared(ledger, reference)
    requires id in Shared(ledger, reference) && id !in seen
    ensures var before, after := Matched(ledger, reference, t, seen), Matched(ledger, reference, t, seen + {id});
      if Within(t, ledger[id], reference[id]) then after == before + {id} && |after| == |before| + 1 else after == before
    ensures id !in Matched(ledger, reference, t, seen)
  {
    hide Within;
    var before := Matched(ledger, reference, t, seen);
    assert Matched(ledger, reference, t, seen + {id})
      == if Within(t, ledger[id], reference[id]) then before + {id} else before;
  }

  lemma ExactIsWithin(t: Tolerance, cells: seq<Cell>, row: map<string, real>)
    requires Covered(cells, row) && Exact(cells, row)
    ensures Within(t, cells, row)
  {
  }

  lemma WorstNamesItself(t: Tolerance, id: string, cells: seq<Cell>, row: map<string, real>, m: Mismatch)
    requires Covered(cells, row) && IsWorst(t, id, cells, row, m)
    ensures m.identity == id
  {
  }

  lemma AddWorst(ledger: Ledger, reference: Reference, t: Tolerance, ms: seq<Mismatch>, m: Mismatch)
    requires AllCovered(ledger, reference) && AllWorst(ledger, reference, t, ms)
    requires m.identity in Shared(ledger, reference)
    requires IsWorst(t, m.identity, ledger[m.identity], reference[m.identity], m)
    ensures AllWorst(ledger, reference, t, ms + [m])
  {
    hide IsWorst;
  }

  lemma AddMismatch(ms: seq<Mismatch>, m: Mismatch, ids: set<string>)
    requires OnePerIdentity(ms, ids) && m.identity !in ids
    ensures OnePerIdentity(ms + [m], ids + {m.identity})
  {
    var ms' := ms + [m];
    forall i, j | 0 <= i < j < |ms'| ensures ms'[i].identity != ms'[j].identity {
      if j == |ms| { assert ms[i].identity in ids; }
    }
    forall id | id in ids + {m.identity} ensures exists k :: 0 <= k < |ms'| && ms'[k].identity == id {
      if id in ids {
        var k :| 0 <= k < |ms| && ms[k].identity == id;
        assert ms'[k].identity == id;
      } else {
        assert ms'[|ms|].identity == id;
      }
    }
  }

  lemma TallyNext(ledger: Ledger, reference: Reference, t: Tolerance, seen: set<string>, exact: nat, within: nat,
                  ms: seq<Mismatch>, id: string, worst: Option<Mismatch>, allExact: bool)
    requires AllCovered(ledger, reference) && seen <= Shared(ledger, reference)
    requires Tally(ledger, reference, t, seen, exact, within, ms)
    requires id in Shared(ledger, reference) && id !in seen
    requires allExact <==> Exact(ledger[id], reference[id])
    requires worst.None? <==> Within(t, ledger[id], reference[id])
    requires worst.Some? ==> IsWorst(t, id, ledger[id], reference[id], worst.value)
    ensures Tally(ledger, reference, t, seen + {id}, if worst.None? && allExact then exact + 1 else exact,
                  if worst.None? && !allExact then within + 1 else within,
                  if worst.Some? then ms + [worst.value] else ms)
  {
    hide Exact, Within, IsWorst, OnePerIdentity, Matched, ExactOnes, AllWorst, Covered;
    var seen', matched := seen + {id}, Matched(ledger, reference, t, seen);
    ExactNext(ledger, reference, seen, id);
    MatchedNext(ledger, reference, t, seen, id);
    if allExact { ExactIsWithin(t, ledger[id], reference[id]); }
    if worst.Some? {
      WorstNamesItself(t, id, ledger[id], reference[id], worst.value);
      AddMismatch(ms, worst.value, seen - matched);
      AddWorst(ledger, reference, t, ms, worst.value);
      assert seen' - Matched(ledger, reference, t, seen') == (seen - matched) + {id};
    } else {
      assert seen' - Matched(ledger, reference, t, seen') == seen - matched;
    }
  }

  lemma NotYetSeen(shared: seq<string>, k: nat)
    requires StrictlySorted(LexLess, shared) && k < |shared|
    ensures shared[k] !in shared[..k]
  {
    forall i | 0 <= i < k ensures shared[i] != shared[k] {
      LexIrreflexive(shared[k]);
      assert LexLess(shared[i], shared[k]);
    }
  }

  /** The loop over the shared identities. */
  method CountRows(ledger: Ledger, reference: Reference, t: Tolerance, shared: seq<string>)
    returns (exact: nat, within: nat, mismatches: seq<Mismatch>)
    requires AllCovered(ledger, reference) && StrictlySorted(LexLess, shared)
    requires forall x :: x in shared <==> x in Shared(ledger, reference)
    ensures var ids := Shared(ledger, reference);
      && exact + within + |mismatches| == |shared|
      && exact == |ExactOnes(ledger, reference, ids)| && exact + within == |Matched(ledger, reference, t, ids)|
      && OnePerIdentity(mismatches, ids - Matched(ledger, reference, t, ids))
      && AllWorst(ledger, reference, t, mismatches)
  {
    hide Tally, Exact, Within;
    exact, within, mismatches := 0, 0, [];
    ghost var seen: set<string> := {};
    EmptyTally(ledger, reference, t);
    for k := 0 to |shared|
      invariant seen <= Shared(ledger, reference) && forall x :: x in seen <==> x in shared[..k]
      invariant exact + within + |mismatches| == k
      invariant Tally(ledger, reference, t, seen, exact, within, mismatches)
    {
      var id := shared[k];
      NotYetSeen(shared, k);
      assert id in shared && id !in seen;
      var worst, allExact := CompareOne(t, id, ledger[id], reference[id]);
      TallyNext(ledger, reference, t, seen, exact, within, mismatches, id, worst, allExact);
      if worst.Some? {
        mismatches := mismatches + [worst.value];
      } else if allExact {
        exact := exact + 1;
      } else {
        within := within + 1;
      }
      seen := seen + {id};
      assert shared[..k + 1] == shared[..k] + [id];
    }
    assert shared[..|shared|] == shared;
    assert seen == Shared(ledger, reference);
    TallyMeans(ledger, reference, t, seen, exact, within, mismatches);
  }

  lemma SortMismatches(ledger: Ledger, reference: Reference, t: Tolerance, ms: seq<Mismatch>, ids: set<string>)
    requires AllCovered(ledger, reference) && OnePerIdentity(ms, ids) && AllWorst(ledger, reference, t, ms)
    ensures var s := Sort(WorseFirst, ms);
      |s| == |ms| && OnePerIdentity(s, ids) && AllWorst(ledger, reference, t, s) && StrictlySorted(WorseFirst, s)
  {
    hide IsWorst, Sort;
    LexIsStrictOrder();
    forall i, j | 0 <= i < j < |ms| ensures WorseFirst(ms[i], ms[j]) || WorseFirst(ms[j], ms[i]) {
      LexTotal(ms[i].identity, ms[j].identity);
    }
    SortSorts(WorseFirst, ms);
    SortPermutes(WorseFirst, ms);
    var s := Sort(WorseFirst, ms);
    forall k | 0 <= k < |s| ensures s[k] in ms { }
    forall i, j | 0 <= i < j < |s| ensures s[i].identity != s[j].identity {
      LexIrreflexive(s[i].identity);
      assert s[i] in ms && s[j] in ms && WorseFirst(s[i], s[j]);
      var a :| 0 <= a < |ms| && ms[a] == s[i];
      var b :| 0 <= b < |ms| && ms[b] == s[j];
    }
    forall id ensures id in ids <==> exists k :: 0 <= k < |s| && s[k].identity == id {
      if id in ids {
        var k :| 0 <= k < |ms| && ms[k].identity == id;
        assert ms[k] in s;
      }
    }
  }

  lemma WorstLeads(ms: seq<Mismatch>)
    requires StrictlySorted(WorseFirst, ms)
    ensures forall i, j :: 0 <= i < j < |ms| ==>
      ms[i].difference > ms[j].difference || (ms[i].difference == ms[j].difference && LexLess(ms[i].identity, ms[j].identity))
  {
    hide LexLess;
    assert forall i, j :: 0 <= i < j < |ms| ==> WorseFirst(ms[i], ms[j]);
  }

  /** `compare_rows`: the three counts partition the shared identities, each mismatch is its
      identity's largest out-of-tolerance difference, and they are listed worst first. */
  method CompareRows(ledger: Ledger, reference: Reference, t: Tolerance) returns (c: Comparison)
    requires AllCovered(ledger, reference)
    ensures c.compared == |Shared(ledger, reference)|
    ensures c.exact + c.within + |c.mismatches| == c.compared
    ensures c.exact + c.within == |Matched(ledger, reference, t, Shared(ledger, reference))|
    ensures c.exact == |ExactOnes(ledger, reference, Shared(ledger, reference))|
    ensures OnePerIdentity(c.mismatches, Shared(ledger, reference) - Matched(ledger, reference, t, Shared(ledger, reference)))
    ensures AllWorst(ledger, reference, t, c.mismatches)
    ensures forall i, j :: 0 <= i < j < |c.mismatches| ==>
      || c.mismatches[i].difference > c.mismatches[j].difference
      || (c.mismatches[i].difference == c.mismatches[j].difference
          && LexLess(c.mismatches[i].identity, c.mismatches[j].identity))
    ensures Lists(c.ledgerOnly, ledger.Keys - reference.Keys) && Lists(c.referenceOnly, reference.Keys - ledger.Keys)
  {
    var shared := SortedIds(ledger.Keys * reference.Keys);
    var exact, within, mismatches := CountRows(ledger, reference, t, shared);
    var ledgerOnly := SortedIds(ledger.Keys - reference.Keys);
    var referenceOnly := SortedIds(reference.Keys - ledger.Keys);
    SortMismatches(ledger, reference, t, mismatches,
                   Shared(ledger, reference) - Matched(ledger, reference, t, Shared(ledger, reference)));
    WorstLeads(Sort(WorseFirst, mismatches));
    return Comparison(|shared|, exact, within, ledgerOnly, referenceOnly, Sort(WorseFirst, mismatches));
  }

  // ----- the verdict

  /** `Comparison.match_rate`. */
  function MatchRate(c: Comparison): real
  {
    var total := c.compared + |c.ledgerOnly| + |c.referenceOnly|;
    if total == 0 then 1.0 else (c.exact + c.within) as real / total as real
  }

  /** A reference stream's inputs: the rows of both sides, the game count each identity should
      have, and the games the candidate holds against the games it is governed to hold. A stream
      whose payload names no games has both empty. */
  datatype Stream<G> = Stream(ledger: Ledger, reference: Reference, tolerance: Tolerance, governed: map<string, int>,
                              games: map<string, int>, held: set<G>, wanted: set<G>)

  /** Identities for which the reference saw more games than are governed. */
  function Incomparable<G>(s: Stream<G>): set<string>
  {
    set i | i in s.governed && i in s.reference && i in s.games && s.games[i] > s.governed[i]
  }

  /** What a comparison promises, as far as its match rate goes. */
  ghost predicate Describes(c: Comparison, ledger: Ledger, reference: Reference, t: Tolerance)
    requires AllCovered(ledger, reference)
  {
    && c.compared == |Shared(ledger, reference)|
    && c.exact + c.within == |Matched(ledger, reference, t, Shared(ledger, reference))|
    && |c.ledgerOnly| == |ledger.Keys - reference.Keys| && |c.referenceOnly| == |reference.Keys - ledger.Keys|
  }

  method CompareWindow(ledger: Ledger, reference: Reference, t: Tolerance) returns (c: Comparison)
    requires AllCovered(ledger, reference)
    ensures Describes(c, ledger, reference, t)
  {
    hide Within, Exact, OnePerIdentity, AllWorst, AllCovered, Matched, ExactOnes, Shared, StrictlySorted;
    c := CompareRows(ledger, reference, t);
  }

  /** Popping the incomparable identities keeps the rest as they were. */
  lemma Remaining(ledger: Ledger, reference: Reference, out: set<string>)
    requires AllCovered(ledger, reference)
    ensures AllCovered(ledger - out, reference - out)
    ensures out == {} ==> ledger - out == ledger && reference - out == reference
  {
    hide Covered;
  }

  lemma SubsetSize(a: set<string>, b: set<string>)
    requires a <= b
    ensures |a| <= |b| && (|a| == |b| ==> a == b)
  {
    assert b == a + (b - a);
    if a != b { assert |b - a| > 0; }
  }

  lemma EmptyDifference(a: set<string>, b: set<string>)
    ensures |a - b| == 0 <==> a <= b
  {
    if |a - b| == 0 {
      forall x | x in a ensures x in b { assert x !in a - b; }
    }
    if a <= b { assert a - b == {}; }
  }

  lemma RateAtLeastOne(n: real, d: real)
    requires d > 0.0
    ensures n / d >= 1.0 <==> n >= d
  {
    assert (n / d) * d == n;
  }

  lemma RateIsOne(c: Comparison, matched: nat, shared: nat, left: nat, right: nat)
    requires c.compared == shared && c.exact + c.within == matched <= shared
    requires |c.ledgerOnly| == left && |c.referenceOnly| == right
    ensures MatchRate(c) >= 1.0 <==> matched == shared && left == 0 && right == 0
  {
    var total := shared + left + right;
    if total > 0 { RateAtLeastOne(matched as real, total as real); }
  }

  lemma QuotientReaches(n: real, d: real, threshold: real)
    requires d > 0.0
    ensures n / d >= threshold <==> n >= threshold * d
  {
    assert (n / d) * d == n;
  }

  lemma UnionSize(a: set<string>, b: set<string>)
    ensures |a * b| + |a - b| + |b - a| == |a + b|
  {
    assert a + b == (a * b) + (a - b) + (b - a);
    assert (a * b) !! (a - b) && ((a * b) + (a - b)) !! (b - a);
  }

  /** At least this share of `all` is matched; of nothing, all is. */
  predicate Reaches(matched: nat, all: nat, threshold: real)
  {
    if all == 0 then 1.0 >= threshold else matched as real >= threshold * all as real
  }

  lemma RateReaches(c: Comparison, matched: nat, all: nat, threshold: real)
    requires c.exact + c.within == matched && c.compared + |c.ledgerOnly| + |c.referenceOnly| == all
    ensures MatchRate(c) >= threshold <==> Reaches(matched, all, threshold)
  {
    if all > 0 { QuotientReaches(matched as real, all as real, threshold); }
  }

  /** The rate reaches a threshold if and only if that share of all the identities of either side is
      on both sides with every field within tolerance; without identities it is 1. */
  lemma RateExact(ledger: Ledger, reference: Reference, t: Tolerance, c: Comparison, threshold: real)
    requires AllCovered(ledger, reference) && Describes(c, ledger, reference, t)
    ensures MatchRate(c) >= threshold <==>
      Reaches(|Matched(ledger, reference, t, Shared(ledger, reference))|, |ledger.Keys + reference.Keys|, threshold)
  {
    hide Within, Matched, MatchRate, AllCovered, Reaches;
    UnionSize(ledger.Keys, reference.Keys);
    RateReaches(c, |Matched(ledger, reference, t, Shared(ledger, reference))|, |ledger.Keys + reference.Keys|, threshold);
  }

  /** The rate is 1 exactly when both sides have the same identities, all within tolerance. */
  lemma PerfectRate(ledger: Ledger, reference: Reference, t: Tolerance, c: Comparison)
    requires AllCovered(ledger, reference) && Describes(c, ledger, reference, t)
    ensures MatchRate(c) >= 1.0 <==>
      ledger.Keys == reference.Keys
      && forall i :: i in ledger && i in reference ==> Within(t, ledger[i], reference[i])
  {
    hide Within;
    var shared := Shared(ledger, reference);
    var matched := Matched(ledger, reference, t, shared);
    SubsetSize(matched, shared);
    RateIsOne(c, |matched|, |shared|, |ledger.Keys - reference.Keys|, |reference.Keys - ledger.Keys|);
    EmptyDifference(ledger.Keys, reference.Keys);
    EmptyDifference(reference.Keys, ledger.Keys);
    if matched == shared {
      forall i | i in ledger && i in reference ensures Within(t, ledger[i], reference[i]) { assert i in matched; }
    }
    if forall i :: i in ledger && i in reference ==> Within(t, ledger[i], reference[i]) {
      assert matched == shared;
    }
  }

  /** The comparison part of `_verify_candidate`, and the verdict `build_report` takes from it. */
  method VerifyStream<G(==)>(s: Stream<G>, threshold: real)
    returns (passed: bool, c: Comparison, missing: set<G>, ungoverned: set<G>)
    requires AllCovered(s.ledger, s.reference)
    ensures var ledger, reference := s.ledger - Incomparable(s), s.reference - Incomparable(s);
      AllCovered(ledger, reference) && Describes(c, ledger, reference, s.tolerance)
    ensures forall g :: g in missing <==> g in s.wanted && g !in s.held
    ensures forall g :: g in ungoverned <==> g in s.held && g !in s.wanted
    ensures passed <==>
      && (forall i :: i in s.governed && i in s.reference && i in s.games ==> s.games[i] <= s.governed[i])
      && s.held == s.wanted && MatchRate(c) >= threshold
    ensures threshold == 1.0 ==> (passed <==>
      && (forall i :: i in s.governed && i in s.reference && i in s.games ==> s.games[i] <= s.governed[i])
      && s.held == s.wanted && s.ledger.Keys == s.reference.Keys
      && forall i :: i in s.ledger && i in s.reference ==> Within(s.tolerance, s.ledger[i], s.reference[i]))
  {
    hide Within, MatchRate, AllCovered, Describes;
    missing, ungoverned := s.wanted - s.held, s.held - s.wanted;
    var out := Incomparable(s);
    assert out == {} <==> forall i :: i in s.governed && i in s.reference && i in s.games ==> s.games[i] <= s.governed[i] by {
      if out == {} {
        forall i | i in s.governed && i in s.reference && i in s.games ensures s.games[i] <= s.governed[i] { assert i !in out; }
      }
    }
    var ledger, reference := s.ledger - out, s.reference - out;
    Remaining(s.ledger, s.reference, out);
    c := CompareWindow(ledger, reference, s.tolerance);
    assert missing == {} && ungoverned == {} <==> s.held == s.wanted by {
      if missing == {} && ungoverned == {} {
        forall g ensures g in s.held <==> g in s.wanted { assert g !in missing && g !in ungoverned; }
      }
    }
    passed := out == {} && missing == {} && ungoverned == {} && MatchRate(c) >= threshold;
    if out == {} { PerfectRate(s.ledger, s.reference, s.tolerance, c); }
  }

  ghost predicate Looser(t: Tolerance, t': Tolerance) { forall f: string :: Allowed(t, f) <= Allowed(t', f) }

  lemma RateMono(n: real, m: real, d: real)
    requires n <= m && d > 0.0
    ensures n / d <= m / d
  {
    assert (n / d) * d == n && (m / d) * d == m;
  }

  lemma MoreMatches(c: Comparison, c': Comparison)
    requires c.compared == c'.compared && c.exact + c.within <= c'.exact + c'.within
    requires |c.ledgerOnly| == |c'.ledgerOnly| && |c.referenceOnly| == |c'.referenceOnly|
    ensures MatchRate(c) <= MatchRate(c')
  {
    var total := c.compared + |c.ledgerOnly| + |c.referenceOnly|;
    if total > 0 { RateMono((c.exact + c.within) as real, (c'.exact + c'.within) as real, total as real); }
  }

  lemma LooserWithin(t: Tolerance, t': Tolerance, cells: seq<Cell>, row: map<string, real>)
    requires Covered(cells, row) && Looser(t, t') && Within(t, cells, row)
    ensures Within(t', cells, row)
  {
    forall k | 0 <= k < |cells| ensures !Out(t', cells[k], row) {
      assert !Out(t, cells[k], row);
      assert Allowed(t, cells[k].field) <= Allowed(t', cells[k].field);
    }
  }

  lemma MatchedGrows(ledger: Ledger, reference: Reference, t: Tolerance, t': Tolerance, ids: set<string>)
    requires AllCovered(ledger, reference) && Looser(t, t') && ids <= Shared(ledger, reference)
    ensures Matched(ledger, reference, t, ids) <= Matched(ledger, reference, t', ids)
  {
    hide Within, Looser;
    forall i | i in Matched(ledger, reference, t, ids) ensures i in Matched(ledger, reference, t', ids) {
      LooserWithin(t, t', ledger[i], reference[i]);
    }
  }

  /** Loosening the tolerances never lowers the match rate. */
  lemma LooserRate(ledger: Ledger, reference: Reference, t: Tolerance, t': Tolerance, c: Comparison, c': Comparison)
    requires AllCovered(ledger, reference) && Looser(t, t')
    requires Describes(c, ledger, reference, t) && Describes(c', ledger, reference, t')
    ensures MatchRate(c) <= MatchRate(c')
  {
    hide Matched, AllCovered, MatchRate, Looser;
    var shared := Shared(ledger, reference);
    MatchedGrows(ledger, reference, t, t', shared);
    SubsetSize(Matched(ledger, reference, t, shared), Matched(ledger, reference, t', shared));
    MoreMatches(c, c');
  }
}
