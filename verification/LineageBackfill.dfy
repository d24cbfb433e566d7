/** Migration of queued composition jobs from singular triggers and checksums to keyed
    evidence. Columns hold decoded JSON; `None` is NULL, empty or undecodable text. */
module LineageBackfill {
  import opened Options
  import opened Sorting
  import opened CanonicalJson

  datatype Job = Job(triggerIds: Option<Json>, triggerId: Option<string>, evidence: Option<Json>,
                     checksum: Option<string>, gameSet: Option<string>, generation: int)

  /** `str` on the JSON scalars the parsers admit; a bool counts as an int there. */
  function Text(v: Json): string
  {
    match v
    case Str(s) => s
    case Num(n) => if n < 0 then ['-'] + PutNat(-n, "") else PutNat(n, "")
    case Bool(b) => if b then "True" else "False"
    case _ => ""
  }

  function ListTexts(items: seq<Json>): seq<string>
  {
    if |items| == 0 then []
    else (if Text(items[0]) == "" then [] else [Text(items[0])]) + ListTexts(items[1..])
  }

  /** `parsed_list`. A bare string is taken as it is, even when empty. */
  function ParsedList(column: Option<Json>): seq<string>
  {
    match column
    case Some(Arr(items)) => ListTexts(items)
    case Some(Str(s)) => [s]
    case Some(Num(n)) => [Text(Num(n))]
    case _ => []
  }

  datatype Pair = Pair(game: string, checksum: string)

  function PairTexts(es: seq<Entry>): seq<Pair>
  {
    if |es| == 0 then []
    else
      var text := Text(es[0].value);
      (if es[0].key == "" || text == "" then [] else [Pair(es[0].key, text)]) + PairTexts(es[1..])
  }

  /** `parsed_mapping`, in document order. */
  function ParsedMapping(column: Option<Json>): seq<Pair>
  {
    match column
    case Some(Obj(es)) => PairTexts(es)
    case _ => []
  }

  predicate PairLess(a: Pair, b: Pair) { LexLess(a.game, b.game) }

  function Games(ps: seq<Pair>): (gs: seq<string>)
    ensures |gs| == |ps| && forall i :: 0 <= i < |ps| ==> gs[i] == ps[i].game
  {
    seq(|ps|, i requires 0 <= i < |ps| => ps[i].game)
  }

  function EncodedList(ids: seq<string>): Json { Arr(seq(|ids|, i requires 0 <= i < |ids| => Str(ids[i]))) }

  function EncodedMapping(ps: seq<Pair>): Json
  {
    Obj(seq(|ps|, i requires 0 <= i < |ps| => Entry(ps[i].game, Str(ps[i].checksum))))
  }

  function AtLeastOne(n: int): int { if n < 1 then 1 else n }

  predicate Truthy(s: Option<string>) { s.Some? && s.value != "" }

  /** The ids and the evidence a pass works from. */
  function Gathered(job: Job): (seq<string>, seq<Pair>)
  {
    var listed := ParsedList(job.triggerIds);
    var ids := if listed == [] && Truthy(job.triggerId) then [job.triggerId.value] else listed;
    var stored := ParsedMapping(job.evidence);
    var evidence := if stored == [] && |ids| == 1 && Truthy(job.checksum) then [Pair(ids[0], job.checksum.value)] else stored;
    (ids, evidence)
  }

  /** The body of the loop: `digest` hashes a JSON value's encoding. */
  function Backfilled(digest: Json -> string, job: Job): Job
  {
    var (ids, evidence) := Gathered(job);
    if ids == [] && evidence == [] then job.(generation := AtLeastOne(job.generation))
    else
      var all := SortedSet(ids + Games(evidence));
      var sorted := Sort(PairLess, evidence);
      var checksum :=
        if evidence == [] then job.checksum
        else if |evidence| == 1 then Some(evidence[0].checksum)
        else Some(digest(EncodedMapping(sorted)));
      Job(Some(EncodedList(all)), if |all| == 1 then Some(all[0]) else None, Some(EncodedMapping(sorted)), checksum,
          Some(digest(EncodedList(all))), AtLeastOne(job.generation))
  }

  // ----- reading back what a pass writes

  predicate NoEmpty(ids: seq<string>) { forall i :: 0 <= i < |ids| ==> ids[i] != "" }

  predicate NoEmptyPair(ps: seq<Pair>) { forall i :: 0 <= i < |ps| ==> ps[i].game != "" && ps[i].checksum != "" }

  lemma {:induction false} ListTextsOf(items: seq<Json>, ids: seq<string>)
    requires |items| == |ids| && NoEmpty(ids) && forall i :: 0 <= i < |ids| ==> items[i] == Str(ids[i])
    ensures ListTexts(items) == ids
  {
    if |ids| == 0 {
    } else {
      ListTextsOf(items[1..], ids[1..]);
      assert ids == [ids[0]] + ids[1..];
    }
  }

  lemma {:induction false} PairTextsOf(es: seq<Entry>, ps: seq<Pair>)
    requires |es| == |ps| && NoEmptyPair(ps)
    requires forall i :: 0 <= i < |ps| ==> es[i] == Entry(ps[i].game, Str(ps[i].checksum))
    ensures PairTexts(es) == ps
  {
    if |ps| == 0 {
    } else {
      PairTextsOf(es[1..], ps[1..]);
      assert ps == [ps[0]] + ps[1..];
    }
  }

  lemma {:induction false} ListTextsNoEmpty(items: seq<Json>)
    ensures NoEmpty(ListTexts(items))
  {
    if |items| == 0 {
    } else {
      ListTextsNoEmpty(items[1..]);
    }
  }

  predicate DistinctGames(ps: seq<Pair>) { forall i, j :: 0 <= i < j < |ps| ==> ps[i].game != ps[j].game }

  lemma {:induction false} PairTextsGood(es: seq<Entry>)
    requires DistinctKeys(es)
    ensures NoEmptyPair(PairTexts(es)) && DistinctGames(PairTexts(es))
    ensures forall p :: p in PairTexts(es) ==> p.game in Keys(es)
  {
    if |es| == 0 {
    } else {
      PairTextsGood(es[1..]);
      assert forall k :: k in Keys(es[1..]) ==> k in Keys(es) && k != es[0].key by {
        assert forall i :: 0 <= i < |es| - 1 ==> es[1..][i] == es[i + 1];
      }
      assert es[0].key in Keys(es);
    }
  }

  /** The one string a list can hold that its own re-parse drops. */
  predicate BareEmpty(job: Job) { job.triggerIds == Some(Str("")) }

  ghost predicate Storable(job: Job) { job.evidence.Some? && job.evidence.value.Obj? ==> DistinctKeys(job.evidence.value.entries) }

  lemma GatheredGood(job: Job)
    requires Storable(job)
    ensures var (ids, evidence) := Gathered(job);
      && DistinctGames(evidence)
      && (ids == [""] || NoEmpty(ids))
      && (ParsedList(job.triggerIds) == [""] <==> BareEmpty(job))
      && (!BareEmpty(job) ==> NoEmpty(ids))
      && (NoEmptyPair(evidence) || (ids == [""] && ParsedMapping(job.evidence) == []))
  {
    if job.triggerIds.Some? && job.triggerIds.value.Arr? { ListTextsNoEmpty(job.triggerIds.value.items); }
    if job.triggerIds.Some? && job.triggerIds.value.Num? {
      var n := job.triggerIds.value.n;
      PutNatLeads(if n < 0 then -n else n, "");
    }
    if job.evidence.Some? && job.evidence.value.Obj? { PairTextsGood(job.evidence.value.entries); }
  }

  lemma SortIsStable(s: seq<Pair>)
    requires StrictOrder(PairLess) && StrictlySorted(PairLess, s)
    ensures DistinctGames(s) && Sort(PairLess, s) == s
  {
    hide Sort;
    assert PairwiseComparable(PairLess, s);
    SortSorts(PairLess, s);
    SortPermutes(PairLess, s);
    SortedUnique(PairLess, Sort(PairLess, s), s);
    forall i, j | 0 <= i < j < |s| ensures s[i].game != s[j].game {
      assert PairLess(s[i], s[j]);
      LexIrreflexive(s[i].game);
    }
  }

  lemma SortPairs(ps: seq<Pair>, s: seq<Pair>)
    requires DistinctGames(ps) && s == Sort(PairLess, ps)
    ensures |s| == |ps| && (forall p :: p in s <==> p in ps)
    ensures StrictlySorted(PairLess, s) && DistinctGames(s) && Sort(PairLess, s) == s
    ensures NoEmptyPair(ps) ==> NoEmptyPair(s)
  {
    hide Sort;
    SortPermutes(PairLess, ps);
    assert StrictOrder(PairLess) by { LexIsStrictOrder(); }
    assert PairwiseComparable(PairLess, ps) by {
      forall i, j | 0 <= i < j < |ps| ensures PairLess(ps[i], ps[j]) || PairLess(ps[j], ps[i]) {
        LexTotal(ps[i].game, ps[j].game);
      }
    }
    SortSorts(PairLess, ps);
    SortIsStable(s);
    assert forall i :: 0 <= i < |s| ==> s[i] in ps;
  }

  lemma SingletonSet(ids: seq<string>)
    requires |ids| > 0
    ensures |SortedSet(ids)| == 1 <==> forall i :: 0 <= i < |ids| ==> ids[i] == ids[0]
  {
    hide SortedSet;
    var all := SortedSet(ids);
    assert ids[0] in all && all[0] in ids;
    assert |all| > 1 ==> all[1] in ids && all[0] != all[1] by {
      if |all| > 1 { assert LexLess(all[0], all[1]); LexIrreflexive(all[0]); }
    }
    assert |all| == 1 ==> forall i :: 0 <= i < |ids| ==> ids[i] in all;
  }

  /** A job whose ids and evidence a pass gathers as `ids` and `evidence`, none of them empty. */
  ghost predicate Plain(job: Job, ids: seq<string>, evidence: seq<Pair>)
  {
    && Gathered(job) == (ids, evidence) && (ids != [] || evidence != [])
    && NoEmpty(ids) && NoEmptyPair(evidence) && DistinctGames(evidence)
  }

  lemma ListReadBack(ids: seq<string>, evidence: seq<Pair>, all: seq<string>)
    requires NoEmpty(ids) && NoEmptyPair(evidence) && (ids != [] || evidence != [])
    requires all == SortedSet(ids + Games(evidence))
    ensures |all| > 0 && NoEmpty(all) && ParsedList(Some(EncodedList(all))) == all
  {
    hide SortedSet;
    var some := ids + Games(evidence);
    assert some[0] in all;
    forall i | 0 <= i < |all| ensures all[i] != "" { assert all[i] in some; }
    ListTextsOf(EncodedList(all).items, all);
  }

  lemma MappingReadBack(evidence: seq<Pair>, sorted: seq<Pair>)
    requires NoEmptyPair(evidence) && DistinctGames(evidence) && sorted == Sort(PairLess, evidence)
    ensures ParsedMapping(Some(EncodedMapping(sorted))) == sorted
    ensures EncodedMapping(sorted).Obj? && DistinctKeys(EncodedMapping(sorted).entries)
  {
    hide Sort;
    SortPairs(evidence, sorted);
    PairTextsOf(EncodedMapping(sorted).entries, sorted);
  }

  /** The written columns, re-parsed, are the sorted ids and the sorted evidence. */
  lemma PlainReadBack(digest: Json -> string, job: Job, ids: seq<string>, evidence: seq<Pair>)
    requires Plain(job, ids, evidence)
    ensures var job' := Backfilled(digest, job); var all := SortedSet(ids + Games(evidence));
      && |all| > 0 && NoEmpty(all)
      && ParsedList(job'.triggerIds) == all
      && ParsedMapping(job'.evidence) == Sort(PairLess, evidence)
      && Storable(job')
  {
    hide SortedSet, Sort, Gathered, ParsedList, ParsedMapping, EncodedList, EncodedMapping, DistinctKeys;
    ListReadBack(ids, evidence, SortedSet(ids + Games(evidence)));
    MappingReadBack(evidence, Sort(PairLess, evidence));
  }

  lemma AllAgain(ids: seq<string>, evidence: seq<Pair>, sorted: seq<Pair>)
    requires sorted == Sort(PairLess, evidence) && DistinctGames(evidence)
    ensures var all := SortedSet(ids + Games(evidence)); SortedSet(all + Games(sorted)) == all
  {
    hide SortedSet, Sort;
    var all := SortedSet(ids + Games(evidence));
    var again := all + Games(sorted);
    SortPairs(evidence, sorted);
    forall x ensures x in again <==> x in all {
      if x in Games(sorted) {
        var i :| 0 <= i < |sorted| && sorted[i].game == x;
        assert sorted[i] in evidence;
        var k :| 0 <= k < |evidence| && evidence[k] == sorted[i];
        assert (ids + Games(evidence))[|ids| + k] == x;
      }
    }
    LexIsStrictOrder();
    SortedUnique(LexLess, SortedSet(again), all);
  }

  /** The checksum a duplicated single id leaves unbound. */
  predicate Unbound(job: Job, ids: seq<string>, evidence: seq<Pair>)
  {
    evidence == [] && |SortedSet(ids)| == 1 && Truthy(job.checksum)
  }

  lemma PlainFixed(digest: Json -> string, job: Job, ids: seq<string>, evidence: seq<Pair>)
    requires Plain(job, ids, evidence) && !Unbound(job, ids, evidence)
    ensures var job' := Backfilled(digest, job); Backfilled(digest, job') == job'
  {
    hide SortedSet, Sort, ParsedList, ParsedMapping;
    var all, sorted := SortedSet(ids + Games(evidence)), Sort(PairLess, evidence);
    SortPairs(evidence, sorted);
    PlainReadBack(digest, job, ids, evidence);
    AllAgain(ids, evidence, sorted);
    assert evidence == [] ==> ids + Games(evidence) == ids;
    if |evidence| == 1 { assert sorted[0] in evidence; }
  }

  lemma PlainUnbound(digest: Json -> string, job: Job, ids: seq<string>)
    requires Plain(job, ids, []) && Unbound(job, ids, [])
    ensures var job' := Backfilled(digest, job);
      && Backfilled(digest, job').evidence != job'.evidence
      && exists evidence :: evidence != [] && Plain(job', SortedSet(ids), evidence)
  {
    hide SortedSet, ParsedList, ParsedMapping;
    var job', all := Backfilled(digest, job), SortedSet(ids);
    PlainReadBack(digest, job, ids, []);
    assert ids + Games([]) == ids;
    var bound := [Pair(all[0], job.checksum.value)];
    assert Sort(PairLess, bound) == bound;
    assert Plain(job', all, bound);
    assert EncodedMapping(bound).entries != EncodedMapping([]).entries;
  }

  // ----- the bare empty string

  lemma EmptyTexts(ids: seq<string>, ps: seq<Pair>)
    requires ids == [""] && (ps == [] || (|ps| == 1 && ps[0].game == ""))
    ensures ListTexts(EncodedList(ids).items) == [] && PairTexts(EncodedMapping(ps).entries) == []
  {
    var items, es := EncodedList(ids).items, EncodedMapping(ps).entries;
    assert items[1..] == [] && (es == [] || es[1..] == []);
  }

  lemma OnlyEmpty(s: seq<string>)
    requires |s| > 0 && forall i :: 0 <= i < |s| ==> s[i] == ""
    ensures SortedSet(s) == [""]
  {
    hide SortedSet;
    SingletonSet(s);
    assert SortedSet(s)[0] in s;
  }

  /** Alone, the empty id is written once and every later pass skips the job. */
  lemma BareEmptyAlone(digest: Json -> string, job: Job)
    requires BareEmpty(job) && ParsedMapping(job.evidence) == []
    ensures var job' := Backfilled(digest, job); Backfilled(digest, job') == job'
  {
    hide SortedSet, Sort, ListTexts, PairTexts, Text;
    var (ids, evidence) := Gathered(job);
    assert ids == [""];
    OnlyEmpty(ids + Games(evidence));
    var sorted := Sort(PairLess, evidence);
    SortPermutes(PairLess, evidence);
    assert |sorted| == 1 ==> sorted[0] in evidence;
    EmptyTexts([""], sorted);
    assert Gathered(Backfilled(digest, job)) == ([], []);
  }

  lemma EmptySortsFirst(all: seq<string>)
    requires StrictlySorted(LexLess, all) && "" in all
    ensures all[0] == "" && NoEmpty(all[1..])
  {
    var i :| 0 <= i < |all| && all[i] == "";
    assert i == 0 || LexLess(all[0], all[i]);
  }

  lemma EmptyDropped(all: seq<string>)
    requires StrictlySorted(LexLess, all) && "" in all
    ensures all[0] == "" && NoEmpty(all[1..]) && ListTexts(EncodedList(all).items) == all[1..]
  {
    EmptySortsFirst(all);
    var rest := all[1..];
    assert EncodedList(all).items[0] == Str("") && EncodedList(all).items[1..] == EncodedList(rest).items;
    ListTextsOf(EncodedList(rest).items, rest);
  }

  /** With evidence beside it, the empty id is written first and the second pass gathers the rest. */
  lemma BareEmptyGathered(digest: Json -> string, job: Job, all: seq<string>, sorted: seq<Pair>)
    requires BareEmpty(job) && ParsedMapping(job.evidence) != [] && Storable(job)
    requires all == SortedSet([""] + Games(ParsedMapping(job.evidence)))
    requires sorted == Sort(PairLess, ParsedMapping(job.evidence))
    ensures |all| > 1 && all[0] == "" && sorted != []
    ensures Backfilled(digest, job).triggerIds == Some(EncodedList(all))
    ensures Plain(Backfilled(digest, job), all[1..], sorted)
  {
    hide SortedSet, Sort, ListTexts, PairTexts;
    GatheredGood(job);
    var evidence := ParsedMapping(job.evidence);
    SortPairs(evidence, sorted);
    assert ([""] + Games(evidence))[0] == "" && ([""] + Games(evidence))[1] == evidence[0].game;
    assert "" in all && evidence[0].game in all && evidence[0].game != "";
    EmptyDropped(all);
    PairTextsOf(EncodedMapping(sorted).entries, sorted);
  }

  lemma WritesNoEmpty(digest: Json -> string, job: Job, ids: seq<string>, evidence: seq<Pair>)
    requires Plain(job, ids, evidence)
    ensures var t := Backfilled(digest, job).triggerIds;
      t.Some? && t.value.Arr? && forall i :: 0 <= i < |t.value.items| ==> t.value.items[i] != Str("")
  {
    hide SortedSet, Sort;
    PlainReadBack(digest, job, ids, evidence);
  }

  lemma BareEmptyWithEvidence(digest: Json -> string, job: Job)
    requires BareEmpty(job) && ParsedMapping(job.evidence) != [] && Storable(job)
    ensures var job' := Backfilled(digest, job);
      && Backfilled(digest, job').triggerIds != job'.triggerIds
      && exists ids, evidence :: evidence != [] && Plain(job', ids, evidence)
  {
    hide SortedSet, Sort, Plain, ParsedMapping;
    var evidence := ParsedMapping(job.evidence);
    var all, sorted := SortedSet([""] + Games(evidence)), Sort(PairLess, evidence);
    var job' := Backfilled(digest, job);
    BareEmptyGathered(digest, job, all, sorted);
    WritesNoEmpty(digest, job', all[1..], sorted);
    assert EncodedList(all).items[0] == Str("");
  }

  // ----- how many passes it takes

  /** What a caller can check before the first pass: an id list that is one id repeated, with a
      checksum and no evidence, or a bare empty string beside evidence. */
  predicate NeedsTwoPasses(job: Job)
  {
    var listed, stored := ParsedList(job.triggerIds), ParsedMapping(job.evidence);
    || (stored == [] && |listed| >= 2 && Truthy(job.checksum) && forall i :: 0 <= i < |listed| ==> listed[i] == listed[0])
    || (BareEmpty(job) && stored != [])
  }

  lemma UnboundIsRepeated(job: Job, ids: seq<string>, evidence: seq<Pair>)
    requires Plain(job, ids, evidence) && !BareEmpty(job)
    ensures Unbound(job, ids, evidence) <==> NeedsTwoPasses(job)
  {
    hide SortedSet, ParsedMapping;
    if |ids| > 0 { SingletonSet(ids); }
    assert |ids| == 0 ==> |SortedSet(ids)| != 1 by {
      if |SortedSet(ids)| == 1 { assert SortedSet(ids)[0] in ids; }
    }
  }

  lemma BareIsNotRepeated(job: Job)
    requires BareEmpty(job) && ParsedMapping(job.evidence) == []
    ensures !NeedsTwoPasses(job)
  {
  }

  lemma NothingGathered(digest: Json -> string, job: Job)
    requires Gathered(job) == ([], [])
    ensures Backfilled(digest, Backfilled(digest, job)) == Backfilled(digest, job)
    ensures !NeedsTwoPasses(job)
  {
    hide SortedSet, Sort;
  }

  /** One pass reaches a fixed point exactly when the job does not need two; two passes always do. */
  lemma PassesNeeded(digest: Json -> string, job: Job)
    requires Storable(job)
    ensures var once := Backfilled(digest, job); var twice := Backfilled(digest, once);
      && (twice == once <==> !NeedsTwoPasses(job))
      && Backfilled(digest, twice) == twice
  {
    hide Backfilled, SortedSet, Sort, ParsedList, ParsedMapping, PairTexts;
    GatheredGood(job);
    var (ids, evidence) := Gathered(job);
    var once := Backfilled(digest, job);
    if ids == [] && evidence == [] {
      NothingGathered(digest, job);
    } else if BareEmpty(job) && ParsedMapping(job.evidence) == [] {
      BareEmptyAlone(digest, job);
      BareIsNotRepeated(job);
    } else if BareEmpty(job) {
      BareEmptyWithEvidence(digest, job);
      var ids', evidence' :| evidence' != [] && Plain(once, ids', evidence');
      PlainFixed(digest, once, ids', evidence');
    } else {
      assert Plain(job, ids, evidence);
      UnboundIsRepeated(job, ids, evidence);
      if Unbound(job, ids, evidence) {
        PlainUnbound(digest, job, ids);
        var evidence' :| evidence' != [] && Plain(once, SortedSet(ids), evidence');
        PlainFixed(digest, once, SortedSet(ids), evidence');
      } else {
        PlainFixed(digest, job, ids, evidence);
      }
    }
  }

  // ----- what a pass reads and writes

  /** The id list names `x`: as the text of an element, or as the whole column. */
  ghost predicate Listed(column: Option<Json>, x: string)
  {
    || (column.Some? && column.value.Arr? && x != ""
        && exists i :: 0 <= i < |column.value.items| && Text(column.value.items[i]) == x)
    || column == Some(Str(x))
    || (column.Some? && column.value.Num? && x == Text(column.value))
  }

  /** The evidence maps a game to a checksum, neither of them empty. */
  ghost predicate Evidenced(column: Option<Json>, p: Pair)
  {
    && p.game != "" && p.checksum != "" && column.Some? && column.value.Obj?
    && exists i :: 0 <= i < |column.value.entries| && column.value.entries[i].key == p.game
         && Text(column.value.entries[i].value) == p.checksum
  }

  lemma {:induction false} ListTextsExact(items: seq<Json>, x: string)
    ensures x in ListTexts(items) <==> x != "" && exists i :: 0 <= i < |items| && Text(items[i]) == x
  {
    if |items| == 0 {
    } else {
      ListTextsExact(items[1..], x);
      if i :| 0 <= i < |items| && Text(items[i]) == x { assert i == 0 || items[1..][i - 1] == items[i]; }
      if i :| 0 <= i < |items| - 1 && Text(items[1..][i]) == x { assert items[i + 1] == items[1..][i]; }
    }
  }

  lemma {:induction false} PairTextsExact(es: seq<Entry>, p: Pair)
    ensures p in PairTexts(es) <==>
      && p.game != "" && p.checksum != ""
      && exists i :: 0 <= i < |es| && es[i].key == p.game && Text(es[i].value) == p.checksum
  {
    if |es| == 0 {
    } else {
      PairTextsExact(es[1..], p);
      if i :| 0 <= i < |es| && es[i].key == p.game && Text(es[i].value) == p.checksum {
        assert i == 0 || es[1..][i - 1] == es[i];
      }
      if i :| 0 <= i < |es| - 1 && es[1..][i].key == p.game && Text(es[1..][i].value) == p.checksum {
        assert es[i + 1] == es[1..][i];
      }
    }
  }

  lemma ListedExact(column: Option<Json>, x: string)
    ensures x in ParsedList(column) <==> Listed(column, x)
  {
    hide Text, ListTexts;
    if column.Some? && column.value.Arr? { ListTextsExact(column.value.items, x); }
  }

  lemma EvidencedExact(column: Option<Json>, p: Pair)
    ensures p in ParsedMapping(column) <==> Evidenced(column, p)
  {
    hide Text, PairTexts;
    if column.Some? && column.value.Obj? { PairTextsExact(column.value.entries, p); }
  }

  /** A pass gathers the listed ids or else the singular trigger, and the stored evidence or else the
      singular checksum under the one id there is. */
  lemma GatheredExact(job: Job)
    ensures var (ids, evidence) := Gathered(job);
      && (forall x :: x in ids <==>
            || Listed(job.triggerIds, x)
            || ((forall y :: !Listed(job.triggerIds, y)) && x != "" && job.triggerId == Some(x)))
      && (forall p :: p in evidence <==>
            || Evidenced(job.evidence, p)
            || ((forall q :: !Evidenced(job.evidence, q)) && ids == [p.game] && p.checksum != "" && job.checksum == Some(p.checksum)))
  {
    hide Text, ListTexts, PairTexts, Listed, Evidenced;
    var listed, stored := ParsedList(job.triggerIds), ParsedMapping(job.evidence);
    forall x ensures x in listed <==> Listed(job.triggerIds, x) { ListedExact(job.triggerIds, x); }
    forall p ensures p in stored <==> Evidenced(job.evidence, p) { EvidencedExact(job.evidence, p); }
    assert listed == [] <==> forall y :: !Listed(job.triggerIds, y) by { if |listed| > 0 { assert listed[0] in listed; } }
    assert stored == [] <==> forall q :: !Evidenced(job.evidence, q) by { if |stored| > 0 { assert stored[0] in stored; } }
  }

  /** The column is the list of these texts. */
  predicate IsList(column: Option<Json>, ids: seq<string>)
  {
    && column.Some? && column.value.Arr? && |column.value.items| == |ids|
    && forall i :: 0 <= i < |ids| ==> column.value.items[i] == Str(ids[i])
  }

  /** The column is the object of these pairs, in this order. */
  predicate IsMapping(column: Option<Json>, ps: seq<Pair>)
  {
    && column.Some? && column.value.Obj? && |column.value.entries| == |ps|
    && forall i :: 0 <= i < |ps| ==> column.value.entries[i] == Entry(ps[i].game, Str(ps[i].checksum))
  }

  /** What a pass leaves: the ids are the gathered ids and every evidence key, sorted and distinct, and
      alone also the singular trigger; the evidence is the gathered evidence sorted by game; the
      checksum is that of a single game's evidence, or the digest of the evidence as written; the
      game-set checksum is the digest of the ids as written; and the generation is at least 1. A job
      with nothing to gather keeps its columns. */
  ghost predicate Written(digest: Json -> string, job: Job, job': Job)
  {
    var (ids, evidence) := Gathered(job);
    && job'.generation == (if job.generation < 1 then 1 else job.generation)
    && if ids == [] && evidence == [] then job' == job.(generation := job'.generation)
       else
         exists all: seq<string>, sorted: seq<Pair> ::
           && IsList(job'.triggerIds, all) && StrictlySorted(LexLess, all)
           && (forall x :: x in all <==> x in ids || exists p :: p in evidence && p.game == x)
           && job'.triggerId == (if |all| == 1 then Some(all[0]) else None)
           && job'.gameSet == Some(digest(job'.triggerIds.value))
           && IsMapping(job'.evidence, sorted) && StrictlySorted(PairLess, sorted)
           && (forall p :: p in sorted <==> p in evidence)
           && job'.checksum == (if |sorted| == 0 then job.checksum
                                else if |sorted| == 1 then Some(sorted[0].checksum)
                                else Some(digest(job'.evidence.value)))
  }

  lemma GamesMember(ps: seq<Pair>, x: string)
    ensures x in Games(ps) <==> exists p :: p in ps && p.game == x
  {
    if p :| p in ps && p.game == x {
      var i :| 0 <= i < |ps| && ps[i] == p;
      assert Games(ps)[i] == x;
    }
    if x in Games(ps) {
      var i :| 0 <= i < |ps| && Games(ps)[i] == x;
      assert ps[i] in ps;
    }
  }

  lemma EncodedForm(ids: seq<string>, ps: seq<Pair>)
    ensures IsList(Some(EncodedList(ids)), ids) && IsMapping(Some(EncodedMapping(ps)), ps)
  {
  }

  lemma WrittenForm(digest: Json -> string, job: Job)
    requires Storable(job)
    ensures Written(digest, job, Backfilled(digest, job))
  {
    hide SortedSet, Sort, ParsedList, ParsedMapping, Gathered, EncodedList, EncodedMapping, IsList, IsMapping, Games;
    GatheredGood(job);
    var (ids, evidence) := Gathered(job);
    if !(ids == [] && evidence == []) {
      var all, sorted := SortedSet(ids + Games(evidence)), Sort(PairLess, evidence);
      SortPairs(evidence, sorted);
      forall x ensures x in all <==> x in ids || exists p :: p in evidence && p.game == x { GamesMember(evidence, x); }
      if |evidence| == 1 { assert sorted[0] in evidence; }
      EncodedForm(all, sorted);
      var job' := Backfilled(digest, job);
      assert IsList(job'.triggerIds, all) && IsMapping(job'.evidence, sorted);
    }
  }

  /** `_backfill_correction_lineage`: the pass over every queued job. */
  method Backfill(digest: Json -> string, jobs: array<Job>)
    modifies jobs
    ensures forall i :: 0 <= i < jobs.Length ==> jobs[i] == Backfilled(digest, old(jobs[i]))
    ensures forall i :: 0 <= i < jobs.Length && Storable(old(jobs[i])) ==> Written(digest, old(jobs[i]), jobs[i])
  {
    hide Backfilled, Written, Storable;
    for i := 0 to jobs.Length
      invariant forall k :: 0 <= k < i ==> jobs[k] == Backfilled(digest, old(jobs[k]))
      invariant forall k :: 0 <= k < i && Storable(old(jobs[k])) ==> Written(digest, old(jobs[k]), jobs[k])
      invariant forall k :: i <= k < jobs.Length ==> jobs[k] == old(jobs[k])
    {
      if Storable(jobs[i]) { WrittenForm(digest, jobs[i]); }
      jobs[i] := Backfilled(digest, jobs[i]);
    }
  }
}
