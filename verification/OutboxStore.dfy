/** The Residential Outbox as a transition system: what one transaction may do to the
    queue, and what holds in every state any run of transactions can reach. */
module OutboxStore {
  import opened Options
  import opened Sorting
  import opened Timestamps
  import opened Envelopes
  import SafeMetadata
  import CanonicalJson

  const MAX_METADATA_BYTES := 64 * 1024

  datatype Row = Row(kind: string, clientId: string, checksum: string, cutoff: string, createdAt: string,
                     payload: Bytes, metadata: string, requestId: Option<string>, attempts: nat,
                     lastError: Option<string>)

  /** An enqueue request. */
  datatype Item = Item(kind: string, clientId: string, checksum: string, cutoff: DateTime, payload: Bytes,
                       metadata: seq<CanonicalJson.Entry>, requestId: Option<string>)

  datatype Config = Config(maxBytes: nat, maxItemBytes: nat, pageSize: nat, baseline: int)

  /** Storage footprints measured by one transaction: at admission, after the insert, at commit. */
  datatype Measured = Measured(admission: int, inserted: int, commit: int)

  /** The rows, the AUTOINCREMENT sequence, and the history: every row ever inserted, the
      receipt that acknowledged it, or the governed cutoff that pruned it. */
  datatype State = State(rows: map<nat, Row>, lastId: nat, inserted: map<nat, Row>, acknowledged: map<nat, string>,
                         pruned: map<nat, string>)

  datatype Op =
    | Enqueue(item: Item, now: DateTime)
    | MarkAttempt(id: nat, reason: Option<string>)
    | Acknowledge(id: nat, checksum: string)
    | Prune(before: DateTime)

  datatype Error = BadKind | BadPayload | Rejected(verdict: Verdict) | Unsafe(refusal: SafeMetadata.Refusal) | Full | Conflict | WrongReceipt | Crashed

  datatype Outcome = Inserted(id: nat) | Existing(id: nat) | Done(affected: nat) | Refused(error: Error)

  function Min(a: int, b: int): int { if a < b then a else b }

  function Headroom(cfg: Config): int
  {
    Min(if cfg.maxBytes / 8 < 4096 then 4096 else cfg.maxBytes / 8, 1024 * 1024)
  }

  predicate Over(cfg: Config, footprint: int) { footprint - cfg.baseline > cfg.maxBytes }

  /** Payload bytes of the pending rows with ids up to `n`. */
  function SumUpTo(rows: map<nat, Row>, n: nat): nat
  {
    if n == 0 then 0 else SumUpTo(rows, n - 1) + (if n in rows then |rows[n].payload| else 0)
  }

  function TotalBytes(s: State): nat { SumUpTo(s.rows, s.lastId) }

  lemma SizeWithout(rows: map<nat, Row>, id: nat)
    requires id in rows
    ensures |rows - {id}| < |rows|
  {
    assert (rows - {id}).Keys == rows.Keys - {id};
    assert |rows.Keys| == |rows| && |(rows - {id}).Keys| == |rows - {id}|;
  }

  /** Payload bytes of the rows, taken in any order. */
  ghost function PayloadSum(rows: map<nat, Row>): nat
    decreases |rows|
  {
    if rows == map[] then 0
    else
      var id :| id in rows;
      SizeWithout(rows, id);
      |rows[id].payload| + PayloadSum(rows - {id})
  }

  lemma {:induction false} SumWithout(rows: map<nat, Row>, id: nat, n: nat)
    requires id in rows
    ensures SumUpTo(rows, n) == SumUpTo(rows - {id}, n) + if 1 <= id <= n then |rows[id].payload| else 0
  {
    if n == 0 {
    } else {
      SumWithout(rows, id, n - 1);
    }
  }

  lemma {:induction false} SumOfNone(n: nat)
    ensures SumUpTo(map[], n) == 0
  {
    if n == 0 {
    } else {
      SumOfNone(n - 1);
    }
  }

  /** Where every id is in range, summing up to it sums all the rows. */
  lemma {:induction false} SumIsPayloadSum(rows: map<nat, Row>, n: nat)
    requires forall id :: id in rows ==> 1 <= id <= n
    ensures SumUpTo(rows, n) == PayloadSum(rows)
    decreases |rows|
  {
    if rows == map[] {
      SumOfNone(n);
    } else {
      forall id | id in rows
        ensures SumUpTo(rows, n) == |rows[id].payload| + SumUpTo(rows - {id}, n)
        ensures SumUpTo(rows - {id}, n) == PayloadSum(rows - {id})
      {
        SizeWithout(rows, id);
        SumWithout(rows, id, n);
        SumIsPayloadSum(rows - {id}, n);
      }
    }
  }

  /** The routing metadata as it is stored. */
  function Encoded(item: Item): string { CanonicalJson.Print(CanonicalJson.Obj(item.metadata)) }

  predicate Admitted(cfg: Config, s: State, item: Item, footprint: int)
  {
    var reserved := |item.payload| + Utf8Length(Encoded(item)) + 3 * cfg.pageSize;
    footprint - cfg.baseline + TotalBytes(s) + reserved <= cfg.maxBytes - Headroom(cfg)
  }

  predicate SameClient(r: Row, item: Item) { r.kind == item.kind && r.clientId == item.clientId }

  predicate SameItem(r: Row, item: Item) { SameClient(r, item) && r.checksum == item.checksum }

  function NewRow(item: Item, now: DateTime): Row
    requires Valid(item.cutoff) && Valid(now)
  {
    Row(item.kind, item.clientId, item.checksum, Iso(item.cutoff), Iso(now), item.payload, Encoded(item),
        item.requestId, 0, None)
  }

  /** The row holds exactly what was enqueued, untried. */
  predicate Records(row: Row, item: Item, now: DateTime)
    requires Valid(item.cutoff) && Valid(now)
  {
    && row.kind == item.kind && row.clientId == item.clientId && row.checksum == item.checksum
    && row.cutoff == Iso(item.cutoff) && row.createdAt == Iso(now)
    && row.payload == item.payload && row.metadata == CanonicalJson.Print(CanonicalJson.Obj(item.metadata))
    && row.requestId == item.requestId && row.attempts == 0 && row.lastError.None?
  }

  /** What `enqueue` checks before it opens its transaction. */
  function Screen(cfg: Config, codec: Codec, item: Item): Option<Error>
  {
    if item.kind != "observation" && item.kind != "catalog" then Some(BadKind)
    else if item.payload == [] then Some(BadPayload)
    else if |item.payload| > cfg.maxItemBytes then Some(Full)
    else
      var verdict := JudgeWire(codec, SourceNames(), item.payload, item.kind == "catalog", item.checksum);
      if verdict != Accepted then Some(Rejected(verdict))
      else
        var refusal := SafeMetadata.Walk(CanonicalJson.Obj(item.metadata));
        if refusal.Some? then Some(Unsafe(refusal.value))
        else if Utf8Length(Encoded(item)) > MAX_METADATA_BYTES then Some(Full)
        else None
  }

  /** The SQL text comparison shared by pruning and the retention queries. */
  predicate TextBefore(text: string, threshold: DateTime)
    requires Valid(threshold)
  {
    LexLess(text, Iso(threshold))
  }

  function Obsolete(rows: map<nat, Row>, before: DateTime): set<nat>
    requires Valid(before)
  {
    set id | id in rows && TextBefore(rows[id].cutoff, before)
  }

  predicate ValidOp(op: Op)
  {
    match op
    case Enqueue(item, now) => Valid(item.cutoff) && Valid(now)
    case Prune(before) => Valid(before)
    case _ => true
  }

  ghost predicate EnqueueStep(cfg: Config, codec: Codec, s: State, item: Item, now: DateTime, m: Measured, s': State,
                              o: Outcome)
    requires Valid(item.cutoff) && Valid(now)
  {
    && Screen(cfg, codec, item).None?
    && if o.Existing? then s' == s && o.id in s.rows && SameItem(s.rows[o.id], item)
       else
         && o == Inserted(s.lastId + 1)
         && (forall id :: id in s.rows ==> !SameClient(s.rows[id], item))
         && Admitted(cfg, s, item, m.admission) && !Over(cfg, m.inserted)
         && s'.lastId in s'.rows && Records(s'.rows[s'.lastId], item, now)
         && var id, row := s.lastId + 1, s'.rows[s'.lastId];
            s' == s.(rows := s.rows[id := row], lastId := id, inserted := s.inserted[id := row])
  }

  /** Why a transaction was refused; any transaction may also crash and roll back. */
  ghost predicate RefusalExplained(cfg: Config, codec: Codec, s: State, op: Op, m: Measured, e: Error)
  {
    e.Crashed? ||
    match op
    case Enqueue(item, _) =>
      if Screen(cfg, codec, item).Some? then e == Screen(cfg, codec, item).value
      else if exists id :: id in s.rows && SameItem(s.rows[id], item) then e == Full && Over(cfg, m.commit)
      else if exists id :: id in s.rows && SameClient(s.rows[id], item) then e == Conflict
      else e == Full && (!Admitted(cfg, s, item, m.admission) || Over(cfg, m.inserted) || Over(cfg, m.commit))
    case Acknowledge(id, checksum) =>
      if id in s.rows && s.rows[id].checksum != checksum then e == WrongReceipt else e == Full && Over(cfg, m.commit)
    case _ => e == Full && Over(cfg, m.commit)
  }

  /** One transaction. A refusal rolls back; anything else has passed the commit check. */
  ghost predicate Step(cfg: Config, codec: Codec, s: State, op: Op, m: Measured, s': State, o: Outcome)
    requires ValidOp(op)
  {
    if o.Refused? then s' == s && RefusalExplained(cfg, codec, s, op, m, o.error)
    else
      && !Over(cfg, m.commit)
      && match op
         case Enqueue(item, now) => EnqueueStep(cfg, codec, s, item, now, m, s', o)
         case MarkAttempt(id, reason) =>
           if id in s.rows then
             && o == Done(1)
             && s' == s.(rows := s.rows[id := s.rows[id].(attempts := s.rows[id].attempts + 1, lastError := reason)])
           else o == Done(0) && s' == s
         case Acknowledge(id, checksum) =>
           if id in s.rows then
             && o == Done(1) && s.rows[id].checksum == checksum
             && s' == s.(rows := s.rows - {id}, acknowledged := s.acknowledged[id := checksum])
           else o == Done(0) && s' == s
         case Prune(before) =>
           var gone := Obsolete(s.rows, before);
           && o == Done(|gone|)
           && s' == s.(rows := s.rows - gone, pruned := s.pruned + map id | id in gone :: Iso(before))
  }

  // ----- the five ways an enqueue ends

  lemma EnqueueScreened(cfg: Config, codec: Codec, s: State, item: Item, now: DateTime, m: Measured)
    requires Valid(item.cutoff) && Valid(now) && Screen(cfg, codec, item).Some?
    ensures Step(cfg, codec, s, Enqueue(item, now), m, s, Refused(Screen(cfg, codec, item).value))
    ensures Screen(cfg, codec, item).value != Crashed
  {
    hide JudgeWire, Encoded, Utf8Length, SafeMetadata.Walk;
  }

  lemma EnqueueFound(cfg: Config, codec: Codec, s: State, item: Item, now: DateTime, m: Measured, id: nat)
    requires Valid(item.cutoff) && Valid(now) && Screen(cfg, codec, item).None?
    requires id in s.rows && SameItem(s.rows[id], item)
    ensures Step(cfg, codec, s, Enqueue(item, now), m, s, if Over(cfg, m.commit) then Refused(Full) else Existing(id))
  {
    hide Screen;
  }

  lemma EnqueueConflicts(cfg: Config, codec: Codec, s: State, item: Item, now: DateTime, m: Measured, id: nat)
    requires Valid(item.cutoff) && Valid(now) && Screen(cfg, codec, item).None?
    requires (forall i :: i in s.rows ==> !SameItem(s.rows[i], item)) && id in s.rows && SameClient(s.rows[id], item)
    ensures Step(cfg, codec, s, Enqueue(item, now), m, s, Refused(Conflict))
  {
    hide Screen;
  }

  lemma EnqueueOverflows(cfg: Config, codec: Codec, s: State, item: Item, now: DateTime, m: Measured)
    requires Valid(item.cutoff) && Valid(now) && Screen(cfg, codec, item).None?
    requires forall i :: i in s.rows ==> !SameClient(s.rows[i], item)
    requires !Admitted(cfg, s, item, m.admission) || Over(cfg, m.inserted) || Over(cfg, m.commit)
    ensures Step(cfg, codec, s, Enqueue(item, now), m, s, Refused(Full))
  {
    hide Screen, Admitted, Over;
  }

  lemma EnqueueInserts(cfg: Config, codec: Codec, s: State, item: Item, now: DateTime, m: Measured, s': State)
    requires Valid(item.cutoff) && Valid(now) && Screen(cfg, codec, item).None?
    requires forall i :: i in s.rows ==> !SameClient(s.rows[i], item)
    requires Admitted(cfg, s, item, m.admission) && !Over(cfg, m.inserted) && !Over(cfg, m.commit)
    requires var id, row := s.lastId + 1, NewRow(item, now);
      s' == s.(rows := s.rows[id := row], lastId := id, inserted := s.inserted[id := row])
    ensures Step(cfg, codec, s, Enqueue(item, now), m, s', Inserted(s.lastId + 1))
  {
    hide Screen, Admitted, Over, Iso, CanonicalJson.Print;
  }

  // ----- what the envelopes become

  predicate OnlyScopeNested(values: seq<CanonicalJson.Json>, scope: CanonicalJson.Json)
  {
    && |values| > 7 && values[7] == scope
    && forall i :: 0 <= i < |values| && i != 7 ==> !values[i].Obj? && !values[i].Arr?
  }

  /** The scope is the eighth value, and the only one with keys of its own. */
  function MetadataValues(e: Envelope, kind: string): (values: seq<CanonicalJson.Json>)
    ensures |values| == 13 && OnlyScopeNested(values, e.scope)
  {
    [CanonicalJson.Str(kind), OptionalText(e.manifestId), CanonicalJson.Str(e.clientId),
     CanonicalJson.Str(e.environment), CanonicalJson.Str(e.collectorId), CanonicalJson.Str(e.provider),
     CanonicalJson.Str(e.kind), e.scope, CanonicalJson.Str(e.season), CanonicalJson.Str(e.cutoff),
     CanonicalJson.Str(e.retrievedAt), CanonicalJson.Num(e.schemaVersion), CanonicalJson.Str(e.checksum)]
  }

  function CatalogMetadataValues(c: Catalog): (values: seq<CanonicalJson.Json>)
    ensures |values| == 16 && OnlyScopeNested(values, c.envelope.scope)
  {
    MetadataValues(c.envelope, "catalog")
    + [CanonicalJson.Str(c.requestId), CanonicalJson.Str(c.version), OptionalText(c.expiresAt)]
  }

  function Zipped(keys: seq<string>, values: seq<CanonicalJson.Json>): seq<CanonicalJson.Entry>
    requires |keys| == |values|
  {
    seq(|keys|, i requires 0 <= i < |keys| => CanonicalJson.Entry(keys[i], values[i]))
  }

  /** Under keys that are safe themselves, only the scope's keys can be refused. */
  lemma ScopeDecides(keys: seq<string>, values: seq<CanonicalJson.Json>, scope: CanonicalJson.Json)
    requires |keys| == |values| && OnlyScopeNested(values, scope)
    requires forall i :: 0 <= i < |keys| ==> SafeMetadata.SafeKey(keys[i])
    ensures SafeMetadata.Walk(CanonicalJson.Obj(Zipped(keys, values))).None? <==> SafeMetadata.SafeKeys(scope)
  {
    hide SafeMetadata.SafeKey, SafeMetadata.Walk;
    var es := Zipped(keys, values);
    SafeMetadata.WalkExact(CanonicalJson.Obj(es));
    forall i | 0 <= i < |es| ensures SafeMetadata.SafeKeys(es[i].value) <==> i != 7 || SafeMetadata.SafeKeys(scope) { }
    assert es[7].value == scope;
  }

  /** What `enqueue_observation` asks for. */
  function ObservationItem(codec: Codec, e: Envelope): Item
    requires ParseStamp(e.cutoff).Some?
  {
    Item("observation", e.clientId, e.checksum, ParseStamp(e.cutoff).value,
         CompressedWire(codec, WireEntries(SourceNames(), e)),
         Zipped(SafeMetadata.MetadataKeys(), MetadataValues(e, "observation")), None)
  }

  /** What `enqueue_catalog` asks for. */
  function CatalogItem(codec: Codec, c: Catalog): Item
    requires ParseStamp(c.envelope.cutoff).Some?
  {
    Item("catalog", c.envelope.clientId, c.envelope.checksum, ParseStamp(c.envelope.cutoff).value,
         CompressedWire(codec, CatalogWireEntries(SourceNames(), c)),
         Zipped(SafeMetadata.CatalogMetadataKeys(), CatalogMetadataValues(c)), Some(c.requestId))
  }

  predicate FitsStore(cfg: Config, item: Item)
  {
    0 < |item.payload| <= cfg.maxItemBytes && Utf8Length(Encoded(item)) <= MAX_METADATA_BYTES
  }

  /** Screening a built observation: only its size, a missing manifest or an unsafe key in its
      scope can stop it. */
  lemma ObservationScreened(cfg: Config, codec: Codec, e: Envelope)
    requires Constructed(codec, e) && Fits(codec, WireEntries(SourceNames(), e))
    requires GzipReadsBack(codec, WireEntries(SourceNames(), e))
    ensures var item := ObservationItem(codec, e);
      Screen(cfg, codec, item).None? <==>
      e.manifestId.Some? && SafeMetadata.SafeKeys(e.scope) && FitsStore(cfg, item)
  {
    hide Constructed, Fits, GzipReadsBack, JudgeWire, WireEntries, CompressedWire, Names.Distinct, Utf8Length;
    hide ParseStamp, Encoded, SafeMetadata.SafeKeys, SafeMetadata.Walk, SafeMetadata.SafeKey;
    hide MetadataValues, Zipped, OnlyScopeNested;
    SourceNamesDistinct();
    ObservationAccepted(codec, SourceNames(), e, WireEntries(SourceNames(), e));
    SafeMetadata.MetadataKeysSafe();
    ScopeDecides(SafeMetadata.MetadataKeys(), MetadataValues(e, "observation"), e.scope);
  }

  /** Screening a built catalog: only its size or an unsafe key in its scope can stop it. */
  lemma CatalogScreened(cfg: Config, codec: Codec, c: Catalog)
    requires CatalogConstructed(codec, c) && Fits(codec, CatalogWireEntries(SourceNames(), c))
    requires GzipReadsBack(codec, CatalogWireEntries(SourceNames(), c))
    ensures var item := CatalogItem(codec, c);
      Screen(cfg, codec, item).None? <==> SafeMetadata.SafeKeys(c.envelope.scope) && FitsStore(cfg, item)
  {
    hide CatalogConstructed, Fits, GzipReadsBack, JudgeWire, CatalogWireEntries, CompressedWire, Names.Distinct;
    hide Utf8Length, ParseStamp, Encoded, SafeMetadata.SafeKeys, SafeMetadata.Walk, SafeMetadata.SafeKey;
    hide CatalogMetadataValues, Zipped, OnlyScopeNested;
    SourceNamesDistinct();
    CatalogAccepted(codec, SourceNames(), c, CatalogWireEntries(SourceNames(), c));
    SafeMetadata.MetadataKeysSafe();
    ScopeDecides(SafeMetadata.CatalogMetadataKeys(), CatalogMetadataValues(c), c.envelope.scope);
  }

  /** The routing metadata of an envelope, as the collector lists it. */
  predicate RoutedAs(metadata: seq<CanonicalJson.Entry>, e: Envelope, kind: string)
  {
    && |metadata| >= 13
    && metadata[0] == CanonicalJson.Entry("kind", CanonicalJson.Str(kind))
    && metadata[1] == CanonicalJson.Entry("manifest_id",
                                          if e.manifestId.Some? then CanonicalJson.Str(e.manifestId.value) else CanonicalJson.Null)
    && metadata[2] == CanonicalJson.Entry("client_observation_id", CanonicalJson.Str(e.clientId))
    && metadata[3] == CanonicalJson.Entry("environment", CanonicalJson.Str(e.environment))
    && metadata[4] == CanonicalJson.Entry("collector_id", CanonicalJson.Str(e.collectorId))
    && metadata[5] == CanonicalJson.Entry("provider", CanonicalJson.Str(e.provider))
    && metadata[6] == CanonicalJson.Entry("observation_type", CanonicalJson.Str(e.kind))
    && metadata[7] == CanonicalJson.Entry("scope", e.scope)
    && metadata[8] == CanonicalJson.Entry("season", CanonicalJson.Str(e.season))
    && metadata[9] == CanonicalJson.Entry("cutoff", CanonicalJson.Str(e.cutoff))
    && metadata[10] == CanonicalJson.Entry("retrieved_at", CanonicalJson.Str(e.retrievedAt))
    && metadata[11] == CanonicalJson.Entry("schema_version", CanonicalJson.Num(e.schemaVersion))
    && metadata[12] == CanonicalJson.Entry("checksum", CanonicalJson.Str(e.checksum))
  }

  /** A row under the envelope's id, checksum and cutoff instant, whose bytes read back as it. */
  ghost predicate Stores(codec: Codec, row: Row, e: Envelope, d: seq<CanonicalJson.Entry>)
  {
    && row.clientId == e.clientId && row.checksum == e.checksum && ParseStamp(row.cutoff) == ParseStamp(e.cutoff)
    && Holds(codec, row.payload, d) && Carries(d, e)
  }

  /** The row that `enqueue_observation` inserts reads back as the envelope it was given, field by
      field, with its routing metadata. */
  lemma ObservationStored(codec: Codec, e: Envelope, now: DateTime, row: Row)
    returns (d: seq<CanonicalJson.Entry>, metadata: seq<CanonicalJson.Entry>)
    requires Constructed(codec, e) && Fits(codec, WireEntries(SourceNames(), e)) && Valid(now)
    requires GzipReadsBack(codec, WireEntries(SourceNames(), e))
    requires Records(row, ObservationItem(codec, e), now)
    ensures row.kind == "observation" && row.requestId == None && Stores(codec, row, e, d) && CanonicalJson.Keys(d) == EnvelopeKeys()
    ensures row.metadata == CanonicalJson.Print(CanonicalJson.Obj(metadata))
    ensures |metadata| == 13 && RoutedAs(metadata, e, "observation")
  {
    hide Fits, GzipReadsBack, CompressedWire, WireEntries, ParseStamp, Iso, Holds, Carries, EnvelopeKeys, Acceptable;
    hide CanonicalJson.Print, RoutedAs, MetadataValues, Zipped;
    d := ObservationReadsBack(codec, e);
    metadata := ObservationItem(codec, e).metadata;
    Routing(e, "observation");
    ParseIso(ParseStamp(e.cutoff).value);
  }

  lemma ZippedAppend(keys: seq<string>, values: seq<CanonicalJson.Json>, keys': seq<string>,
                     values': seq<CanonicalJson.Json>)
    requires |keys| == |values| && |keys'| == |values'|
    ensures Zipped(keys + keys', values + values') == Zipped(keys, values) + Zipped(keys', values')
  {
  }

  lemma RoutedFurther(metadata: seq<CanonicalJson.Entry>, more: seq<CanonicalJson.Entry>, e: Envelope, kind: string)
    requires RoutedAs(metadata, e, kind)
    ensures RoutedAs(metadata + more, e, kind)
  {
    assert forall i :: 0 <= i < |metadata| ==> (metadata + more)[i] == metadata[i];
  }

  lemma Routing(e: Envelope, kind: string)
    ensures |SafeMetadata.MetadataKeys()| == |Zipped(SafeMetadata.MetadataKeys(), MetadataValues(e, kind))| == 13
    ensures RoutedAs(Zipped(SafeMetadata.MetadataKeys(), MetadataValues(e, kind)), e, kind)
  {
    hide OnlyScopeNested;
  }

  lemma CatalogRouting(c: Catalog)
    ensures var metadata := Zipped(SafeMetadata.CatalogMetadataKeys(), CatalogMetadataValues(c));
      && |metadata| == 16 && RoutedAs(metadata, c.envelope, "catalog")
      && metadata[13..] == [CanonicalJson.Entry("request_id", CanonicalJson.Str(c.requestId)),
                            CanonicalJson.Entry("catalog_version", CanonicalJson.Str(c.version)),
                            CanonicalJson.Entry("expires_at", OptionalText(c.expiresAt))]
  {
    hide RoutedAs, OnlyScopeNested, MetadataValues, SafeMetadata.MetadataKeys;
    var keys, values := SafeMetadata.MetadataKeys(), MetadataValues(c.envelope, "catalog");
    var keys' := ["request_id", "catalog_version", "expires_at"];
    var values' := [CanonicalJson.Str(c.requestId), CanonicalJson.Str(c.version), OptionalText(c.expiresAt)];
    Routing(c.envelope, "catalog");
    ZippedAppend(keys, values, keys', values');
    RoutedFurther(Zipped(keys, values), Zipped(keys', values'), c.envelope, "catalog");
  }

  /** The same for `enqueue_catalog`, with the version, the expiry and the request. */
  lemma CatalogStored(codec: Codec, c: Catalog, now: DateTime, row: Row)
    returns (d: seq<CanonicalJson.Entry>, metadata: seq<CanonicalJson.Entry>)
    requires CatalogConstructed(codec, c) && Fits(codec, CatalogWireEntries(SourceNames(), c)) && Valid(now)
    requires GzipReadsBack(codec, CatalogWireEntries(SourceNames(), c))
    requires Records(row, CatalogItem(codec, c), now)
    ensures row.kind == "catalog" && row.requestId == Some(c.requestId) && Stores(codec, row, c.envelope, d)
    ensures CanonicalJson.Get(d, "catalog_version") == Some(CanonicalJson.Str(c.version))
    ensures CanonicalJson.Get(d, "expires_at") == if c.expiresAt.Some? then Some(CanonicalJson.Str(c.expiresAt.value)) else None
    ensures row.metadata == CanonicalJson.Print(CanonicalJson.Obj(metadata))
    ensures |metadata| == 16 && RoutedAs(metadata, c.envelope, "catalog")
    ensures metadata[13..] == [CanonicalJson.Entry("request_id", CanonicalJson.Str(c.requestId)),
                               CanonicalJson.Entry("catalog_version", CanonicalJson.Str(c.version)),
                               CanonicalJson.Entry("expires_at", OptionalText(c.expiresAt))]
  {
    hide Fits, GzipReadsBack, CompressedWire, CatalogWireEntries, ParseStamp, Iso, Holds, Carries, EnvelopeKeys;
    hide CanonicalJson.Print, Acceptable, Zipped, CatalogMetadataValues, RoutedAs, CanonicalJson.Get;
    d := CatalogReadsBack(codec, c);
    metadata := CatalogItem(codec, c).metadata;
    CatalogRouting(c);
    ParseIso(ParseStamp(c.envelope.cutoff).value);
  }

  // ----- conservation

  /** `b` is `a` after some number of attempts. */
  predicate SameRecord(a: Row, b: Row) { b == a.(attempts := b.attempts, lastError := b.lastError) }

  /** The id was never inserted, or is in exactly one of pending, acknowledged by its own
      checksum, or pruned below a governed cutoff. */
  predicate Accounted(s: State, id: nat)
  {
    && (id in s.inserted <==> id in s.rows || id in s.acknowledged || id in s.pruned)
    && (id in s.inserted ==> 1 <= id <= s.lastId)
    && (id in s.rows ==> id !in s.acknowledged && id !in s.pruned && SameRecord(s.inserted[id], s.rows[id]))
    && (id in s.acknowledged ==> id !in s.pruned && s.acknowledged[id] == s.inserted[id].checksum)
    && (id in s.pruned ==> LexLess(s.inserted[id].cutoff, s.pruned[id]))
  }

  /** Stronger than the declared UNIQUE(kind, client id, checksum). */
  predicate UniqueClients(rows: map<nat, Row>)
  {
    forall i, j :: i in rows && j in rows && i != j ==>
      rows[i].kind != rows[j].kind || rows[i].clientId != rows[j].clientId
  }

  ghost predicate Conserved(s: State) { UniqueClients(s.rows) && forall id: nat :: Accounted(s, id) }

  /** `s'` continues the history of `s`: nothing recorded is rewritten and ids only move up. */
  ghost predicate Continues(s: State, s': State)
  {
    && s.lastId <= s'.lastId
    && (forall id :: id in s.inserted ==> id in s'.inserted && s'.inserted[id] == s.inserted[id])
    && (forall id :: id in s'.inserted && id !in s.inserted ==> id > s.lastId)
    && (forall id :: id in s.acknowledged ==> id in s'.acknowledged && s'.acknowledged[id] == s.acknowledged[id])
    && (forall id :: id in s.pruned ==> id in s'.pruned && s'.pruned[id] == s.pruned[id])
  }

  lemma ContinuesChain(s: State, t: State, u: State)
    ensures Continues(s, s)
    ensures Continues(s, t) && Continues(t, u) ==> Continues(s, u)
  {
  }

  lemma PruneKeepsConserved(s: State, before: DateTime, s': State)
    requires Conserved(s) && Valid(before)
    requires var gone := Obsolete(s.rows, before);
      s' == s.(rows := s.rows - gone, pruned := s.pruned + map id | id in gone :: Iso(before))
    ensures Conserved(s') && Continues(s, s')
  {
    hide Iso, LexLess;
    forall id: nat ensures Accounted(s', id) { assert Accounted(s, id); }
    assert forall id :: id in s.pruned ==> Accounted(s, id);
  }

  lemma AcknowledgeKeepsConserved(s: State, id: nat, s': State)
    requires Conserved(s) && id in s.rows
    requires s' == s.(rows := s.rows - {id}, acknowledged := s.acknowledged[id := s.rows[id].checksum])
    ensures Conserved(s') && Continues(s, s')
  {
    hide LexLess;
    forall i: nat ensures Accounted(s', i) { assert Accounted(s, i); }
    assert Accounted(s, id);
  }

  lemma InsertKeepsConserved(s: State, item: Item, row: Row, s': State)
    requires Conserved(s) && row.kind == item.kind && row.clientId == item.clientId
    requires forall id :: id in s.rows ==> !SameClient(s.rows[id], item)
    requires var id := s.lastId + 1; s' == s.(rows := s.rows[id := row], lastId := id, inserted := s.inserted[id := row])
    ensures Conserved(s') && Continues(s, s')
  {
    hide LexLess;
    var id := s.lastId + 1;
    assert Accounted(s, id) && id !in s.inserted;
    forall i: nat ensures Accounted(s', i) { assert Accounted(s, i); }
  }

  lemma MarkKeepsConserved(s: State, id: nat, row: Row, s': State)
    requires Conserved(s) && id in s.rows && SameRecord(s.rows[id], row) && s' == s.(rows := s.rows[id := row])
    ensures Conserved(s') && Continues(s, s')
  {
    hide LexLess;
    forall i: nat ensures Accounted(s', i) { assert Accounted(s, i); }
  }

  lemma StepKeepsConserved(cfg: Config, codec: Codec, s: State, op: Op, m: Measured, s': State, o: Outcome)
    requires Conserved(s) && ValidOp(op) && Step(cfg, codec, s, op, m, s', o)
    ensures Conserved(s') && Continues(s, s')
  {
    hide Iso, Screen, Admitted, RefusalExplained, Conserved, Continues, Obsolete;
    if s' == s {
      ContinuesChain(s, s, s);
    } else {
      match op
      case Enqueue(item, _) => InsertKeepsConserved(s, item, s'.rows[s'.lastId], s');
      case MarkAttempt(id, _) => MarkKeepsConserved(s, id, s'.rows[id], s');
      case Acknowledge(id, _) => AcknowledgeKeepsConserved(s, id, s');
      case Prune(before) => PruneKeepsConserved(s, before, s');
    }
  }

  /** A run of transactions, committed or rolled back. */
  datatype Txn = Txn(op: Op, m: Measured, o: Outcome)

  ghost predicate Run(cfg: Config, codec: Codec, ss: seq<State>, txns: seq<Txn>)
  {
    && |ss| == |txns| + 1
    && forall i :: 0 <= i < |txns| ==>
         ValidOp(txns[i].op) && Step(cfg, codec, ss[i], txns[i].op, txns[i].m, ss[i + 1], txns[i].o)
  }

  /** Over every run: no row is lost, and no id is reused, between any two states. */
  lemma {:induction false} NoLoss(cfg: Config, codec: Codec, ss: seq<State>, txns: seq<Txn>, i: nat, k: nat)
    requires Run(cfg, codec, ss, txns) && Conserved(ss[0]) && i <= k < |ss|
    ensures Conserved(ss[i]) && Conserved(ss[k]) && Continues(ss[i], ss[k])
    decreases k
  {
    hide Step, Conserved, Continues;
    ContinuesChain(ss[k], ss[k], ss[k]);
    if k == 0 {
    } else {
      NoLoss(cfg, codec, ss, txns, if i < k then i else k - 1, k - 1);
      var t := txns[k - 1];
      StepKeepsConserved(cfg, codec, ss[k - 1], t.op, t.m, ss[k], t.o);
      if i < k { ContinuesChain(ss[i], ss[k - 1], ss[k]); }
    }
  }

  // ----- what each transaction decides

  /** Bytes and routing metadata the outbox may hold: a document of its kind that carries the
      checksum of its own payload, and safe metadata, both within the limits. */
  ghost predicate Sendable(cfg: Config, codec: Codec, kind: string, checksum: string, payload: Bytes,
                           metadata: CanonicalJson.Json)
  {
    && (kind == "observation" || kind == "catalog")
    && 0 < |payload| <= cfg.maxItemBytes
    && (exists d :: Holds(codec, payload, d) && HasShape(d, kind == "catalog") && BindsPayload(codec, d, checksum)
          && NamesManifest(d, kind == "catalog"))
    && SafeMetadata.SafeKeys(metadata) && Utf8Length(CanonicalJson.Print(metadata)) <= 65_536
  }

  ghost predicate SendableItem(cfg: Config, codec: Codec, item: Item)
  {
    Sendable(cfg, codec, item.kind, item.checksum, item.payload, CanonicalJson.Obj(item.metadata))
  }

  /** The checks before the transaction let through exactly what may be sent. */
  lemma ScreenExact(cfg: Config, codec: Codec, item: Item)
    ensures Screen(cfg, codec, item).None? <==> SendableItem(cfg, codec, item)
  {
    hide JudgeWire, Utf8Length, CanonicalJson.Print, SafeMetadata.Walk, SafeMetadata.SafeKeys;
    hide Holds, HasShape, BindsPayload, NamesManifest;
    JudgeExact(codec, item.payload, item.kind == "catalog", item.checksum);
    SafeMetadata.WalkExact(CanonicalJson.Obj(item.metadata));
  }

  /** The part of the limit no payload may use: an eighth, from 4 KiB to 1 MiB. */
  function Reserve(cfg: Config): int
  {
    if cfg.maxBytes < 32_768 then 4_096 else if cfg.maxBytes >= 8_388_608 then 1_048_576 else cfg.maxBytes / 8
  }

  /** There is room for the item above the footprint, all the pending payload and the reserve. */
  ghost predicate Room(cfg: Config, rows: map<nat, Row>, item: Item, m: Measured)
  {
    && m.admission - cfg.baseline + PayloadSum(rows) + |item.payload|
       + Utf8Length(CanonicalJson.Print(CanonicalJson.Obj(item.metadata))) + 3 * cfg.pageSize + Reserve(cfg) <= cfg.maxBytes
    && m.inserted <= cfg.baseline + cfg.maxBytes && m.commit <= cfg.baseline + cfg.maxBytes
  }

  lemma AdmissionExact(cfg: Config, s: State, item: Item, m: Measured)
    requires forall id :: id in s.rows ==> 1 <= id <= s.lastId
    ensures Admitted(cfg, s, item, m.admission) && !Over(cfg, m.inserted) && !Over(cfg, m.commit)
      <==> Room(cfg, s.rows, item, m)
  {
    hide PayloadSum, SumUpTo, Utf8Length, CanonicalJson.Print;
    SumIsPayloadSum(s.rows, s.lastId);
    assert Reserve(cfg) == Headroom(cfg);
  }

  lemma PendingInRange(s: State)
    requires Conserved(s)
    ensures forall id :: id in s.rows ==> 1 <= id <= s.lastId
  {
    hide SameRecord, LexLess;
    forall id | id in s.rows ensures 1 <= id <= s.lastId { assert Accounted(s, id); }
  }

  predicate Pends(rows: map<nat, Row>, item: Item)
  {
    exists id :: id in rows && rows[id].kind == item.kind && rows[id].clientId == item.clientId
      && rows[id].checksum == item.checksum
  }

  predicate PendsOtherwise(rows: map<nat, Row>, item: Item)
  {
    exists id :: id in rows && rows[id].kind == item.kind && rows[id].clientId == item.clientId
      && rows[id].checksum != item.checksum
  }

  lemma NextIdIsFresh(s: State)
    requires Conserved(s)
    ensures s.lastId + 1 !in s.rows && s.lastId + 1 !in s.inserted
  {
    assert Accounted(s, s.lastId + 1);
  }

  lemma UniquePending(s: State, item: Item)
    requires Conserved(s) && Pends(s.rows, item)
    ensures !PendsOtherwise(s.rows, item)
  {
  }

  lemma ScreenIsNoConflict(cfg: Config, codec: Codec, item: Item)
    ensures Screen(cfg, codec, item).Some? ==> !Screen(cfg, codec, item).value.Conflict? && !Screen(cfg, codec, item).value.Crashed?
  {
    hide JudgeWire, Encoded, Utf8Length, SafeMetadata.Walk;
  }

  /** How an enqueue that does not crash ends. It inserts if and only if the item may be sent, its id
      is not pending, and there is room; the new row then holds the item, under the next id. It
      answers with a row if and only if that very item is pending. It reports a conflict if and only
      if the id is pending with another checksum. */
  lemma EnqueueExact(cfg: Config, codec: Codec, s: State, item: Item, now: DateTime, m: Measured, s': State, o: Outcome)
    requires Conserved(s) && Valid(item.cutoff) && Valid(now)
    requires Step(cfg, codec, s, Enqueue(item, now), m, s', o) && o != Refused(Crashed)
    ensures o.Inserted? <==>
      SendableItem(cfg, codec, item) && !Pends(s.rows, item) && !PendsOtherwise(s.rows, item) && Room(cfg, s.rows, item, m)
    ensures o.Inserted? ==>
      && o.id == s.lastId + 1 && o.id !in s.rows && o.id !in s.inserted && s'.rows.Keys == s.rows.Keys + {o.id}
      && Records(s'.rows[o.id], item, now) && forall id :: id in s.rows ==> s'.rows[id] == s.rows[id]
    ensures o.Existing? <==>
      SendableItem(cfg, codec, item) && Pends(s.rows, item) && m.commit <= cfg.baseline + cfg.maxBytes
    ensures o.Existing? ==>
      && o.id in s.rows && s.rows[o.id].kind == item.kind && s.rows[o.id].clientId == item.clientId
      && s.rows[o.id].checksum == item.checksum
    ensures o == Refused(Conflict) <==>
      SendableItem(cfg, codec, item) && !Pends(s.rows, item) && PendsOtherwise(s.rows, item)
    ensures SendableItem(cfg, codec, item) && !o.Inserted? && !o.Existing? && o != Refused(Conflict) ==> o == Refused(Full)
    ensures !o.Inserted? ==> s' == s
  {
    hide Iso, Screen, Admitted, SendableItem, Room, Conserved, CanonicalJson.Print;
    ScreenExact(cfg, codec, item);
    PendingInRange(s);
    AdmissionExact(cfg, s, item, m);
    NextIdIsFresh(s);
    if Pends(s.rows, item) { UniquePending(s, item); }
    ScreenIsNoConflict(cfg, codec, item);
  }

  /** A pending row leaves if and only if the transaction commits and acknowledges it with its own
      checksum, or prunes below a cutoff that its own precedes as text. */
  lemma LeavesExact(cfg: Config, codec: Codec, s: State, op: Op, m: Measured, s': State, o: Outcome, id: nat)
    requires ValidOp(op) && Step(cfg, codec, s, op, m, s', o) && id in s.rows
    ensures id !in s'.rows <==>
      !o.Refused? && (op == Acknowledge(id, s.rows[id].checksum) || (op.Prune? && LexLess(s.rows[id].cutoff, Iso(op.before))))
    ensures op.Acknowledge? && op.id == id && op.checksum != s.rows[id].checksum ==> o.Refused?
  {
    hide Iso, Screen, Admitted, LexLess, CanonicalJson.Print;
  }

  // ----- what every pending row holds, over a run

  ghost predicate SendableRow(cfg: Config, codec: Codec, row: Row)
  {
    exists metadata :: row.metadata == CanonicalJson.Print(metadata)
      && Sendable(cfg, codec, row.kind, row.checksum, row.payload, metadata)
  }

  lemma RecordedIsSendable(cfg: Config, codec: Codec, row: Row, item: Item, now: DateTime)
    requires Valid(item.cutoff) && Valid(now) && Records(row, item, now) && SendableItem(cfg, codec, item)
    ensures SendableRow(cfg, codec, row)
  {
    hide Sendable, CanonicalJson.Print;
    assert Sendable(cfg, codec, row.kind, row.checksum, row.payload, CanonicalJson.Obj(item.metadata));
  }

  lemma StepKeepsSendable(cfg: Config, codec: Codec, s: State, op: Op, m: Measured, s': State, o: Outcome)
    requires ValidOp(op) && Step(cfg, codec, s, op, m, s', o)
    requires forall id :: id in s.rows ==> SendableRow(cfg, codec, s.rows[id])
    ensures forall id :: id in s'.rows ==> SendableRow(cfg, codec, s'.rows[id])
  {
    hide Sendable, SendableItem, Iso, Screen, Admitted, LexLess, CanonicalJson.Print;
    if op.Enqueue? && s' != s {
      ScreenExact(cfg, codec, op.item);
      RecordedIsSendable(cfg, codec, s'.rows[s'.lastId], op.item, op.now);
    }
  }

  lemma SendableIsAccepted(cfg: Config, codec: Codec, row: Row)
    requires SendableRow(cfg, codec, row)
    ensures JudgeWire(codec, SourceNames(), row.payload, row.kind == "catalog", row.checksum) == Accepted
  {
    hide JudgeWire, Holds, HasShape, BindsPayload, NamesManifest, CanonicalJson.Print;
    JudgeExact(codec, row.payload, row.kind == "catalog", row.checksum);
  }

  /** In every reachable state each pending row holds a whole document of its kind, whose checksum the
      row's is, and metadata with safe keys: the wire validator would accept it again. */
  lemma {:induction false} PendingStaySendable(cfg: Config, codec: Codec, ss: seq<State>, txns: seq<Txn>, k: nat)
    requires Run(cfg, codec, ss, txns) && k < |ss|
    requires forall id :: id in ss[0].rows ==> SendableRow(cfg, codec, ss[0].rows[id])
    ensures forall id :: id in ss[k].rows ==> SendableRow(cfg, codec, ss[k].rows[id])
    ensures forall id :: id in ss[k].rows ==> var row := ss[k].rows[id];
      JudgeWire(codec, SourceNames(), row.payload, row.kind == "catalog", row.checksum) == Accepted
    decreases k
  {
    hide Step, SendableRow, JudgeWire;
    if k == 0 {
    } else {
      PendingStaySendable(cfg, codec, ss, txns, k - 1);
      var t := txns[k - 1];
      StepKeepsSendable(cfg, codec, ss[k - 1], t.op, t.m, ss[k], t.o);
    }
    forall id | id in ss[k].rows ensures var row := ss[k].rows[id];
      JudgeWire(codec, SourceNames(), row.payload, row.kind == "catalog", row.checksum) == Accepted
    {
      SendableIsAccepted(cfg, codec, ss[k].rows[id]);
    }
  }

  /** `row` is the row of an item enqueued by one of these transactions, but for its attempts. */
  ghost predicate Enqueued(txns: seq<Txn>, id: nat, row: Row)
  {
    exists j :: 0 <= j < |txns| && txns[j].op.Enqueue? && txns[j].o == Inserted(id) && ValidOp(txns[j].op)
      && Records(row.(attempts := 0, lastError := None), txns[j].op.item, txns[j].op.now)
  }

  lemma BareRow(row: Row, row': Row)
    requires SameRecord(row, row')
    ensures row'.(attempts := 0, lastError := None) == row.(attempts := 0, lastError := None)
  {
  }

  lemma EnqueuedLater(txns: seq<Txn>, t: Txn, id: nat, row: Row, row': Row)
    requires Enqueued(txns, id, row) && SameRecord(row, row')
    ensures Enqueued(txns + [t], id, row')
  {
    hide Records, SameRecord;
    var j :| 0 <= j < |txns| && txns[j].op.Enqueue? && txns[j].o == Inserted(id) && ValidOp(txns[j].op)
      && Records(row.(attempts := 0, lastError := None), txns[j].op.item, txns[j].op.now);
    assert (txns + [t])[j] == txns[j];
    assert row'.(attempts := 0, lastError := None) == row.(attempts := 0, lastError := None) by {
      BareRow(row, row');
    }
  }

  lemma EnqueuedNow(txns: seq<Txn>, t: Txn, id: nat, row: Row)
    requires t.op.Enqueue? && t.o == Inserted(id) && ValidOp(t.op) && Records(row, t.op.item, t.op.now)
    ensures Enqueued(txns + [t], id, row)
  {
    assert row.(attempts := 0, lastError := None) == row;
    assert (txns + [t])[|txns|] == t;
  }

  lemma StepKeepsRecord(cfg: Config, codec: Codec, s: State, op: Op, m: Measured, s': State, o: Outcome, id: nat)
    requires ValidOp(op) && Step(cfg, codec, s, op, m, s', o) && id in s'.rows
    ensures || (id in s.rows && SameRecord(s.rows[id], s'.rows[id]))
            || (op.Enqueue? && o == Inserted(id) && Records(s'.rows[id], op.item, op.now))
  {
    hide Iso, Screen, Admitted, LexLess, CanonicalJson.Print;
  }

  /** In every reachable state each pending row was there at the start or holds, column by column,
      what one enqueue of the run was given. */
  lemma {:induction false} PendingWereEnqueued(cfg: Config, codec: Codec, ss: seq<State>, txns: seq<Txn>, k: nat, id: nat)
    requires Run(cfg, codec, ss, txns) && k < |ss| && id in ss[k].rows
    ensures (id in ss[0].rows && SameRecord(ss[0].rows[id], ss[k].rows[id])) || Enqueued(txns[..k], id, ss[k].rows[id])
    decreases k
  {
    hide Step, Records, Enqueued;
    if k == 0 {
    } else {
      var t := txns[k - 1];
      assert txns[..k] == txns[..k - 1] + [t];
      StepKeepsRecord(cfg, codec, ss[k - 1], t.op, t.m, ss[k], t.o, id);
      if t.op.Enqueue? && t.o == Inserted(id) && Records(ss[k].rows[id], t.op.item, t.op.now) {
        EnqueuedNow(txns[..k - 1], t, id, ss[k].rows[id]);
      } else {
        PendingWereEnqueued(cfg, codec, ss, txns, k - 1, id);
        if Enqueued(txns[..k - 1], id, ss[k - 1].rows[id]) {
          EnqueuedLater(txns[..k - 1], t, id, ss[k - 1].rows[id], ss[k].rows[id]);
        }
      }
    }
  }

  /** How many of these transactions recorded an attempt on the row. */
  function AttemptsOn(txns: seq<Txn>, id: nat): nat
  {
    if |txns| == 0 then 0
    else
      var t := txns[|txns| - 1];
      AttemptsOn(txns[..|txns| - 1], id) + (if t.op.MarkAttempt? && t.op.id == id && !t.o.Refused? then 1 else 0)
  }

  /** An id pending before and after a transaction was pending just before it. */
  lemma StillPending(cfg: Config, codec: Codec, s: State, op: Op, m: Measured, s': State, o: Outcome, first: State, id: nat)
    requires Conserved(first) && Conserved(s) && Continues(first, s)
    requires ValidOp(op) && Step(cfg, codec, s, op, m, s', o) && id in first.rows && id in s'.rows
    ensures id in s.rows
  {
    hide Iso, Screen, Admitted, LexLess, CanonicalJson.Print, SameRecord;
    assert Accounted(first, id) && Accounted(s, id);
  }

  lemma MarkCounts(cfg: Config, codec: Codec, s: State, op: Op, m: Measured, s': State, o: Outcome, id: nat)
    requires Conserved(s) && ValidOp(op) && Step(cfg, codec, s, op, m, s', o) && id in s.rows && id in s'.rows
    ensures var marked := op.MarkAttempt? && op.id == id && !o.Refused?;
      && s'.rows[id].attempts == s.rows[id].attempts + (if marked then 1 else 0)
      && (marked ==> s'.rows[id].lastError == op.reason)
  {
    hide Iso, Screen, Admitted, LexLess, CanonicalJson.Print, SameRecord;
    assert Accounted(s, id);
  }

  /** While a row is pending its attempts grow by exactly the committed attempts on it, and the last
      of them left its reason. */
  lemma {:induction false} AttemptsCounted(cfg: Config, codec: Codec, ss: seq<State>, txns: seq<Txn>, i: nat, k: nat, id: nat)
    requires Run(cfg, codec, ss, txns) && Conserved(ss[0]) && i <= k < |ss| && id in ss[i].rows && id in ss[k].rows
    ensures ss[k].rows[id].attempts == ss[i].rows[id].attempts + AttemptsOn(txns[i..k], id)
    ensures k > i && txns[k - 1].op.MarkAttempt? && txns[k - 1].op.id == id && !txns[k - 1].o.Refused?
      ==> ss[k].rows[id].lastError == txns[k - 1].op.reason
    decreases k
  {
    hide Step, Conserved, Continues;
    if i == k {
      assert txns[i..k] == [];
    } else {
      var t := txns[k - 1];
      NoLoss(cfg, codec, ss, txns, i, k - 1);
      StepKeepsRecord(cfg, codec, ss[k - 1], t.op, t.m, ss[k], t.o, id);
      StillPending(cfg, codec, ss[k - 1], t.op, t.m, ss[k], t.o, ss[i], id);
      AttemptsCounted(cfg, codec, ss, txns, i, k - 1, id);
      assert txns[i..k][..|txns[i..k]| - 1] == txns[i..k - 1];
      MarkCounts(cfg, codec, ss[k - 1], t.op, t.m, ss[k], t.o, id);
    }
  }

  // ----- storage

  lemma {:induction false} SumShrinks(rows: map<nat, Row>, rows': map<nat, Row>, n: nat)
    requires forall id :: id in rows' && id <= n ==> id in rows && rows'[id].payload == rows[id].payload
    ensures SumUpTo(rows', n) <= SumUpTo(rows, n)
  {
    if n == 0 {
    } else {
      SumShrinks(rows, rows', n - 1);
    }
  }

  function PayloadLimit(cfg: Config): int { cfg.maxBytes - Headroom(cfg) - 3 * cfg.pageSize }

  lemma StepKeepsStorageBound(cfg: Config, codec: Codec, s: State, op: Op, m: Measured, s': State, o: Outcome)
    requires ValidOp(op) && Step(cfg, codec, s, op, m, s', o) && m.admission >= cfg.baseline
    ensures TotalBytes(s') <= TotalBytes(s) || TotalBytes(s') <= PayloadLimit(cfg)
  {
    hide Iso, Screen, RefusalExplained, LexLess;
    if o.Inserted? && op.Enqueue? {
      SumShrinks(s.rows, s'.rows, s.lastId);
    } else if !o.Refused? {
      SumShrinks(s.rows, s'.rows, s.lastId);
    }
  }

  /** Pending payload never grows past what it started with or the configured limit, and no
      committed transaction leaves the footprint more than `maxBytes` above its baseline. */
  lemma {:induction false} StorageBound(cfg: Config, codec: Codec, ss: seq<State>, txns: seq<Txn>, k: nat)
    requires Run(cfg, codec, ss, txns) && k < |ss|
    requires forall i :: 0 <= i < |txns| ==> txns[i].m.admission >= cfg.baseline
    ensures TotalBytes(ss[k]) <= TotalBytes(ss[0]) || TotalBytes(ss[k]) <= PayloadLimit(cfg)
    ensures k > 0 && !txns[k - 1].o.Refused? ==> txns[k - 1].m.commit - cfg.baseline <= cfg.maxBytes
    decreases k
  {
    hide EnqueueStep, RefusalExplained, SumUpTo, Iso;
    if k == 0 {
    } else {
      StorageBound(cfg, codec, ss, txns, k - 1);
      var t := txns[k - 1];
      assert Step(cfg, codec, ss[k - 1], t.op, t.m, ss[k], t.o);
      StepKeepsStorageBound(cfg, codec, ss[k - 1], t.op, t.m, ss[k], t.o);
    }
  }

  // ----- what the text comparisons decide

  lemma MixedDiffers(a: DateTime, b: DateTime)
    requires Valid(a) && Valid(b) && MixedFraction(a, b)
    ensures Micros(a) != Micros(b)
  {
    if Micros(a) == Micros(b) { MicrosInjective(a, b); }
  }

  /** A stored time is before a threshold as text exactly when it is in time, except on a mixed
      pair, where it is exactly when it is not. */
  lemma TextBeforeExact(t: DateTime, threshold: DateTime)
    requires Valid(t) && Valid(threshold)
    ensures TextBefore(Iso(t), threshold) <==> (Micros(t) < Micros(threshold)) != MixedFraction(t, threshold)
  {
    hide Iso, LexLess, Micros;
    TextOrderExact(t, threshold);
    if MixedFraction(t, threshold) { MixedDiffers(t, threshold); }
  }

  /** Work half a second newer than the governed cutoff is pruned. */
  lemma PruneTakesNewerWork(r: Row) returns (row: Row, cutoff: DateTime, before: DateTime)
    ensures Valid(cutoff) && Valid(before) && row == r.(cutoff := Iso(cutoff))
    ensures Micros(cutoff) > Micros(before) && Obsolete(map[1 := row], before) == {1}
  {
    before := DateTime(2026, 1, 2, 3, 4, 5, 0);
    cutoff := before.(micro := 500_000);
    row := r.(cutoff := Iso(cutoff));
    TextBeforeExact(cutoff, before);
  }

  // ----- replay

  /** Re-enqueueing a pending item answers with the row that is there and changes nothing. */
  lemma ReplayFindsRow(cfg: Config, codec: Codec, s: State, id: nat, item: Item, now: DateTime, m: Measured,
                       s': State, o: Outcome)
    requires Conserved(s) && id in s.rows && SameItem(s.rows[id], item)
    requires Valid(item.cutoff) && Valid(now) && Step(cfg, codec, s, Enqueue(item, now), m, s', o)
    ensures s' == s
    ensures o.Refused? || o == Existing(id)
    ensures o.Refused? && !o.error.Crashed? && Screen(cfg, codec, item).None? ==> Over(cfg, m.commit)
  {
    hide Iso, Screen, Admitted;
  }

  lemma PendingKeepsIdentity(s: State, s': State, id: nat)
    requires Conserved(s) && Conserved(s') && Continues(s, s') && id in s.rows && id in s'.rows
    ensures id in s.inserted
    ensures SameRecord(s.inserted[id], s.rows[id]) && SameRecord(s.inserted[id], s'.rows[id])
  {
    assert Accounted(s, id) && Accounted(s', id);
  }

  /** Collecting one observation twice in a run, under one collector and instruction, at any two
      retrieval times and with any two spellings of its cutoff: while the first row is pending,
      the second enqueue answers with it and adds nothing. */
  lemma RecollectionKeepsOneRow(cfg: Config, codec: Codec, ss: seq<State>, txns: seq<Txn>, i: nat, k: nat,
                                e: Envelope, e': Envelope, obs: Observation, obs': Observation,
                                manifest: Option<string>, env: string, collector: string, instruction: string,
                                at: string, at': string)
    requires Run(cfg, codec, ss, txns) && Conserved(ss[0]) && i < k < |txns|
    requires obs' == obs.(cutoff := obs'.cutoff) && ParseStamp(obs.cutoff) == ParseStamp(obs'.cutoff)
    requires FromObservation(codec, obs, manifest, env, collector, instruction, at) == Some(e)
    requires FromObservation(codec, obs', manifest, env, collector, instruction, at') == Some(e')
    requires txns[i].op.Enqueue? && txns[k].op.Enqueue? && txns[i].op.item.kind == txns[k].op.item.kind
    requires txns[i].op.item.clientId == e.clientId && txns[i].op.item.checksum == e.checksum
    requires txns[k].op.item.clientId == e'.clientId && txns[k].op.item.checksum == e'.checksum
    requires (txns[i].o.Inserted? || txns[i].o.Existing?) && txns[i].o.id in ss[k].rows
    ensures ss[k + 1] == ss[k] && (txns[k].o.Refused? || txns[k].o == Existing(txns[i].o.id))
  {
    hide Iso, Screen, Admitted, ParseStamp, FromObservation, Conserved, Continues, RefusalExplained, LexLess;
    var id, first, second := txns[i].o.id, txns[i].op.item, txns[k].op.item;
    ReplayIdentity(codec, obs, obs', manifest, manifest, env, collector, instruction, at, at');
    assert Step(cfg, codec, ss[i], txns[i].op, txns[i].m, ss[i + 1], txns[i].o);
    assert id in ss[i + 1].rows && SameItem(ss[i + 1].rows[id], first);
    NoLoss(cfg, codec, ss, txns, i + 1, k);
    PendingKeepsIdentity(ss[i + 1], ss[k], id);
    assert Step(cfg, codec, ss[k], txns[k].op, txns[k].m, ss[k + 1], txns[k].o);
    ReplayFindsRow(cfg, codec, ss[k], id, second, txns[k].op.now, txns[k].m, ss[k + 1], txns[k].o);
  }

  /** `m` is the id material of some observation with this checksum. */
  ghost predicate Binds(m: string, checksum: string)
  {
    exists c: string, i: string, k: string, scope: CanonicalJson.Json, t: DateTime ::
      Valid(t) && CanonicalJson.WellFormed(scope) && m == Material(SourceIdNames(), c, i, k, scope, t, checksum)
  }

  lemma BindsOne(m: string, checksum: string, checksum': string)
    requires Binds(m, checksum) && Binds(m, checksum')
    ensures checksum == checksum'
  {
    hide Material;
    var c, i, k, scope, t :| Valid(t) && CanonicalJson.WellFormed(scope)
      && m == Material(SourceIdNames(), c, i, k, scope, t, checksum);
    var c', i', k', scope', t' :| Valid(t') && CanonicalJson.WellFormed(scope')
      && m == Material(SourceIdNames(), c', i', k', scope', t', checksum');
    SourceIdNamesDistinct();
    MaterialExact(SourceIdNames(), c, i, k, scope, t, checksum, c', i', k', scope', t', checksum');
  }

  /** The id was derived from one of `materials`, and that material binds the checksum. */
  ghost predicate Derived(codec: Codec, materials: set<string>, clientId: string, checksum: string)
  {
    exists m :: m in materials && clientId == StableId(codec, m) && Binds(m, checksum)
  }

  ghost predicate CollisionFree(codec: Codec, materials: set<string>)
  {
    forall m, m' :: m in materials && m' in materials && ShortHash(codec, m) == ShortHash(codec, m') ==> m == m'
  }

  lemma ObservationIsDerived(codec: Codec, o: Observation, manifest: Option<string>, env: string, collector: string,
                             instruction: string, at: string, e: Envelope) returns (m: string)
    requires FromObservation(codec, o, manifest, env, collector, instruction, at) == Some(e)
    ensures Derived(codec, {m}, e.clientId, e.checksum)
  {
    hide Material, Checksum, Acceptable, ParseStamp, StableId, WirePayload;
    var payload := WirePayload(o.payload, o.provenance);
    var t := ParseStamp(o.cutoff).value;
    assert e.scope == o.scope && Constructed(codec, e);
    m := Material(SourceIdNames(), collector, instruction, o.kind, o.scope, t, e.checksum);
    assert Binds(m, e.checksum);
  }

  lemma DerivedOnce(codec: Codec, materials: set<string>, clientId: string, checksum: string, checksum': string)
    requires CollisionFree(codec, materials)
    requires Derived(codec, materials, clientId, checksum) && Derived(codec, materials, clientId, checksum')
    ensures checksum == checksum'
  {
    hide Binds, ShortHash, StableId;
    var m :| m in materials && clientId == StableId(codec, m) && Binds(m, checksum);
    var m' :| m' in materials && clientId == StableId(codec, m') && Binds(m', checksum');
    ShortIds(codec, m, m');
    BindsOne(m, checksum, checksum');
  }

  ghost predicate AllDerived(codec: Codec, materials: set<string>, s: State)
  {
    forall id :: id in s.rows ==> Derived(codec, materials, s.rows[id].clientId, s.rows[id].checksum)
  }

  lemma StepKeepsDerived(cfg: Config, codec: Codec, materials: set<string>, s: State, op: Op, m: Measured, s': State,
                         o: Outcome)
    requires ValidOp(op) && Step(cfg, codec, s, op, m, s', o) && AllDerived(codec, materials, s)
    requires op.Enqueue? ==> Derived(codec, materials, op.item.clientId, op.item.checksum)
    ensures AllDerived(codec, materials, s')
  {
    hide Iso, Admitted, Derived, LexLess, Screen, CanonicalJson.Print;
  }

  lemma NoConflict(cfg: Config, codec: Codec, materials: set<string>, s: State, item: Item, now: DateTime,
                   m: Measured, s': State, o: Outcome)
    requires Valid(item.cutoff) && Valid(now) && Step(cfg, codec, s, Enqueue(item, now), m, s', o)
    requires CollisionFree(codec, materials) && AllDerived(codec, materials, s)
    requires Derived(codec, materials, item.clientId, item.checksum)
    ensures o != Refused(Conflict)
  {
    hide Iso, Admitted, Derived, CollisionFree, Screen, CanonicalJson.Print;
    ScreenIsNoConflict(cfg, codec, item);
    if id :| id in s.rows && SameClient(s.rows[id], item) {
      DerivedOnce(codec, materials, item.clientId, s.rows[id].checksum, item.checksum);
    }
  }

  /** With every id derived by `from_observation` and no truncated-hash collision among the
      run's materials, "bound to a different checksum" is never raised. */
  lemma {:induction false} ConflictUnreachable(cfg: Config, codec: Codec, ss: seq<State>, txns: seq<Txn>,
                                               materials: set<string>, k: nat)
    requires Run(cfg, codec, ss, txns) && k < |ss|
    requires CollisionFree(codec, materials) && AllDerived(codec, materials, ss[0])
    requires forall i :: 0 <= i < |txns| && txns[i].op.Enqueue? ==>
      Derived(codec, materials, txns[i].op.item.clientId, txns[i].op.item.checksum)
    ensures AllDerived(codec, materials, ss[k])
    ensures k > 0 && txns[k - 1].op.Enqueue? ==> txns[k - 1].o != Refused(Conflict)
    decreases k
  {
    hide Step, AllDerived, Derived, CollisionFree;
    if k == 0 {
    } else {
      ConflictUnreachable(cfg, codec, ss, txns, materials, k - 1);
      var t := txns[k - 1];
      StepKeepsDerived(cfg, codec, materials, ss[k - 1], t.op, t.m, ss[k], t.o);
      if t.op.Enqueue? { NoConflict(cfg, codec, materials, ss[k - 1], t.op.item, t.op.now, t.m, ss[k], t.o); }
    }
  }
}
