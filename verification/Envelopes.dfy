/** The collector's identity and wire contract: payload validation, stable observation
    ids, the two envelopes, and the validator the outbox runs on what it is given. */
module Envelopes {
  import opened Options
  import opened Timestamps
  import opened CanonicalJson

  const MAX_ENVELOPE_BYTES := 10 * 1024 * 1024
  const MAX_COMPRESSED_BYTES := 2 * 1024 * 1024
  const MAX_PAYLOAD_DEPTH := 64
  const MAX_PAYLOAD_VALUES := 100_000

  newtype Byte = x: int | 0 <= x < 256
  type Bytes = seq<Byte>

  /** SHA-256 in hex, and gzip with the UTF-8 step folded in, as functions. */
  datatype Codec = Codec(sha: string -> string, deflate: string -> Bytes, inflate: Bytes -> Option<string>)

  function Utf8Length(s: string): nat
  {
    if |s| == 0 then 0
    else
      var c := s[0] as int;
      (if c < 0x80 then 1 else if c < 0x800 then 2 else if c < 0x1_0000 then 3 else 4) + Utf8Length(s[1..])
  }

  /** The bytes of a character, as section 3 of RFC 3629 lays them out. */
  function EncodeChar(c: char): Bytes
  {
    var n := c as int;
    if n < 0x80 then [n as Byte]
    else if n < 0x800 then [(0xC0 + n / 64) as Byte, (0x80 + n % 64) as Byte]
    else if n < 0x1_0000 then [(0xE0 + n / 4096) as Byte, (0x80 + n / 64 % 64) as Byte, (0x80 + n % 64) as Byte]
    else [(0xF0 + n / 262_144) as Byte, (0x80 + n / 4096 % 64) as Byte, (0x80 + n / 64 % 64) as Byte, (0x80 + n % 64) as Byte]
  }

  function Encode(s: string): Bytes { if |s| == 0 then [] else EncodeChar(s[0]) + Encode(s[1..]) }

  /** The code point at the front of some bytes, told by its lead byte. */
  function Lead(b: Bytes): int
    requires |b| > 0
  {
    if b[0] < 0xC0 then b[0] as int
    else if b[0] < 0xE0 && |b| > 1 then (b[0] as int - 0xC0) * 64 + b[1] as int - 0x80
    else if b[0] < 0xF0 && |b| > 2 then
      (b[0] as int - 0xE0) * 4096 + (b[1] as int - 0x80) * 64 + b[2] as int - 0x80
    else if |b| > 3 then
      (b[0] as int - 0xF0) * 262_144 + (b[1] as int - 0x80) * 4096 + (b[2] as int - 0x80) * 64 + b[3] as int - 0x80
    else 0
  }

  lemma LeadOfChar(c: char, rest: Bytes)
    ensures |EncodeChar(c)| > 0 && Lead(EncodeChar(c) + rest) == c as int
  {
    var n := c as int;
    assert n / 64 == 64 * (n / 4096) + n / 64 % 64;
    assert n / 4096 == 64 * (n / 262_144) + n / 4096 % 64;
  }

  /** The length is that of the UTF-8 bytes, from which the text can be read back. */
  lemma {:induction false} Utf8Exact(s: string, t: string)
    ensures Utf8Length(s) == |Encode(s)|
    ensures Encode(s) == Encode(t) ==> s == t
  {
    if |s| > 0 { LeadOfChar(s[0], Encode(s[1..])); }
    if |t| > 0 { LeadOfChar(t[0], Encode(t[1..])); }
    if |s| == 0 {
    } else if |t| == 0 {
      Utf8Exact(s[1..], t);
    } else {
      Utf8Exact(s[1..], t[1..]);
      if Encode(s) == Encode(t) {
        assert s[0] == t[0];
        assert Encode(s)[|EncodeChar(s[0])|..] == Encode(s[1..]) && Encode(t)[|EncodeChar(s[0])|..] == Encode(t[1..]);
        assert s == [s[0]] + s[1..] && t == [t[0]] + t[1..];
      }
    }
  }

  /** The characters `str.strip` removes. */
  predicate Strippable(c: char)
  {
    var n := c as int;
    || 0x09 <= n <= 0x0D || 0x1C <= n <= 0x20 || n == 0x85 || n == 0xA0 || n == 0x1680 || 0x2000 <= n <= 0x200A
    || n == 0x2028 || n == 0x2029 || n == 0x202F || n == 0x205F || n == 0x3000
  }

  predicate Blank(s: string) { forall i :: 0 <= i < |s| ==> Strippable(s[i]) }

  // ----- payload validation

  function Max(a: nat, b: nat): nat { if a < b then b else a }

  /** Levels below `v`. */
  function Height(v: Json): nat
    decreases v, 1
  {
    match v
    case Arr(items) => HeightItems(items)
    case Obj(entries) => HeightEntries(entries)
    case _ => 0
  }

  function HeightItems(items: seq<Json>): nat
    decreases items, 0
  {
    if |items| == 0 then 0
    else Max(HeightItems(items[..|items| - 1]), 1 + Height(items[|items| - 1]))
  }

  function HeightEntries(es: seq<Entry>): nat
    decreases es, 0
  {
    if |es| == 0 then 0 else Max(HeightEntries(es[..|es| - 1]), 1 + Height(es[|es| - 1].value))
  }

  /** Values in `v`, itself included. */
  function Size(v: Json): nat
    decreases v, 1
  {
    match v
    case Arr(items) => 1 + SizeItems(items)
    case Obj(entries) => 1 + SizeEntries(entries)
    case _ => 1
  }

  function SizeItems(items: seq<Json>): nat
    decreases items, 0
  {
    if |items| == 0 then 0 else SizeItems(items[..|items| - 1]) + Size(items[|items| - 1])
  }

  function SizeEntries(es: seq<Entry>): nat
    decreases es, 0
  {
    if |es| == 0 then 0 else SizeEntries(es[..|es| - 1]) + Size(es[|es| - 1].value)
  }

  /** No negative number and no blank key anywhere in `v`. */
  predicate Clean(v: Json)
    decreases v
  {
    match v
    case Num(n) => n >= 0
    case Arr(items) => forall i :: 0 <= i < |items| ==> Clean(items[i])
    case Obj(entries) => forall i :: 0 <= i < |entries| ==> !Blank(entries[i].key) && Clean(entries[i].value)
    case _ => true
  }

  predicate Admits(v: Json, depth: nat, count: nat)
  {
    depth + Height(v) <= MAX_PAYLOAD_DEPTH && count + Size(v) <= MAX_PAYLOAD_VALUES && Clean(v)
  }

  predicate Acceptable(v: Json) { Admits(v, 0, 0) }

  class Counter {
    var n: nat
    constructor () ensures n == 0 { n := 0; }
  }

  /** `_validate_payload`: one recursive walk with a shared counter accepts a value exactly
      when its height, its number of values and its contents are all admissible. */
  method ValidatePayload(v: Json, depth: nat, count: Counter) returns (ok: bool)
    modifies count
    ensures ok <==> Admits(v, depth, old(count.n))
    ensures ok ==> count.n == old(count.n) + Size(v)
    decreases v, 1
  {
    if depth > MAX_PAYLOAD_DEPTH { return false; }
    count.n := count.n + 1;
    if count.n > MAX_PAYLOAD_VALUES { return false; }
    match v
    case Num(n) => ok := n >= 0;
    case Arr(items) => ok := ValidateItems(items, depth, count);
    case Obj(entries) => ok := ValidateEntries(entries, depth, count);
    case _ => ok := true;
  }

  lemma {:induction false} PrefixBounds(items: seq<Json>, i: nat)
    requires i <= |items|
    ensures SizeItems(items[..i]) <= SizeItems(items) && HeightItems(items[..i]) <= HeightItems(items)
    decreases |items|
  {
    if i < |items| {
      var shorter := items[..|items| - 1];
      PrefixBounds(shorter, i);
      assert shorter[..i] == items[..i];
    } else {
      assert items[..i] == items;
    }
  }

  method ValidateItems(items: seq<Json>, depth: nat, count: Counter) returns (ok: bool)
    requires depth <= MAX_PAYLOAD_DEPTH && count.n <= MAX_PAYLOAD_VALUES
    modifies count
    ensures ok <==>
      && depth + HeightItems(items) <= MAX_PAYLOAD_DEPTH && old(count.n) + SizeItems(items) <= MAX_PAYLOAD_VALUES
      && forall i :: 0 <= i < |items| ==> Clean(items[i])
    ensures ok ==> count.n == old(count.n) + SizeItems(items)
    decreases items, 0
  {
    for i := 0 to |items|
      invariant count.n == old(count.n) + SizeItems(items[..i]) <= MAX_PAYLOAD_VALUES
      invariant depth + HeightItems(items[..i]) <= MAX_PAYLOAD_DEPTH
      invariant forall j :: 0 <= j < i ==> Clean(items[j])
    {
      var okChild := ValidatePayload(items[i], depth + 1, count);
      assert items[..i + 1][..i] == items[..i];
      if !okChild {
        PrefixBounds(items, i + 1);
        return false;
      }
    }
    assert items[..|items|] == items;
    return true;
  }

  lemma {:induction false} PrefixEntryBounds(es: seq<Entry>, i: nat)
    requires i <= |es|
    ensures SizeEntries(es[..i]) <= SizeEntries(es) && HeightEntries(es[..i]) <= HeightEntries(es)
    decreases |es|
  {
    if i < |es| {
      var shorter := es[..|es| - 1];
      PrefixEntryBounds(shorter, i);
      assert shorter[..i] == es[..i];
    } else {
      assert es[..i] == es;
    }
  }

  method ValidateEntries(es: seq<Entry>, depth: nat, count: Counter) returns (ok: bool)
    requires depth <= MAX_PAYLOAD_DEPTH && count.n <= MAX_PAYLOAD_VALUES
    modifies count
    ensures ok <==>
      && depth + HeightEntries(es) <= MAX_PAYLOAD_DEPTH && old(count.n) + SizeEntries(es) <= MAX_PAYLOAD_VALUES
      && forall i :: 0 <= i < |es| ==> !Blank(es[i].key) && Clean(es[i].value)
    ensures ok ==> count.n == old(count.n) + SizeEntries(es)
    decreases es, 0
  {
    for i := 0 to |es|
      invariant count.n == old(count.n) + SizeEntries(es[..i]) <= MAX_PAYLOAD_VALUES
      invariant depth + HeightEntries(es[..i]) <= MAX_PAYLOAD_DEPTH
      invariant forall j :: 0 <= j < i ==> !Blank(es[j].key) && Clean(es[j].value)
    {
      if Blank(es[i].key) { return false; }
      var okChild := ValidatePayload(es[i].value, depth + 1, count);
      assert es[..i + 1][..i] == es[..i];
      if !okChild {
        PrefixEntryBounds(es, i + 1);
        return false;
      }
    }
    assert es[..|es|] == es;
    return true;
  }

  // ----- identity

  function Checksum(codec: Codec, payload: seq<Entry>): string { codec.sha(Print(Obj(payload))) }

  /** The member names of an id's material. */
  datatype IdNames = IdNames(collector: string, instruction: string, kind: string, scope: string, cutoff: string,
                             checksum: string)

  function SourceIdNames(): IdNames
  {
    IdNames("collector_id", "instruction_id", "observation_type", "scope", "cutoff", "checksum")
  }

  predicate DistinctIdNames(n: IdNames)
  {
    var names := [n.collector, n.instruction, n.kind, n.scope, n.cutoff, n.checksum];
    forall i, j :: 0 <= i < j < |names| ==> names[i] != names[j]
  }

  lemma SourceIdNamesDistinct()
    ensures DistinctIdNames(SourceIdNames())
  {
    var n := SourceIdNames();
    assert |n.collector| == 12 && |n.instruction| == 14 && |n.kind| == 16;
    assert |n.scope| == 5 && |n.cutoff| == 6 && |n.checksum| == 8;
  }

  function MaterialEntries(n: IdNames, collector: string, instruction: string, kind: string, scope: Json,
                           cutoff: DateTime, checksum: string): seq<Entry>
    requires Valid(cutoff)
  {
    [Entry(n.collector, Str(collector)), Entry(n.instruction, Str(instruction)), Entry(n.kind, Str(kind)),
     Entry(n.scope, scope), Entry(n.cutoff, Str(Iso(cutoff))), Entry(n.checksum, Str(checksum))]
  }

  /** The text a stable id is hashed from. */
  function Material(n: IdNames, collector: string, instruction: string, kind: string, scope: Json, cutoff: DateTime,
                    checksum: string): string
    requires Valid(cutoff)
  {
    Print(Obj(MaterialEntries(n, collector, instruction, kind, scope, cutoff, checksum)))
  }

  /** The first 48 hex digits of the material's hash. */
  function ShortHash(codec: Codec, material: string): string
  {
    var h := codec.sha(material);
    if |h| <= 48 then h else h[..48]
  }

  function StableId(codec: Codec, material: string): string { "rc-" + ShortHash(codec, material) }

  lemma {:induction false} GetAt(es: seq<Entry>, i: nat)
    requires DistinctKeys(es) && i < |es|
    ensures Get(es, es[i].key) == Some(es[i].value)
  {
    if i == 0 {
    } else {
      assert es[0].key != es[i].key;
      GetAt(es[1..], i - 1);
    }
  }

  /** A document's member, read back from its normal form. */
  lemma NormMember(es: seq<Entry>, i: nat)
    requires DistinctKeys(es) && i < |es|
    ensures Get(NormEntries(es), es[i].key) == Some(Norm(es[i].value))
  {
    GetAt(es, i);
    NormEntriesGet(es, es[i].key);
  }

  lemma {:induction false} NormEntriesCongruent(es: seq<Entry>, es': seq<Entry>)
    requires |es| == |es'|
    requires forall n :: 0 <= n < |es| ==> es[n].key == es'[n].key && Norm(es[n].value) == Norm(es'[n].value)
    ensures NormEntries(es) == NormEntries(es')
  {
    if |es| == 0 {
    } else {
      NormEntriesCongruent(es[1..], es'[1..]);
    }
  }

  /** Two objects with the same key list print alike exactly when their members do. */
  lemma PrintedMembers(es: seq<Entry>, es': seq<Entry>)
    requires |es| == |es'| && forall n :: 0 <= n < |es| ==> es[n].key == es'[n].key
    requires WellFormed(Obj(es)) && WellFormed(Obj(es'))
    ensures Print(Obj(es)) == Print(Obj(es'))
      <==> forall n :: 0 <= n < |es| ==> Norm(es[n].value) == Norm(es'[n].value)
  {
    if Print(Obj(es)) == Print(Obj(es')) {
      PrintInjective(Obj(es), Obj(es'));
      forall n: nat | n < |es| ensures Norm(es[n].value) == Norm(es'[n].value) {
        NormMember(es, n);
        NormMember(es', n);
      }
    }
    if forall n :: 0 <= n < |es| ==> Norm(es[n].value) == Norm(es'[n].value) {
      NormEntriesCongruent(es, es');
    }
  }

  lemma ShortIds(codec: Codec, m: string, m': string)
    requires ShortHash(codec, m) == ShortHash(codec, m') ==> m == m'
    ensures StableId(codec, m) == StableId(codec, m') <==> m == m'
  {
    assert StableId(codec, m)[3..] == ShortHash(codec, m) && StableId(codec, m')[3..] == ShortHash(codec, m');
  }

  lemma MaterialWellFormed(n: IdNames, c: string, i: string, k: string, scope: Json, t: DateTime, sum: string)
    requires DistinctIdNames(n) && Valid(t) && WellFormed(scope)
    ensures WellFormed(Obj(MaterialEntries(n, c, i, k, scope, t, sum)))
  {
    hide Iso;
    var es := MaterialEntries(n, c, i, k, scope, t, sum);
    var names := [n.collector, n.instruction, n.kind, n.scope, n.cutoff, n.checksum];
    assert forall j :: 0 <= j < 6 ==> es[j].key == names[j];
    assert DistinctKeys(es);
  }

  lemma MaterialExact(n: IdNames, c: string, i: string, k: string, scope: Json, t: DateTime, sum: string,
                      c': string, i': string, k': string, scope': Json, t': DateTime, sum': string)
    requires DistinctIdNames(n) && Valid(t) && Valid(t') && WellFormed(scope) && WellFormed(scope')
    ensures Material(n, c, i, k, scope, t, sum) == Material(n, c', i', k', scope', t', sum')
      <==> c == c' && i == i' && k == k' && Norm(scope) == Norm(scope') && Iso(t) == Iso(t') && sum == sum'
  {
    hide Print, NormEntries, Iso, WellFormed;
    var es, es' := MaterialEntries(n, c, i, k, scope, t, sum), MaterialEntries(n, c', i', k', scope', t', sum');
    MaterialWellFormed(n, c, i, k, scope, t, sum);
    MaterialWellFormed(n, c', i', k', scope', t', sum');
    PrintedMembers(es, es');
    if Material(n, c, i, k, scope, t, sum) == Material(n, c', i', k', scope', t', sum') {
      assert Norm(es[0].value) == Norm(es'[0].value) && Norm(es[1].value) == Norm(es'[1].value);
      assert Norm(es[2].value) == Norm(es'[2].value) && Norm(es[3].value) == Norm(es'[3].value);
      assert Norm(es[4].value) == Norm(es'[4].value) && Norm(es[5].value) == Norm(es'[5].value);
    }
  }

  /** Equal ids mean the same collector, instruction, type, scope up to member order, cutoff
      instant and checksum, and conversely, unless the truncated hashes collide. */
  lemma StableIdExact(codec: Codec, n: IdNames, c: string, i: string, k: string, scope: Json, t: DateTime, sum: string,
                      c': string, i': string, k': string, scope': Json, t': DateTime, sum': string)
    requires DistinctIdNames(n) && Valid(t) && Valid(t') && WellFormed(scope) && WellFormed(scope')
    requires var m, m' := Material(n, c, i, k, scope, t, sum), Material(n, c', i', k', scope', t', sum');
      ShortHash(codec, m) == ShortHash(codec, m') ==> m == m'
    ensures StableId(codec, Material(n, c, i, k, scope, t, sum)) == StableId(codec, Material(n, c', i', k', scope', t', sum'))
      <==> c == c' && i == i' && k == k' && Norm(scope) == Norm(scope') && Micros(t) == Micros(t') && sum == sum'
  {
    MaterialExact(n, c, i, k, scope, t, sum, c', i', k', scope', t', sum');
    ShortIds(codec, Material(n, c, i, k, scope, t, sum), Material(n, c', i', k', scope', t', sum'));
    if Micros(t) == Micros(t') { MicrosInjective(t, t'); }
    if Iso(t) == Iso(t') { IsoInjective(t, t'); }
  }

  /** Checksums are equal if and only if the payloads are, up to member order, given that the two
      printed payloads do not collide. */
  lemma ChecksumExact(codec: Codec, payload: seq<Entry>, payload': seq<Entry>)
    requires WellFormed(Obj(payload)) && WellFormed(Obj(payload'))
    requires var m, m' := Print(Obj(payload)), Print(Obj(payload')); codec.sha(m) == codec.sha(m') ==> m == m'
    ensures Checksum(codec, payload) == Checksum(codec, payload') <==> Norm(Obj(payload)) == Norm(Obj(payload'))
  {
    hide Norm, WellFormed;
    if Checksum(codec, payload) == Checksum(codec, payload') { PrintInjective(Obj(payload), Obj(payload')); }
  }

  /** An id is `rc-` and the first 48 digits of its material's hash. */
  lemma StableIdForm(codec: Codec, material: string)
    requires |codec.sha(material)| == 64
    ensures |StableId(codec, material)| == 51 && StableId(codec, material)[..3] == "rc-"
    ensures StableId(codec, material)[3..] <= codec.sha(material)
  {
    assert StableId(codec, material)[3..] == ShortHash(codec, material);
  }

  // ----- envelopes

  datatype Observation = Observation(kind: string, scope: Json, season: string, cutoff: string,
                                     payload: seq<Entry>, provenance: seq<Entry>, schemaVersion: int)

  datatype Envelope = Envelope(manifestId: Option<string>, clientId: string, environment: string, collectorId: string,
                               provider: string, kind: string, scope: Json, season: string, cutoff: string,
                               retrievedAt: string, schemaVersion: int, payload: seq<Entry>, provenance: seq<Entry>,
                               checksum: string)

  /** What construction of an `ObservationEnvelope` checks, on values Python dicts can hold. */
  predicate Constructed(codec: Codec, e: Envelope)
  {
    && !Blank(e.clientId) && !Blank(e.environment) && !Blank(e.collectorId) && !Blank(e.provider)
    && !Blank(e.kind) && !Blank(e.season)
    && (e.manifestId.Some? ==> !Blank(e.manifestId.value))
    && |e.clientId| <= 128
    && e.schemaVersion in {1, 2}
    && ParseStamp(e.cutoff).Some? && ParseStamp(e.retrievedAt).Some?
    && Acceptable(Obj(e.payload)) && Acceptable(Obj(e.provenance))
    && WellFormed(Obj(e.payload)) && WellFormed(e.scope)
    && e.checksum == Checksum(codec, e.payload)
  }

  function SetDefault(es: seq<Entry>, key: string, value: Json): seq<Entry>
  {
    if Get(es, key).Some? then es else es + [Entry(key, value)]
  }

  /** The payload with its provenance filled in. */
  function WirePayload(payload: seq<Entry>, provenance: seq<Entry>): seq<Entry>
  {
    SetDefault(payload, "provenance", Obj(provenance))
  }

  function ObservedId(codec: Codec, collector: string, instruction: string, kind: string, scope: Json,
                      cutoff: DateTime, payload: seq<Entry>): string
    requires Valid(cutoff)
  {
    StableId(codec, Material(SourceIdNames(), collector, instruction, kind, scope, cutoff, Checksum(codec, payload)))
  }

  /** `from_observation`; `None` where it raises. */
  function FromObservation(codec: Codec, o: Observation, manifestId: Option<string>, environment: string,
                           collector: string, instruction: string, retrievedAt: string): (r: Option<Envelope>)
    ensures r.Some? ==> Constructed(codec, r.value) && ParseStamp(o.cutoff).Some?
    ensures r.Some? ==> var payload := WirePayload(o.payload, o.provenance);
      && r.value.checksum == Checksum(codec, payload)
      && r.value.clientId
         == ObservedId(codec, collector, instruction, o.kind, o.scope, ParseStamp(o.cutoff).value, payload)
  {
    var payload := WirePayload(o.payload, o.provenance);
    var cutoff :- ParseStamp(o.cutoff);
    var retrieved :- ParseStamp(retrievedAt);
    var clientId := ObservedId(codec, collector, instruction, o.kind, o.scope, cutoff, payload);
    var e := Envelope(manifestId, clientId, environment, collector, "nba", o.kind, o.scope, o.season, o.cutoff,
                      Iso(retrieved), o.schemaVersion, payload, o.provenance, Checksum(codec, payload));
    if Constructed(codec, e) then Some(e) else None
  }

  lemma {:induction false} SetDefaultGet(es: seq<Entry>, key: string, value: Json, k: string)
    ensures Get(SetDefault(es, key, value), k)
      == if Get(es, k).Some? then Get(es, k) else if k == key then Some(value) else None
  {
    if Get(es, key).Some? {
    } else if |es| == 0 {
      assert ([] + [Entry(key, value)])[1..] == [];
    } else {
      assert Get(es[1..], key).None?;
      SetDefaultGet(es[1..], key, value, k);
      assert (es + [Entry(key, value)])[1..] == es[1..] + [Entry(key, value)];
    }
  }

  /** What `from_observation` needs of its arguments, on values Python dicts can hold. */
  predicate Buildable(o: Observation, payload: seq<Entry>, manifestId: Option<string>, environment: string,
                      collector: string, retrievedAt: string)
  {
    && ParseStamp(o.cutoff).Some? && ParseStamp(retrievedAt).Some?
    && !Blank(environment) && !Blank(collector) && !Blank(o.kind) && !Blank(o.season)
    && (manifestId.Some? ==> !Blank(manifestId.value)) && (o.schemaVersion == 1 || o.schemaVersion == 2)
    && Acceptable(Obj(payload)) && Acceptable(Obj(o.provenance)) && WellFormed(Obj(payload)) && WellFormed(o.scope)
  }

  lemma DerivedIdFits(codec: Codec, material: string)
    ensures !Blank(StableId(codec, material)) && |StableId(codec, material)| <= 128
  {
    assert StableId(codec, material)[0] == 'r';
  }

  lemma NbaNotBlank()
    ensures !Blank("nba")
  {
    assert "nba"[0] == 'n';
  }

  /** An envelope is built if and only if the arguments are admissible, for its id and checksum
      always are; it holds what was observed and where, and a payload with the observed members,
      the provenance among them unless the observation brought its own. */
  lemma FromObservationExact(codec: Codec, o: Observation, manifestId: Option<string>, environment: string,
                             collector: string, instruction: string, retrievedAt: string)
    ensures var r := FromObservation(codec, o, manifestId, environment, collector, instruction, retrievedAt);
      && (r.Some? <==> Buildable(o, WirePayload(o.payload, o.provenance), manifestId, environment, collector, retrievedAt))
      && (r.Some? ==>
            var e := r.value;
            && e.manifestId == manifestId && e.environment == environment && e.collectorId == collector
            && e.provider == "nba" && e.kind == o.kind && e.scope == o.scope && e.season == o.season
            && e.cutoff == o.cutoff && e.schemaVersion == o.schemaVersion && e.provenance == o.provenance
            && ParseStamp(e.retrievedAt) == ParseStamp(retrievedAt)
            && forall k :: Get(e.payload, k)
                 == if Get(o.payload, k).Some? then Get(o.payload, k)
                    else if k == "provenance" then Some(Obj(o.provenance)) else None)
  {
    hide ParseStamp, Acceptable, Blank, Material, SetDefault, Checksum, Iso, StableId, Get, WellFormed;
    if ParseStamp(o.cutoff).Some? && ParseStamp(retrievedAt).Some? {
      var payload := WirePayload(o.payload, o.provenance);
      DerivedIdFits(codec, Material(SourceIdNames(), collector, instruction, o.kind, o.scope, ParseStamp(o.cutoff).value,
                                    Checksum(codec, payload)));
      NbaNotBlank();
      ParseIso(ParseStamp(retrievedAt).value);
      forall k { SetDefaultGet(o.payload, "provenance", Obj(o.provenance), k); }
    }
  }

  /** Two built envelopes have one id if and only if they were collected by the same collector under
      the same instruction, and agree on type, scope and payload up to member order and on the cutoff
      instant, given that neither hash collides on them. */
  lemma ObservedIdExact(codec: Codec, o: Observation, o': Observation, e: Envelope, e': Envelope,
                        manifestId: Option<string>, manifestId': Option<string>, environment: string, environment': string,
                        collector: string, collector': string, instruction: string, instruction': string,
                        retrievedAt: string, retrievedAt': string)
    requires FromObservation(codec, o, manifestId, environment, collector, instruction, retrievedAt) == Some(e)
    requires FromObservation(codec, o', manifestId', environment', collector', instruction', retrievedAt') == Some(e')
    requires var m, m' := Print(Obj(e.payload)), Print(Obj(e'.payload)); codec.sha(m) == codec.sha(m') ==> m == m'
    requires var m := Material(SourceIdNames(), collector, instruction, o.kind, o.scope, ParseStamp(o.cutoff).value, e.checksum);
      var m' := Material(SourceIdNames(), collector', instruction', o'.kind, o'.scope, ParseStamp(o'.cutoff).value, e'.checksum);
      ShortHash(codec, m) == ShortHash(codec, m') ==> m == m'
    ensures e.clientId == e'.clientId <==>
      && collector == collector' && instruction == instruction' && o.kind == o'.kind
      && Norm(o.scope) == Norm(o'.scope) && Norm(Obj(e.payload)) == Norm(Obj(e'.payload))
      && Micros(ParseStamp(o.cutoff).value) == Micros(ParseStamp(o'.cutoff).value)
  {
    hide ParseStamp, Acceptable, Blank, Material, SetDefault, Checksum, Iso, StableId, ShortHash, WellFormed, Norm, Print, Micros;
    ChecksumExact(codec, e.payload, e'.payload);
    SourceIdNamesDistinct();
    StableIdExact(codec, SourceIdNames(), collector, instruction, o.kind, o.scope, ParseStamp(o.cutoff).value, e.checksum,
                  collector', instruction', o'.kind, o'.scope, ParseStamp(o'.cutoff).value, e'.checksum);
  }

  function OptionalText(s: Option<string>): Json { if s.Some? then Str(s.value) else Null }

  /** The member names of the wire documents; the last two are the catalog's. */
  datatype Names = Names(manifestId: string, clientId: string, environment: string, provider: string, kind: string,
                         scope: string, season: string, cutoff: string, schemaVersion: string, retrievedAt: string,
                         checksum: string, payload: string, catalogVersion: string, expiresAt: string)
  {
    function Observation(): seq<string>
    {
      [manifestId, clientId, environment, provider, kind, scope, season, cutoff, schemaVersion, retrievedAt, checksum,
       payload]
    }

    function All(): seq<string> { Observation() + [catalogVersion, expiresAt] }

    predicate Distinct() { forall i, j :: 0 <= i < j < |All()| ==> All()[i] != All()[j] }
  }

  function SourceNames(): Names
  {
    Names("manifest_id", "client_observation_id", "environment", "provider", "observation_type", "scope", "season",
          "cutoff", "schema_version", "retrieved_at", "checksum", "payload", "catalog_version", "expires_at")
  }

  lemma SourceNamesDistinct()
    ensures SourceNames().Distinct()
  {
    var n := SourceNames();
    assert |n.manifestId| == 11 && |n.clientId| == 21 && |n.environment| == 11 && |n.provider| == 8;
    assert |n.kind| == 16 && |n.scope| == 5 && |n.season| == 6 && |n.cutoff| == 6 && |n.schemaVersion| == 14;
    assert |n.retrievedAt| == 12 && |n.checksum| == 8 && |n.payload| == 7;
    assert |n.catalogVersion| == 15 && |n.expiresAt| == 10;
    assert n.manifestId[0] != n.environment[0] && n.provider[0] != n.checksum[0] && n.season[0] != n.cutoff[0];
  }

  function WireEntries(n: Names, e: Envelope): seq<Entry>
  {
    [Entry(n.manifestId, OptionalText(e.manifestId)), Entry(n.clientId, Str(e.clientId)),
     Entry(n.environment, Str(e.environment)), Entry(n.provider, Str(e.provider)), Entry(n.kind, Str(e.kind)),
     Entry(n.scope, e.scope), Entry(n.season, Str(e.season)), Entry(n.cutoff, Str(e.cutoff)),
     Entry(n.schemaVersion, Num(e.schemaVersion)), Entry(n.retrievedAt, Str(e.retrievedAt)),
     Entry(n.checksum, Str(e.checksum)), Entry(n.payload, Obj(e.payload))]
  }

  datatype Catalog = Catalog(requestId: string, envelope: Envelope, version: string, expiresAt: Option<string>)

  predicate CatalogConstructed(codec: Codec, c: Catalog)
  {
    && Constructed(codec, c.envelope)
    && !Blank(c.requestId) && !Blank(c.version) && c.envelope.manifestId.None?
    && (c.expiresAt.Some? ==> ParseStamp(c.expiresAt.value).Some?)
  }

  function CatalogWireEntries(n: Names, c: Catalog): seq<Entry>
  {
    WireEntries(n, c.envelope) + [Entry(n.catalogVersion, Str(c.version))]
    + (if c.expiresAt.Some? then [Entry(n.expiresAt, Str(c.expiresAt.value))] else [])
  }

  predicate Fits(codec: Codec, wire: seq<Entry>)
  {
    var data := Print(Obj(wire));
    Utf8Length(data) <= MAX_ENVELOPE_BYTES && |codec.deflate(data)| <= MAX_COMPRESSED_BYTES
  }

  function CompressedWire(codec: Codec, wire: seq<Entry>): Bytes { codec.deflate(Print(Obj(wire))) }

  /** Decompression undoes compression on this document. */
  predicate GzipReadsBack(codec: Codec, wire: seq<Entry>)
  {
    codec.inflate(CompressedWire(codec, wire)) == Some(Print(Obj(wire)))
  }

  // ----- the outbox's wire validator

  datatype Verdict = Accepted | NotAnEnvelope | ChecksumMismatch

  predicate NonBlankText(v: Option<Json>) { v.Some? && v.value.Str? && !Blank(v.value.s) }

  function Required(n: Names, isCatalog: bool): set<string>
  {
    (set k | k in n.Observation()) + (if isCatalog then {n.catalogVersion} else {})
  }

  function Allowed(n: Names, isCatalog: bool): set<string>
  {
    Required(n, isCatalog) + (if isCatalog then {n.expiresAt} else {})
  }

  function JudgeDocument(codec: Codec, n: Names, document: seq<Entry>, isCatalog: bool, expectedChecksum: string): Verdict
  {
    var payload := Get(document, n.payload);
    var checksum := Get(document, n.checksum);
    if payload.None? || !payload.value.Obj? then NotAnEnvelope
    else if !(Required(n, isCatalog) <= Keys(document) <= Allowed(n, isCatalog)) then NotAnEnvelope
    else if !NonBlankText(Get(document, n.clientId)) then NotAnEnvelope
    else if checksum.None? || checksum.value != Str(Checksum(codec, payload.value.entries))
            || checksum.value != Str(expectedChecksum) then ChecksumMismatch
    else if !isCatalog && !NonBlankText(Get(document, n.manifestId)) then NotAnEnvelope
    else if isCatalog && Get(document, n.manifestId) != Some(Null) then NotAnEnvelope
    else
      var expires := Get(document, n.expiresAt);
      if isCatalog && expires.Some? && !(expires.value.Str? && ParseStamp(expires.value.s).Some?) then NotAnEnvelope
      else Accepted
  }

  /** `_validate_wire_payload`. */
  function JudgeWire(codec: Codec, n: Names, payload: Bytes, isCatalog: bool, expectedChecksum: string): Verdict
  {
    var text := codec.inflate(payload);
    if text.None? || Utf8Length(text.value) > MAX_ENVELOPE_BYTES then NotAnEnvelope
    else
      var document := Parse(text.value);
      if document.None? || !document.value.Obj? then NotAnEnvelope
      else JudgeDocument(codec, n, document.value.entries, isCatalog, expectedChecksum)
  }

  // ----- what the validator decides

  /** The bytes inflate to a text within the limit, which is a JSON object with these members. */
  ghost predicate Holds(codec: Codec, payload: Bytes, d: seq<Entry>)
  {
    exists text: string ::
      codec.inflate(payload) == Some(text) && Utf8Length(text) <= 10_485_760 && Parse(text) == Some(Obj(d))
  }

  function EnvelopeKeys(): set<string>
  {
    {"manifest_id", "client_observation_id", "environment", "provider", "observation_type", "scope", "season", "cutoff",
     "schema_version", "retrieved_at", "checksum", "payload"}
  }

  /** The members of an envelope, no more and no fewer, with an object payload and a client id. */
  ghost predicate HasShape(d: seq<Entry>, isCatalog: bool)
  {
    && (if isCatalog then EnvelopeKeys() + {"catalog_version"} <= Keys(d) <= EnvelopeKeys() + {"catalog_version", "expires_at"}
        else Keys(d) == EnvelopeKeys())
    && (exists p :: Get(d, "payload") == Some(Obj(p)))
    && (exists id :: Get(d, "client_observation_id") == Some(Str(id)) && !Blank(id))
  }

  /** The document's checksum is its payload's, and is the expected one. */
  ghost predicate BindsPayload(codec: Codec, d: seq<Entry>, sum: string)
  {
    exists p :: Get(d, "payload") == Some(p) && sum == codec.sha(Print(p)) && Get(d, "checksum") == Some(Str(sum))
  }

  /** An observation names a manifest; a catalog has none, and any expiry is a time. */
  ghost predicate NamesManifest(d: seq<Entry>, isCatalog: bool)
  {
    if isCatalog then
      && Get(d, "manifest_id") == Some(Null)
      && ("expires_at" in Keys(d) ==> exists t :: Get(d, "expires_at") == Some(Str(t)) && ParseStamp(t).Some?)
    else exists m :: Get(d, "manifest_id") == Some(Str(m)) && !Blank(m)
  }

  lemma NamesAsSet(n: Names)
    ensures (set k | k in n.Observation())
      == {n.manifestId, n.clientId, n.environment, n.provider, n.kind, n.scope, n.season, n.cutoff, n.schemaVersion,
          n.retrievedAt, n.checksum, n.payload}
  {
    var names := n.Observation();
    assert names[0] == n.manifestId && names[1] == n.clientId && names[2] == n.environment && names[3] == n.provider;
    assert names[4] == n.kind && names[5] == n.scope && names[6] == n.season && names[7] == n.cutoff;
    assert names[8] == n.schemaVersion && names[9] == n.retrievedAt && names[10] == n.checksum && names[11] == n.payload;
  }

  lemma SourceKeys(isCatalog: bool)
    ensures Required(SourceNames(), isCatalog) == if isCatalog then EnvelopeKeys() + {"catalog_version"} else EnvelopeKeys()
    ensures Allowed(SourceNames(), isCatalog)
      == if isCatalog then EnvelopeKeys() + {"catalog_version", "expires_at"} else EnvelopeKeys()
  {
    hide Names.Observation;
    NamesAsSet(SourceNames());
    assert {"catalog_version"} + {"expires_at"} == {"catalog_version", "expires_at"};
  }

  lemma DocumentExact(codec: Codec, d: seq<Entry>, isCatalog: bool, sum: string)
    ensures JudgeDocument(codec, SourceNames(), d, isCatalog, sum) == Accepted
      <==> HasShape(d, isCatalog) && BindsPayload(codec, d, sum) && NamesManifest(d, isCatalog)
    ensures JudgeDocument(codec, SourceNames(), d, isCatalog, sum) == ChecksumMismatch
      <==> HasShape(d, isCatalog) && !BindsPayload(codec, d, sum)
  {
    hide Print, ParseStamp, Get, Keys, EnvelopeKeys, Required, Allowed, Blank;
    SourceKeys(isCatalog);
  }

  /** Of all byte strings the validator accepts exactly the compressed envelopes of its kind that
      carry the expected checksum of their own payload; and it reports a wrong checksum exactly for
      a document of the right shape that does not. */
  lemma JudgeExact(codec: Codec, payload: Bytes, isCatalog: bool, sum: string)
    ensures JudgeWire(codec, SourceNames(), payload, isCatalog, sum) == Accepted <==>
      exists d :: Holds(codec, payload, d) && HasShape(d, isCatalog) && BindsPayload(codec, d, sum) && NamesManifest(d, isCatalog)
    ensures JudgeWire(codec, SourceNames(), payload, isCatalog, sum) == ChecksumMismatch <==>
      exists d :: Holds(codec, payload, d) && HasShape(d, isCatalog) && !BindsPayload(codec, d, sum)
  {
    hide JudgeDocument, HasShape, BindsPayload, NamesManifest, Parse, Utf8Length;
    forall d ensures Holds(codec, payload, d) ==>
        JudgeWire(codec, SourceNames(), payload, isCatalog, sum) == JudgeDocument(codec, SourceNames(), d, isCatalog, sum)
    {
    }
    forall d { DocumentExact(codec, d, isCatalog, sum); }
    var text := codec.inflate(payload);
    if text.Some? && Utf8Length(text.value) <= MAX_ENVELOPE_BYTES && Parse(text.value).Some? && Parse(text.value).value.Obj? {
      assert Holds(codec, payload, Parse(text.value).value.entries);
    }
  }

  /** A wire document: the twelve names, then possibly the two catalog ones. */
  predicate WireShape(n: Names, es: seq<Entry>, isCatalog: bool)
  {
    && |es| in (if isCatalog then {13, 14} else {12})
    && forall i :: 0 <= i < |es| ==> es[i].key == n.All()[i]
  }

  lemma ShapeFacts(n: Names, es: seq<Entry>, isCatalog: bool)
    requires n.Distinct() && WireShape(n, es, isCatalog)
    ensures DistinctKeys(es)
    ensures Required(n, isCatalog) <= Keys(es) <= Allowed(n, isCatalog)
  {
    forall k | k in n.Observation() ensures k in Keys(es) {
      var i :| 0 <= i < 12 && n.Observation()[i] == k;
      assert es[i].key == n.All()[i] == k;
    }
    if isCatalog { assert es[12].key == n.All()[12] == n.catalogVersion; }
    forall i | 0 <= i < |es| ensures es[i].key in Allowed(n, isCatalog) {
      assert es[i].key == n.All()[i];
      if i < 12 { assert n.All()[i] == n.Observation()[i]; }
    }
  }

  lemma ChecksumOfNormal(codec: Codec, payload: seq<Entry>)
    requires WellFormed(Obj(payload))
    ensures Checksum(codec, NormEntries(payload)) == Checksum(codec, payload)
  {
    PrintParsePrint(Obj(payload));
  }

  /** `d` holds the members of `es`, each normalized. */
  ghost predicate Reads(d: seq<Entry>, es: seq<Entry>)
  {
    && Keys(d) == Keys(es)
    && forall i :: 0 <= i < |es| ==> Get(d, es[i].key) == Some(Norm(es[i].value))
  }

  lemma NormReads(es: seq<Entry>)
    requires DistinctKeys(es)
    ensures Reads(NormEntries(es), es)
  {
    NormEntriesGet(es, "");
    forall i | 0 <= i < |es| ensures Get(NormEntries(es), es[i].key) == Some(Norm(es[i].value)) { NormMember(es, i); }
  }

  /** What the validator needs of a wire document and its envelope. */
  predicate Wired(codec: Codec, n: Names, e: Envelope, es: seq<Entry>, isCatalog: bool)
  {
    && WireShape(n, es, isCatalog) && WellFormed(Obj(e.payload))
    && !Blank(e.clientId) && (e.manifestId.Some? ==> !Blank(e.manifestId.value))
    && e.checksum == Checksum(codec, e.payload)
    && es[0].value == OptionalText(e.manifestId) && es[1].value == Str(e.clientId)
    && es[10].value == Str(e.checksum) && es[11].value == Obj(e.payload)
  }

  lemma ObservationJudged(codec: Codec, n: Names, e: Envelope, es: seq<Entry>, d: seq<Entry>)
    requires n.Distinct() && Wired(codec, n, e, es, false) && Reads(d, es)
    ensures JudgeDocument(codec, n, d, false, e.checksum) == Accepted <==> e.manifestId.Some?
  {
    hide Get, Print, NormEntries;
    ShapeFacts(n, es, false);
    ChecksumOfNormal(codec, e.payload);
    assert es[0].key == n.manifestId && es[1].key == n.clientId && es[10].key == n.checksum && es[11].key == n.payload;
  }

  lemma CatalogJudged(codec: Codec, n: Names, e: Envelope, es: seq<Entry>, d: seq<Entry>)
    requires n.Distinct() && Wired(codec, n, e, es, true) && e.manifestId.None? && Reads(d, es)
    requires |es| == 14 ==> es[13].value.Str? && ParseStamp(es[13].value.s).Some?
    ensures JudgeDocument(codec, n, d, true, e.checksum) == Accepted
  {
    hide Get, Print, NormEntries, ParseStamp;
    ShapeFacts(n, es, true);
    ChecksumOfNormal(codec, e.payload);
    assert es[0].key == n.manifestId && es[1].key == n.clientId && es[10].key == n.checksum && es[11].key == n.payload;
    if |es| == 14 {
      assert es[13].key == n.expiresAt;
    } else {
      assert n.All()[13] == n.expiresAt;
      assert n.expiresAt !in Keys(es);
    }
  }

  /** A printed document is judged as its members, each normalized. */
  lemma JudgePrinted(codec: Codec, n: Names, es: seq<Entry>, isCatalog: bool, sum: string)
    requires n.Distinct() && WireShape(n, es, isCatalog) && Fits(codec, es)
    requires WellFormed(es[5].value) && WellFormed(es[11].value)
    requires forall i :: 0 <= i < |es| && i != 5 && i != 11 ==> !es[i].value.Arr? && !es[i].value.Obj?
    requires GzipReadsBack(codec, es)
    ensures Reads(NormEntries(es), es) && Holds(codec, CompressedWire(codec, es), NormEntries(es))
    ensures JudgeWire(codec, n, CompressedWire(codec, es), isCatalog, sum)
      == JudgeDocument(codec, n, NormEntries(es), isCatalog, sum)
  {
    hide Print, Parse, NormEntries, JudgeDocument, Utf8Length;
    ShapeFacts(n, es, isCatalog);
    NormReads(es);
    assert WellFormed(Obj(es));
    PrintParsePrint(Obj(es));
  }

  /** Every constructed observation envelope that fits the limits passes the outbox's wire
      validator exactly when it names a manifest. */
  lemma ObservationAccepted(codec: Codec, n: Names, e: Envelope, es: seq<Entry>)
    requires n.Distinct() && Constructed(codec, e) && es == WireEntries(n, e) && Fits(codec, es)
    requires GzipReadsBack(codec, es)
    ensures JudgeWire(codec, n, CompressedWire(codec, es), false, e.checksum) == Accepted <==> e.manifestId.Some?
  {
    hide ParseStamp, Acceptable, Print, NormEntries, JudgeWire, JudgeDocument, Utf8Length;
    assert WireShape(n, es, false);
    JudgePrinted(codec, n, es, false, e.checksum);
    ObservationJudged(codec, n, e, es, NormEntries(es));
  }

  lemma CatalogWireShape(n: Names, c: Catalog)
    ensures WireShape(n, CatalogWireEntries(n, c), true)
  {
    var es, wire := CatalogWireEntries(n, c), WireEntries(n, c.envelope);
    forall i | 0 <= i < |es| ensures es[i].key == n.All()[i] {
      if i < 12 { assert es[i] == wire[i]; }
    }
  }

  /** Every constructed catalog envelope that fits the limits passes. */
  lemma CatalogAccepted(codec: Codec, n: Names, c: Catalog, es: seq<Entry>)
    requires n.Distinct() && CatalogConstructed(codec, c) && es == CatalogWireEntries(n, c) && Fits(codec, es)
    requires GzipReadsBack(codec, es)
    ensures JudgeWire(codec, n, CompressedWire(codec, es), true, c.envelope.checksum) == Accepted
  {
    hide ParseStamp, Acceptable, Print, NormEntries, JudgeWire, JudgeDocument, Utf8Length;
    CatalogWireShape(n, c);
    var wire := WireEntries(n, c.envelope);
    assert forall i :: 0 <= i < 12 ==> es[i] == wire[i];
    JudgePrinted(codec, n, es, true, c.envelope.checksum);
    CatalogJudged(codec, n, c.envelope, es, NormEntries(es));
  }

  /** The envelope's fields, each under its own name. */
  ghost predicate Carries(d: seq<Entry>, e: Envelope)
  {
    && Get(d, "manifest_id") == Some(if e.manifestId.Some? then Str(e.manifestId.value) else Null)
    && Get(d, "client_observation_id") == Some(Str(e.clientId)) && Get(d, "environment") == Some(Str(e.environment))
    && Get(d, "provider") == Some(Str(e.provider)) && Get(d, "observation_type") == Some(Str(e.kind))
    && Get(d, "scope") == Some(Norm(e.scope)) && Get(d, "season") == Some(Str(e.season))
    && Get(d, "cutoff") == Some(Str(e.cutoff)) && Get(d, "schema_version") == Some(Num(e.schemaVersion))
    && Get(d, "retrieved_at") == Some(Str(e.retrievedAt)) && Get(d, "checksum") == Some(Str(e.checksum))
    && Get(d, "payload") == Some(Norm(Obj(e.payload)))
  }

  lemma ReadsCarries(n: Names, e: Envelope, es: seq<Entry>, d: seq<Entry>)
    requires n == SourceNames() && Reads(d, es) && |es| >= 12 && es[..12] == WireEntries(n, e)
    ensures Carries(d, e)
  {
    hide Get, NormEntries, Keys;
    var wire := WireEntries(n, e);
    forall i | 0 <= i < 12 ensures Get(d, wire[i].key) == Some(Norm(wire[i].value)) { assert es[i] == es[..12][i]; }
    assert Get(d, wire[0].key) == Some(Norm(wire[0].value)) && Get(d, wire[1].key) == Some(Norm(wire[1].value));
    assert Get(d, wire[2].key) == Some(Norm(wire[2].value)) && Get(d, wire[3].key) == Some(Norm(wire[3].value));
    assert Get(d, wire[4].key) == Some(Norm(wire[4].value)) && Get(d, wire[5].key) == Some(Norm(wire[5].value));
    assert Get(d, wire[6].key) == Some(Norm(wire[6].value)) && Get(d, wire[7].key) == Some(Norm(wire[7].value));
    assert Get(d, wire[8].key) == Some(Norm(wire[8].value)) && Get(d, wire[9].key) == Some(Norm(wire[9].value));
    assert Get(d, wire[10].key) == Some(Norm(wire[10].value)) && Get(d, wire[11].key) == Some(Norm(wire[11].value));
  }

  /** Whoever inflates and parses an observation's bytes finds every field of the envelope under its
      own name, and nothing else. */
  lemma ObservationReadsBack(codec: Codec, e: Envelope) returns (d: seq<Entry>)
    requires Constructed(codec, e) && Fits(codec, WireEntries(SourceNames(), e))
    requires GzipReadsBack(codec, WireEntries(SourceNames(), e))
    ensures Holds(codec, CompressedWire(codec, WireEntries(SourceNames(), e)), d)
    ensures Carries(d, e) && Keys(d) == EnvelopeKeys()
  {
    hide ParseStamp, Acceptable, Print, NormEntries, JudgeWire, JudgeDocument, Utf8Length, Holds, Carries, Keys, EnvelopeKeys;
    var n, es := SourceNames(), WireEntries(SourceNames(), e);
    SourceNamesDistinct();
    SourceKeys(false);
    assert WireShape(n, es, false);
    JudgePrinted(codec, n, es, false, e.checksum);
    d := NormEntries(es);
    ReadsCarries(n, e, es, d);
    ShapeFacts(n, es, false);
  }

  lemma CatalogKeySet(n: Names, c: Catalog)
    requires n.Distinct()
    ensures var es := CatalogWireEntries(n, c);
      && Keys(es) == Required(n, true) + (if c.expiresAt.Some? then {n.expiresAt} else {})
      && (c.expiresAt.None? ==> n.expiresAt !in Keys(es))
  {
    var es := CatalogWireEntries(n, c);
    CatalogWireShape(n, c);
    ShapeFacts(n, es, true);
    assert n.All()[13] == n.expiresAt;
    if c.expiresAt.Some? {
      assert es[13].key == n.expiresAt;
    } else {
      assert n.expiresAt !in Keys(es);
    }
  }

  lemma CatalogPrinted(codec: Codec, n: Names, c: Catalog)
    requires n.Distinct() && CatalogConstructed(codec, c) && Fits(codec, CatalogWireEntries(n, c))
    requires GzipReadsBack(codec, CatalogWireEntries(n, c))
    ensures var es := CatalogWireEntries(n, c);
      && Reads(NormEntries(es), es) && Holds(codec, CompressedWire(codec, es), NormEntries(es))
      && |es| >= 13 && es[..12] == WireEntries(n, c.envelope)
      && es[12] == Entry(n.catalogVersion, Str(c.version))
      && (c.expiresAt.Some? ==> |es| == 14 && es[13] == Entry(n.expiresAt, Str(c.expiresAt.value)))
  {
    hide ParseStamp, Acceptable, Print, NormEntries, JudgeWire, JudgeDocument, Utf8Length, Holds, Reads;
    CatalogWireShape(n, c);
    var es, wire := CatalogWireEntries(n, c), WireEntries(n, c.envelope);
    assert forall i :: 0 <= i < 12 ==> es[i] == wire[i];
    JudgePrinted(codec, n, es, true, c.envelope.checksum);
  }

  /** The same for a catalog, with its version and, when it has one, its expiry. */
  lemma CatalogReadsBack(codec: Codec, c: Catalog) returns (d: seq<Entry>)
    requires CatalogConstructed(codec, c) && Fits(codec, CatalogWireEntries(SourceNames(), c))
    requires GzipReadsBack(codec, CatalogWireEntries(SourceNames(), c))
    ensures Holds(codec, CompressedWire(codec, CatalogWireEntries(SourceNames(), c)), d)
    ensures Carries(d, c.envelope) && Get(d, "catalog_version") == Some(Str(c.version))
    ensures Get(d, "expires_at") == if c.expiresAt.Some? then Some(Str(c.expiresAt.value)) else None
    ensures Keys(d) == EnvelopeKeys() + {"catalog_version"} + (if c.expiresAt.Some? then {"expires_at"} else {})
  {
    hide CatalogConstructed, Fits, GzipReadsBack, CompressedWire, CatalogWireEntries, WireEntries, Keys;
    hide Holds, Carries, NormEntries, Get, Required, Allowed, EnvelopeKeys, Names.Distinct, Names.All;
    var n, es := SourceNames(), CatalogWireEntries(SourceNames(), c);
    SourceNamesDistinct();
    SourceKeys(true);
    CatalogKeySet(n, c);
    CatalogPrinted(codec, n, c);
    d := NormEntries(es);
    ReadsCarries(n, c.envelope, es, d);
    if c.expiresAt.Some? { assert Get(d, es[13].key) == Some(Norm(es[13].value)); }
    assert Get(d, es[12].key) == Some(Norm(es[12].value));
  }

  /** Re-collecting an observation, at any retrieval time and with any spelling of its cutoff
      instant, gives the same id and checksum. */
  lemma ReplayIdentity(codec: Codec, o: Observation, o': Observation, manifestId: Option<string>,
                       manifestId': Option<string>, environment: string, collector: string, instruction: string,
                       retrievedAt: string, retrievedAt': string)
    requires o' == o.(cutoff := o'.cutoff) && ParseStamp(o.cutoff) == ParseStamp(o'.cutoff)
    requires FromObservation(codec, o, manifestId, environment, collector, instruction, retrievedAt).Some?
    requires FromObservation(codec, o', manifestId', environment, collector, instruction, retrievedAt').Some?
    ensures var e := FromObservation(codec, o, manifestId, environment, collector, instruction, retrievedAt).value;
      var e' := FromObservation(codec, o', manifestId', environment, collector, instruction, retrievedAt').value;
      e.clientId == e'.clientId && e.checksum == e'.checksum
  {
  }
}
