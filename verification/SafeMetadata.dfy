/** The screening of routing metadata: every key at every depth must be short and must not, once
    casefolded, contain a credential-shaped part. */
module SafeMetadata {
  import opened Options
  import opened CanonicalJson

  const MAX_KEY_LENGTH := 256

  datatype Refusal = KeyTooLong | Credential

  function Forbidden(): seq<string>
  {
    ["secret", "password", "credential", "authorization", "bearer", "token", "cookie", "private_key", "api_key",
     "raw_response", "provider_response", "player_fact", "player_facts"]
  }

  /** `casefold` on the characters whose folding has an ASCII letter. All others fold to characters
      outside ASCII, which no forbidden part has, and are left as they are. */
  function FoldChar(c: char): string
  {
    if 'A' <= c <= 'Z' then [(c as int + 32) as char]
    else if c < '\U{80}' then [c]
    else if c == '\U{DF}' || c == '\U{1E9E}' then "ss"
    else if c == '\U{130}' then "i\U{307}"
    else if c == '\U{149}' then "\U{2BC}n"
    else if c == '\U{17F}' then "s"
    else if c == '\U{1F0}' then "j\U{30C}"
    else if c == '\U{1E96}' then "h\U{331}"
    else if c == '\U{1E97}' then "t\U{308}"
    else if c == '\U{1E98}' then "w\U{30A}"
    else if c == '\U{1E99}' then "y\U{30A}"
    else if c == '\U{1E9A}' then "a\U{2BE}"
    else if c == '\U{212A}' then "k"
    else if c == '\U{FB00}' then "ff"
    else if c == '\U{FB01}' then "fi"
    else if c == '\U{FB02}' then "fl"
    else if c == '\U{FB03}' then "ffi"
    else if c == '\U{FB04}' then "ffl"
    else if c == '\U{FB05}' || c == '\U{FB06}' then "st"
    else [c]
  }

  function Fold(s: string): string { if |s| == 0 then "" else FoldChar(s[0]) + Fold(s[1..]) }

  predicate At(s: string, i: int, part: string) { 0 <= i <= |s| - |part| && s[i..i + |part|] == part }

  predicate Contains(s: string, part: string) { exists i :: 0 <= i <= |s| && At(s, i, part) }

  predicate SecretShaped(key: string)
  {
    exists i :: 0 <= i < |Forbidden()| && Contains(Fold(key), Forbidden()[i])
  }

  function ScreenKey(key: string): Option<Refusal>
  {
    if |key| > MAX_KEY_LENGTH then Some(KeyTooLong) else if SecretShaped(key) then Some(Credential) else None
  }

  /** `_safe_metadata`: the first refusal met on the walk, in document order. */
  function Walk(v: Json): Option<Refusal>
    decreases v, 1
  {
    match v
    case Obj(entries) => WalkEntries(entries)
    case Arr(items) => WalkItems(items)
    case _ => None
  }

  function WalkEntries(es: seq<Entry>): Option<Refusal>
    decreases es, 0
  {
    if |es| == 0 then None
    else if ScreenKey(es[0].key).Some? then ScreenKey(es[0].key)
    else
      var refusal := Walk(es[0].value);
      if refusal.Some? then refusal else WalkEntries(es[1..])
  }

  function WalkItems(items: seq<Json>): Option<Refusal>
    decreases items, 0
  {
    if |items| == 0 then None
    else
      var refusal := Walk(items[0]);
      if refusal.Some? then refusal else WalkItems(items[1..])
  }

  // ----- what the walk decides

  predicate SafeKey(key: string) { |key| <= MAX_KEY_LENGTH && !SecretShaped(key) }

  /** Every key of every object in `v` is safe. */
  predicate SafeKeys(v: Json)
    decreases v
  {
    match v
    case Obj(entries) => forall i :: 0 <= i < |entries| ==> SafeKey(entries[i].key) && SafeKeys(entries[i].value)
    case Arr(items) => forall i :: 0 <= i < |items| ==> SafeKeys(items[i])
    case _ => true
  }

  /** The walk, which stops at the first refusal, passes a value if and only if all its keys are safe. */
  lemma {:induction false} WalkExact(v: Json)
    ensures Walk(v).None? <==> SafeKeys(v)
    decreases v, 1
  {
    match v
    case Obj(entries) => WalkEntriesExact(entries);
    case Arr(items) => WalkItemsExact(items);
    case _ =>
  }

  lemma {:induction false} WalkEntriesExact(es: seq<Entry>)
    ensures WalkEntries(es).None? <==> forall i :: 0 <= i < |es| ==> SafeKey(es[i].key) && SafeKeys(es[i].value)
    decreases es, 0
  {
    hide SecretShaped;
    if |es| == 0 {
    } else {
      WalkExact(es[0].value);
      WalkEntriesExact(es[1..]);
      assert forall i :: 1 <= i < |es| ==> es[i] == es[1..][i - 1];
    }
  }

  lemma {:induction false} WalkItemsExact(items: seq<Json>)
    ensures WalkItems(items).None? <==> forall i :: 0 <= i < |items| ==> SafeKeys(items[i])
    decreases items, 0
  {
    if |items| == 0 {
    } else {
      WalkExact(items[0]);
      WalkItemsExact(items[1..]);
      assert forall i :: 1 <= i < |items| ==> items[i] == items[1..][i - 1];
    }
  }

  // ----- which keys are refused

  /** `s` is `part` with any of its letters in either case. */
  predicate CaseOf(s: string, part: string)
  {
    |s| == |part|
    && forall i :: 0 <= i < |s| ==> s[i] == part[i] || ('A' <= s[i] <= 'Z' && s[i] as int + 32 == part[i] as int)
  }

  lemma FoldCons(c: char, s: string)
    ensures Fold([c] + s) == FoldChar(c) + Fold(s)
  {
    hide FoldChar;
    assert ([c] + s)[1..] == s;
  }

  lemma {:induction false} FoldAppends(a: string, b: string)
    ensures Fold(a + b) == Fold(a) + Fold(b)
  {
    hide FoldChar;
    if |a| == 0 {
      assert a + b == b;
    } else {
      FoldAppends(a[1..], b);
      assert a == [a[0]] + a[1..] && a + b == [a[0]] + (a[1..] + b);
      hide Fold;
      FoldCons(a[0], a[1..]);
      FoldCons(a[0], a[1..] + b);
    }
  }

  lemma {:induction false} FoldOfCase(s: string, part: string)
    requires CaseOf(s, part) && forall i :: 0 <= i < |part| ==> 'a' <= part[i] <= 'z' || part[i] == '_'
    ensures Fold(s) == part
  {
    if |s| == 0 {
    } else {
      FoldOfCase(s[1..], part[1..]);
      assert part == [part[0]] + part[1..];
    }
  }

  lemma ForbiddenIsPlain(n: nat)
    requires n < |Forbidden()|
    ensures forall i :: 0 <= i < |Forbidden()[n]| ==> 'a' <= Forbidden()[n][i] <= 'z' || Forbidden()[n][i] == '_'
  {
  }

  function CredentialWords(): set<string>
  {
    {"secret", "password", "credential", "authorization", "bearer", "token", "cookie", "private_key", "api_key",
     "raw_response", "provider_response", "player_fact", "player_facts"}
  }

  lemma WordListed(word: string) returns (n: nat)
    requires word in CredentialWords()
    ensures n < |Forbidden()| && Forbidden()[n] == word
  {
    var words := Forbidden();
    assert words[0] == "secret" && words[1] == "password" && words[2] == "credential" && words[3] == "authorization";
    assert words[4] == "bearer" && words[5] == "token" && words[6] == "cookie" && words[7] == "private_key";
    assert words[8] == "api_key" && words[9] == "raw_response" && words[10] == "provider_response";
    assert words[11] == "player_fact" && words[12] == "player_facts";
    n :| n < |words| && words[n] == word;
  }

  /** A key with one of the thirteen words anywhere in it, in any mixture of case, is refused, and so
      is every key longer than 256 characters. */
  lemma KeyRefused(before: string, word: string, shown: string, after: string, v: Json)
    requires word in CredentialWords() && CaseOf(shown, word)
    ensures Walk(Obj([Entry(before + shown + after, v)])).Some?
    ensures forall key: string :: |key| > 256 ==> Walk(Obj([Entry(key, v)])).Some?
  {
    hide Fold;
    var key := before + shown + after;
    var n := WordListed(word);
    ForbiddenIsPlain(n);
    FoldOfCase(shown, word);
    FoldAppends(before + shown, after);
    FoldAppends(before, shown);
    assert Contains(Fold(key), word) by {
      var folded := Fold(key);
      assert folded == Fold(before) + word + Fold(after);
      assert folded[|Fold(before)|..|Fold(before)| + |word|] == word;
      assert At(folded, |Fold(before)|, word);
    }
    assert SecretShaped(key);
  }

  // ----- the metadata's own keys

  /** Two neighbouring letters; every forbidden part has one of these pairs. */
  predicate TellingPair(a: char, b: char)
  {
    || (a == 'c' && b == 'r') || (a == 'w' && b == 'o') || (a == 'i' && b == 'z') || (a == 'b' && b == 'e')
    || (a == 'o' && b == 'k') || (a == '_' && (b == 'k' || b == 'r' || b == 'f'))
  }

  predicate Plain(c: char) { 'a' <= c <= 'z' || c == '_' }

  /** From position `i` on, lower case and free of telling pairs. */
  predicate Quiet(key: string, i: nat)
    requires i <= |key|
    decreases |key| - i
  {
    i == |key| || (Plain(key[i]) && (i + 1 < |key| ==> !TellingPair(key[i], key[i + 1])) && Quiet(key, i + 1))
  }

  lemma {:induction false} QuietAt(key: string, i: nat, k: nat)
    requires i <= k < |key| && Quiet(key, i)
    ensures Plain(key[k]) && (k + 1 < |key| ==> !TellingPair(key[k], key[k + 1]))
    decreases k - i
  {
    if i == k {
    } else {
      QuietAt(key, i + 1, k);
    }
  }

  lemma {:induction false} FoldPlain(s: string)
    requires forall i :: 0 <= i < |s| ==> Plain(s[i])
    ensures Fold(s) == s
  {
    if |s| == 0 {
    } else {
      FoldPlain(s[1..]);
      assert s == [s[0]] + s[1..];
    }
  }

  lemma ForbiddenHasPair(n: nat) returns (i: nat)
    requires n < |Forbidden()|
    ensures i + 1 < |Forbidden()[n]| && TellingPair(Forbidden()[n][i], Forbidden()[n][i + 1])
  {
    var pairs := [2, 4, 0, 6, 0, 1, 2, 7, 3, 3, 8, 6, 6];
    i := pairs[n];
  }

  /** A quiet key has no room for a part with a telling pair. */
  lemma PartAbsent(key: string, part: string, k: nat)
    requires Quiet(key, 0) && k + 1 < |part| && TellingPair(part[k], part[k + 1])
    ensures !Contains(key, part)
  {
    hide TellingPair, Quiet;
    forall i | 0 <= i <= |key| - |part| ensures !At(key, i, part) {
      QuietAt(key, 0, i + k);
      assert key[i..i + |part|][k] == key[i + k] && key[i..i + |part|][k + 1] == key[i + k + 1];
    }
  }

  lemma QuietIsSafe(key: string)
    requires |key| <= MAX_KEY_LENGTH && Quiet(key, 0)
    ensures SafeKey(key)
  {
    hide TellingPair, Quiet, Contains, Forbidden;
    forall i | 0 <= i < |key| ensures Plain(key[i]) { QuietAt(key, 0, i); }
    FoldPlain(key);
    forall n | 0 <= n < |Forbidden()| ensures !Contains(key, Forbidden()[n]) {
      var k := ForbiddenHasPair(n);
      PartAbsent(key, Forbidden()[n], k);
    }
  }

  function MetadataKeys(): seq<string>
  {
    ["kind", "manifest_id", "client_observation_id", "environment", "collector_id", "provider", "observation_type",
     "scope", "season", "cutoff", "retrieved_at", "schema_version", "checksum"]
  }

  function CatalogMetadataKeys(): seq<string> { MetadataKeys() + ["request_id", "catalog_version", "expires_at"] }

  lemma ShortKeysSafe()
    ensures SafeKey("kind") && SafeKey("provider") && SafeKey("scope")
    ensures SafeKey("season") && SafeKey("cutoff")
  {
    hide SafeKey;
    var k0, k1, k2, k3, k4 := "kind", "provider", "scope", "season", "cutoff";
    assert Quiet(k0, 3) && Quiet(k0, 1);
    QuietIsSafe(k0);
    assert Quiet(k1, 7) && Quiet(k1, 5) && Quiet(k1, 3) && Quiet(k1, 1);
    QuietIsSafe(k1);
    assert Quiet(k2, 4) && Quiet(k2, 2);
    QuietIsSafe(k2);
    assert Quiet(k3, 5) && Quiet(k3, 3) && Quiet(k3, 1);
    QuietIsSafe(k3);
    assert Quiet(k4, 5) && Quiet(k4, 3) && Quiet(k4, 1);
    QuietIsSafe(k4);
  }

  lemma OriginKeysSafe()
    ensures SafeKey("manifest_id") && SafeKey("environment")
  {
    hide SafeKey;
    var k0, k1 := "manifest_id", "environment";
    assert Quiet(k0, 10) && Quiet(k0, 8) && Quiet(k0, 6) && Quiet(k0, 4) && Quiet(k0, 2);
    QuietIsSafe(k0);
    assert Quiet(k1, 10) && Quiet(k1, 8) && Quiet(k1, 6) && Quiet(k1, 4) && Quiet(k1, 2);
    QuietIsSafe(k1);
  }

  lemma ClientKeySafe()
    ensures SafeKey("client_observation_id")
  {
    hide SafeKey;
    var key := "client_observation_id";
    assert Quiet(key, 20) && Quiet(key, 18) && Quiet(key, 16) && Quiet(key, 14) && Quiet(key, 12)
      && Quiet(key, 10) && Quiet(key, 8) && Quiet(key, 6) && Quiet(key, 4) && Quiet(key, 2);
    QuietIsSafe(key);
  }

  lemma CollectorKeysSafe()
    ensures SafeKey("collector_id") && SafeKey("checksum")
  {
    hide SafeKey;
    var k0, k1 := "collector_id", "checksum";
    assert Quiet(k0, 11) && Quiet(k0, 9) && Quiet(k0, 7) && Quiet(k0, 5) && Quiet(k0, 3) && Quiet(k0, 1);
    QuietIsSafe(k0);
    assert Quiet(k1, 7) && Quiet(k1, 5) && Quiet(k1, 3) && Quiet(k1, 1);
    QuietIsSafe(k1);
  }

  lemma SubjectKeysSafe()
    ensures SafeKey("observation_type") && SafeKey("request_id")
  {
    hide SafeKey;
    var k0, k1 := "observation_type", "request_id";
    assert Quiet(k0, 15) && Quiet(k0, 13) && Quiet(k0, 11) && Quiet(k0, 9) && Quiet(k0, 7) && Quiet(k0, 5)
      && Quiet(k0, 3) && Quiet(k0, 1);
    QuietIsSafe(k0);
    assert Quiet(k1, 9) && Quiet(k1, 7) && Quiet(k1, 5) && Quiet(k1, 3) && Quiet(k1, 1);
    QuietIsSafe(k1);
  }

  lemma StampKeysSafe()
    ensures SafeKey("retrieved_at") && SafeKey("schema_version")
  {
    hide SafeKey;
    var k0, k1 := "retrieved_at", "schema_version";
    assert Quiet(k0, 11) && Quiet(k0, 9) && Quiet(k0, 7) && Quiet(k0, 5) && Quiet(k0, 3) && Quiet(k0, 1);
    QuietIsSafe(k0);
    assert Quiet(k1, 13) && Quiet(k1, 11) && Quiet(k1, 9) && Quiet(k1, 7) && Quiet(k1, 5) && Quiet(k1, 3)
      && Quiet(k1, 1);
    QuietIsSafe(k1);
  }

  lemma CatalogKeysSafe()
    ensures SafeKey("catalog_version") && SafeKey("expires_at")
  {
    hide SafeKey;
    var k0, k1 := "catalog_version", "expires_at";
    assert Quiet(k0, 14) && Quiet(k0, 12) && Quiet(k0, 10) && Quiet(k0, 8) && Quiet(k0, 6) && Quiet(k0, 4)
      && Quiet(k0, 2);
    QuietIsSafe(k0);
    assert Quiet(k1, 9) && Quiet(k1, 7) && Quiet(k1, 5) && Quiet(k1, 3) && Quiet(k1, 1);
    QuietIsSafe(k1);
  }

  lemma MetadataKeysSafe()
    ensures forall i :: 0 <= i < |CatalogMetadataKeys()| ==> SafeKey(CatalogMetadataKeys()[i])
    ensures forall i :: 0 <= i < |MetadataKeys()| ==> SafeKey(MetadataKeys()[i])
  {
    hide SafeKey;
    ShortKeysSafe();
    OriginKeysSafe();
    ClientKeySafe();
    CollectorKeysSafe();
    SubjectKeysSafe();
    StampKeysSafe();
    CatalogKeysSafe();
  }

  /** A scope that names a token is refused. */
  lemma TokenIsRefused()
    ensures Walk(Obj([Entry("token", Num(1))])) == Some(Credential)
  {
    var key := "token";
    FoldPlain(key);
    assert Forbidden()[5] == key && At(key, 0, key);
    assert Contains(Fold(key), Forbidden()[5]);
  }
}
