/** Canonical JSON text: the sorted-key printer the checksums are taken over, and the
    RFC 8259 reader (sections 2 to 7) that the outbox validator applies to it. */
module CanonicalJson {
  import opened Options
  import opened Scanning
  import opened Sorting

  /** Numbers are integers. An object keeps its members in insertion order. */
  datatype Json =
    | Null
    | Bool(b: bool)
    | Num(n: int)
    | Str(s: string)
    | Arr(items: seq<Json>)
    | Obj(entries: seq<Entry>)

  datatype Entry = Entry(key: string, value: Json)

  predicate KeyLess(a: Entry, b: Entry) { LexLess(a.key, b.key) }

  predicate DistinctKeys(es: seq<Entry>)
  {
    forall i, j :: 0 <= i < j < |es| ==> es[i].key != es[j].key
  }

  /** A value a Python dict can hold: no object repeats a key. */
  predicate WellFormed(v: Json)
    decreases v
  {
    match v
    case Arr(items) => forall i :: 0 <= i < |items| ==> WellFormed(items[i])
    case Obj(entries) => DistinctKeys(entries) && forall i :: 0 <= i < |entries| ==> WellFormed(entries[i].value)
    case _ => true
  }

  function Keys(es: seq<Entry>): set<string> { set i | 0 <= i < |es| :: es[i].key }

  function Get(es: seq<Entry>, key: string): (r: Option<Json>)
    ensures r.Some? <==> key in Keys(es)
  {
    if |es| == 0 then None
    else if es[0].key == key then
      assert es[0].key in Keys(es);
      Some(es[0].value)
    else
      assert forall i :: 1 <= i < |es| ==> es[i].key == es[1..][i - 1].key;
      Get(es[1..], key)
  }

  // ----- printing

  /** `sort_keys=True`, applied at every level. */
  function Norm(v: Json): Json
    decreases v, 1
  {
    match v
    case Arr(items) => Arr(NormItems(items))
    case Obj(entries) => Obj(NormEntries(entries))
    case _ => v
  }

  function NormItems(items: seq<Json>): seq<Json>
    decreases items, 0
  {
    if |items| == 0 then [] else [Norm(items[0])] + NormItems(items[1..])
  }

  function NormEntries(es: seq<Entry>): seq<Entry>
    decreases es, 0
  {
    if |es| == 0 then []
    else Insert(KeyLess, Entry(es[0].key, Norm(es[0].value)), NormEntries(es[1..]))
  }

  function HexDigit(d: int): char
    requires 0 <= d < 16
  {
    if d < 10 then '0' + d as char else 'a' + (d - 10) as char
  }

  function Escape(c: char): string
  {
    if c == '"' then "\\\""
    else if c == '\\' then "\\\\"
    else if c == '\n' then "\\n"
    else if c == '\r' then "\\r"
    else if c == '\t' then "\\t"
    else if c == '\U{000C}' then "\\f"
    else if c == '\U{0008}' then "\\b"
    else if c < ' ' then "\\u00" + [HexDigit(c as int / 16), HexDigit(c as int % 16)]
    else [c]
  }

  /** The characters of a string, its closing quote, and then `rest`. */
  function PutChars(s: string, rest: string): string
  {
    if |s| == 0 then ['"'] + rest else Escape(s[0]) + PutChars(s[1..], rest)
  }

  function PutNat(n: nat, rest: string): string
  {
    if n < 10 then [Digit(n)] + rest else PutNat(n / 10, [Digit(n % 10)] + rest)
  }

  /** The compact rendering of `v` in the member order it has, followed by `rest`. */
  function Put(v: Json, rest: string): string
    decreases v, 1
  {
    match v
    case Null => "null" + rest
    case Bool(b) => (if b then "true" else "false") + rest
    case Num(n) => if n < 0 then ['-'] + PutNat(-n, rest) else PutNat(n, rest)
    case Str(s) => ['"'] + PutChars(s, rest)
    case Arr(items) => ['['] + PutItems(items, rest)
    case Obj(entries) => ['{'] + PutMembers(entries, rest)
  }

  function PutItems(items: seq<Json>, rest: string): string
    decreases items, 0
  {
    if |items| == 0 then [']'] + rest
    else if |items| == 1 then Put(items[0], [']'] + rest)
    else Put(items[0], [','] + PutItems(items[1..], rest))
  }

  function PutMembers(es: seq<Entry>, rest: string): string
    decreases es, 0
  {
    if |es| == 0 then ['}'] + rest
    else
      var after := if |es| == 1 then ['}'] + rest else [','] + PutMembers(es[1..], rest);
      ['"'] + PutChars(es[0].key, [':'] + Put(es[0].value, after))
  }

  /** `canonical_json`, before its UTF-8 encoding. */
  function Print(v: Json): string { Put(Norm(v), "") }

  // ----- reading

  predicate IsSpace(c: char) { c == ' ' || c == '\t' || c == '\n' || c == '\r' }

  function SkipSpace(s: string): (r: string)
    ensures |r| <= |s|
    ensures |s| > 0 && !IsSpace(s[0]) ==> r == s
  {
    if |s| > 0 && IsSpace(s[0]) then SkipSpace(s[1..]) else s
  }

  function HexValue(c: char): (r: Option<nat>)
    ensures r.Some? ==> r.value < 16
  {
    if '0' <= c <= '9' then Some((c - '0') as int)
    else if 'a' <= c <= 'f' then Some((c - 'a') as int + 10)
    else if 'A' <= c <= 'F' then Some((c - 'A') as int + 10)
    else None
  }

  function ReadHex4(s: string): (r: Option<nat>)
    ensures r.Some? ==> r.value < 0x1_0000 && |s| >= 4
  {
    if |s| < 4 then None
    else
      var a :- HexValue(s[0]);
      var b :- HexValue(s[1]);
      var c :- HexValue(s[2]);
      var d :- HexValue(s[3]);
      Some(a * 4096 + b * 256 + c * 16 + d)
  }

  /** One `\u` escape after its `u`; a surrogate must be half of a pair. */
  function ReadUnicode(s: string): (r: Option<(char, string)>)
    ensures r.Some? ==> |r.value.1| < |s|
  {
    var high :- ReadHex4(s);
    if high < 0xD800 || 0xE000 <= high then Some((high as char, s[4..]))
    else if high < 0xDC00 && |s| >= 6 && s[4] == '\\' && s[5] == 'u' then
      var low :- ReadHex4(s[6..]);
      if 0xDC00 <= low < 0xE000 then
        Some(((0x1_0000 + (high - 0xD800) * 1024 + (low - 0xDC00)) as char, s[10..]))
      else None
    else None
  }

  function ReadEscape(s: string): (r: Option<(char, string)>)
    ensures r.Some? ==> |r.value.1| < |s|
  {
    if |s| == 0 then None
    else
      match s[0]
      case '"' => Some(('"', s[1..]))
      case '\\' => Some(('\\', s[1..]))
      case '/' => Some(('/', s[1..]))
      case 'b' => Some(('\U{0008}', s[1..]))
      case 'f' => Some(('\U{000C}', s[1..]))
      case 'n' => Some(('\n', s[1..]))
      case 'r' => Some(('\r', s[1..]))
      case 't' => Some(('\t', s[1..]))
      case 'u' => ReadUnicode(s[1..])
      case _ => None
  }

  /** A string body up to its closing quote; raw control characters are refused. */
  function ReadChars(s: string): (r: Option<(string, string)>)
    ensures r.Some? ==> |r.value.1| < |s|
    decreases |s|
  {
    if |s| == 0 || s[0] < ' ' then None
    else if s[0] == '"' then Some(("", s[1..]))
    else if s[0] == '\\' then
      var (c, rest) :- ReadEscape(s[1..]);
      var (tail, rest') :- ReadChars(rest);
      Some(([c] + tail, rest'))
    else
      var (tail, rest') :- ReadChars(s[1..]);
      Some(([s[0]] + tail, rest'))
  }

  function TakeDigits(s: string, acc: nat): (r: (nat, string))
    ensures |r.1| <= |s|
  {
    if |s| > 0 && IsDigit(s[0]) then TakeDigits(s[1..], acc * 10 + (s[0] - '0') as int) else (acc, s)
  }

  function ReadNat(s: string): (r: Option<(nat, string)>)
    ensures r.Some? ==> |r.value.1| < |s|
  {
    if |s| == 0 || !IsDigit(s[0]) then None
    else
      var (n, rest) := if s[0] == '0' then (0, s[1..]) else TakeDigits(s[1..], (s[0] - '0') as int);
      if |rest| > 0 && (rest[0] == '.' || rest[0] == 'e' || rest[0] == 'E') then None else Some((n, rest))
  }

  function ReadWord(s: string): (r: Option<(Json, string)>)
    ensures r.Some? ==> |r.value.1| < |s|
  {
    if "null" <= s then Some((Null, s[4..]))
    else if "true" <= s then Some((Bool(true), s[4..]))
    else if "false" <= s then Some((Bool(false), s[5..]))
    else None
  }

  function DictSet(es: seq<Entry>, e: Entry): seq<Entry>
  {
    if |es| == 0 then [e]
    else if es[0].key == e.key then [e] + es[1..]
    else [es[0]] + DictSet(es[1..], e)
  }

  /** The dict a list of pairs builds: first position, last value. */
  function DictOf(pairs: seq<Entry>): seq<Entry>
  {
    if |pairs| == 0 then [] else DictSet(DictOf(pairs[..|pairs| - 1]), pairs[|pairs| - 1])
  }

  function ReadValue(s: string): (r: Option<(Json, string)>)
    ensures r.Some? ==> |r.value.1| < |s|
    decreases |s|, 0
  {
    if |s| == 0 then None
    else if s[0] == '"' then
      var (text, rest) :- ReadChars(s[1..]);
      Some((Str(text), rest))
    else if s[0] == '[' then
      var body := SkipSpace(s[1..]);
      if |body| > 0 && body[0] == ']' then Some((Arr([]), body[1..]))
      else
        var (items, rest) :- ReadItems(body);
        Some((Arr(items), rest))
    else if s[0] == '{' then
      var body := SkipSpace(s[1..]);
      if |body| > 0 && body[0] == '}' then Some((Obj([]), body[1..]))
      else
        var (pairs, rest) :- ReadMembers(body);
        Some((Obj(DictOf(pairs)), rest))
    else if s[0] == '-' then
      var (n, rest) :- ReadNat(s[1..]);
      Some((Num(0 - n), rest))
    else if IsDigit(s[0]) then
      var (n, rest) :- ReadNat(s);
      Some((Num(n), rest))
    else ReadWord(s)
  }

  function ReadItems(s: string): (r: Option<(seq<Json>, string)>)
    ensures r.Some? ==> |r.value.1| < |s|
    decreases |s|, 1
  {
    var (v, after) :- ReadValue(s);
    var rest := SkipSpace(after);
    if |rest| > 0 && rest[0] == ']' then Some(([v], rest[1..]))
    else if |rest| > 0 && rest[0] == ',' then
      var (tail, end) :- ReadItems(SkipSpace(rest[1..]));
      Some(([v] + tail, end))
    else None
  }

  function ReadMember(s: string): (r: Option<(Entry, string)>)
    ensures r.Some? ==> |r.value.1| < |s|
    decreases |s|, 1
  {
    if |s| == 0 || s[0] != '"' then None
    else
      var (key, s1) :- ReadChars(s[1..]);
      var s2 :- Expect(SkipSpace(s1), ':');
      var (v, s3) :- ReadValue(SkipSpace(s2));
      Some((Entry(key, v), s3))
  }

  function ReadMembers(s: string): (r: Option<(seq<Entry>, string)>)
    ensures r.Some? ==> |r.value.1| < |s|
    decreases |s|, 2
  {
    var (e, after) :- ReadMember(s);
    var rest := SkipSpace(after);
    if |rest| > 0 && rest[0] == '}' then Some(([e], rest[1..]))
    else if |rest| > 0 && rest[0] == ',' then
      var (tail, end) :- ReadMembers(SkipSpace(rest[1..]));
      Some(([e] + tail, end))
    else None
  }

  /** `json.loads` on text. */
  function Parse(s: string): Option<Json>
  {
    var (v, rest) :- ReadValue(SkipSpace(s));
    if SkipSpace(rest) == "" then Some(v) else None
  }

  // ----- reading back what was printed

  lemma ReadEscaped(c: char, rest: string)
    ensures var t := Escape(c) + rest;
      if Escape(c)[0] == '\\' then ReadEscape(t[1..]) == Some((c, rest))
      else t == [c] + rest && c >= ' ' && c != '"'
  {
    var t := Escape(c) + rest;
    if Escape(c)[0] == '\\' {
      if |Escape(c)| == 2 {
        assert t[1..][1..] == rest;
      } else {
        var n := c as int;
        assert t[1..] == "u00" + [HexDigit(n / 16), HexDigit(n % 16)] + rest;
        var h := t[1..][1..];
        assert h == "00" + [HexDigit(n / 16), HexDigit(n % 16)] + rest;
        assert HexValue(h[2]) == Some(n / 16) && HexValue(h[3]) == Some(n % 16);
        assert ReadHex4(h) == Some(n);
        assert h[4..] == rest;
      }
    }
  }

  lemma {:induction false} ReadPutChars(s: string, rest: string)
    ensures ReadChars(PutChars(s, rest)) == Some((s, rest))
  {
    var t := PutChars(s, rest);
    if |s| == 0 {
      assert t[1..] == rest;
    } else {
      var tail := PutChars(s[1..], rest);
      ReadPutChars(s[1..], rest);
      ReadEscaped(s[0], tail);
      assert t == Escape(s[0]) + tail;
      assert s == [s[0]] + s[1..];
      if Escape(s[0])[0] != '\\' { assert t[1..] == tail; }
    }
  }

  lemma {:induction false} PutNatLeads(n: nat, rest: string)
    ensures |PutNat(n, rest)| > 0 && IsDigit(PutNat(n, rest)[0])
    ensures PutNat(n, rest)[0] == '0' <==> n == 0
    ensures n == 0 ==> PutNat(n, rest)[1..] == rest
    ensures TakeDigits(PutNat(n, rest), 0) == TakeDigits(rest, n)
  {
    if n < 10 {
      assert PutNat(n, rest)[1..] == rest;
    } else {
      var rest' := [Digit(n % 10)] + rest;
      PutNatLeads(n / 10, rest');
      assert rest'[1..] == rest;
    }
  }

  /** What may follow a printed value: nothing that would extend a number. */
  predicate Stops(rest: string)
  {
    |rest| > 0 ==> !IsDigit(rest[0]) && rest[0] != '.' && rest[0] != 'e' && rest[0] != 'E'
  }

  lemma ReadPutNat(n: nat, rest: string)
    requires Stops(rest)
    ensures ReadNat(PutNat(n, rest)) == Some((n, rest))
  {
    var t := PutNat(n, rest);
    PutNatLeads(n, rest);
    assert TakeDigits(t, 0) == TakeDigits(t[1..], (t[0] - '0') as int);
  }

  lemma {:induction false} DictSetFresh(es: seq<Entry>, e: Entry)
    requires e.key !in Keys(es)
    ensures DictSet(es, e) == es + [e]
  {
    if |es| == 0 {
    } else {
      assert es[0].key in Keys(es);
      assert forall i :: 0 <= i < |es[1..]| ==> es[1..][i].key == es[i + 1].key && es[i + 1].key in Keys(es);
      DictSetFresh(es[1..], e);
      assert es == [es[0]] + es[1..];
    }
  }

  lemma {:induction false} DictOfDistinct(es: seq<Entry>)
    requires DistinctKeys(es)
    ensures DictOf(es) == es
  {
    if |es| == 0 {
    } else {
      var n := |es| - 1;
      DictOfDistinct(es[..n]);
      DictSetFresh(es[..n], es[n]);
      assert es == es[..n] + [es[n]];
    }
  }

  predicate OpensValue(s: string) { |s| > 0 && !IsSpace(s[0]) && s[0] != ']' && s[0] != '}' }

  lemma PutOpens(v: Json, rest: string)
    ensures OpensValue(Put(v, rest))
  {
    if v.Num? { PutNatLeads(if v.n < 0 then -v.n else v.n, rest); }
  }

  lemma ReadPutWord(v: Json, rest: string)
    requires v.Null? || v.Bool?
    ensures ReadWord(Put(v, rest)) == Some((v, rest))
  {
    var t := Put(v, rest);
    var n := if v == Bool(false) then 5 else 4;
    assert t[n..] == rest;
    assert t[..n] == if v.Null? then "null" else if v.b then "true" else "false";
    assert t[0] == t[..n][0];
  }

  lemma ReadPutScalar(v: Json, rest: string)
    requires v.Num? || v.Str?
    requires Stops(rest)
    ensures ReadValue(Put(v, rest)) == Some((v, rest))
  {
    var t := Put(v, rest);
    if v.Str? {
      ReadPutChars(v.s, rest);
      assert t[1..] == PutChars(v.s, rest);
    } else if v.n < 0 {
      ReadPutNat(-v.n, rest);
      assert t[0] == '-' && t[1..] == PutNat(-v.n, rest);
    } else {
      ReadPutNat(v.n, rest);
      PutNatLeads(v.n, rest);
    }
  }

  lemma PutEmpty(rest: string)
    ensures PutItems([], rest) == [']'] + rest && PutItems([], rest)[1..] == rest
    ensures PutMembers([], rest) == ['}'] + rest && PutMembers([], rest)[1..] == rest
  {
  }

  lemma ReadLastItem(s: string, v: Json, rest: string)
    requires ReadValue(s) == Some((v, [']'] + rest))
    ensures ReadItems(s) == Some(([v], rest))
  {
    hide ReadValue;
    assert ([']'] + rest)[1..] == rest;
  }

  lemma ReadNextItem(s: string, v: Json, next: string, tail: seq<Json>, rest: string)
    requires ReadValue(s) == Some((v, [','] + next)) && OpensValue(next) && ReadItems(next) == Some((tail, rest))
    ensures ReadItems(s) == Some(([v] + tail, rest))
  {
    hide ReadValue;
    assert ([','] + next)[1..] == next;
  }

  lemma {:induction false} ReadPut(v: Json, rest: string)
    requires WellFormed(v) && Stops(rest)
    ensures ReadValue(Put(v, rest)) == Some((v, rest))
    decreases v, 1
  {
    hide ReadItems, ReadMembers, ReadChars, ReadNat, ReadWord, DictOf, PutItems, PutMembers;
    var t := Put(v, rest);
    if v.Arr? {
      assert t[0] == '[' && t[1..] == PutItems(v.items, rest);
      if |v.items| == 0 {
        PutEmpty(rest);
      } else {
        ReadPutItems(v.items, rest);
      }
    } else if v.Obj? {
      assert t[0] == '{' && t[1..] == PutMembers(v.entries, rest);
      if |v.entries| == 0 {
        PutEmpty(rest);
      } else {
        ReadPutMembers(v.entries, rest);
        DictOfDistinct(v.entries);
      }
    } else if v.Num? || v.Str? {
      ReadPutScalar(v, rest);
    } else {
      ReadPutWord(v, rest);
    }
  }

  lemma {:induction false} ReadPutItems(items: seq<Json>, rest: string)
    requires |items| > 0 && forall i :: 0 <= i < |items| ==> WellFormed(items[i])
    ensures OpensValue(PutItems(items, rest))
    ensures ReadItems(PutItems(items, rest)) == Some((items, rest))
    decreases items, 0
  {
    hide Put, ReadValue, ReadItems, WellFormed;
    var t := PutItems(items, rest);
    var after := if |items| == 1 then [']'] + rest else [','] + PutItems(items[1..], rest);
    PutOpens(items[0], after);
    ReadPut(items[0], after);
    if |items| == 1 {
      ReadLastItem(t, items[0], rest);
      assert items == [items[0]];
    } else {
      ReadPutItems(items[1..], rest);
      ReadNextItem(t, items[0], PutItems(items[1..], rest), items[1..], rest);
      assert items == [items[0]] + items[1..];
    }
  }

  lemma {:induction false} ReadPutMember(e: Entry, after: string)
    requires WellFormed(e.value) && Stops(after)
    ensures ReadMember(['"'] + PutChars(e.key, [':'] + Put(e.value, after))) == Some((e, after))
    decreases e, 2
  {
    var body := Put(e.value, after);
    var chars := PutChars(e.key, [':'] + body);
    ReadPutChars(e.key, [':'] + body);
    assert (['"'] + chars)[1..] == chars;
    assert ([':'] + body)[1..] == body;
    PutOpens(e.value, after);
    ReadPut(e.value, after);
  }

  lemma {:induction false} ReadPutMembers(es: seq<Entry>, rest: string)
    requires |es| > 0 && forall i :: 0 <= i < |es| ==> WellFormed(es[i].value)
    ensures OpensValue(PutMembers(es, rest))
    ensures ReadMembers(PutMembers(es, rest)) == Some((es, rest))
    decreases es, 0
  {
    hide ReadMember, Put, PutChars;
    var after := if |es| == 1 then ['}'] + rest else [','] + PutMembers(es[1..], rest);
    ReadPutMember(es[0], after);
    if |es| == 1 {
      assert after[1..] == rest && es == [es[0]];
    } else {
      ReadPutMembers(es[1..], rest);
      assert after[1..] == PutMembers(es[1..], rest);
      assert es == [es[0]] + es[1..];
    }
  }

  // ----- normal forms

  lemma {:induction false} NormItemsAt(items: seq<Json>)
    ensures |NormItems(items)| == |items|
    ensures forall i :: 0 <= i < |items| ==> NormItems(items)[i] == Norm(items[i])
  {
    if |items| == 0 {
    } else {
      NormItemsAt(items[1..]);
    }
  }

  lemma {:induction false} InsertGet(e: Entry, es: seq<Entry>, key: string)
    requires e.key !in Keys(es)
    ensures Get(Insert(KeyLess, e, es), key) == if key == e.key then Some(e.value) else Get(es, key)
  {
    if |es| == 0 {
    } else if KeyLess(es[0], e) {
      assert es[0].key in Keys(es);
      assert forall i :: 0 <= i < |es[1..]| ==> es[1..][i].key == es[i + 1].key && es[i + 1].key in Keys(es);
      InsertGet(e, es[1..], key);
      var r := Insert(KeyLess, e, es);
      assert r[1..] == Insert(KeyLess, e, es[1..]);
    } else {
      assert ([e] + es)[1..] == es;
    }
  }

  lemma InsertKeys(e: Entry, es: seq<Entry>)
    ensures Keys(Insert(KeyLess, e, es)) == Keys(es) + {e.key}
  {
    var r := Insert(KeyLess, e, es);
    InsertPermutes(KeyLess, e, es);
    forall i | 0 <= i < |r| ensures r[i].key in Keys(es) + {e.key} {
      assert r[i] in multiset(r);
      assert r[i] == e || r[i] in es;
    }
    forall k | k in Keys(es) + {e.key} ensures k in Keys(r) {
      var x := if k == e.key then e else var i :| 0 <= i < |es| && es[i].key == k; es[i];
      assert x in multiset(r);
      assert x in r;
    }
  }

  /** Normalizing keeps the key set and normalizes each member's value. */
  lemma {:induction false} NormEntriesGet(es: seq<Entry>, key: string)
    requires DistinctKeys(es)
    ensures Keys(NormEntries(es)) == Keys(es)
    ensures Get(NormEntries(es), key) == if Get(es, key).Some? then Some(Norm(Get(es, key).value)) else None
  {
    if |es| == 0 {
    } else {
      var e := Entry(es[0].key, Norm(es[0].value));
      NormEntriesGet(es[1..], key);
      assert e.key !in Keys(es[1..]);
      InsertGet(e, NormEntries(es[1..]), key);
      InsertKeys(e, NormEntries(es[1..]));
      assert Keys(es) == Keys(es[1..]) + {e.key} by {
        assert forall i :: 1 <= i < |es| ==> es[i] == es[1..][i - 1];
      }
    }
  }

  /** Members in key order, each value normalized. */
  ghost predicate Sorted(es: seq<Entry>)
  {
    StrictlySorted(KeyLess, es) && forall i :: 0 <= i < |es| ==> WellFormed(es[i].value) && Norm(es[i].value) == es[i].value
  }

  lemma KeyOrder(a: seq<Entry>)
    ensures StrictOrder(KeyLess)
    ensures StrictlySorted(KeyLess, a) ==> DistinctKeys(a)
  {
    LexIsStrictOrder();
  }

  lemma InsertSortedEntry(e: Entry, es: seq<Entry>)
    requires Sorted(es) && e.key !in Keys(es) && WellFormed(e.value) && Norm(e.value) == e.value
    ensures Sorted(Insert(KeyLess, e, es))
  {
    KeyOrder(es);
    var r := Insert(KeyLess, e, es);
    forall y | y in es ensures KeyLess(e, y) || KeyLess(y, e) {
      var i :| 0 <= i < |es| && es[i] == y;
      assert y.key in Keys(es);
      LexTotal(e.key, y.key);
    }
    InsertSorted(KeyLess, e, es);
    InsertPermutes(KeyLess, e, es);
    forall i | 0 <= i < |r| ensures WellFormed(r[i].value) && Norm(r[i].value) == r[i].value {
      assert r[i] in multiset(r);
      assert r[i] == e || r[i] in es;
    }
  }

  lemma {:induction false} SortedIsNormal(es: seq<Entry>)
    requires Sorted(es)
    ensures NormEntries(es) == es
  {
    if |es| == 0 {
    } else {
      SortedIsNormal(es[1..]);
      KeyOrder(es);
      assert es == [es[0]] + es[1..];
      if |es| > 1 {
        assert KeyLess(es[0], es[1]);
        assert !KeyLess(es[1], es[0]) by {
          if KeyLess(es[1], es[0]) { LexTransitive(es[0].key, es[1].key, es[0].key); LexIrreflexive(es[0].key); }
        }
      }
    }
  }

  /** A normal form is well formed and is its own normal form. */
  lemma {:induction false} NormIdempotent(v: Json)
    requires WellFormed(v)
    ensures WellFormed(Norm(v)) && Norm(Norm(v)) == Norm(v)
    decreases v, 1
  {
    match v
    case Arr(items) =>
      NormItemsAt(items);
      NormItemsAt(NormItems(items));
      forall i | 0 <= i < |items| ensures WellFormed(Norm(items[i])) && Norm(Norm(items[i])) == Norm(items[i]) {
        NormIdempotent(items[i]);
      }
      assert NormItems(NormItems(items)) == NormItems(items);
    case Obj(entries) =>
      NormEntriesSorted(entries);
      SortedIsNormal(NormEntries(entries));
      KeyOrder(NormEntries(entries));
    case _ =>
  }

  lemma {:induction false} NormEntriesSorted(es: seq<Entry>)
    requires DistinctKeys(es) && forall i :: 0 <= i < |es| ==> WellFormed(es[i].value)
    ensures Sorted(NormEntries(es))
    decreases es, 0
  {
    if |es| == 0 {
    } else {
      var e := Entry(es[0].key, Norm(es[0].value));
      NormIdempotent(es[0].value);
      NormEntriesSorted(es[1..]);
      NormEntriesGet(es[1..], e.key);
      InsertSortedEntry(e, NormEntries(es[1..]));
    }
  }

  /** Printing, parsing and re-printing is the identity on the printed text. */
  lemma PrintParsePrint(v: Json)
    requires WellFormed(v)
    ensures Parse(Print(v)) == Some(Norm(v))
    ensures Print(Norm(v)) == Print(v)
  {
    NormIdempotent(v);
    PutOpens(Norm(v), "");
    ReadPut(Norm(v), "");
  }

  /** Every object in `v` lists its keys in ascending code-point order. */
  predicate Ascending(v: Json)
    decreases v
  {
    match v
    case Arr(items) => forall i :: 0 <= i < |items| ==> Ascending(items[i])
    case Obj(entries) =>
      && (forall i, j :: 0 <= i < j < |entries| ==> LexLess(entries[i].key, entries[j].key))
      && forall i :: 0 <= i < |entries| ==> Ascending(entries[i].value)
    case _ => true
  }

  lemma {:induction false} NormalAscends(v: Json)
    requires WellFormed(v) && Norm(v) == v
    ensures Ascending(v)
    decreases v
  {
    match v
    case Arr(items) =>
      NormItemsAt(items);
      forall i | 0 <= i < |items| ensures Ascending(items[i]) { NormalAscends(items[i]); }
    case Obj(entries) =>
      NormEntriesSorted(entries);
      forall i | 0 <= i < |entries| ensures Ascending(entries[i].value) { NormalAscends(entries[i].value); }
      assert forall i, j :: 0 <= i < j < |entries| ==> KeyLess(entries[i], entries[j]);
    case _ =>
  }

  /** The text lists an object's members in ascending key order, at every depth: it is what reading
      it member by member finds. */
  lemma PrintedInKeyOrder(v: Json)
    requires WellFormed(v)
    ensures Parse(Print(v)).Some? && Ascending(Parse(Print(v)).value)
    ensures v.Obj? && v.entries != [] ==>
      exists es :: ReadMembers(Print(v)[1..]) == Some((es, "")) && Ascending(Obj(es)) && Keys(es) == Keys(v.entries)
  {
    hide Put, ReadMembers, WellFormed, LexLess, NormEntries;
    NormIdempotent(v);
    NormalAscends(Norm(v));
    PrintParsePrint(v);
    if v.Obj? && v.entries != [] {
      var es := NormEntries(v.entries);
      MembersRead(v.entries, es);
      assert Norm(v) == Obj(es);
    }
  }

  lemma MembersRead(es: seq<Entry>, normal: seq<Entry>)
    requires WellFormed(Obj(es)) && es != [] && normal == NormEntries(es)
    ensures ReadMembers(Print(Obj(es))[1..]) == Some((normal, "")) && Keys(normal) == Keys(es)
  {
    hide ReadMembers, PutMembers, NormEntries;
    NormEntriesGet(es, "");
    NormEntriesSorted(es);
    assert es[0].key in Keys(es);
    ReadPutMembers(normal, "");
    assert Print(Obj(es))[1..] == PutMembers(normal, "");
  }

  /** Characters that need no escape stand for themselves, outside ASCII too (`ensure_ascii=False`). */
  lemma {:induction false} PlainPrintsItself(s: string)
    requires forall i :: 0 <= i < |s| ==> s[i] >= ' ' && s[i] != '"' && s[i] != '\\'
    ensures Print(Str(s)) == "\"" + s + "\""
  {
    if |s| == 0 {
    } else {
      PlainPrintsItself(s[1..]);
      assert s == [s[0]] + s[1..];
      assert Print(Str(s))[1..] == [s[0]] + Print(Str(s[1..]))[1..];
    }
  }

  lemma {:induction false} CharsThen(s: string, rest: string)
    ensures PutChars(s, rest) == PutChars(s, "") + rest
  {
    if |s| == 0 {
      assert ['"'] + "" == ['"'];
    } else {
      CharsThen(s[1..], rest);
    }
  }

  lemma {:induction false} NatThen(n: nat, mid: string, rest: string)
    ensures PutNat(n, mid + rest) == PutNat(n, mid) + rest
  {
    if n < 10 {
    } else {
      NatThen(n / 10, [Digit(n % 10)] + mid, rest);
      assert [Digit(n % 10)] + (mid + rest) == ([Digit(n % 10)] + mid) + rest;
    }
  }

  /** Every other character is printed as JSON's short escape, or as four hexadecimal digits. */
  lemma EscapesPrinted(c: char)
    ensures Print(Str("\"")) == "\"\\\"\"" && Print(Str("\\")) == "\"\\\\\""
    ensures Print(Str("\n")) == "\"\\n\"" && Print(Str("\r")) == "\"\\r\"" && Print(Str("\t")) == "\"\\t\""
    ensures Print(Str("\U{000C}")) == "\"\\f\"" && Print(Str("\U{0008}")) == "\"\\b\""
    ensures c < ' ' && c !in "\n\r\t\U{000C}\U{0008}" ==>
      Print(Str([c])) == "\"\\u00" + ["01"[c as int / 16], "0123456789abcdef"[c as int % 16]] + "\""
  {
    if c < ' ' && c !in "\n\r\t\U{000C}\U{0008}" {
      var tail := PutChars("", "");
      assert PutChars([c], "") == Escape(c) + tail && tail == "\"";
      assert HexDigit(c as int / 16) == "01"[c as int / 16];
      assert HexDigit(c as int % 16) == "0123456789abcdef"[c as int % 16];
    }
  }

  /** Numbers are printed in decimal, the remaining scalars by name. */
  lemma ScalarsPrinted(n: nat, d: nat)
    requires d < 10
    ensures Print(Num(d)) == ["0123456789"[d]]
    ensures n > 0 ==> Print(Num(10 * n + d)) == Print(Num(n)) + ["0123456789"[d]] && Print(Num(0 - n)) == "-" + Print(Num(n))
    ensures Print(Null) == "null" && Print(Bool(true)) == "true" && Print(Bool(false)) == "false"
  {
    NatThen(n, "", [Digit(d)]);
    assert "" + [Digit(d)] == [Digit(d)];
  }

  /** What follows a value does not change its text. */
  lemma {:induction false} PutThen(v: Json, rest: string)
    ensures Put(v, rest) == Put(v, "") + rest
    decreases v, 1
  {
    hide PutItems, PutMembers, PutChars, PutNat;
    match v
    case Str(s) => CharsThen(s, rest);
    case Num(n) =>
      NatThen(if n < 0 then -n else n, "", rest);
      assert "" + rest == rest;
    case Arr(items) => PutItemsThen(items, rest);
    case Obj(entries) => PutMembersThen(entries, rest);
    case _ =>
  }

  lemma {:induction false} PutItemsThen(items: seq<Json>, rest: string)
    ensures PutItems(items, rest) == PutItems(items, "") + rest
    decreases items, 0
  {
    hide Put;
    if |items| == 0 {
    } else if |items| == 1 {
      PutThen(items[0], [']'] + rest);
      PutThen(items[0], [']'] + "");
    } else {
      PutItemsThen(items[1..], rest);
      PutThen(items[0], [','] + PutItems(items[1..], rest));
      PutThen(items[0], [','] + PutItems(items[1..], ""));
    }
  }

  lemma {:induction false} PutMemberThen(e: Entry, after: string)
    ensures ['"'] + PutChars(e.key, [':'] + Put(e.value, after)) == Put(Str(e.key), "") + ":" + Put(e.value, "") + after
    decreases e, 0
  {
    hide PutChars;
    PutThen(e.value, after);
    CharsThen(e.key, [':'] + Put(e.value, after));
  }

  lemma {:induction false} PutMembersThen(es: seq<Entry>, rest: string)
    ensures PutMembers(es, rest) == PutMembers(es, "") + rest
    decreases es, 0
  {
    hide Put, PutChars;
    if |es| == 0 {
    } else if |es| == 1 {
      PutMemberThen(es[0], ['}'] + rest);
      PutMemberThen(es[0], ['}'] + "");
    } else {
      PutMembersThen(es[1..], rest);
      PutMemberThen(es[0], [','] + PutMembers(es[1..], rest));
      PutMemberThen(es[0], [','] + PutMembers(es[1..], ""));
    }
  }

  /** The texts, with a comma between each two. */
  function Joined(texts: seq<string>): string
  {
    if |texts| == 0 then "" else if |texts| == 1 then texts[0] else texts[0] + "," + Joined(texts[1..])
  }

  function ItemTexts(items: seq<Json>): seq<string>
  {
    if |items| == 0 then [] else [Put(items[0], "")] + ItemTexts(items[1..])
  }

  function MemberTexts(es: seq<Entry>): seq<string>
  {
    if |es| == 0 then [] else [Put(Str(es[0].key), "") + ":" + Put(es[0].value, "")] + MemberTexts(es[1..])
  }

  lemma {:induction false} ItemsJoined(items: seq<Json>)
    ensures PutItems(items, "") == Joined(ItemTexts(items)) + "]" && |ItemTexts(items)| == |items|
  {
    hide Put;
    if |items| == 0 {
    } else {
      ItemsJoined(items[1..]);
      PutThen(items[0], if |items| == 1 then [']'] + "" else [','] + PutItems(items[1..], ""));
      assert ItemTexts(items)[1..] == ItemTexts(items[1..]);
    }
  }

  lemma {:induction false} MembersJoined(es: seq<Entry>)
    ensures PutMembers(es, "") == Joined(MemberTexts(es)) + "}" && |MemberTexts(es)| == |es|
  {
    hide Put, PutChars;
    if |es| == 0 {
    } else {
      MembersJoined(es[1..]);
      PutMemberThen(es[0], if |es| == 1 then ['}'] + "" else [','] + PutMembers(es[1..], ""));
      assert MemberTexts(es)[1..] == MemberTexts(es[1..]);
    }
  }

  /** The text of a list or an object is its parts with single commas and colons, and no blanks. */
  lemma PrintedCompactly(items: seq<Json>, es: seq<Entry>)
    ensures Print(Arr(items)) == "[" + Joined(ItemTexts(NormItems(items))) + "]"
    ensures Print(Obj(es)) == "{" + Joined(MemberTexts(NormEntries(es))) + "}"
  {
    hide PutItems, PutMembers, NormItems, NormEntries;
    ItemsJoined(NormItems(items));
    MembersJoined(NormEntries(es));
  }

  /** One text, one value up to member order. */
  lemma PrintInjective(v: Json, w: Json)
    requires WellFormed(v) && WellFormed(w) && Print(v) == Print(w)
    ensures Norm(v) == Norm(w)
  {
    PrintParsePrint(v);
    PrintParsePrint(w);
  }
}
