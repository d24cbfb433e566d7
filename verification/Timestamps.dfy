/** UTC timestamps as the outbox and the envelopes hold them: civil fields, their
    instant in microseconds since 0001-01-01, the printed ISO form that drops a zero
    fraction, and the parser that reads any offset spelling back to UTC. */
module Timestamps {
  import opened Options
  import opened Scanning
  import opened Sorting

  datatype DateTime = DateTime(year: int, month: int, day: int, hour: int, minute: int, second: int, micro: int)

  predicate IsLeap(y: int) { y % 4 == 0 && (y % 100 != 0 || y % 400 == 0) }

  function DaysInMonth(y: int, m: int): nat
  {
    if m == 2 then (if IsLeap(y) then 29 else 28)
    else if m == 4 || m == 6 || m == 9 || m == 11 then 30
    else 31
  }

  /** Days of year `y` before the first of month `m`; month 13 stands for the year's end. */
  function DaysBeforeMonth(y: int, m: int): nat
    requires 1 <= m <= 13
    decreases m
  {
    if m == 1 then 0 else DaysBeforeMonth(y, m - 1) + DaysInMonth(y, m - 1)
  }

  function DaysInYear(y: int): (n: nat)
    ensures n > 0
  {
    if IsLeap(y) then 366 else 365
  }

  lemma YearTotal(y: int)
    ensures DaysBeforeMonth(y, 13) == DaysInYear(y)
  {
    assert DaysBeforeMonth(y, 7) == if IsLeap(y) then 182 else 181;
  }

  function DaysBeforeYear(y: int): nat
    requires y >= 1
    decreases y
  {
    if y == 1 then 0 else DaysBeforeYear(y - 1) + DaysInYear(y - 1)
  }

  lemma FoursUpTo(y: int)
    requires y >= 1
    ensures y / 4 == (y - 1) / 4 + (if y % 4 == 0 then 1 else 0)
  {
  }

  lemma HundredsUpTo(y: int)
    requires y >= 1
    ensures y / 100 == (y - 1) / 100 + (if y % 100 == 0 then 1 else 0)
    ensures y % 100 == 0 ==> y % 4 == 0
  {
    if y % 100 == 0 { assert y == 4 * (25 * (y / 100)); }
  }

  lemma FourHundredsUpTo(y: int)
    requires y >= 1
    ensures y / 400 == (y - 1) / 400 + (if y % 400 == 0 then 1 else 0)
    ensures y % 400 == 0 ==> y % 100 == 0
  {
    if y % 400 == 0 { assert y == 100 * (4 * (y / 400)); }
  }

  /** Every fourth year is a leap year, but for the centuries that 400 does not divide. */
  function LeapsUpTo(y: int): int { y / 4 - y / 100 + y / 400 }

  lemma NoLeapsYet()
    ensures LeapsUpTo(0) == 0
  {
  }

  lemma LeapsNext(y: int)
    requires y >= 1
    ensures LeapsUpTo(y) == LeapsUpTo(y - 1) + (if IsLeap(y) then 1 else 0)
  {
    FoursUpTo(y);
    HundredsUpTo(y);
    FourHundredsUpTo(y);
  }

  /** The days before a year are 365 for each earlier one, and one for each leap year among them. */
  lemma {:induction false} GregorianYears(y: int)
    requires y >= 1
    ensures DaysBeforeYear(y) == 365 * (y - 1) + LeapsUpTo(y - 1)
    decreases y
  {
    hide LeapsUpTo, IsLeap;
    if y == 1 {
      NoLeapsYet();
    } else {
      GregorianYears(y - 1);
      LeapsNext(y - 1);
    }
  }

  predicate ValidDate(y: int, m: int, d: int)
  {
    1 <= y <= 9999 && 1 <= m <= 12 && 1 <= d <= DaysInMonth(y, m)
  }

  predicate Valid(t: DateTime)
  {
    && ValidDate(t.year, t.month, t.day)
    && 0 <= t.hour < 24 && 0 <= t.minute < 60 && 0 <= t.second < 60 && 0 <= t.micro < 1_000_000
  }

  function Ordinal(y: int, m: int, d: int): nat
    requires ValidDate(y, m, d)
  {
    DaysBeforeYear(y) + DaysBeforeMonth(y, m) + d - 1
  }

  function Seconds(t: DateTime): nat
    requires Valid(t)
  {
    Ordinal(t.year, t.month, t.day) * 86_400 + t.hour * 3_600 + t.minute * 60 + t.second
  }

  /** The instant, in microseconds. */
  function Micros(t: DateTime): nat
    requires Valid(t)
  {
    Seconds(t) * 1_000_000 + t.micro
  }

  // ----- the instant determines the fields, and orders as they do

  lemma {:induction false} MonthsAreOrdered(y: int, m: int, m': int)
    requires 1 <= m < m' <= 13
    ensures DaysBeforeMonth(y, m) + DaysInMonth(y, m) <= DaysBeforeMonth(y, m')
    decreases m'
  {
    if m + 1 == m' {
    } else {
      MonthsAreOrdered(y, m, m' - 1);
    }
  }

  lemma {:induction false} YearsAreOrdered(y: int, y': int)
    requires 1 <= y < y'
    ensures DaysBeforeYear(y) + DaysInYear(y) <= DaysBeforeYear(y')
    decreases y'
  {
    if y + 1 == y' {
    } else {
      YearsAreOrdered(y, y' - 1);
    }
  }

  predicate DateLess(y: int, m: int, d: int, y': int, m': int, d': int)
  {
    y < y' || (y == y' && (m < m' || (m == m' && d < d')))
  }

  lemma OrdinalIncreases(y: int, m: int, d: int, y': int, m': int, d': int)
    requires ValidDate(y, m, d) && ValidDate(y', m', d') && DateLess(y, m, d, y', m', d')
    ensures Ordinal(y, m, d) < Ordinal(y', m', d')
  {
    if y < y' {
      MonthsAreOrdered(y, m, 13);
      YearTotal(y);
      YearsAreOrdered(y, y');
    } else if m < m' {
      MonthsAreOrdered(y, m, m');
    }
  }

  predicate ClockLess(a: DateTime, b: DateTime)
  {
    a.hour < b.hour || (a.hour == b.hour && (a.minute < b.minute || (a.minute == b.minute && a.second < b.second)))
  }

  predicate SecondFieldsLess(a: DateTime, b: DateTime)
  {
    || DateLess(a.year, a.month, a.day, b.year, b.month, b.day)
    || (a.year == b.year && a.month == b.month && a.day == b.day && ClockLess(a, b))
  }

  lemma SecondsIncrease(a: DateTime, b: DateTime)
    requires Valid(a) && Valid(b) && SecondFieldsLess(a, b)
    ensures Seconds(a) < Seconds(b)
  {
    if DateLess(a.year, a.month, a.day, b.year, b.month, b.day) {
      OrdinalIncreases(a.year, a.month, a.day, b.year, b.month, b.day);
    }
  }

  /** Comparing whole seconds as numbers is comparing the printed fields from the left. */
  lemma SecondsOrderIsFieldOrder(a: DateTime, b: DateTime)
    requires Valid(a) && Valid(b)
    ensures Seconds(a) < Seconds(b) <==> SecondFieldsLess(a, b)
    ensures Seconds(a) == Seconds(b) <==> a.(micro := 0) == b.(micro := 0)
  {
    if SecondFieldsLess(a, b) {
      SecondsIncrease(a, b);
    } else if SecondFieldsLess(b, a) {
      SecondsIncrease(b, a);
    } else {
      assert a.(micro := 0) == b.(micro := 0);
    }
  }

  lemma MicrosInjective(a: DateTime, b: DateTime)
    requires Valid(a) && Valid(b) && Micros(a) == Micros(b)
    ensures a == b
  {
    assert Seconds(a) == Seconds(b) && a.micro == b.micro;
    SecondsOrderIsFieldOrder(a, b);
    assert a == a.(micro := 0).(micro := a.micro);
    assert b == b.(micro := 0).(micro := b.micro);
  }

  // ----- from an instant back to the fields

  function YearOf(days: nat, y: int): (r: (int, nat))
    requires y >= 1
    ensures r.0 >= y && r.1 < DaysInYear(r.0)
    ensures DaysBeforeYear(r.0) + r.1 == DaysBeforeYear(y) + days
    decreases days
  {
    if days < DaysInYear(y) then (y, days) else YearOf(days - DaysInYear(y), y + 1)
  }

  function MonthOf(y: int, days: nat, m: int): (r: (int, nat))
    requires 1 <= m <= 12 && DaysBeforeMonth(y, m) + days < DaysInYear(y)
    ensures m <= r.0 <= 12 && r.1 < DaysInMonth(y, r.0)
    ensures DaysBeforeMonth(y, r.0) + r.1 == DaysBeforeMonth(y, m) + days
    decreases 12 - m
  {
    if days < DaysInMonth(y, m) then (m, days)
    else
      YearTotal(y);
      assert m < 12;
      MonthOf(y, days - DaysInMonth(y, m), m + 1)
  }

  /** Midnight of the day `days` after 0001-01-01. */
  function Midnight(days: nat): (r: Option<DateTime>)
    ensures r.Some? ==> Valid(r.value) && Micros(r.value) == days * 86_400_000_000
    ensures r.Some? ==> r.value.hour == r.value.minute == r.value.second == r.value.micro == 0
    ensures r.None? ==> days >= DaysBeforeYear(10_000)
  {
    var (year, dayOfYear) := YearOf(days, 1);
    if year > 9999 then
      assert year > 10_000 ==> days >= DaysBeforeYear(10_000) by {
        if year > 10_000 { YearsAreOrdered(10_000, year); }
      }
      None
    else
      var (month, day) := MonthOf(year, dayOfYear, 1);
      Some(DateTime(year, month, day + 1, 0, 0, 0, 0))
  }

  function AtClock(midnight: DateTime, ofDay: nat): (r: DateTime)
    requires Valid(midnight) && midnight.hour == midnight.minute == midnight.second == midnight.micro == 0
    requires ofDay < 86_400_000_000
    ensures Valid(r) && Micros(r) == Micros(midnight) + ofDay
  {
    var clock, micro := ofDay / 1_000_000, ofDay % 1_000_000;
    var minutes, second := clock / 60, clock % 60;
    midnight.(hour := minutes / 60, minute := minutes % 60, second := second, micro := micro)
  }

  /** The UTC datetime at an instant; `None` where Python raises OverflowError. */
  function FromMicros(instant: int): (r: Option<DateTime>)
    ensures r.Some? ==> Valid(r.value) && Micros(r.value) == instant
  {
    if instant < 0 then None
    else
      var midnight :- Midnight(instant / 86_400_000_000);
      Some(AtClock(midnight, instant % 86_400_000_000))
  }

  lemma FromMicrosInverts(t: DateTime)
    requires Valid(t)
    ensures FromMicros(Micros(t)) == Some(t)
  {
    var days := Micros(t) / 86_400_000_000;
    assert days == Ordinal(t.year, t.month, t.day);
    MonthsAreOrdered(t.year, t.month, 13);
    YearTotal(t.year);
    YearsAreOrdered(t.year, 10_000);
    assert Midnight(days).Some?;
    MicrosInjective(FromMicros(Micros(t)).value, t);
  }

  /** `value + timedelta(seconds=k)`. */
  function AddSeconds(t: DateTime, k: int): (r: Option<DateTime>)
    requires Valid(t)
    ensures r.Some? ==> Valid(r.value) && Micros(r.value) == Micros(t) + k * 1_000_000
  {
    FromMicros(Micros(t) + k * 1_000_000)
  }

  // ----- printing

  function Pow10(w: nat): (p: nat)
    ensures p > 0
  {
    if w == 0 then 1 else 10 * Pow10(w - 1)
  }

  /** `n` in exactly `w` decimal digits. */
  function Pad(n: nat, w: nat): string
  {
    if w == 0 then "" else Pad(n / 10, w - 1) + [Digit(n % 10)]
  }

  datatype Zone = Zulu | Offset(east: bool, hours: int, minutes: int)

  predicate ValidZone(z: Zone) { z.Offset? ==> 0 <= z.hours < 24 && 0 <= z.minutes < 60 }

  function ZoneText(z: Zone): string
    requires ValidZone(z)
  {
    if z.Zulu? then "Z"
    else [if z.east then '+' else '-'] + (Pad(z.hours, 2) + ([':'] + Pad(z.minutes, 2)))
  }

  function ZoneMicros(z: Zone): int
  {
    if z.Zulu? then 0
    else if z.east then z.hours * 3_600_000_000 + z.minutes * 60_000_000
    else -z.hours * 3_600_000_000 - z.minutes * 60_000_000
  }

  function FractionText(micro: int, rest: string): string
    requires 0 <= micro
  {
    if micro == 0 then rest else ['.'] + (Pad(micro, 6) + rest)
  }

  function ClockText(t: DateTime, rest: string): string
    requires Valid(t)
  {
    Pad(t.hour, 2) + ([':'] + (Pad(t.minute, 2) + ([':'] + (Pad(t.second, 2) + rest))))
  }

  function DateText(t: DateTime, rest: string): string
    requires Valid(t)
  {
    Pad(t.year, 4) + (['-'] + (Pad(t.month, 2) + (['-'] + (Pad(t.day, 2) + (['T'] + rest)))))
  }

  /** A local datetime written with its zone, the fraction dropped when it is zero. */
  function Spell(t: DateTime, z: Zone): string
    requires Valid(t) && ValidZone(z)
  {
    DateText(t, ClockText(t, FractionText(t.micro, ZoneText(z))))
  }

  /** `_iso`: the UTC form stored in every SQL column. */
  function Iso(t: DateTime): string
    requires Valid(t)
  {
    Spell(t, Zulu)
  }

  // ----- text order against time order

  lemma LexHead(c: char, s: string, d: char, t: string)
    ensures LexLess([c] + s, [d] + t) <==> c < d || (c == d && LexLess(s, t))
  {
    assert ([c] + s)[1..] == s && ([d] + t)[1..] == t;
  }

  lemma {:induction false} PadOrder(a: nat, b: nat, w: nat, s: string, t: string)
    requires a < Pow10(w) && b < Pow10(w)
    ensures LexLess(Pad(a, w) + s, Pad(b, w) + t) <==> a < b || (a == b && LexLess(s, t))
  {
    if w == 0 {
      assert Pad(a, w) + s == s && Pad(b, w) + t == t;
    } else {
      var s', t' := [Digit(a % 10)] + s, [Digit(b % 10)] + t;
      assert Pad(a, w) + s == Pad(a / 10, w - 1) + s';
      assert Pad(b, w) + t == Pad(b / 10, w - 1) + t';
      PadOrder(a / 10, b / 10, w - 1, s', t');
      LexHead(Digit(a % 10), s, Digit(b % 10), t);
    }
  }

  lemma Widths()
    ensures Pow10(2) == 100 && Pow10(4) == 10_000 && Pow10(6) == 1_000_000
  {
    assert Pow10(3) == 1_000 && Pow10(5) == 100_000;
  }

  lemma FieldOrder(a: nat, b: nat, w: nat, sep: char, s: string, t: string)
    requires a < Pow10(w) && b < Pow10(w)
    ensures LexLess(Pad(a, w) + ([sep] + s), Pad(b, w) + ([sep] + t)) <==> a < b || (a == b && LexLess(s, t))
  {
    PadOrder(a, b, w, [sep] + s, [sep] + t);
    LexHead(sep, s, sep, t);
  }

  lemma ClockTextOrder(a: DateTime, b: DateTime, s: string, t: string)
    requires Valid(a) && Valid(b)
    ensures LexLess(ClockText(a, s), ClockText(b, t)) <==>
      ClockLess(a, b) || (a.hour == b.hour && a.minute == b.minute && a.second == b.second && LexLess(s, t))
  {
    Widths();
    PadOrder(a.second, b.second, 2, s, t);
    var s1, t1 := Pad(a.second, 2) + s, Pad(b.second, 2) + t;
    FieldOrder(a.minute, b.minute, 2, ':', s1, t1);
    FieldOrder(a.hour, b.hour, 2, ':', Pad(a.minute, 2) + ([':'] + s1), Pad(b.minute, 2) + ([':'] + t1));
  }

  lemma DateTextOrder(a: DateTime, b: DateTime, s: string, t: string)
    requires Valid(a) && Valid(b)
    ensures LexLess(DateText(a, s), DateText(b, t)) <==>
      || DateLess(a.year, a.month, a.day, b.year, b.month, b.day)
      || (a.year == b.year && a.month == b.month && a.day == b.day && LexLess(s, t))
  {
    Widths();
    FieldOrder(a.day, b.day, 2, 'T', s, t);
    var s1, t1 := Pad(a.day, 2) + (['T'] + s), Pad(b.day, 2) + (['T'] + t);
    FieldOrder(a.month, b.month, 2, '-', s1, t1);
    FieldOrder(a.year, b.year, 4, '-', Pad(a.month, 2) + (['-'] + s1), Pad(b.month, 2) + (['-'] + t1));
  }

  lemma FractionOrder(m: int, n: int)
    requires 0 <= m < 1_000_000 && 0 <= n < 1_000_000
    ensures LexLess(FractionText(m, "Z"), FractionText(n, "Z")) <==> m != 0 && (n == 0 || m < n)
  {
    Widths();
    LexIrreflexive("Z");
    PadOrder(m, n, 6, "Z", "Z");
    LexHead('.', Pad(m, 6) + "Z", '.', Pad(n, 6) + "Z");
    LexHead('.', Pad(m, 6) + "Z", 'Z', "");
    LexHead('Z', "", '.', Pad(n, 6) + "Z");
    assert "Z" == ['Z'] + "";
  }

  /** The pairs on which text order and time order part company. */
  predicate MixedFraction(a: DateTime, b: DateTime)
  {
    a.(micro := 0) == b.(micro := 0) && (a.micro == 0) != (b.micro == 0)
  }

  /** Text order agrees with time order off the mixed pairs, and is inverted on them. */
  lemma TextOrderExact(a: DateTime, b: DateTime)
    requires Valid(a) && Valid(b)
    ensures LexLess(Iso(a), Iso(b)) <==>
      if MixedFraction(a, b) then Micros(b) < Micros(a) else Micros(a) < Micros(b)
    ensures (LexLess(Iso(a), Iso(b)) <==> Micros(a) < Micros(b)) <==> !MixedFraction(a, b)
  {
    DateTextOrder(a, b, ClockText(a, FractionText(a.micro, "Z")), ClockText(b, FractionText(b.micro, "Z")));
    ClockTextOrder(a, b, FractionText(a.micro, "Z"), FractionText(b.micro, "Z"));
    FractionOrder(a.micro, b.micro);
    SecondsOrderIsFieldOrder(a, b);
  }

  // ----- parsing

  predicate AllDigits(s: string) { forall i :: 0 <= i < |s| ==> IsDigit(s[i]) }

  function DigitsValue(s: string): nat
    requires AllDigits(s)
  {
    if |s| == 0 then 0 else DigitsValue(s[..|s| - 1]) * 10 + (s[|s| - 1] - '0') as int
  }

  /** Exactly `w` digits, and what follows them. */
  function ReadDigits(s: string, w: nat): Option<(nat, string)>
  {
    if w <= |s| && AllDigits(s[..w]) then Some((DigitsValue(s[..w]), s[w..])) else None
  }

  function ReadZone(s: string): (r: Option<Zone>)
    ensures r.Some? ==> ValidZone(r.value)
  {
    if s == "Z" then Some(Zulu)
    else if |s| > 0 && (s[0] == '+' || s[0] == '-') then
      var (hours, s1) :- ReadDigits(s[1..], 2);
      var s2 :- Expect(s1, ':');
      var (minutes, s3) :- ReadDigits(s2, 2);
      if s3 == "" && hours < 24 && minutes < 60 then Some(Offset(s[0] == '+', hours, minutes)) else None
    else None
  }

  function ReadFraction(s: string): Option<(nat, string)>
  {
    if |s| > 0 && s[0] == '.' then ReadDigits(s[1..], 6) else Some((0, s))
  }

  function ReadLocal(s: string): Option<(DateTime, string)>
  {
    var (year, s1) :- ReadDigits(s, 4);
    var s2 :- Expect(s1, '-');
    var (month, s3) :- ReadDigits(s2, 2);
    var s4 :- Expect(s3, '-');
    var (day, s5) :- ReadDigits(s4, 2);
    var s6 :- Expect(s5, 'T');
    var (hour, s7) :- ReadDigits(s6, 2);
    var s8 :- Expect(s7, ':');
    var (minute, s9) :- ReadDigits(s8, 2);
    var s10 :- Expect(s9, ':');
    var (second, s11) :- ReadDigits(s10, 2);
    Some((DateTime(year, month, day, hour, minute, second, 0), s11))
  }

  function ReadStamp(s: string): (r: Option<(DateTime, Zone)>)
    ensures r.Some? ==> Valid(r.value.0) && ValidZone(r.value.1)
  {
    var (local, s1) :- ReadLocal(s);
    var (micro, s2) :- ReadFraction(s1);
    var zone :- ReadZone(s2);
    var t := local.(micro := micro);
    if Valid(t) then Some((t, zone)) else None
  }

  function ToUtc(t: DateTime, z: Zone): (r: Option<DateTime>)
    requires Valid(t)
    ensures r.Some? ==> Valid(r.value) && Micros(r.value) == Micros(t) - ZoneMicros(z)
  {
    FromMicros(Micros(t) - ZoneMicros(z))
  }

  /** `_utc` on text: the UTC datetime it names; `None` where Python raises. */
  function ParseStamp(s: string): (r: Option<DateTime>)
    ensures r.Some? ==> Valid(r.value)
  {
    var (t, zone) :- ReadStamp(s);
    ToUtc(t, zone)
  }

  lemma {:induction false} PadDigits(n: nat, w: nat)
    requires n < Pow10(w)
    ensures |Pad(n, w)| == w && AllDigits(Pad(n, w)) && DigitsValue(Pad(n, w)) == n
  {
    if w == 0 {
    } else {
      PadDigits(n / 10, w - 1);
      assert Pad(n, w)[..w - 1] == Pad(n / 10, w - 1);
    }
  }

  lemma ReadPad(n: nat, w: nat, rest: string)
    requires n < Pow10(w)
    ensures ReadDigits(Pad(n, w) + rest, w) == Some((n, rest))
  {
    PadDigits(n, w);
    assert (Pad(n, w) + rest)[..w] == Pad(n, w) && (Pad(n, w) + rest)[w..] == rest;
  }

  lemma ReadField(n: nat, w: nat, sep: char, rest: string)
    requires n < Pow10(w)
    ensures ReadDigits(Pad(n, w) + ([sep] + rest), w) == Some((n, [sep] + rest))
    ensures Expect([sep] + rest, sep) == Some(rest)
  {
    ReadPad(n, w, [sep] + rest);
    assert ([sep] + rest)[1..] == rest;
  }

  lemma ReadSpelledLocal(t: DateTime, rest: string)
    requires Valid(t)
    ensures ReadLocal(DateText(t, ClockText(t, rest))) == Some((t.(micro := 0), rest))
  {
    Widths();
    var c := Pad(t.second, 2) + rest;
    var b := Pad(t.minute, 2) + ([':'] + c);
    var a := Pad(t.hour, 2) + ([':'] + b);
    ReadPad(t.second, 2, rest);
    ReadField(t.minute, 2, ':', c);
    ReadField(t.hour, 2, ':', b);
    ReadField(t.day, 2, 'T', a);
    ReadField(t.month, 2, '-', Pad(t.day, 2) + (['T'] + a));
    ReadField(t.year, 4, '-', Pad(t.month, 2) + (['-'] + (Pad(t.day, 2) + (['T'] + a))));
  }

  lemma ReadZoneText(z: Zone)
    requires ValidZone(z)
    ensures ReadZone(ZoneText(z)) == Some(z)
    ensures |ZoneText(z)| > 0 && ZoneText(z)[0] != '.'
  {
    if z.Offset? {
      Widths();
      var m := Pad(z.minutes, 2);
      ReadPad(z.minutes, 2, "");
      assert m + "" == m;
      ReadField(z.hours, 2, ':', m);
      assert ZoneText(z)[1..] == Pad(z.hours, 2) + ([':'] + m);
    }
  }

  lemma ReadSpelling(t: DateTime, z: Zone)
    requires Valid(t) && ValidZone(z)
    ensures ReadStamp(Spell(t, z)) == Some((t, z))
  {
    Widths();
    var zone := ZoneText(z);
    ReadSpelledLocal(t, FractionText(t.micro, zone));
    ReadZoneText(z);
    if t.micro != 0 {
      ReadPad(t.micro, 6, zone);
      assert FractionText(t.micro, zone)[1..] == Pad(t.micro, 6) + zone;
    }
    assert t.(micro := 0).(micro := t.micro) == t;
  }

  lemma IsoInjective(a: DateTime, b: DateTime)
    requires Valid(a) && Valid(b) && Iso(a) == Iso(b)
    ensures a == b
  {
    ReadSpelling(a, Zulu);
    ReadSpelling(b, Zulu);
  }

  /** `_utc(_iso(t)) == t`: what a row stores is what it reads back. */
  lemma ParseIso(t: DateTime)
    requires Valid(t)
    ensures ParseStamp(Iso(t)) == Some(t)
  {
    ReadSpelling(t, Zulu);
    FromMicrosInverts(t);
  }

  lemma ParseRead(s: string, t: DateTime, z: Zone)
    requires ReadStamp(s) == Some((t, z))
    ensures ParseStamp(s) == ToUtc(t, z)
  {
  }

  lemma ZoneTextForm(z: Zone)
    requires ValidZone(z) && z.Offset?
    ensures |ZoneText(z)| == 6 && ZoneText(z)[0] == (if z.east then '+' else '-') && ZoneText(z)[3] == ':'
  {
    Widths();
    PadDigits(z.hours, 2);
    PadDigits(z.minutes, 2);
  }

  /** Every spelling of a local time parses to the instant it names: with an offset after a plus sign,
      that many hours and minutes earlier, and after a minus sign as many later. */
  lemma ParseSpelling(t: DateTime, z: Zone)
    requires Valid(t) && ValidZone(z)
    ensures ParseStamp(Spell(t, z)) == ToUtc(t, z)
    ensures ParseStamp(Spell(t, z)).Some? ==>
      var offset := if z.Zulu? then 0 else if ZoneText(z)[0] == '+' then 60 * z.hours + z.minutes else -(60 * z.hours + z.minutes);
      Micros(ParseStamp(Spell(t, z)).value) == Micros(t) - 60_000_000 * offset
  {
    hide Spell, ParseStamp, ReadStamp, Micros, FromMicros;
    ReadSpelling(t, z);
    ParseRead(Spell(t, z), t, z);
    if z.Offset? { ZoneTextForm(z); }
  }

  /** Two local times are one UTC datetime, hence one stored text, exactly when they
      name one instant. */
  lemma SpellingsOfOneInstant(t: DateTime, z: Zone, t': DateTime, z': Zone)
    requires Valid(t) && Valid(t') && ToUtc(t, z).Some? && ToUtc(t', z').Some?
    ensures Iso(ToUtc(t, z).value) == Iso(ToUtc(t', z').value)
      <==> Micros(t) - ZoneMicros(z) == Micros(t') - ZoneMicros(z')
  {
    var u, u' := ToUtc(t, z).value, ToUtc(t', z').value;
    if Iso(u) == Iso(u') { IsoInjective(u, u'); }
    if Micros(u) == Micros(u') { MicrosInjective(u, u'); }
  }
}
