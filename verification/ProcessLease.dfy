/** The expiring process lease of the Residential Outbox: one row, changed by the
    transactions of any number of concurrent invocations. */
module ProcessLease {
  import opened Options
  import opened Sorting
  import opened Timestamps

  const MAX_TTL_SECONDS := 24 * 60 * 60

  datatype LeaseRow = LeaseRow(owner: string, expiresAt: string)

  /** The lease row a transaction leaves, and the expiry it granted, if any. */
  datatype Outcome = Outcome(row: Option<LeaseRow>, granted: Option<DateTime>)

  function Expiry(now: DateTime, ttl: int): (r: Option<DateTime>)
    requires Valid(now)
    ensures r.Some? ==> Valid(r.value)
  {
    AddSeconds(now, if ttl < MAX_TTL_SECONDS then ttl else MAX_TTL_SECONDS)
  }

  /** `acquire_lease`: refused while the stored expiry, parsed, is later than the reading. */
  function Acquire(row: Option<LeaseRow>, owner: string, now: DateTime, ttl: int): Outcome
    requires Valid(now)
  {
    var refused := Outcome(row, None);
    if owner == "" || ttl < 1 || Expiry(now, ttl).None? then refused
    else
      var free :=
        row.None? ||
        var stored := ParseStamp(row.value.expiresAt); stored.Some? && Micros(stored.value) <= Micros(now);
      if free then
        var expires := Expiry(now, ttl).value;
        Outcome(Some(LeaseRow(owner, Iso(expires))), Some(expires))
      else refused
  }

  /** `renew_lease`: the stored expiry and the reading are compared as text. */
  function Renew(row: Option<LeaseRow>, owner: string, now: DateTime, ttl: int): Outcome
    requires Valid(now)
  {
    if row.Some? && row.value.owner == owner && LexLess(Iso(now), row.value.expiresAt) && Expiry(now, ttl).Some? then
      var expires := Expiry(now, ttl).value;
      Outcome(Some(LeaseRow(owner, Iso(expires))), Some(expires))
    else Outcome(row, None)
  }

  function Release(row: Option<LeaseRow>, owner: string): (Option<LeaseRow>, bool)
  {
    if row.Some? && row.value.owner == owner then (None, true) else (row, false)
  }

  // ----- what each call decides

  /** The time `ttl` seconds after `now`, at most a day: where the calendar has one. */
  ghost predicate Reaches(now: DateTime, ttl: int, expires: DateTime)
    requires Valid(now)
  {
    Valid(expires) && Micros(expires) == Micros(now) + 1_000_000 * (if ttl > 86_400 then 86_400 else ttl)
  }

  lemma ExpiryExact(now: DateTime, ttl: int)
    requires Valid(now)
    ensures Expiry(now, ttl).Some? <==> exists e :: Reaches(now, ttl, e)
    ensures Expiry(now, ttl).Some? ==> Reaches(now, ttl, Expiry(now, ttl).value)
  {
    hide Micros;
    if e :| Reaches(now, ttl, e) { FromMicrosInverts(e); }
    if Expiry(now, ttl).Some? { assert Reaches(now, ttl, Expiry(now, ttl).value); }
  }

  /** No row, or one whose parsed expiry the reading has reached. */
  ghost predicate Open(row: Option<LeaseRow>, now: DateTime)
    requires Valid(now)
  {
    row.Some? ==> exists t :: ParseStamp(row.value.expiresAt) == Some(t) && Micros(t) <= Micros(now)
  }

  /** An acquisition succeeds if and only if an owner and a positive time to live are given, the
      expiry is representable, and the lease is free or has run out; it then holds for exactly that
      long, and otherwise the row stays. */
  lemma AcquireExact(row: Option<LeaseRow>, owner: string, now: DateTime, ttl: int)
    requires Valid(now)
    ensures var o := Acquire(row, owner, now, ttl);
      && (o.granted.Some? <==> owner != "" && ttl >= 1 && (exists e :: Reaches(now, ttl, e)) && Open(row, now))
      && (o.granted.Some? ==> Reaches(now, ttl, o.granted.value) && o.row == Some(LeaseRow(owner, Iso(o.granted.value))))
      && (o.granted.None? ==> o.row == row)
  {
    hide Iso, ParseStamp, Micros, Reaches;
    ExpiryExact(now, ttl);
  }

  /** A renewal succeeds if and only if the row is the owner's own, its expiry text is beyond the
      reading's, and the new expiry is representable. */
  lemma RenewExact(row: Option<LeaseRow>, owner: string, now: DateTime, ttl: int)
    requires Valid(now)
    ensures var o := Renew(row, owner, now, ttl);
      && (o.granted.Some? <==>
            && row.Some? && row.value.owner == owner && LexLess(Iso(now), row.value.expiresAt)
            && exists e :: Reaches(now, ttl, e))
      && (o.granted.Some? ==> Reaches(now, ttl, o.granted.value) && o.row == Some(LeaseRow(owner, Iso(o.granted.value))))
      && (o.granted.None? ==> o.row == row)
  {
    hide Iso, LexLess, Micros, Reaches;
    ExpiryExact(now, ttl);
  }

  // ----- interleaved invocations

  /** `held` maps each invocation's owner token to the last expiry it was granted and has
      not given back. A clock reading may be taken any time before its transaction. */
  datatype World = World(clock: DateTime, row: Option<LeaseRow>, held: map<string, DateTime>)

  datatype Action =
    | Tick
    | AcquireBy(owner: string, now: DateTime, ttl: int)
    | RenewBy(owner: string, now: DateTime, ttl: int)
    | ReleaseBy(owner: string)
    | RolledBack

  ghost predicate ValidWorld(w: World)
  {
    Valid(w.clock) && forall p :: p in w.held ==> Valid(w.held[p])
  }

  predicate ReadBefore(now: DateTime, w: World)
    requires Valid(w.clock)
  {
    Valid(now) && Micros(now) <= Micros(w.clock)
  }

  function Credit(held: map<string, DateTime>, owner: string, granted: Option<DateTime>): map<string, DateTime>
  {
    if granted.Some? then held[owner := granted.value] else held
  }

  ghost predicate Step(w: World, a: Action, w': World)
    requires ValidWorld(w)
  {
    match a
    case Tick => Valid(w'.clock) && Micros(w.clock) <= Micros(w'.clock) && w' == w.(clock := w'.clock)
    case RolledBack => w' == w
    case AcquireBy(owner, now, ttl) =>
      && ReadBefore(now, w)
      && var o := Acquire(w.row, owner, now, ttl); w' == w.(row := o.row, held := Credit(w.held, owner, o.granted))
    case RenewBy(owner, now, ttl) =>
      && ReadBefore(now, w)
      && var o := Renew(w.row, owner, now, ttl); w' == w.(row := o.row, held := Credit(w.held, owner, o.granted))
    case ReleaseBy(owner) =>
      var (row, done) := Release(w.row, owner);
      w' == w.(row := row, held := if done then w.held - {owner} else w.held)
  }

  ghost predicate Run(ws: seq<World>, acts: seq<Action>)
  {
    && |ws| == |acts| + 1
    && ValidWorld(ws[0])
    && forall i :: 0 <= i < |acts| ==> ValidWorld(ws[i]) && Step(ws[i], acts[i], ws[i + 1])
  }

  /** The invocation's last granted expiry is still in the future. */
  ghost predicate Live(w: World, p: string)
    requires ValidWorld(w)
  {
    p in w.held && Micros(w.held[p]) > Micros(w.clock)
  }

  ghost predicate Safe(w: World)
  {
    && ValidWorld(w)
    && forall p :: Live(w, p) ==> w.row == Some(LeaseRow(p, Iso(w.held[p])))
  }

  lemma LiveLeaseRefusesOthers(w: World, p: string, q: string, now: DateTime, ttl: int)
    requires Safe(w) && Live(w, p) && ReadBefore(now, w)
    ensures Acquire(w.row, q, now, ttl) == Outcome(w.row, None)
  {
    ParseIso(w.held[p]);
  }

  lemma AcquireKeepsSafe(w: World, a: Action, w': World)
    requires Safe(w) && a.AcquireBy? && Step(w, a, w')
    ensures Safe(w')
  {
    hide Iso, ParseStamp, Expiry, LexLess;
    if p :| Live(w, p) {
      LiveLeaseRefusesOthers(w, p, a.owner, a.now, a.ttl);
    } else {
      forall p | Live(w', p) ensures w'.row == Some(LeaseRow(p, Iso(w'.held[p]))) {
        assert p == a.owner || !Live(w, p);
      }
    }
  }

  lemma RenewKeepsSafe(w: World, a: Action, w': World)
    requires Safe(w) && a.RenewBy? && Step(w, a, w')
    ensures Safe(w')
  {
    hide Iso, ParseStamp, Expiry, LexLess;
    forall p | Live(w', p) && p != a.owner ensures w'.row == Some(LeaseRow(p, Iso(w'.held[p]))) {
      assert Live(w, p);
    }
  }

  lemma StepKeepsSafe(w: World, a: Action, w': World)
    requires Safe(w) && Step(w, a, w')
    ensures Safe(w')
  {
    hide Iso, Acquire, Renew;
    match a
    case AcquireBy(_, _, _) => AcquireKeepsSafe(w, a, w');
    case RenewBy(_, _, _) => RenewKeepsSafe(w, a, w');
    case _ => assert forall p :: Live(w', p) ==> Live(w, p);
  }

  /** In every reachable state of every interleaving: an invocation whose last granted
      expiry is in the future owns the row, and no other grant is live. */
  lemma {:induction false} LeaseSafety(ws: seq<World>, acts: seq<Action>, k: nat)
    requires Run(ws, acts) && Safe(ws[0]) && k < |ws|
    ensures Safe(ws[k])
    ensures forall p, q :: Live(ws[k], p) && Live(ws[k], q) ==> p == q
    decreases k
  {
    hide Iso, Step;
    if k == 0 {
    } else {
      LeaseSafety(ws, acts, k - 1);
      StepKeepsSafe(ws[k - 1], acts[k - 1], ws[k]);
    }
  }

  predicate OwnedBy(row: Option<LeaseRow>, p: string) { row.Some? && row.value.owner == p }

  /** A displaced invocation that does not acquire again never regains the row, and none of
      its renewals or releases touches its successor's row or credits it anything. */
  lemma {:induction false} DisplacedStaysDisplaced(ws: seq<World>, acts: seq<Action>, p: string, k: nat)
    requires Run(ws, acts) && k < |ws| && !OwnedBy(ws[0].row, p)
    requires forall i :: 0 <= i < |acts| && acts[i].AcquireBy? ==> acts[i].owner != p
    ensures !OwnedBy(ws[k].row, p)
    ensures k > 0 && (acts[k - 1].RenewBy? || acts[k - 1].ReleaseBy?) && acts[k - 1].owner == p ==> ws[k] == ws[k - 1]
    decreases k
  {
    hide Iso, ParseStamp, Expiry, LexLess, Micros;
    if k == 0 {
    } else {
      DisplacedStaysDisplaced(ws, acts, p, k - 1);
      assert Step(ws[k - 1], acts[k - 1], ws[k]);
    }
  }

  // ----- availability

  /** The row's expiry is a text that the outbox printed. */
  ghost predicate Printed(row: Option<LeaseRow>)
  {
    row.Some? ==> exists t :: Valid(t) && row.value.expiresAt == Iso(t)
  }

  lemma StepKeepsPrinted(w: World, a: Action, w': World)
    requires ValidWorld(w) && Step(w, a, w') && Printed(w.row)
    ensures ValidWorld(w') && Printed(w'.row)
  {
    hide Iso, ParseStamp, LexLess, Micros;
  }

  /** In every reachable state, whoever asks once the clock has reached the row's expiry, or while
      there is no row, is granted the lease, however the last holder ended. */
  lemma {:induction false} LeaseAvailable(ws: seq<World>, acts: seq<Action>, k: nat, owner: string, ttl: int)
    requires Run(ws, acts) && Printed(ws[0].row) && k < |ws|
    ensures ValidWorld(ws[k]) && Printed(ws[k].row)
    ensures owner != "" && ttl >= 1 && (exists e :: Reaches(ws[k].clock, ttl, e))
      && (forall t :: Valid(t) && ws[k].row.Some? && ws[k].row.value.expiresAt == Iso(t) ==> Micros(t) <= Micros(ws[k].clock))
      ==> exists e :: Reaches(ws[k].clock, ttl, e)
            && Acquire(ws[k].row, owner, ws[k].clock, ttl) == Outcome(Some(LeaseRow(owner, Iso(e))), Some(e))
    decreases k
  {
    hide Iso, ParseStamp, Micros, Step, Acquire, Reaches;
    if k == 0 {
    } else {
      LeaseAvailable(ws, acts, k - 1, owner, ttl);
      StepKeepsPrinted(ws[k - 1], acts[k - 1], ws[k]);
    }
    var now := ws[k].clock;
    AcquireExact(ws[k].row, owner, now, ttl);
    if ws[k].row.Some? {
      var t :| Valid(t) && ws[k].row.value.expiresAt == Iso(t);
      ParseIso(t);
    }
  }

  /** A release by the row's owner frees the lease at once; any other leaves the row. */
  lemma ReleaseExact(row: Option<LeaseRow>, owner: string, next: string, now: DateTime, ttl: int)
    requires Valid(now)
    ensures var (row', done) := Release(row, owner);
      && (done <==> OwnedBy(row, owner))
      && (done ==> forall e :: Reaches(now, ttl, e) && next != "" && ttl >= 1 ==> Acquire(row', next, now, ttl).granted.Some?)
      && (!done ==> row' == row)
  {
    hide Iso, Micros, Reaches, Acquire;
    AcquireExact(None, next, now, ttl);
  }

  // ----- what the text comparison in the renewal decides

  /** The owner's renewal goes by true time except on a mixed pair, where it does the opposite. */
  lemma RenewalDecision(owner: string, expires: DateTime, now: DateTime, ttl: int)
    requires Valid(expires) && Valid(now) && Expiry(now, ttl).Some?
    ensures Renew(Some(LeaseRow(owner, Iso(expires))), owner, now, ttl).granted.Some? <==>
      if MixedFraction(now, expires) then Micros(expires) < Micros(now) else Micros(now) < Micros(expires)
  {
    TextOrderExact(now, expires);
  }

  /** Half a second before expiry, the owner's renewal is refused. */
  lemma UnexpiredRenewalRefused() returns (expires: DateTime, now: DateTime)
    ensures Valid(expires) && Valid(now) && Micros(now) < Micros(expires)
    ensures Renew(Some(LeaseRow("a", Iso(expires))), "a", now, 60) == Outcome(Some(LeaseRow("a", Iso(expires))), None)
  {
    now := DateTime(2026, 1, 2, 3, 4, 5, 0);
    expires := now.(micro := 500_000);
    TextOrderExact(now, expires);
  }
}
