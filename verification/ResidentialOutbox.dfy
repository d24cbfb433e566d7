/** The outbox repository as the collector drives it: one object, its rows and lease row
    changed in place inside transactions that roll back on any failure. */
module ResidentialOutbox {
  import opened Options
  import opened Sorting
  import opened Timestamps
  import opened Envelopes
  import opened OutboxStore
  import ProcessLease

  class OutboxRepository {
    const cfg: Config
    var rows: map<nat, Row>
    var lastId: nat
    var lease: Option<ProcessLease.LeaseRow>

    ghost var inserted: map<nat, Row>
    ghost var acknowledged: map<nat, string>
    ghost var pruned: map<nat, string>

    ghost function Snapshot(): State
      reads this
    {
      State(rows, lastId, inserted, acknowledged, pruned)
    }

    ghost predicate Valid()
      reads this
    {
      Conserved(Snapshot())
    }

    constructor (cfg: Config)
      ensures Valid() && this.cfg == cfg && lease.None?
      ensures Snapshot() == State(map[], 0, map[], map[], map[])
    {
      this.cfg := cfg;
      rows, lastId, lease := map[], 0, None;
      inserted, acknowledged, pruned := map[], map[], map[];
      new;
      assert forall id: nat :: Accounted(Snapshot(), id);
    }

    /** `_total_bytes`: the sum over all the pending rows. */
    method TotalPending() returns (total: nat)
      requires Valid()
      ensures total == PayloadSum(rows) && total == TotalBytes(Snapshot())
    {
      hide PayloadSum, SameRecord, LexLess;
      forall id | id in rows ensures 1 <= id <= lastId { assert Accounted(Snapshot(), id); }
      SumIsPayloadSum(rows, lastId);
      total := 0;
      for id := 1 to lastId + 1
        invariant total == SumUpTo(rows, id - 1)
      {
        if id in rows { total := total + |rows[id].payload|; }
      }
    }

    /** `enqueue`. The insert happens before its own footprint check, so a late refusal undoes it. */
    method Enqueue(codec: Codec, item: Item, now: DateTime, m: Measured) returns (o: Outcome)
      requires Valid() && Timestamps.Valid(item.cutoff) && Timestamps.Valid(now)
      modifies `rows, `lastId, `inserted
      ensures Valid()
      ensures Step(cfg, codec, old(Snapshot()), OutboxStore.Enqueue(item, now), m, Snapshot(), o)
      ensures o != Refused(Crashed)
      ensures o.Inserted? <==>
        && SendableItem(cfg, codec, item) && !Pends(old(rows), item) && !PendsOtherwise(old(rows), item)
        && Room(cfg, old(rows), item, m)
      ensures o.Inserted? ==>
        && o.id == lastId == old(lastId) + 1 && o.id !in old(rows) && o.id in rows
        && Records(rows[o.id], item, now) && rows == old(rows)[o.id := rows[o.id]]
      ensures !o.Inserted? ==> rows == old(rows) && lastId == old(lastId)
    {
      hide Conserved, Continues, Step, Screen, Over, Encoded, Utf8Length, Headroom, NewRow, Iso, PayloadSum;
      hide SendableItem, Pends, PendsOtherwise, Room, Records;
      ghost var before := Snapshot();
      var screened := Screen(cfg, codec, item);
      if screened.Some? {
        EnqueueScreened(cfg, codec, before, item, now, m);
        EnqueueExact(cfg, codec, before, item, now, m, before, Refused(screened.value));
        return Refused(screened.value);
      }
      if id :| id in rows && SameItem(rows[id], item) {
        EnqueueFound(cfg, codec, before, item, now, m, id);
        o := if Over(cfg, m.commit) then Refused(Full) else Existing(id);
        EnqueueExact(cfg, codec, before, item, now, m, before, o);
        return;
      }
      if id :| id in rows && SameClient(rows[id], item) {
        EnqueueConflicts(cfg, codec, before, item, now, m, id);
        EnqueueExact(cfg, codec, before, item, now, m, before, Refused(Conflict));
        return Refused(Conflict);
      }
      var committed := TotalPending();
      var reserved := |item.payload| + Utf8Length(Encoded(item)) + 3 * cfg.pageSize;
      if m.admission - cfg.baseline + committed + reserved > cfg.maxBytes - Headroom(cfg) {
        EnqueueOverflows(cfg, codec, before, item, now, m);
        EnqueueExact(cfg, codec, before, item, now, m, before, Refused(Full));
        return Refused(Full);
      }
      var savedRows, savedId := rows, lastId;
      lastId := lastId + 1;
      rows := rows[lastId := NewRow(item, now)];
      if Over(cfg, m.inserted) || Over(cfg, m.commit) {
        rows, lastId := savedRows, savedId;
        EnqueueOverflows(cfg, codec, before, item, now, m);
        EnqueueExact(cfg, codec, before, item, now, m, before, Refused(Full));
        return Refused(Full);
      }
      inserted := inserted[lastId := NewRow(item, now)];
      o := Inserted(lastId);
      EnqueueInserts(cfg, codec, before, item, now, m, Snapshot());
      StepKeepsConserved(cfg, codec, before, OutboxStore.Enqueue(item, now), m, Snapshot(), o);
      EnqueueExact(cfg, codec, before, item, now, m, Snapshot(), o);
    }

    /** `mark_attempt`. */
    method MarkAttempt(codec: Codec, id: nat, reason: Option<string>, m: Measured) returns (o: Outcome)
      requires Valid()
      modifies `rows
      ensures Valid() && rows.Keys == old(rows.Keys)
      ensures Step(cfg, codec, old(Snapshot()), OutboxStore.MarkAttempt(id, reason), m, Snapshot(), o)
      ensures o != Refused(Crashed)
    {
      hide Conserved, Continues;
      ghost var before := Snapshot();
      var saved := rows;
      o := Done(0);
      if id in rows {
        rows := rows[id := rows[id].(attempts := rows[id].attempts + 1, lastError := reason)];
        o := Done(1);
      }
      if Over(cfg, m.commit) {
        rows := saved;
        return Refused(Full);
      }
      StepKeepsConserved(cfg, codec, before, OutboxStore.MarkAttempt(id, reason), m, Snapshot(), o);
    }

    /** `acknowledge`: the row goes only on a receipt with its own checksum. */
    method Acknowledge(codec: Codec, id: nat, checksum: string, m: Measured) returns (o: Outcome)
      requires Valid()
      modifies `rows, `acknowledged
      ensures Valid()
      ensures Step(cfg, codec, old(Snapshot()), OutboxStore.Acknowledge(id, checksum), m, Snapshot(), o)
      ensures o != Refused(Crashed)
    {
      hide Conserved, Continues;
      ghost var before := Snapshot();
      if id !in rows { return if Over(cfg, m.commit) then Refused(Full) else Done(0); }
      if rows[id].checksum != checksum { return Refused(WrongReceipt); }
      var saved := rows;
      rows := rows - {id};
      if Over(cfg, m.commit) {
        rows := saved;
        return Refused(Full);
      }
      acknowledged := acknowledged[id := checksum];
      o := Done(1);
      StepKeepsConserved(cfg, codec, before, OutboxStore.Acknowledge(id, checksum), m, Snapshot(), o);
    }

    /** `prune_obsolete`. */
    method PruneObsolete(codec: Codec, governedBefore: DateTime, m: Measured) returns (o: Outcome)
      requires Valid() && Timestamps.Valid(governedBefore)
      modifies `rows, `pruned
      ensures Valid()
      ensures Step(cfg, codec, old(Snapshot()), OutboxStore.Prune(governedBefore), m, Snapshot(), o)
      ensures o != Refused(Crashed)
    {
      hide Iso, Conserved, Continues, LexLess;
      ghost var before := Snapshot();
      var saved := rows;
      var gone := Obsolete(rows, governedBefore);
      rows := rows - gone;
      if Over(cfg, m.commit) {
        rows := saved;
        return Refused(Full);
      }
      pruned := pruned + map id | id in gone :: Iso(governedBefore);
      o := Done(|gone|);
      StepKeepsConserved(cfg, codec, before, OutboxStore.Prune(governedBefore), m, Snapshot(), o);
    }

    /** `acquire_lease`, with the clock reading it took; `None` when it raises. */
    method AcquireLease(owner: string, now: DateTime, ttl: int, footprint: int) returns (granted: Option<DateTime>)
      requires Timestamps.Valid(now)
      modifies `lease
      ensures if Over(cfg, footprint) then lease == old(lease) && granted.None?
              else ProcessLease.Outcome(lease, granted) == ProcessLease.Acquire(old(lease), owner, now, ttl)
      ensures granted.Some? <==>
        && footprint <= cfg.baseline + cfg.maxBytes && owner != "" && ttl >= 1
        && (exists e :: ProcessLease.Reaches(now, ttl, e)) && ProcessLease.Open(old(lease), now)
      ensures if granted.Some? then
                && ProcessLease.Reaches(now, ttl, granted.value)
                && lease == Some(ProcessLease.LeaseRow(owner, Iso(granted.value)))
              else lease == old(lease)
    {
      hide Iso, ParseStamp, Micros, ProcessLease.Reaches, ProcessLease.Open;
      ProcessLease.AcquireExact(lease, owner, now, ttl);
      var expires := ProcessLease.Expiry(now, ttl);
      if owner == "" || ttl < 1 || expires.None? { return None; }
      if lease.Some? {
        var stored := ParseStamp(lease.value.expiresAt);
        if stored.None? || Micros(stored.value) > Micros(now) { return None; }
      }
      var saved := lease;
      lease := Some(ProcessLease.LeaseRow(owner, Iso(expires.value)));
      if Over(cfg, footprint) {
        lease := saved;
        return None;
      }
      return expires;
    }

    /** `renew_lease`. */
    method RenewLease(owner: string, now: DateTime, ttl: int, footprint: int) returns (granted: Option<DateTime>)
      requires Timestamps.Valid(now)
      modifies `lease
      ensures if Over(cfg, footprint) then lease == old(lease) && granted.None?
              else ProcessLease.Outcome(lease, granted) == ProcessLease.Renew(old(lease), owner, now, ttl)
      ensures granted.Some? <==>
        && footprint <= cfg.baseline + cfg.maxBytes && old(lease).Some? && old(lease).value.owner == owner
        && LexLess(Iso(now), old(lease).value.expiresAt) && exists e :: ProcessLease.Reaches(now, ttl, e)
      ensures if granted.Some? then
                && ProcessLease.Reaches(now, ttl, granted.value)
                && lease == Some(ProcessLease.LeaseRow(owner, Iso(granted.value)))
              else lease == old(lease)
    {
      hide Iso, LexLess, Micros, ProcessLease.Reaches;
      ProcessLease.RenewExact(lease, owner, now, ttl);
      var expires := ProcessLease.Expiry(now, ttl);
      if expires.None? || Over(cfg, footprint) { return None; }
      if lease.Some? && lease.value.owner == owner && LexLess(Iso(now), lease.value.expiresAt) {
        lease := Some(ProcessLease.LeaseRow(owner, Iso(expires.value)));
        return expires;
      }
      return None;
    }

    /** `release_lease`. */
    method ReleaseLease(owner: string, footprint: int) returns (released: bool)
      modifies `lease
      ensures if Over(cfg, footprint) then lease == old(lease) && !released
              else (lease, released) == ProcessLease.Release(old(lease), owner)
      ensures released <==>
        footprint <= cfg.baseline + cfg.maxBytes && old(lease).Some? && old(lease).value.owner == owner
      ensures lease == if released then None else old(lease)
    {
      released := false;
      if !Over(cfg, footprint) && lease.Some? && lease.value.owner == owner {
        lease := None;
        released := true;
      }
    }
  }
}
