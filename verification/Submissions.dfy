/** The submissions table: each SQL statement as one method on the table, tied to one
    step of the protocol. Clock readings are parameters: nothing relates the `now` of
    two statements. */
module Submissions {
  import opened Options
  import opened Sets

  type Id = int

  datatype Status = Queued | Running | Finished | Failed

  datatype Verdict = TimedOut | Judged(report: string)

  datatype Note = Message(text: string) | LeaseExpired(attempt: nat, limit: nat) | GaveUp

  datatype Row = Row(status: Status, result: Option<Verdict>, attempt: nat, lease: Option<int>,
                     started: Option<int>, note: Option<Note>, created: int, updated: int)

  type Rows = map<Id, Row>

  /** Lease duration, attempt limit and queue limit, after the constructors replaced
      non-positive options by their defaults. */
  datatype Config = Config(lease: int, attempts: nat, queued: nat)

  predicate Usable(c: Config) { c.lease > 0 && c.attempts >= 1 && c.queued >= 1 }

  function Configured(lease: int, attempts: int, queued: int): (c: Config)
    ensures Usable(c)
    ensures c.lease == (if lease > 0 then lease else 60) && c.attempts == (if attempts > 0 then attempts else 3)
    ensures c.queued == if queued > 0 then queued else 100
  {
    Config(if lease <= 0 then 60 else lease, if attempts <= 0 then 3 else attempts, if queued <= 0 then 100 else queued)
  }

  datatype Step =
    | Insert(id: Id, now: int)
    | Claim(id: Id, locked: set<Id>, now: int)
    | Renew(id: Id, attempt: nat, now: int)
    | Update(id: Id, attempt: nat, status: Status, result: Option<Verdict>,
             started: Option<int>, lease: Option<int>, note: Option<Note>, now: int)
    | Recover(ids: set<Id>, now: int)

  predicate Terminal(s: Status) { s.Finished? || s.Failed? }

  /** What the service and the handlers issue: they never put a row back in the queue with
      an update, and a worker announcing that it runs has no result yet. */
  predicate Issued(step: Step) {
    step.Update? ==> !step.status.Queued? && (step.status.Running? ==> step.result.None?)
  }

  function Fresh(now: int): Row { Row(Queued, None, 0, None, None, None, now, now) }

  predicate Leased(row: Row, now: int) { row.lease.Some? && row.lease.value > now }

  predicate Expired(row: Row, now: int) { row.status.Running? && row.lease.Some? && row.lease.value <= now }

  /** The oldest queued row that no other transaction holds. */
  predicate Claimable(rows: Rows, locked: set<Id>, id: Id) {
    && id in rows && rows[id].status.Queued? && id !in locked
    && forall i :: i in rows && rows[i].status.Queued? && i !in locked ==> rows[id].created <= rows[i].created
  }

  /** The WHERE clause of a step, for one row. */
  predicate Fires(rows: Rows, step: Step, id: Id)
    requires id in rows
  {
    var row := rows[id];
    match step
    case Insert(_, _) => false
    case Claim(i, locked, _) => id == i && Claimable(rows, locked, id)
    case Renew(i, a, now) => id == i && row.status.Running? && row.attempt == a && Leased(row, now)
    case Update(i, a, s, _, _, _, _, now) =>
      id == i && row.attempt == a &&
      ((row.status.Running? && Leased(row, now)) || (row.status.Queued? && s.Failed? && row.attempt == 0))
    case Recover(ids, now) => id in ids && Expired(row, now)
  }

  function Greatest(a: Option<int>, b: int): int { if a.Some? && a.value > b then a.value else b }

  function Requeued(c: Config, row: Row, now: int): Row {
    row.(status := Queued, result := None, started := None, lease := None,
         note := Some(LeaseExpired(row.attempt, c.attempts)), updated := now)
  }

  function Abandoned(row: Row, now: int): Row {
    row.(status := Failed, result := Some(TimedOut), lease := None, note := Some(GaveUp), updated := now)
  }

  /** The SET clause of a step. */
  function Change(c: Config, row: Row, step: Step): Row {
    match step
    case Insert(_, _) => row
    case Claim(_, _, now) =>
      row.(status := Running, attempt := row.attempt + 1, started := Some(now), lease := Some(now + c.lease),
           updated := now)
    case Renew(_, _, now) => row.(lease := Some(Greatest(row.lease, now + c.lease)), updated := now)
    case Update(_, _, s, result, started, lease, note, now) =>
      row.(status := s, result := result, started := started, note := note, updated := now,
           lease := if Terminal(s) then None else if s.Running? then row.lease else lease)
    case Recover(_, now) => if row.attempt < c.attempts then Requeued(c, row, now) else Abandoned(row, now)
  }

  function Apply(c: Config, rows: Rows, step: Step): Rows {
    (map i | i in rows :: if Fires(rows, step, i) then Change(c, rows[i], step) else rows[i])
    + (if step.Insert? && step.id !in rows then map[step.id := Fresh(step.now)] else map[])
  }

  /** A recovery pass takes its rows one by one. */
  lemma RecoverOne(c: Config, rows: Rows, done: set<Id>, id: Id, now: int)
    requires id in rows && id !in done && Expired(rows[id], now)
    ensures var partial := Apply(c, rows, Recover(done, now));
            id in partial && partial[id] == rows[id]
            && Apply(c, rows, Recover(done + {id}, now)) == partial[id := Change(c, rows[id], Recover({}, now))]
  {
  }

  lemma RecoverNone(c: Config, rows: Rows, now: int)
    ensures Apply(c, rows, Recover({}, now)) == rows
  {
  }

  function QueuedIds(rows: Rows): set<Id> { set i | i in rows && rows[i].status.Queued? }

  /** Migration 002, on a row that the older schema left behind. */
  function Migrated(row: Row): Row {
    if !row.status.Running? then row
    else row.(attempt := if row.attempt < 1 then 1 else row.attempt,
              started := if row.started.None? then Some(row.updated) else row.started,
              lease := if row.lease.None? then Some(row.updated + 60) else row.lease)
  }

  /** The order of recovery: by lease, then by age. */
  predicate NoLater(a: Row, b: Row) {
    a.lease.Some? && b.lease.Some?
    && (a.lease.value < b.lease.value || (a.lease.value == b.lease.value && a.created <= b.created))
  }

  /** The row whose lease ends first comes first, and of two that end together the older one. */
  lemma NoLaterMeans(a: Row, b: Row)
    requires a.lease.Some? && b.lease.Some?
    ensures a.lease.value < b.lease.value ==> NoLater(a, b) && !NoLater(b, a)
    ensures a.lease == b.lease ==> (NoLater(a, b) <==> a.created <= b.created)
  {
  }

  /** Row by row: what one recovery pass makes of the table. */
  lemma RecoveredRows(c: Config, rows: Rows, locked: set<Id>, ids: set<Id>, now: int)
    requires ids == set i | i in rows && Expired(rows[i], now) && i !in locked
    ensures var after := Apply(c, rows, Recover(ids, now));
            after.Keys == rows.Keys && forall i :: i in after ==>
              var row := rows[i];
              if row.status.Running? && row.lease.Some? && row.lease.value <= now && i !in locked then
                if row.attempt < c.attempts then
                  after[i] == row.(status := Queued, result := None, started := None, lease := None,
                                   note := Some(LeaseExpired(row.attempt, c.attempts)), updated := now)
                else
                  after[i] == row.(status := Failed, result := Some(TimedOut), lease := None, note := Some(GaveUp),
                                   updated := now)
              else after[i] == row
  {
  }

  // ----- the table -----

  class SubmissionTable {
    const config: Config
    var rows: Rows

    constructor (config: Config)
      ensures this.config == config && rows == map[]
    {
      this.config, rows := config, map[];
    }

    method Insert(id: Id, now: int) returns (ok: bool)
      modifies this
      ensures ok == (id !in old(rows))
      ensures rows == Apply(config, old(rows), Step.Insert(id, now))
      ensures ok ==> rows == old(rows)[id := Row(Queued, None, 0, None, None, None, now, now)]
    {
      ok := id !in rows;
      if ok { rows := rows[id := Fresh(now)]; }
    }

    /** One row, oldest first; rows locked by other transactions are skipped. */
    method Oldest(locked: set<Id>) returns (found: Option<Id>)
      ensures found.None? ==> QueuedIds(rows) <= locked
      ensures found.Some? ==> Claimable(rows, locked, found.value)
    {
      var rest := QueuedIds(rows) - locked;
      found := None;
      while rest != {}
        invariant rest <= QueuedIds(rows) - locked
        invariant found.None? ==> rest == QueuedIds(rows) - locked
        invariant found.Some? ==> found.value in QueuedIds(rows) - locked
        invariant found.Some? ==> forall i :: i in QueuedIds(rows) - locked - rest ==>
                  rows[found.value].created <= rows[i].created
        decreases |rest|
      {
        ghost var member := Pick(rest);
        hide QueuedIds, Claimable;
        var id :| id in rest;
        if found.None? || rows[id].created < rows[found.value].created { found := Some(id); }
        rest := rest - {id};
      }
      if found.None? {
        assert forall i :: i in QueuedIds(rows) ==> i in locked || i in rest;
      } else {
        assert forall i :: i in rows && rows[i].status.Queued? && i !in locked ==> i in QueuedIds(rows) - locked - rest;
      }
    }

    method Claim(locked: set<Id>, now: int) returns (claim: Option<(Id, nat)>)
      modifies this
      ensures claim.None? ==> rows == old(rows) && QueuedIds(rows) <= locked
      ensures claim.Some? ==>
                && Claimable(old(rows), locked, claim.value.0)
                && rows == Apply(config, old(rows), Step.Claim(claim.value.0, locked, now))
                && claim.value.1 == old(rows)[claim.value.0].attempt + 1 == rows[claim.value.0].attempt
      ensures claim.Some? ==>
                var (id, attempt) := claim.value;
                rows == old(rows)[id := old(rows)[id].(status := Running, attempt := attempt, started := Some(now),
                                                       lease := Some(now + config.lease), updated := now)]
      ensures claim.Some? ==>
                old(rows)[claim.value.0].status.Queued? && claim.value.0 !in locked
                && forall i :: i in old(rows) && old(rows)[i].created < old(rows)[claim.value.0].created ==>
                     !old(rows)[i].status.Queued? || i in locked
    {
      var found := Oldest(locked);
      if found.None? { return None; }
      var id := found.value;
      var row := rows[id];
      rows := rows[id := row.(status := Running, attempt := row.attempt + 1, started := Some(now),
                              lease := Some(now + config.lease), updated := now)];
      return Some((id, row.attempt + 1));
    }

    method Renew(id: Id, attempt: nat, now: int) returns (ok: bool)
      modifies this
      ensures ok == (id in old(rows) && Fires(old(rows), Step.Renew(id, attempt, now), id))
      ensures rows == Apply(config, old(rows), Step.Renew(id, attempt, now))
      ensures ok <==> id in old(rows) && old(rows)[id].status.Running? && old(rows)[id].attempt == attempt
                      && old(rows)[id].lease.Some? && now < old(rows)[id].lease.value
      ensures ok ==>
                var until := if now + config.lease < old(rows)[id].lease.value then old(rows)[id].lease.value
                             else now + config.lease;
                rows == old(rows)[id := old(rows)[id].(lease := Some(until), updated := now)]
      ensures !ok ==> rows == old(rows)
    {
      ok := false;
      if id in rows {
        var row := rows[id];
        if row.status == Running && row.attempt == attempt && row.lease.Some? && row.lease.value > now {
          var until := now + config.lease;
          if row.lease.value > until { until := row.lease.value; }
          rows := rows[id := row.(lease := Some(until), updated := now)];
          ok := true;
        }
      }
    }

    method Update(id: Id, attempt: nat, status: Status, result: Option<Verdict>,
                  started: Option<int>, lease: Option<int>, note: Option<Note>, now: int) returns (ok: bool)
      modifies this
      ensures ok == (id in old(rows) &&
                     Fires(old(rows), Step.Update(id, attempt, status, result, started, lease, note, now), id))
      ensures rows == Apply(config, old(rows), Step.Update(id, attempt, status, result, started, lease, note, now))
      ensures ok ==> id in old(rows) && old(rows)[id].attempt == attempt
                     && (old(rows)[id].status.Running? || (old(rows)[id].status.Queued? && status.Failed? &&
                                                           attempt == 0))
      ensures ok ==> rows[id].status == status && rows[id].result == result && rows[id].started == started
                     && rows[id].note == note && rows[id].attempt == attempt
                     && (status.Finished? || status.Failed? ==> rows[id].lease.None?)
                     && (status.Running? ==> rows[id].lease == old(rows)[id].lease)
                     && rows[id].updated == now && rows == old(rows)[id := rows[id]]
      ensures !ok ==> rows == old(rows)
    {
      ok := false;
      if id in rows {
        var row := rows[id];
        var owned := row.status == Running && row.lease.Some? && row.lease.value > now;
        var unstarted := row.status == Queued && status == Failed && row.attempt == 0;
        if row.attempt == attempt && (owned || unstarted) {
          var until := lease;
          if status == Finished || status == Failed { until := None; } else if status == Running { until := row.lease; }
          rows := rows[id := row.(status := status, result := result, started := started, lease := until,
                                  note := note, updated := now)];
          ok := true;
        }
      }
    }

    method Earliest(ids: set<Id>) returns (first: Id)
      requires ids != {} && forall i :: i in ids ==> i in rows && rows[i].lease.Some?
      ensures first in ids && forall i :: i in ids ==> NoLater(rows[first], rows[i])
    {
      ghost var member := Pick(ids);
      first :| first in ids;
      var rest := ids - {first};
      while rest != {}
        invariant rest <= ids && first in ids - rest && forall i :: i in ids - rest ==> NoLater(rows[first], rows[i])
        decreases |rest|
      {
        member := Pick(rest);
        var id :| id in rest;
        if !NoLater(rows[first], rows[id]) { first := id; }
        rest := rest - {id};
      }
    }

    /** The expired rows that no other transaction holds, each once, with their attempts, in the
        order of recovery. */
    method LockExpired(locked: set<Id>, now: int) returns (expired: seq<(Id, nat)>)
      ensures forall id :: id in rows && Expired(rows[id], now) && id !in locked ==> (id, rows[id].attempt) in expired
      ensures forall k :: 0 <= k < |expired| ==>
                var (id, attempt) := expired[k];
                id in rows && Expired(rows[id], now) && id !in locked && attempt == rows[id].attempt
      ensures forall j, k :: 0 <= j < k < |expired| ==> expired[j].0 != expired[k].0
      ensures forall j, k :: 0 <= j < k < |expired| ==> NoLater(rows[expired[j].0], rows[expired[k].0])
      ensures forall j, k :: 0 <= j < k < |expired| ==>
                var a, b := rows[expired[j].0], rows[expired[k].0];
                a.lease.Some? && b.lease.Some? && a.lease.value <= b.lease.value
                && (a.lease == b.lease ==> a.created <= b.created)
    {
      var rest := set i | i in rows && Expired(rows[i], now) && i !in locked;
      ghost var all := rest;
      expired := [];
      while rest != {}
        invariant rest <= all
        invariant forall id :: id in all - rest ==> (id, rows[id].attempt) in expired
        invariant forall k :: 0 <= k < |expired| ==>
                  expired[k].0 in all - rest && expired[k].1 == rows[expired[k].0].attempt
        invariant forall j, k :: 0 <= j < k < |expired| ==> expired[j].0 != expired[k].0
        invariant forall j, k :: 0 <= j < k < |expired| ==> NoLater(rows[expired[j].0], rows[expired[k].0])
        invariant forall j, i :: 0 <= j < |expired| && i in rest ==> NoLater(rows[expired[j].0], rows[i])
        decreases |rest|
      {
        var id := Earliest(rest);
        expired := expired + [(id, rows[id].attempt)];
        rest := rest - {id};
      }
    }

    method Requeue(id: Id, note: Note, now: int) returns (count: nat)
      modifies this
      ensures count == if id in old(rows) then 1 else 0
      ensures rows == if id in old(rows)
                      then old(rows)[id := old(rows)[id].(status := Queued, result := None, started := None,
                                                          lease := None,
                                                          note := Some(note), updated := now)]
                      else old(rows)
    {
      if id !in rows { return 0; }
      rows := rows[id := rows[id].(status := Queued, result := None, started := None, lease := None,
                                   note := Some(note), updated := now)];
      return 1;
    }

    method Fail(id: Id, result: Verdict, note: Note, now: int) returns (count: nat)
      modifies this
      ensures count == if id in old(rows) then 1 else 0
      ensures rows == if id in old(rows)
                      then old(rows)[id := old(rows)[id].(status := Failed, result := Some(result), lease := None,
                                                          note := Some(note), updated := now)]
                      else old(rows)
    {
      if id !in rows { return 0; }
      rows := rows[id := rows[id].(status := Failed, result := Some(result), lease := None,
                                   note := Some(note), updated := now)];
      return 1;
    }

    method RecoverRow(id: Id, attempt: nat, now: int)
      requires id in rows && rows[id].attempt == attempt
      modifies this
      ensures rows == old(rows)[id := Change(config, old(rows)[id], Step.Recover({}, now))]
    {
      var count;
      if attempt < config.attempts {
        count := Requeue(id, LeaseExpired(attempt, config.attempts), now);
      } else {
        count := Fail(id, TimedOut, GaveUp, now);
      }
      assert count == 1;
    }

    /** One recovery transaction: all expired rows that were not skipped, together. */
    method RecoverExpired(locked: set<Id>, now: int) returns (count: nat, ghost ids: set<Id>)
      modifies this
      ensures ids == set i | i in old(rows) && Expired(old(rows)[i], now) && i !in locked
      ensures rows == Apply(config, old(rows), Step.Recover(ids, now))
      ensures count == |ids|
      ensures rows.Keys == old(rows).Keys && forall i :: i in rows ==>
                var row := old(rows)[i];
                if row.status.Running? && row.lease.Some? && row.lease.value <= now && i !in locked then
                  if row.attempt < config.attempts then
                    rows[i] == row.(status := Queued, result := None, started := None, lease := None,
                                    note := Some(LeaseExpired(row.attempt, config.attempts)), updated := now)
                  else
                    rows[i] == row.(status := Failed, result := Some(TimedOut), lease := None, note := Some(GaveUp),
                                    updated := now)
                else rows[i] == row
    {
      hide Apply, Change, Expired;
      ids := set i | i in rows && Expired(rows[i], now) && i !in locked;
      RecoveredRows(config, rows, locked, ids, now);
      count := RecoverAll(locked, now, ids);
    }

    method RecoverAll(locked: set<Id>, now: int, ghost ids: set<Id>) returns (count: nat)
      requires ids == set i | i in rows && Expired(rows[i], now) && i !in locked
      modifies this
      ensures rows == Apply(config, old(rows), Step.Recover(ids, now)) && count == |ids|
    {
      hide Apply, Change, NoLater;
      var expired := LockExpired(locked, now);
      ghost var done: set<Id> := {};
      RecoverNone(config, rows, now);
      for k := 0 to |expired|
        invariant done <= ids && |done| == k
        invariant forall j :: 0 <= j < |expired| ==> (expired[j].0 in done <==> j < k)
        invariant rows == Apply(config, old(rows), Step.Recover(done, now))
      {
        var (id, attempt) := expired[k];
        RecoverOne(config, old(rows), done, id, now);
        RecoverRow(id, attempt, now);
        done := done + {id};
      }
      forall id | id in ids ensures id in done { assert (id, old(rows)[id].attempt) in expired; }
      assert done == ids;
      count := |expired|;
    }

    /** Migration 002 over the whole table. */
    method Migrate()
      modifies this
      ensures rows == map i | i in old(rows) :: Migrated(old(rows)[i])
      ensures forall i :: i in rows && !old(rows)[i].status.Running? ==> rows[i] == old(rows)[i]
      ensures forall i :: i in rows && old(rows)[i].status.Running? ==>
                var row := old(rows)[i];
                && rows[i].attempt == (if row.attempt == 0 then 1 else row.attempt)
                && rows[i].started == (if row.started.None? then Some(row.updated) else row.started)
                && rows[i].lease == (if row.lease.None? then Some(row.updated + 60) else row.lease)
                && rows[i].status.Running? && rows[i].result == row.result
    {
      rows := map i | i in rows :: if rows[i].status != Running then rows[i] else
        var row := rows[i];
        row.(attempt := if row.attempt >= 1 then row.attempt else 1,
             started := if row.started.Some? then row.started else Some(row.updated),
             lease := if row.lease.Some? then row.lease else Some(row.updated + 60));
    }

    method CountQueued() returns (count: nat)
      ensures count == |QueuedIds(rows)|
    {
      count := |set i | i in rows && rows[i].status == Queued|;
      assert QueuedIds(rows) == set i | i in rows && rows[i].status == Queued;
    }
  }
}
