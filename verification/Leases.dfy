/** Safety of the lease protocol over whole runs: any number of workers, replicas and
    recovery passes, interleaved freely, each statement with its own clock reading. */
module Leases {
  import opened Options
  import opened Submissions

  /** What every row satisfies between statements. */
  ghost predicate Good(c: Config, row: Row) {
    && (row.lease.Some? <==> row.status.Running?)
    && (row.status.Queued? ==> row.attempt < c.attempts)
    && (row.status.Running? ==> row.attempt >= 1)
    && row.attempt <= c.attempts
    && (!Terminal(row.status) ==> row.result.None?)
  }

  ghost predicate AllGood(c: Config, rows: Rows) { forall id :: id in rows ==> Good(c, rows[id]) }

  /** Attempt `a` no longer owns the row: a later attempt exists, or this one was given up or finished. */
  ghost predicate Gone(row: Row, a: nat) {
    row.attempt > a || (row.attempt == a && (Terminal(row.status) || (row.status.Queued? && a >= 1)))
  }

  /** How many claims, recoveries and final updates may still follow. */
  ghost function Rank(c: Config, row: Row): int {
    match row.status
    case Queued => 2 * (c.attempts - row.attempt)
    case Running => 2 * (c.attempts - row.attempt) + 1
    case Finished => 0
    case Failed => 0
  }

  ghost predicate Evolves(c: Config, x: Row, y: Row) {
    && x.attempt <= y.attempt && x.created == y.created && Rank(c, y) <= Rank(c, x)
    && (Terminal(x.status) ==> y == x)
    && forall a: nat :: Gone(x, a) ==> Gone(y, a)
  }

  // ----- one step -----

  lemma ApplyRow(c: Config, rows: Rows, step: Step, id: Id)
    requires id in rows
    ensures id in Apply(c, rows, step)
    ensures Apply(c, rows, step)[id] == if Fires(rows, step, id) then Change(c, rows[id], step) else rows[id]
  {
  }

  lemma StepEvolves(c: Config, rows: Rows, step: Step, id: Id)
    requires Usable(c) && Issued(step) && id in rows && Good(c, rows[id])
    ensures id in Apply(c, rows, step)
    ensures Good(c, Apply(c, rows, step)[id]) && Evolves(c, rows[id], Apply(c, rows, step)[id])
  {
    ApplyRow(c, rows, step, id);
  }

  /** No step breaks the row invariant, wherever its clock stands. */
  lemma StepKeepsGood(c: Config, rows: Rows, step: Step)
    requires Usable(c) && Issued(step) && AllGood(c, rows)
    ensures AllGood(c, Apply(c, rows, step))
  {
    forall id | id in Apply(c, rows, step) ensures Good(c, Apply(c, rows, step)[id]) {
      if id in rows { StepEvolves(c, rows, step, id); }
    }
  }

  /** A claim, a recovery or a final update. */
  ghost predicate Moves(rows: Rows, step: Step, id: Id)
    requires id in rows
  {
    Fires(rows, step, id) && (step.Claim? || step.Recover? || (step.Update? && Terminal(step.status)))
  }

  /** Exactly the moves lower the rank; every other step leaves status and attempt alone. */
  lemma MoveLowersRank(c: Config, rows: Rows, step: Step, id: Id)
    requires Usable(c) && Issued(step) && id in rows && Good(c, rows[id])
    ensures id in Apply(c, rows, step) && Rank(c, Apply(c, rows, step)[id]) >= 0
    ensures var next := Apply(c, rows, step)[id];
            if Moves(rows, step, id) then Rank(c, next) < Rank(c, rows[id])
            else next.status == rows[id].status && next.attempt == rows[id].attempt
  {
    ApplyRow(c, rows, step, id);
  }

  // ----- whole runs -----

  datatype Run = Run(trace: seq<Rows>, steps: seq<Step>)

  /** A run from any table in order: an empty one, or one that the migration left behind. */
  ghost predicate Valid(c: Config, r: Run) {
    && Usable(c) && |r.trace| == |r.steps| + 1 && AllGood(c, r.trace[0])
    && (forall k :: 0 <= k < |r.steps| ==> Issued(r.steps[k]))
    && (forall k :: 0 <= k < |r.steps| ==> r.trace[k + 1] == Apply(c, r.trace[k], r.steps[k]))
  }

  /** In every reachable state a row has a lease exactly while it runs, waits only with
      attempts left, and never exceeds the limit. */
  lemma {:induction false} RunKeepsGood(c: Config, r: Run, k: nat)
    requires Valid(c, r) && k < |r.trace|
    ensures AllGood(c, r.trace[k])
    decreases k
  {
    if k > 0 {
      RunKeepsGood(c, r, k - 1);
      StepKeepsGood(c, r.trace[k - 1], r.steps[k - 1]);
    }
  }

  /** One row over any stretch of a run: attempts grow, terminal rows are frozen, and an
      attempt that is gone stays gone. */
  lemma {:induction false} RunEvolves(c: Config, r: Run, j: nat, k: nat, id: Id)
    requires Valid(c, r) && j <= k < |r.trace| && id in r.trace[j]
    ensures id in r.trace[k] && Evolves(c, r.trace[j][id], r.trace[k][id])
    decreases k
  {
    hide Apply, Change, Fires;
    if j < k {
      RunEvolves(c, r, j, k - 1, id);
      RunKeepsGood(c, r, k - 1);
      StepEvolves(c, r.trace[k - 1], r.steps[k - 1], id);
    }
  }

  /** Step `k` recovers attempt `a` of a submission or finalises it. */
  ghost predicate Ends(rows: Rows, step: Step, id: Id, a: nat) {
    id in rows && Fires(rows, step, id) && rows[id].attempt == a
    && (step.Recover? || (step.Update? && Terminal(step.status)))
  }

  lemma EndedIsGone(c: Config, rows: Rows, step: Step, id: Id, a: nat)
    requires Usable(c) && Issued(step) && AllGood(c, rows) && Ends(rows, step, id, a)
    ensures id in Apply(c, rows, step) && Gone(Apply(c, rows, step)[id], a)
  {
    ApplyRow(c, rows, step, id);
  }

  lemma GoneIsFenced(rows: Rows, step: Step, id: Id, a: nat)
    requires id in rows && Gone(rows[id], a)
    requires (step.Renew? || step.Update?) && step.id == id && step.attempt == a
    ensures !Fires(rows, step, id)
  {
  }

  /** Fencing: once an attempt was recovered or finalised, no later renewal or update that
      carries it succeeds, even while the row waits with the same attempt number. */
  lemma Fenced(c: Config, r: Run, j: nat, k: nat, id: Id, a: nat)
    requires Valid(c, r) && j < k < |r.steps| && Ends(r.trace[j], r.steps[j], id, a)
    requires (r.steps[k].Renew? || r.steps[k].Update?) && r.steps[k].id == id && r.steps[k].attempt == a
    ensures id in r.trace[k] && !Fires(r.trace[k], r.steps[k], id)
  {
    RunKeepsGood(c, r, j);
    EndedIsGone(c, r.trace[j], r.steps[j], id, a);
    RunEvolves(c, r, j + 1, k, id);
    GoneIsFenced(r.trace[k], r.steps[k], id, a);
  }

  ghost predicate Claims(rows: Rows, step: Step, id: Id) { id in rows && step.Claim? && Fires(rows, step, id) }

  /** Two claims of a submission hand out different attempts, the later one the larger. */
  lemma ClaimedOnce(c: Config, r: Run, j: nat, k: nat, id: Id)
    requires Valid(c, r) && j < k < |r.steps|
    requires Claims(r.trace[j], r.steps[j], id) && Claims(r.trace[k], r.steps[k], id)
    ensures r.trace[j + 1][id].attempt < r.trace[k + 1][id].attempt
  {
    ApplyRow(c, r.trace[j], r.steps[j], id);
    RunEvolves(c, r, j + 1, k, id);
    ApplyRow(c, r.trace[k], r.steps[k], id);
  }

  /** At most one terminal result: after the step that made a row terminal, none touches it. */
  lemma OneTerminalResult(c: Config, r: Run, j: nat, k: nat, id: Id)
    requires Valid(c, r) && j <= k < |r.steps| && id in r.trace[j] && Terminal(r.trace[j][id].status)
    ensures id in r.trace[k] && r.trace[k][id] == r.trace[j][id] && !Fires(r.trace[k], r.steps[k], id)
  {
    RunKeepsGood(c, r, j);
    RunEvolves(c, r, j, k, id);
  }

  // ----- counting -----

  ghost function ClaimCount(r: Run, id: Id, k: nat): nat
    requires k < |r.trace| && |r.trace| == |r.steps| + 1
  {
    if k == 0 then 0 else ClaimCount(r, id, k - 1) + if Claims(r.trace[k - 1], r.steps[k - 1], id) then 1 else 0
  }

  ghost function MoveCount(r: Run, id: Id, k: nat): nat
    requires k < |r.trace| && |r.trace| == |r.steps| + 1
  {
    if k == 0 then 0
    else MoveCount(r, id, k - 1) + if id in r.trace[k - 1] && Moves(r.trace[k - 1], r.steps[k - 1], id) then 1 else 0
  }

  ghost function AttemptOf(rows: Rows, id: Id): nat { if id in rows then rows[id].attempt else 0 }

  lemma AttemptStep(c: Config, rows: Rows, step: Step, id: Id)
    ensures AttemptOf(Apply(c, rows, step), id) == AttemptOf(rows, id) + if Claims(rows, step, id) then 1 else 0
  {
    if id in rows { ApplyRow(c, rows, step, id); }
  }

  /** The attempt number counts the claims, so a submission is claimed at most as often as
      the configuration allows. */
  lemma {:induction false} BoundedClaims(c: Config, r: Run, id: Id, k: nat)
    requires Valid(c, r) && k < |r.trace|
    ensures AttemptOf(r.trace[k], id) == AttemptOf(r.trace[0], id) + ClaimCount(r, id, k)
    ensures ClaimCount(r, id, k) <= c.attempts
    decreases k
  {
    if k > 0 {
      BoundedClaims(c, r, id, k - 1);
      AttemptStep(c, r.trace[k - 1], r.steps[k - 1], id);
    }
    RunKeepsGood(c, r, k);
  }

  /** Progress: claims, recoveries and final updates of one submission together are at most
      twice the attempt limit. */
  lemma {:induction false} BoundedMoves(c: Config, r: Run, id: Id, k: nat)
    requires Valid(c, r) && k < |r.trace|
    ensures MoveCount(r, id, k) + (if id in r.trace[k] then Rank(c, r.trace[k][id]) else 2 * c.attempts) <=
            2 * c.attempts
    decreases k
  {
    RunKeepsGood(c, r, k);
    if k > 0 {
      BoundedMoves(c, r, id, k - 1);
      RunKeepsGood(c, r, k - 1);
      if id in r.trace[k - 1] {
        MoveLowersRank(c, r.trace[k - 1], r.steps[k - 1], id);
      } else {
        RunStarts(c, r, id, k - 1);
      }
    }
  }

  lemma {:induction false} RunStarts(c: Config, r: Run, id: Id, k: nat)
    requires Valid(c, r) && k < |r.trace| && id !in r.trace[k]
    ensures id !in r.trace[0] && MoveCount(r, id, k) == 0
    decreases k
  {
    if k > 0 {
      if id in r.trace[k - 1] { RunEvolves(c, r, k - 1, k, id); }
      RunStarts(c, r, id, k - 1);
    }
  }

  // ----- who wrote the result -----

  /** From step `i` on, attempt `a` has held the row without a break. */
  ghost predicate Holds(r: Run, i: nat, k: nat, id: Id, a: nat)
    requires k < |r.trace|
  {
    forall m :: i < m <= k ==> id in r.trace[m] && r.trace[m][id].status.Running? && r.trace[m][id].attempt == a
  }

  /** A running row was claimed at one step and held by that attempt ever since. */
  lemma {:induction false} RunningWasClaimed(c: Config, r: Run, k: nat, id: Id) returns (i: nat)
    requires Valid(c, r) && k < |r.trace| && id !in r.trace[0] && id in r.trace[k] && r.trace[k][id].status.Running?
    ensures i < k && Claims(r.trace[i], r.steps[i], id) && Holds(r, i, k, id, r.trace[k][id].attempt)
    ensures r.trace[i][id].attempt + 1 == r.trace[k][id].attempt
    decreases k
  {
    var before, step := r.trace[k - 1], r.steps[k - 1];
    if id in before {
      RunKeepsGood(c, r, k - 1);
      MoveLowersRank(c, before, step, id);
      ApplyRow(c, before, step, id);
      if Claims(before, step, id) { return k - 1; }
      i := RunningWasClaimed(c, r, k - 1, id);
    }
  }

  /** The result of a finished row was written by one update, carrying the attempt that had
      claimed the row and held it without a break until then. */
  lemma {:induction false} ResultProvenance(c: Config, r: Run, k: nat, id: Id) returns (i: nat, j: nat)
    requires Valid(c, r) && k < |r.trace| && id !in r.trace[0] && id in r.trace[k] && r.trace[k][id].status.Finished?
    ensures i < j < k && Claims(r.trace[i], r.steps[i], id) && Holds(r, i, j, id, r.trace[k][id].attempt)
    ensures r.trace[i][id].attempt + 1 == r.trace[k][id].attempt
    ensures r.steps[j].Update? && r.steps[j].id == id && r.steps[j].attempt == r.trace[k][id].attempt
    ensures r.steps[j].status.Finished? && r.steps[j].result == r.trace[k][id].result
    decreases k
  {
    var before, step := r.trace[k - 1], r.steps[k - 1];
    assert id in before;
    ApplyRow(c, before, step, id);
    if before[id].status.Finished? {
      i, j := ResultProvenance(c, r, k - 1, id);
      RunKeepsGood(c, r, k - 1);
    } else {
      j := k - 1;
      i := RunningWasClaimed(c, r, j, id);
    }
  }

  // ----- a live worker keeps its lease -----

  /** Step `b` is the claim at `j`, or a later renewal by the same attempt. */
  ghost predicate Beat(r: Run, j: nat, b: nat, id: Id, a: nat) {
    b < |r.steps| && (b == j || (b > j && r.steps[b].Renew? && r.steps[b].id == id && r.steps[b].attempt == a))
  }

  /** When step `m` runs, some beat before it is less than a lease old. */
  ghost predicate Covered(c: Config, r: Run, j: nat, m: nat, id: Id, a: nat)
    requires m < |r.steps|
  {
    exists b :: j <= b < m && Beat(r, j, b, id, a) && r.steps[m].now < r.steps[b].now + c.lease
  }

  ghost predicate Fed(c: Config, r: Run, j: nat, k: nat, id: Id, a: nat)
    requires k < |r.steps|
  {
    forall m :: j < m <= k ==> Covered(c, r, j, m, id, a)
  }

  ghost predicate NotFinal(r: Run, j: nat, k: nat, id: Id, a: nat)
    requires k <= |r.steps|
  {
    forall m :: j < m < k ==>
      !(r.steps[m].Update? && r.steps[m].id == id && r.steps[m].attempt == a && Terminal(r.steps[m].status))
  }

  /** The row while its worker is alive: running, and leased past every beat so far. */
  ghost predicate Alive(c: Config, r: Run, j: nat, k: nat, id: Id, a: nat)
    requires k < |r.trace| && |r.trace| == |r.steps| + 1
  {
    && id in r.trace[k] && r.trace[k][id].status.Running? && r.trace[k][id].attempt == a
    && r.trace[k][id].lease.Some?
    && forall b :: j <= b < k && Beat(r, j, b, id, a) ==> r.trace[k][id].lease.value >= r.steps[b].now + c.lease
  }

  lemma AliveIsLeased(c: Config, r: Run, j: nat, k: nat, id: Id, a: nat)
    requires Valid(c, r) && j < k < |r.steps| && Alive(c, r, j, k, id, a) && Covered(c, r, j, k, id, a)
    ensures Leased(r.trace[k][id], r.steps[k].now)
  {
    var b :| j <= b < k && Beat(r, j, b, id, a) && r.steps[k].now < r.steps[b].now + c.lease;
  }

  lemma AliveStep(c: Config, r: Run, j: nat, k: nat, id: Id, a: nat)
    requires Valid(c, r) && j < k < |r.steps| && Alive(c, r, j, k, id, a) && Leased(r.trace[k][id], r.steps[k].now)
    requires NotFinal(r, j, k + 1, id, a) && AllGood(c, r.trace[k])
    ensures Alive(c, r, j, k + 1, id, a) && r.trace[k + 1][id].lease.value >= r.trace[k][id].lease.value
  {
    ApplyRow(c, r.trace[k], r.steps[k], id);
  }

  lemma ClaimIsAlive(c: Config, r: Run, j: nat, id: Id)
    requires Valid(c, r) && j < |r.steps| && Claims(r.trace[j], r.steps[j], id)
    ensures Alive(c, r, j, j + 1, id, r.trace[j][id].attempt + 1)
  {
    ApplyRow(c, r.trace[j], r.steps[j], id);
  }

  lemma {:induction false} StaysAlive(c: Config, r: Run, j: nat, k: nat, id: Id, a: nat)
    requires Valid(c, r) && j < k < |r.steps| && Claims(r.trace[j], r.steps[j], id) && a == r.trace[j][id].attempt + 1
    requires Fed(c, r, j, k, id, a) && NotFinal(r, j, k, id, a)
    ensures Alive(c, r, j, k, id, a) && Leased(r.trace[k][id], r.steps[k].now)
    decreases k
  {
    hide Alive, Leased, Claims, Covered, AllGood, Apply;
    if k == j + 1 {
      ClaimIsAlive(c, r, j, id);
    } else {
      StaysAlive(c, r, j, k - 1, id, a);
      RunKeepsGood(c, r, k - 1);
      AliveStep(c, r, j, k - 1, id, a);
    }
    AliveIsLeased(c, r, j, k, id, a);
  }

  lemma LeasedRowAnswers(rows: Rows, step: Step, id: Id, a: nat)
    requires id in rows && rows[id].status.Running? && rows[id].attempt == a && Leased(rows[id], step.now)
    ensures step.Recover? ==> !Fires(rows, step, id)
    ensures (step.Renew? || step.Update?) && step.id == id && step.attempt == a ==> Fires(rows, step, id)
  {
  }

  /** A live worker keeps its lease: from the claim on, as long as beats come in time and the
      worker has not finished, no recovery selects the row, every renewal and update by that
      attempt is accepted, and the lease never decreases. */
  lemma LiveWorkerKeepsLease(c: Config, r: Run, j: nat, k: nat, id: Id, a: nat)
    requires Valid(c, r) && j < k < |r.steps| && Claims(r.trace[j], r.steps[j], id) && a == r.trace[j][id].attempt + 1
    requires Fed(c, r, j, k, id, a) && NotFinal(r, j, k + 1, id, a)
    ensures id in r.trace[k] && r.trace[k][id].status.Running? && r.trace[k][id].attempt == a
    ensures r.steps[k].Recover? ==> !Fires(r.trace[k], r.steps[k], id)
    ensures (r.steps[k].Renew? || r.steps[k].Update?) && r.steps[k].id == id && r.steps[k].attempt == a ==>
              Fires(r.trace[k], r.steps[k], id)
    ensures id in r.trace[k + 1] && r.trace[k + 1][id].lease.Some?
    ensures r.trace[k + 1][id].lease.value >= r.trace[k][id].lease.value
  {
    StaysAlive(c, r, j, k, id, a);
    LeasedRowAnswers(r.trace[k], r.steps[k], id, a);
    RunKeepsGood(c, r, k);
    AliveStep(c, r, j, k, id, a);
  }

  // ----- the lease runs out -----

  /** A beat that the statement accepted: the claim at `j`, or a renewal before the lease ran out. */
  ghost predicate Beats(r: Run, j: nat, b: nat, id: Id, a: nat)
    requires |r.trace| == |r.steps| + 1
  {
    Beat(r, j, b, id, a) &&
    (b > j ==> id in r.trace[b] && r.trace[b][id].lease.Some? && r.trace[b][id].lease.value > r.steps[b].now)
  }

  /** `until` is a lease after the latest accepted beat. */
  ghost predicate LatestBeat(c: Config, r: Run, j: nat, k: nat, id: Id, a: nat, until: int)
    requires |r.trace| == |r.steps| + 1
  {
    && (exists b :: j <= b < k && Beats(r, j, b, id, a) && until == r.steps[b].now + c.lease)
    && (forall b :: j <= b < k && Beats(r, j, b, id, a) ==> r.steps[b].now + c.lease <= until)
  }

  lemma LeaseStep(c: Config, r: Run, j: nat, k: nat, id: Id, a: nat)
    requires Valid(c, r) && j < k < |r.steps| && Holds(r, j, k + 1, id, a)
    requires r.trace[k][id].lease.Some?
    ensures r.trace[k + 1][id].lease ==
            if Beats(r, j, k, id, a) && r.steps[k].now + c.lease > r.trace[k][id].lease.value
            then Some(r.steps[k].now + c.lease) else r.trace[k][id].lease
  {
    ApplyRow(c, r.trace[k], r.steps[k], id);
    RunKeepsGood(c, r, k + 1);
    assert Good(c, r.trace[k + 1][id]);
  }

  /** The lease of a running row is exactly one lease after the latest accepted beat: renewals do not
      pile up. */
  lemma {:induction false} LeaseIsLatest(c: Config, r: Run, j: nat, k: nat, id: Id, a: nat)
    requires Valid(c, r) && j < k < |r.trace| && Claims(r.trace[j], r.steps[j], id) && Holds(r, j, k, id, a)
    ensures r.trace[k][id].lease.Some? && LatestBeat(c, r, j, k, id, a, r.trace[k][id].lease.value)
    decreases k
  {
    if k == j + 1 {
      ApplyRow(c, r.trace[j], r.steps[j], id);
      assert Beats(r, j, j, id, a);
    } else {
      LeaseIsLatest(c, r, j, k - 1, id, a);
      LeaseStep(c, r, j, k - 1, id, a);
      hide Valid, Beats, Claims;
      var until := r.trace[k - 1][id].lease.value;
      var b :| j <= b < k - 1 && Beats(r, j, b, id, a) && until == r.steps[b].now + c.lease;
    }
  }

  /** Every accepted beat before step `k` is a lease old. */
  ghost predicate Silent(c: Config, r: Run, j: nat, k: nat, id: Id, a: nat)
    requires |r.trace| == |r.steps| + 1 && k < |r.steps|
  {
    forall b :: j <= b < k && Beats(r, j, b, id, a) ==> r.steps[b].now + c.lease <= r.steps[k].now
  }

  /** What the latest beat decides, exactly: a silent worker's row is recovered and its renewals and
      updates are refused; before that the row is left to it and its statements are accepted. */
  lemma DeadlineDecides(c: Config, r: Run, j: nat, k: nat, id: Id, a: nat)
    requires Valid(c, r) && j < k < |r.steps| && Claims(r.trace[j], r.steps[j], id) && Holds(r, j, k, id, a)
    ensures r.steps[k].Recover? && id in r.steps[k].ids ==>
              (Silent(c, r, j, k, id, a) <==> !r.trace[k + 1][id].status.Running?)
    ensures r.steps[k].Recover? && id in r.steps[k].ids && Silent(c, r, j, k, id, a) ==>
              r.trace[k + 1][id].status == (if a < c.attempts then Queued else Failed)
              && (a >= c.attempts ==> r.trace[k + 1][id].result == Some(TimedOut)) && r.trace[k + 1][id].lease.None?
    ensures (r.steps[k].Renew? || r.steps[k].Update?) && r.steps[k].id == id && r.steps[k].attempt == a ==>
              (Silent(c, r, j, k, id, a) <==> !Fires(r.trace[k], r.steps[k], id))
  {
    LeaseIsLatest(c, r, j, k, id, a);
    SilentIsExpired(c, r, j, k, id, a);
    ApplyRow(c, r.trace[k], r.steps[k], id);
    hide Beat, Beats, Claims, Silent;
  }

  lemma SilentIsExpired(c: Config, r: Run, j: nat, k: nat, id: Id, a: nat)
    requires |r.trace| == |r.steps| + 1 && k < |r.steps| && id in r.trace[k] && r.trace[k][id].lease.Some?
    requires LatestBeat(c, r, j, k, id, a, r.trace[k][id].lease.value)
    ensures Silent(c, r, j, k, id, a) <==> r.trace[k][id].lease.value <= r.steps[k].now
  {
  }

  ghost predicate Monotone(r: Run) { forall i, j :: 0 <= i <= j < |r.steps| ==> r.steps[i].now <= r.steps[j].now }

  /** Beats at increasing positions, each less than a lease after the one before. */
  ghost predicate Regular(c: Config, r: Run, beats: seq<nat>, id: Id, a: nat) {
    && |beats| > 0
    && (forall i :: 0 <= i < |beats| ==> Beat(r, beats[0], beats[i], id, a))
    && (forall i :: 0 <= i < |beats| - 1 ==>
        beats[i] < beats[i + 1] && r.steps[beats[i + 1]].now < r.steps[beats[i]].now + c.lease)
  }

  /** The beat that covers step `m`: the last one before it. */
  lemma {:induction false} LastBeat(c: Config, r: Run, beats: seq<nat>, id: Id, a: nat, m: nat, n: nat) returns (i: nat)
    requires Regular(c, r, beats, id, a) && beats[0] < m && n < |beats|
    ensures i <= n && beats[i] < m && (i < n ==> m <= beats[i + 1])
    decreases n
  {
    if beats[n] < m { return n; }
    i := LastBeat(c, r, beats, id, a, m, n - 1);
  }

  lemma {:induction false} BeatsIncrease(c: Config, r: Run, beats: seq<nat>, id: Id, a: nat, i: nat)
    requires Regular(c, r, beats, id, a) && i < |beats|
    ensures beats[0] <= beats[i]
    decreases i
  {
    if i > 0 { BeatsIncrease(c, r, beats, id, a, i - 1); }
  }

  /** With a monotone clock it is enough to look at the renewals themselves: each less than
      a lease after the one before, and the last one less than a lease ago. */
  lemma RegularBeatsFeed(c: Config, r: Run, beats: seq<nat>, id: Id, a: nat, k: nat)
    requires Monotone(r) && Regular(c, r, beats, id, a) && beats[0] < k < |r.steps|
    requires r.steps[k].now < r.steps[beats[|beats| - 1]].now + c.lease
    ensures Fed(c, r, beats[0], k, id, a)
  {
    forall m | beats[0] < m <= k ensures Covered(c, r, beats[0], m, id, a) {
      var i := LastBeat(c, r, beats, id, a, m, |beats| - 1);
      BeatsIncrease(c, r, beats, id, a, i);
      assert r.steps[m].now <= r.steps[if i < |beats| - 1 then beats[i + 1] else k].now;
    }
  }

  // ----- the migration -----

  /** A row written before leases existed: no lease column, attempt zero. */
  ghost predicate Legacy(row: Row) {
    row.lease.None? && row.attempt == 0 && (!Terminal(row.status) ==> row.result.None?)
  }

  /** The migration turns every table of legacy and current rows into one that a run may start
      from, touches nothing but running rows, and changes nothing the second time. */
  lemma MigrationEstablishesGood(c: Config, rows: Rows)
    requires Usable(c) && forall id :: id in rows ==> Legacy(rows[id]) || Good(c, rows[id])
    ensures AllGood(c, map id | id in rows :: Migrated(rows[id]))
    ensures forall id :: id in rows && !rows[id].status.Running? ==> Migrated(rows[id]) == rows[id]
    ensures forall id :: id in rows && Good(c, rows[id]) ==>
            Migrated(rows[id]).(started := rows[id].started) == rows[id]
    ensures forall id :: id in rows ==> Migrated(Migrated(rows[id])) == Migrated(rows[id])
  {
    forall id | id in rows
      ensures Good(c, Migrated(rows[id])) && Migrated(Migrated(rows[id])) == Migrated(rows[id])
    {
    }
  }
}
