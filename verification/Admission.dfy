/** Queue admission across replicas: the advisory lock, the count and the insert are
    separate statements, and workers and recovery passes run between them. */
module Admission {
  import opened Options
  import opened Sets
  import opened Submissions
  import opened Leases

  type Session = nat

  /** Where the admission transaction that holds the lock stands. */
  datatype Phase = Free | Locked(owner: Session) | Counted(owner: Session, count: nat)

  /** `requeues` and `seen` are history variables: the requeues so far, and those that had
      happened when the last count was taken. */
  datatype State = State(rows: Rows, phase: Phase, requeues: nat, seen: nat)

  datatype Action =
    | Lock(s: Session)
    | Count(s: Session)
    | Commit(s: Session, id: Id, now: int)
    | Rollback(s: Session)
    | Other(step: Step)

  predicate Owns(p: Phase, s: Session) { !p.Free? && p.owner == s }

  function Requeues(c: Config, rows: Rows, step: Step): nat {
    if step.Recover? then |QueuedIds(Apply(c, rows, step)) - QueuedIds(rows)| else 0
  }

  predicate Enabled(c: Config, x: State, a: Action) {
    match a
    case Lock(_) => x.phase.Free?
    case Count(s) => x.phase == Locked(s)
    case Commit(s, id, _) => x.phase.Counted? && Owns(x.phase, s) && x.phase.count < c.queued && id !in x.rows
    case Rollback(s) => Owns(x.phase, s)
    case Other(step) => !step.Insert? && Issued(step)
  }

  function Next(c: Config, x: State, a: Action): State
    requires Enabled(c, x, a)
  {
    match a
    case Lock(s) => x.(phase := Locked(s))
    case Count(s) => x.(phase := Counted(s, |QueuedIds(x.rows)|), seen := x.requeues)
    case Commit(_, id, now) => x.(rows := Apply(c, x.rows, Insert(id, now)), phase := Free)
    case Rollback(_) => x.(phase := Free)
    case Other(step) => x.(rows := Apply(c, x.rows, step), requeues := x.requeues + Requeues(c, x.rows, step))
  }

  ghost predicate Bounded(c: Config, x: State) {
    && |QueuedIds(x.rows)| <= c.queued + x.requeues
    && (x.phase.Counted? ==> x.seen <= x.requeues && |QueuedIds(x.rows)| <= x.phase.count + x.requeues - x.seen)
  }

  /** Apart from inserts and requeues, no statement puts a submission into the queue. */
  lemma QueueGrowth(c: Config, rows: Rows, step: Step)
    requires Issued(step) && !step.Insert?
    ensures |QueuedIds(Apply(c, rows, step))| <= |QueuedIds(rows)| + Requeues(c, rows, step)
  {
    var before, after := QueuedIds(rows), QueuedIds(Apply(c, rows, step));
    if step.Recover? {
      SubsetSize(after, before + (after - before));
    } else {
      forall id | id in after ensures id in before { ApplyRow(c, rows, step, id); }
      SubsetSize(after, before);
    }
  }

  lemma InsertGrowth(c: Config, rows: Rows, id: Id, now: int)
    requires id !in rows
    ensures QueuedIds(Apply(c, rows, Insert(id, now))) == QueuedIds(rows) + {id}
    ensures |QueuedIds(Apply(c, rows, Insert(id, now)))| == |QueuedIds(rows)| + 1
  {
    assert QueuedIds(Apply(c, rows, Insert(id, now))) == QueuedIds(rows) + {id};
  }

  lemma ActionKeepsBound(c: Config, x: State, a: Action)
    requires Bounded(c, x) && Enabled(c, x, a)
    ensures Bounded(c, Next(c, x, a))
  {
    match a
    case Commit(_, id, now) => InsertGrowth(c, x.rows, id, now);
    case Other(step) => QueueGrowth(c, x.rows, step);
    case _ =>
  }

  ghost predicate ValidRun(c: Config, states: seq<State>, actions: seq<Action>) {
    && |states| == |actions| + 1 && states[0] == State(map[], Free, 0, 0)
    && forall k :: 0 <= k < |actions| ==>
        Enabled(c, states[k], actions[k]) && states[k + 1] == Next(c, states[k], actions[k])
  }

  /** In every interleaving the queue exceeds its limit by at most the number of requeues. */
  lemma {:induction false} AdmissionBound(c: Config, states: seq<State>, actions: seq<Action>, k: nat)
    requires ValidRun(c, states, actions) && k < |states|
    ensures Bounded(c, states[k]) && |QueuedIds(states[k].rows)| <= c.queued + states[k].requeues
    ensures states[k].requeues == 0 ==> |QueuedIds(states[k].rows)| <= c.queued
    decreases k
  {
    if k > 0 {
      AdmissionBound(c, states, actions, k - 1);
      ActionKeepsBound(c, states[k - 1], actions[k - 1]);
    }
  }

  ghost predicate Reached(c: Config, x: State) {
    exists states, actions :: ValidRun(c, states, actions) && states[|states| - 1] == x
  }

  lemma ReachedStart(c: Config)
    ensures Reached(c, State(map[], Free, 0, 0))
  {
    var states := [State(map[], Free, 0, 0)];
    assert ValidRun(c, states, []) && states[|states| - 1] == State(map[], Free, 0, 0);
  }

  lemma ReachedNext(c: Config, x: State, a: Action)
    requires Reached(c, x) && Enabled(c, x, a)
    ensures Reached(c, Next(c, x, a))
  {
    hide Next, Enabled;
    var states, actions :| ValidRun(c, states, actions) && states[|states| - 1] == x;
    var y := Next(c, x, a);
    assert ValidRun(c, states + [y], actions + [a]) && (states + [y])[|states|] == y;
  }

  /** Lock, count and commit in a row: whoever finds room is admitted. */
  lemma ReachedAdmit(c: Config, x: State, id: Id, now: int)
    requires Reached(c, x) && x.phase.Free? && x.requeues == 0 && x.seen == 0
    requires |QueuedIds(x.rows)| < c.queued && id !in x.rows
    ensures Reached(c, x.(rows := x.rows[id := Fresh(now)]))
  {
    hide Reached;
    var count := |QueuedIds(x.rows)|;
    ReachedNext(c, x, Lock(0));
    ReachedNext(c, x.(phase := Locked(0)), Count(0));
    ReachedNext(c, x.(phase := Counted(0, count)), Commit(0, id, now));
    assert Apply(c, x.rows, Insert(id, now)) == x.rows[id := Fresh(now)];
  }

  function FirstRunning(c: Config): Row { Row(Running, None, 1, Some(c.lease), Some(0), None, 0, 0) }

  function Between(lo: nat, hi: nat): (ids: set<Id>)
    requires lo <= hi
    ensures |ids| == hi - lo && forall i :: i in ids <==> lo <= i < hi
    decreases hi
  {
    if lo == hi then {} else Between(lo, hi - 1) + {hi - 1}
  }

  function Seat(c: Config, r: nat, i: Id): Row { if i < r then FirstRunning(c) else Fresh(0) }

  /** Submissions 0 to `n`: the first `r` run in their first attempt, the others wait. */
  function Mixed(c: Config, r: nat, n: nat): (rows: Rows)
    requires r <= n
    ensures forall i :: i in rows <==> 0 <= i < n
    ensures forall i :: i in rows ==> rows[i] == Seat(c, r, i)
  {
    map i | i in Between(0, n) :: Seat(c, r, i)
  }

  lemma MixedQueue(c: Config, r: nat, n: nat)
    requires r <= n
    ensures QueuedIds(Mixed(c, r, n)) == Between(r, n)
  {
    hide Mixed;
  }

  lemma MixedGrows(c: Config, r: nat, n: nat)
    requires r <= n
    ensures Mixed(c, r, n + 1) == Mixed(c, r, n)[n := Fresh(0)]
  {
    hide Mixed, Fresh, FirstRunning;
    var a, b := Mixed(c, r, n + 1), Mixed(c, r, n)[n := Fresh(0)];
    assert a.Keys == b.Keys;
  }

  lemma {:induction false} ReachedFill(c: Config, r: nat, n: nat)
    requires Reached(c, State(Mixed(c, r, r), Free, 0, 0)) && r <= n <= r + c.queued
    ensures Reached(c, State(Mixed(c, r, n), Free, 0, 0))
    decreases n
  {
    hide Reached, Mixed, QueuedIds;
    if n > r {
      ReachedFill(c, r, n - 1);
      MixedQueue(c, r, n - 1);
      ReachedAdmit(c, State(Mixed(c, r, n - 1), Free, 0, 0), n - 1, 0);
      MixedGrows(c, r, n - 1);
    }
  }

  lemma ClaimLast(c: Config, r: nat)
    ensures Claimable(Mixed(c, r, r + 1), {}, r)
    ensures Apply(c, Mixed(c, r, r + 1), Claim(r, {}, 0)) == Mixed(c, r + 1, r + 1)
  {
    hide Mixed;
    var rows, next := Mixed(c, r, r + 1), Apply(c, Mixed(c, r, r + 1), Claim(r, {}, 0));
    forall i | i in rows ensures next[i] == Mixed(c, r + 1, r + 1)[i] { ApplyRow(c, rows, Claim(r, {}, 0), i); }
    assert next.Keys == Mixed(c, r + 1, r + 1).Keys;
  }

  lemma {:induction false} ReachedRunning(c: Config, r: nat)
    requires Usable(c)
    ensures Reached(c, State(Mixed(c, r, r), Free, 0, 0))
    decreases r
  {
    hide Reached, Mixed, Apply, Claimable;
    if r == 0 {
      ReachedStart(c);
      assert Mixed(c, 0, 0) == map[];
    } else {
      ReachedRunning(c, r - 1);
      ReachedFill(c, r - 1, r);
      ClaimLast(c, r - 1);
      ReachedNext(c, State(Mixed(c, r - 1, r), Free, 0, 0), Other(Claim(r - 1, {}, 0)));
    }
  }

  lemma AllRequeued(c: Config, r: nat, n: nat)
    requires c.attempts > 1 && r <= n
    ensures QueuedIds(Apply(c, Mixed(c, r, n), Recover(Between(0, r), c.lease))) == Between(0, n)
    ensures Requeues(c, Mixed(c, r, n), Recover(Between(0, r), c.lease)) == r
  {
    hide Mixed;
    var step := Recover(Between(0, r), c.lease);
    var rows, next := Mixed(c, r, n), Apply(c, Mixed(c, r, n), step);
    forall i | i in rows ensures i in next && next[i].status.Queued? { ApplyRow(c, rows, step, i); }
    assert next.Keys == rows.Keys;
    MixedQueue(c, r, n);
    assert QueuedIds(next) == Between(0, n);
    assert Between(0, n) - Between(r, n) == Between(0, r);
  }

  /** The bound is tight for every number of requeues: `r` submissions are admitted and claimed, the
      queue fills up, and one recovery requeues them all. */
  lemma BoundIsReached(c: Config, r: nat) returns (x: State)
    requires Usable(c) && c.attempts > 1
    ensures Reached(c, x) && x.requeues == r && |QueuedIds(x.rows)| == c.queued + r
  {
    hide Reached, Mixed, QueuedIds, Apply;
    ReachedRunning(c, r);
    ReachedFill(c, r, r + c.queued);
    AllRequeued(c, r, r + c.queued);
    var full := State(Mixed(c, r, r + c.queued), Free, 0, 0);
    ReachedNext(c, full, Other(Recover(Between(0, r), c.lease)));
    x := Next(c, full, Other(Recover(Between(0, r), c.lease)));
  }

  /** With a single attempt a recovery only fails rows. */
  lemma SingleAttempt(c: Config, rows: Rows, step: Step)
    requires c.attempts == 1 && AllGood(c, rows) && Issued(step) && !step.Insert?
    ensures Requeues(c, rows, step) == 0
  {
    if step.Recover? {
      forall id | id in QueuedIds(Apply(c, rows, step)) ensures id in QueuedIds(rows) { ApplyRow(c, rows, step, id); }
      assert QueuedIds(Apply(c, rows, step)) - QueuedIds(rows) == {};
    }
  }

  lemma RunStart(c: Config, states: seq<State>, actions: seq<Action>)
    requires ValidRun(c, states, actions)
    ensures states != [] && AllGood(c, states[0].rows) && states[0].requeues == 0
  {
  }

  lemma RunStep(c: Config, states: seq<State>, actions: seq<Action>, k: nat)
    requires ValidRun(c, states, actions) && 0 < k < |states|
    ensures k <= |actions| && Enabled(c, states[k - 1], actions[k - 1])
    ensures states[k] == Next(c, states[k - 1], actions[k - 1])
  {
    hide Enabled, Next;
  }

  lemma {:induction false} NoRequeues(c: Config, states: seq<State>, actions: seq<Action>, k: nat)
    requires ValidRun(c, states, actions) && k < |states| && Usable(c)
    ensures AllGood(c, states[k].rows) && (c.attempts == 1 ==> states[k].requeues == 0)
    decreases k
  {
    hide ValidRun, AllGood, Apply, Requeues;
    if k == 0 {
      RunStart(c, states, actions);
    } else {
      NoRequeues(c, states, actions, k - 1);
      RunStep(c, states, actions, k);
      var x, a := states[k - 1], actions[k - 1];
      match a
      case Commit(_, id, now) => StepKeepsGood(c, x.rows, Insert(id, now));
      case Other(step) =>
        StepKeepsGood(c, x.rows, step);
        if c.attempts == 1 { SingleAttempt(c, x.rows, step); }
      case _ =>
    }
  }

  /** The queue limit itself holds in every reachable state exactly when there is one attempt. */
  lemma LimitHoldsExactly(c: Config)
    requires Usable(c)
    ensures (forall x :: Reached(c, x) ==> |QueuedIds(x.rows)| <= c.queued) <==> c.attempts == 1
  {
    if c.attempts == 1 {
      forall x | Reached(c, x) ensures |QueuedIds(x.rows)| <= c.queued {
        var states, actions :| ValidRun(c, states, actions) && states[|states| - 1] == x;
        NoRequeues(c, states, actions, |states| - 1);
        AdmissionBound(c, states, actions, |states| - 1);
      }
    } else {
      var x := BoundIsReached(c, 1);
    }
  }

  // ----- the store -----

  /** The store's admission transaction, statement by statement. */
  class SubmissionStore {
    const table: SubmissionTable
    var phase: Phase
    ghost var requeues: nat
    ghost var seen: nat

    constructor (table: SubmissionTable)
      ensures this.table == table && phase == Free && requeues == 0 && seen == 0
    {
      this.table, phase, requeues, seen := table, Free, 0, 0;
    }

    ghost function Now(): State
      reads this, table
    {
      State(table.rows, phase, requeues, seen)
    }

    method AcquireLock(s: Session)
      requires phase.Free?
      modifies this
      ensures Now() == Next(table.config, old(Now()), Lock(s))
    {
      phase := Locked(s);
    }

    /** The count, and whether the queue has room. */
    method CountQueued(s: Session) returns (room: bool)
      requires phase == Locked(s)
      modifies this
      ensures Now() == Next(table.config, old(Now()), Count(s))
      ensures room == (|QueuedIds(table.rows)| < table.config.queued)
    {
      var count := table.CountQueued();
      phase, seen := Counted(s, count), requeues;
      room := count < table.config.queued;
    }

    method InsertAndCommit(s: Session, id: Id, now: int) returns (ok: bool)
      requires phase.Counted? && Owns(phase, s) && phase.count < table.config.queued
      modifies this, table
      ensures ok == (id !in old(table.rows))
      ensures Now() == Next(table.config, old(Now()), if ok then Commit(s, id, now) else Rollback(s))
    {
      ok := table.Insert(id, now);
      phase := Free;
    }

    method Abandon(s: Session)
      requires Owns(phase, s)
      modifies this
      ensures Now() == Next(table.config, old(Now()), Rollback(s))
    {
      phase := Free;
    }
  }
}
