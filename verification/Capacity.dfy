/** The compile workers, and the memory that sandboxes and compilations reserve together. */
module Capacity {
  import opened Sets
  import Pool

  type Request = nat

  type Worker = nat

  /** `jobs` is the channel, `working` what each busy worker compiles, `answered` how many
      results each request's channel has received. */
  datatype State = State(jobs: seq<Request>, working: map<Worker, Request>, answered: map<Request, nat>, closed: bool)

  datatype Action = Submit(r: Request) | TakeJob(w: Worker) | Answer(w: Worker) | Close

  predicate Enabled(slots: nat, x: State, a: Action) {
    match a
    case Submit(r) => |x.jobs| < slots && r !in x.answered
    case TakeJob(w) => w < slots && w !in x.working && x.jobs != []
    case Answer(w) => w in x.working && x.working[w] in x.answered
    case Close => !x.closed
  }

  function Next(slots: nat, x: State, a: Action): State
    requires Enabled(slots, x, a)
  {
    match a
    case Submit(r) => x.(jobs := x.jobs + [r], answered := x.answered[r := 0])
    case TakeJob(w) => x.(jobs := x.jobs[1..], working := x.working[w := x.jobs[0]])
    case Answer(w) => x.(working := x.working - {w},
                         answered := x.answered[x.working[w] := x.answered[x.working[w]] + 1])
    case Close => x.(closed := true)
  }

  /** A request waits in one place only, and until it leaves there it has no result. */
  ghost predicate Orderly(slots: nat, x: State) {
    && (forall w :: w in x.working ==> w < slots && x.working[w] in x.answered && x.answered[x.working[w]] == 0)
    && (forall i :: 0 <= i < |x.jobs| ==> x.jobs[i] in x.answered && x.answered[x.jobs[i]] == 0)
    && (forall i, j :: 0 <= i < j < |x.jobs| ==> x.jobs[i] != x.jobs[j])
    && (forall w, i :: w in x.working && 0 <= i < |x.jobs| ==> x.working[w] != x.jobs[i])
    && (forall v, w :: v in x.working && w in x.working && v != w ==> x.working[v] != x.working[w])
    && (forall r :: r in x.answered ==> x.answered[r] <= 1)
    && |x.jobs| <= slots
  }

  lemma StepOrderly(slots: nat, x: State, a: Action)
    requires Orderly(slots, x) && Enabled(slots, x, a)
    ensures Orderly(slots, Next(slots, x, a))
  {
  }

  ghost predicate Run(slots: nat, states: seq<State>, actions: seq<Action>) {
    && |states| == |actions| + 1 && states[0] == State([], map[], map[], false)
    && forall k :: 0 <= k < |actions| ==>
        Enabled(slots, states[k], actions[k]) && states[k + 1] == Next(slots, states[k], actions[k])
  }

  lemma {:induction false} RunOrderly(slots: nat, states: seq<State>, actions: seq<Action>, k: nat)
    requires Run(slots, states, actions) && k < |states|
    ensures Orderly(slots, states[k])
    decreases k
  {
    hide Enabled, Next;
    if k > 0 {
      RunOrderly(slots, states, actions, k - 1);
      StepOrderly(slots, states[k - 1], actions[k - 1]);
    }
  }

  /** At most as many compilations run as there are slots, and a request never gets a second
      result, so the worker's send into the one-place result channel never blocks. */
  lemma CompileBound(slots: nat, states: seq<State>, actions: seq<Action>, k: nat)
    requires Run(slots, states, actions) && k < |states|
    ensures |states[k].working.Keys| <= slots
    ensures forall w :: w in states[k].working ==>
              states[k].working[w] in states[k].answered && states[k].answered[states[k].working[w]] == 0
    ensures forall r :: r in states[k].answered ==> states[k].answered[r] <= 1
  {
    RunOrderly(slots, states, actions, k);
    SubsetSize(states[k].working.Keys, NatsBelow(slots));
  }

  /** A request without a result waits or is being compiled. */
  ghost predicate Unanswered(x: State) {
    forall r :: r in x.answered && x.answered[r] == 0 ==> r in x.jobs || exists w :: w in x.working && x.working[w] == r
  }

  lemma StepUnanswered(slots: nat, x: State, a: Action)
    requires Unanswered(x) && Orderly(slots, x) && Enabled(slots, x, a)
    ensures Unanswered(Next(slots, x, a))
  {
    var y := Next(slots, x, a);
    forall r | r in y.answered && y.answered[r] == 0 && r !in y.jobs
      ensures exists w :: w in y.working && y.working[w] == r
    {
      if a.Submit? { assert y.jobs[|x.jobs|] == a.r && (r in x.jobs ==> r in y.jobs); }
      if w :| w in x.working && x.working[w] == r { assert w in y.working; }
      else { assert a.TakeJob? && y.working[a.w] == r by { assert x.jobs == [x.jobs[0]] + x.jobs[1..]; } }
    }
  }

  /** Every request that has left the queue and its worker has exactly one result. */
  lemma {:induction false} AllAnswered(slots: nat, states: seq<State>, actions: seq<Action>, k: nat)
    requires Run(slots, states, actions) && k < |states|
    ensures Unanswered(states[k])
    ensures forall r :: r in states[k].answered && r !in states[k].jobs && r !in states[k].working.Values ==>
              states[k].answered[r] == 1
    decreases k
  {
    hide Enabled, Next;
    RunOrderly(slots, states, actions, k);
    if k > 0 {
      AllAnswered(slots, states, actions, k - 1);
      RunOrderly(slots, states, actions, k - 1);
      StepUnanswered(slots, states[k - 1], actions[k - 1]);
    }
  }

  /** The requests in the order of their submission. */
  function Submitted(actions: seq<Action>): seq<Request> {
    if actions == [] then []
    else
      var last := actions[|actions| - 1];
      Submitted(actions[..|actions| - 1]) + if last.Submit? then [last.r] else []
  }

  function Takes(actions: seq<Action>): nat {
    if actions == [] then 0
    else Takes(actions[..|actions| - 1]) + if actions[|actions| - 1].TakeJob? then 1 else 0
  }

  /** Requests are compiled in the order in which they were submitted. */
  lemma {:induction false} FirstComeFirstServed(slots: nat, states: seq<State>, actions: seq<Action>, k: nat)
    requires Run(slots, states, actions) && k < |states|
    ensures Takes(actions[..k]) <= |Submitted(actions[..k])|
    ensures states[k].jobs == Submitted(actions[..k])[Takes(actions[..k])..]
    ensures k < |actions| && actions[k].TakeJob? ==>
              var w, n := actions[k].w, Takes(actions[..k]);
              n < |Submitted(actions[..k])| && w in states[k + 1].working &&
              states[k + 1].working[w] == Submitted(actions[..k])[n]
    decreases k
  {
    if k > 0 {
      FirstComeFirstServed(slots, states, actions, k - 1);
      assert actions[..k][..k - 1] == actions[..k - 1];
      assert states[k] == Next(slots, states[k - 1], actions[k - 1]);
    }
  }

  // ----- memory -----

  const SANDBOX_MB := 512
  const COMPILE_MIN_MB := 512
  const JOB_MAX_MB := 512
  const BUDGET_MB := 8192

  datatype Config = Config(workers: int, sandboxes: int, compileSlots: int, attempts: int, queued: int,
                           submitTimeoutMs: int, leaseMs: int, pollMs: int, recoveryMs: int)

  method ValidateConfig(cfg: Config) returns (ok: bool)
    ensures ok <==>
              && 1 <= cfg.workers <= 64 && 1 <= cfg.sandboxes <= 64 && 1 <= cfg.compileSlots <= 16 && cfg.attempts >= 1
              && 1 <= cfg.queued <= 100000 && 0 < cfg.submitTimeoutMs <= 60000
              && cfg.leaseMs > 0 && cfg.pollMs > 0 && cfg.recoveryMs > 0
              && cfg.sandboxes * 512 + cfg.compileSlots * 512 <= 8192
    ensures ok == Accepted(cfg)
  {
    if cfg.workers < 1 || cfg.workers > 64 { return false; }
    if cfg.sandboxes < 1 || cfg.sandboxes > 64 { return false; }
    if cfg.compileSlots < 1 || cfg.compileSlots > 16 { return false; }
    if cfg.attempts < 1 { return false; }
    if cfg.queued < 1 || cfg.queued > 100000 { return false; }
    if cfg.submitTimeoutMs > 60000 { return false; }
    if cfg.leaseMs <= 0 || cfg.pollMs <= 0 || cfg.recoveryMs <= 0 || cfg.submitTimeoutMs <= 0 { return false; }
    var reserved := cfg.sandboxes * SANDBOX_MB + cfg.compileSlots * COMPILE_MIN_MB;
    if reserved > BUDGET_MB { return false; }
    return true;
  }

  predicate Accepted(cfg: Config) {
    && 1 <= cfg.workers <= 64 && 1 <= cfg.sandboxes <= 64 && 1 <= cfg.compileSlots <= 16
    && 1 <= cfg.attempts && 1 <= cfg.queued <= 100000
    && 0 < cfg.submitTimeoutMs <= 60000 && cfg.leaseMs > 0 && cfg.pollMs > 0 && cfg.recoveryMs > 0
    && cfg.sandboxes + cfg.compileSlots <= 16
  }

  /** A compile container gets the job's limit, but at least the minimum. */
  function CompileMb(jobLimit: int): (mb: int)
    ensures mb >= jobLimit && mb >= 512 && (mb == jobLimit || mb == 512)
  { 
    if jobLimit < COMPILE_MIN_MB then COMPILE_MIN_MB else jobLimit
  }

  function TotalMb(x: map<Worker, Request>, limits: map<Request, int>, n: nat): int
    requires forall w :: w in x ==> x[w] in limits
  {
    if n == 0 then 0 else TotalMb(x, limits, n - 1) + if n - 1 in x then CompileMb(limits[x[n - 1]]) else 0
  }

  /** Every running compilation counts once. */
  lemma {:induction false} TotalAdds(x: map<Worker, Request>, limits: map<Request, int>, w: Worker, n: nat)
    requires (forall v :: v in x ==> x[v] in limits) && w in x
    ensures TotalMb(map[], limits, n) == 0
    ensures w < n ==> TotalMb(x, limits, n) == TotalMb(x - {w}, limits, n) + CompileMb(limits[x[w]])
    ensures w >= n ==> TotalMb(x, limits, n) == TotalMb(x - {w}, limits, n)
    decreases n
  {
    if n > 0 { TotalAdds(x, limits, w, n - 1); }
  }

  lemma {:induction false} CompilesFit(x: map<Worker, Request>, limits: map<Request, int>, n: nat)
    requires forall w :: w in x ==> x[w] in limits && limits[x[w]] <= JOB_MAX_MB
    ensures TotalMb(x, limits, n) <= n * COMPILE_MIN_MB
    decreases n
  {
    if n > 0 { CompilesFit(x, limits, n - 1); }
  }

  /** For every accepted configuration the memory limits of all live sandboxes and all running
      compilations of validated jobs stay within the budget, in every reachable state. */
  lemma MemoryWithinBudget(cfg: Config, sandboxes: seq<Pool.Sandbox>, pool: seq<Pool.State>,
                           poolActions: seq<Pool.Action>, i: nat,
                           compile: seq<State>, compileActions: seq<Action>, j: nat, limits: map<Request, int>)
    requires Accepted(cfg) && |sandboxes| == cfg.sandboxes
    requires Pool.Run(sandboxes, pool, poolActions) && i < |pool|
    requires Run(cfg.compileSlots, compile, compileActions) && j < |compile|
    requires forall w :: w in compile[j].working ==>
               compile[j].working[w] in limits && limits[compile[j].working[w]] <= JOB_MAX_MB
    ensures |Pool.Live(pool[i])| * SANDBOX_MB + TotalMb(compile[j].working, limits, cfg.compileSlots) <= 8192
    ensures forall w :: w in compile[j].working ==> w < cfg.compileSlots
  {
    Pool.LiveBound(sandboxes, pool, poolActions, i);
    CompilesFit(compile[j].working, limits, cfg.compileSlots);
    RunOrderly(cfg.compileSlots, compile, compileActions, j);
  }
}
