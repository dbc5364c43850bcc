/** The sandbox pool as atomic steps of any number of goroutines: acquisitions, releases,
    replacements and Close, interleaved freely. Executor calls succeed or fail at will. */
module Pool {
  import opened Sets

  type Sandbox = nat

  datatype After = Drop | Refill

  /** What the goroutine that holds a sandbox does next. `counted` marks replacement
      goroutines, which Close waits for. An approved goroutine is between the check that the pool
      is open and the registration of a replacement, and holds the pool's mutex. */
  datatype Stage =
    | Taken
    | Configuring
    | Borrowed
    | Releasing(needsReplace: bool, restarted: bool)
    | Resetting
    | Returning(counted: bool)
    | Deleting(next: After, counted: bool)
    | Removing(next: After, counted: bool)
    | Vacated
    | Approved
    | New
    | Uncounted

  /** How far Close is: it closes the channel, waits for the replacement goroutines, takes its
      list, and removes the sandboxes on it. */
  datatype Phase = Open | Closing | Waited | Collected | Returned

  /** `available`, `all` and `starting` are the pool's fields. `held` says who has the sandboxes
      that goroutines work on, `sleeping` counts replacement goroutines without a sandbox yet,
      `doomed` is Close's list; `started` and `removed` are the history. */
  datatype State = State(phase: Phase, available: seq<Sandbox>, all: set<Sandbox>, starting: nat,
                         held: map<Sandbox, Stage>, sleeping: nat, doomed: set<Sandbox>,
                         started: set<Sandbox>, removed: set<Sandbox>)

  datatype Action =
    | Take
    | CheckTaken(id: Sandbox)
    | Configure(id: Sandbox, ok: bool)
    | Release(id: Sandbox, needsReplace: bool, restarted: bool)
    | CheckRelease(id: Sandbox)
    | Reset(id: Sandbox, ok: bool)
    | Send(id: Sandbox)
    | SeeClosed(id: Sandbox)
    | Delete(id: Sandbox)
    | Remove(id: Sandbox)
    | CheckReplace(id: Sandbox)
    | Replace(id: Sandbox)
    | GiveUp
    | Start(id: Sandbox)
    | CountDown(id: Sandbox)
    | Add(id: Sandbox)
    | Close
    | WaitReturns
    | Collect
    | RemoveDoomed(id: Sandbox)
    | FinishClose

  predicate Is(x: State, id: Sandbox, s: Stage) { id in x.held && x.held[id] == s }

  predicate ReturningAt(x: State, id: Sandbox) { id in x.held && x.held[id].Returning? }

  function Members(s: seq<Sandbox>): set<Sandbox> { set i | 0 <= i < |s| :: s[i] }

  /** Replacement goroutines that have not finished: what Close's wait group counts. */
  predicate Working(s: Stage) {
    s.New? || s.Uncounted? || ((s.Returning? || s.Deleting? || s.Removing?) && s.counted)
  }

  predicate NoneWorking(x: State) { x.sleeping == 0 && forall id :: id in x.held ==> !Working(x.held[id]) }

  /** The mutex is free of goroutines that are about to register a replacement. */
  predicate NoneApproved(x: State) { forall id :: id in x.held ==> !x.held[id].Approved? }

  /** Steps that take the mutex. The other sections under the mutex are single steps, so only an
      approved goroutine can be seen holding it. */
  predicate NeedsMutex(a: Action) {
    a.Delete? || a.CheckReplace? || a.GiveUp? || a.CountDown? || a.Add? || a.Collect?
  }

  predicate Enabled(capacity: nat, x: State, a: Action) { Ready(capacity, x, a) && (NeedsMutex(a) ==> NoneApproved(x)) }

  /** A goroutine stands before the step. */
  predicate Ready(capacity: nat, x: State, a: Action) {
    match a
    case Take => x.available != []
    case CheckTaken(id) => Is(x, id, Taken)
    case Configure(id, _) => Is(x, id, Configuring)
    case Release(id, _, _) => Is(x, id, Borrowed)
    case CheckRelease(id) => id in x.held && x.held[id].Releasing?
    case Reset(id, _) => Is(x, id, Resetting)
    case Send(id) => ReturningAt(x, id) && |x.available| < capacity
    case SeeClosed(id) => ReturningAt(x, id) && !x.phase.Open?
    case Delete(id) => id in x.held && x.held[id].Deleting?
    case Remove(id) => id in x.held && x.held[id].Removing?
    case CheckReplace(id) => Is(x, id, Vacated)
    case Replace(id) => Is(x, id, Approved)
    case GiveUp => x.sleeping > 0 && x.starting > 0 && !x.phase.Open?
    case Start(id) => x.sleeping > 0 && id !in x.started
    case CountDown(id) => Is(x, id, New) && x.starting > 0
    case Add(id) => Is(x, id, Uncounted)
    case Close => x.phase.Open?
    case WaitReturns => x.phase.Closing? && NoneWorking(x)
    case Collect => x.phase.Waited?
    case RemoveDoomed(id) => x.phase.Collected? && id in x.doomed
    case FinishClose => x.phase.Collected? && x.doomed == {}
  }

  function Put(x: State, id: Sandbox, s: Stage): State { x.(held := x.held[id := s]) }

  function Leave(x: State, id: Sandbox): State { x.(held := x.held - {id}) }

  function Next(capacity: nat, x: State, a: Action): State
    requires Enabled(capacity, x, a)
  {
    match a
    case Take => Put(x, x.available[0], Taken).(available := x.available[1..])
    case CheckTaken(id) => Put(x, id, if x.phase.Open? then Configuring else Deleting(Drop, false))
    case Configure(id, ok) => Put(x, id, if ok then Borrowed else Releasing(true, false))
    case Release(id, n, r) => Put(x, id, Releasing(n, r))
    case CheckRelease(id) =>
      Put(x, id, if !x.phase.Open? then Deleting(Drop, false)
                 else if x.held[id].needsReplace then Deleting(Refill, false)
                 else if x.held[id].restarted then Returning(false) else Resetting)
    case Reset(id, ok) => Put(x, id, if ok then Returning(false) else Deleting(Refill, false))
    case Send(id) => Leave(x, id).(available := x.available + [id])
    case SeeClosed(id) => Put(x, id, Deleting(Drop, x.held[id].counted))
    case Delete(id) => Put(x, id, Removing(x.held[id].next, x.held[id].counted)).(all := x.all - {id})
    case Remove(id) =>
      (if x.held[id].next.Drop? then Leave(x, id) else Put(x, id, Vacated)).(removed := x.removed + {id})
    case CheckReplace(id) => if x.phase.Open? then Put(x, id, Approved) else Leave(x, id)
    case Replace(id) => Leave(x, id).(starting := x.starting + 1, sleeping := x.sleeping + 1)
    case GiveUp => x.(starting := x.starting - 1, sleeping := x.sleeping - 1)
    case Start(id) => Put(x, id, New).(sleeping := x.sleeping - 1, started := x.started + {id})
    case CountDown(id) => Put(x, id, Uncounted).(starting := x.starting - 1)
    case Add(id) => Put(x, id, Returning(true)).(all := x.all + {id})
    case Close => x.(phase := Closing)
    case WaitReturns => x.(phase := Waited)
    case Collect => x.(phase := Collected, doomed := x.all, all := {})
    case RemoveDoomed(id) => x.(doomed := x.doomed - {id}, removed := x.removed + {id})
    case FinishClose => x.(phase := Returned)
  }

  // ----- invariants -----

  function Fresh(x: State): set<Sandbox> { set id | id in x.held && x.held[id].New? }

  predicate Dropping(s: Stage) { (s.Deleting? || s.Removing?) && s.next.Drop? }

  /** One goroutine at most holds the mutex. */
  ghost predicate Exclusive(x: State) {
    forall i, j :: i in x.held && j in x.held && x.held[i].Approved? && x.held[j].Approved? ==> i == j
  }

  /** No sandbox is in two places, and whatever is somewhere was started. */
  ghost predicate Apart(x: State) {
    && Distinct(x.available) && Members(x.available) !! x.held.Keys
    && Members(x.available) <= x.started && x.held.Keys <= x.started && x.all <= x.started && x.doomed <= x.started
    && x.removed <= x.started
  }

  /** Beside that, slots are given up only after the pool was closed. */
  ghost predicate Placed(x: State) {
    Exclusive(x) && Apart(x) && (x.phase.Open? ==> forall id :: id in x.held ==> !Dropping(x.held[id]))
  }

  /** Every slot of the capacity is available, held or awaiting a replacement. */
  ghost predicate Slots(capacity: nat, x: State) {
    && |x.available| + |x.held.Keys| + x.sleeping <= capacity
    && (x.phase.Open? ==> |x.available| + |x.held.Keys| + x.sleeping == capacity)
    && x.starting == x.sleeping + |Fresh(x)|
  }

  function Live(x: State): set<Sandbox> { x.started - x.removed }

  /** Whoever is responsible for a live sandbox: the pool's set, a goroutine, or Close. */
  ghost predicate Owned(x: State, id: Sandbox) {
    || id in x.all || id in x.doomed
    || (id in x.held && (x.held[id].New? || x.held[id].Uncounted? || x.held[id].Removing?))
  }

  ghost predicate Responsible(x: State) {
    && (forall id :: id in Live(x) ==> Owned(x, id))
    && (forall id :: id in Live(x) ==> id in x.available || id in x.held)
    && (forall id :: id in x.held && (x.held[id].Vacated? || x.held[id].Approved?) ==> id in x.removed)
    && (!x.phase.Collected? ==> x.doomed == {})
  }

  /** Once Wait has returned nobody adds a sandbox to the pool's set any more. */
  ghost predicate Quiet(x: State) {
    && (x.phase.Waited? || x.phase.Collected? || x.phase.Returned? ==> NoneWorking(x) && NoneApproved(x))
    && (x.phase.Collected? || x.phase.Returned? ==> x.all == {})
  }

  lemma StepExclusive(capacity: nat, x: State, a: Action)
    requires Exclusive(x) && Enabled(capacity, x, a)
    ensures Exclusive(Next(capacity, x, a))
  {
  }

  lemma StepApart(capacity: nat, x: State, a: Action)
    requires Apart(x) && Enabled(capacity, x, a)
    ensures Apart(Next(capacity, x, a))
  {
    if a.Take? { assert x.available[0] in Members(x.available); }
  }

  lemma StepPlaced(capacity: nat, x: State, a: Action)
    requires Placed(x) && Enabled(capacity, x, a)
    ensures Placed(Next(capacity, x, a))
  {
    hide Exclusive, Apart;
    StepExclusive(capacity, x, a);
    StepApart(capacity, x, a);
  }

  /** A goroutine moves to another stage and keeps its sandbox. */
  lemma Restaged(x: State, y: State, id: Sandbox, s: Stage)
    requires id in x.held && y.held == x.held[id := s]
    ensures y.held.Keys == x.held.Keys
    ensures x.held[id].New? == s.New? ==> Fresh(y) == Fresh(x)
    ensures x.held[id].New? && !s.New? ==> |Fresh(y)| == |Fresh(x)| - 1
  {
    assert y.held.Keys == x.held.Keys;
    if x.held[id].New? && !s.New? { assert Fresh(y) == Fresh(x) - {id}; }
  }

  lemma Entered(x: State, y: State, id: Sandbox, s: Stage)
    requires id !in x.held && y.held == x.held[id := s]
    ensures |y.held.Keys| == |x.held.Keys| + 1
    ensures |Fresh(y)| == |Fresh(x)| + if s.New? then 1 else 0
  {
    assert y.held.Keys == x.held.Keys + {id};
    EnteredFresh(x, y, id, s);
  }

  lemma EnteredFresh(x: State, y: State, id: Sandbox, s: Stage)
    requires id !in x.held && y.held == x.held[id := s]
    ensures id !in Fresh(x) && Fresh(y) == if s.New? then Fresh(x) + {id} else Fresh(x)
  {
  }

  lemma Left(x: State, y: State, id: Sandbox)
    requires id in x.held && !x.held[id].New? && y.held == x.held - {id}
    ensures |y.held.Keys| == |x.held.Keys| - 1 && Fresh(y) == Fresh(x)
  {
    assert y.held.Keys == x.held.Keys - {id};
  }

  predicate Restages(a: Action) {
    a.CheckTaken? || a.Configure? || a.Release? || a.CheckRelease? || a.Reset? || a.SeeClosed? || a.Delete? || a.Add?
  }

  lemma RestageSlots(capacity: nat, x: State, a: Action)
    requires Slots(capacity, x) && Restages(a) && Enabled(capacity, x, a)
    ensures Slots(capacity, Next(capacity, x, a))
  {
    hide Fresh;
    var y := Next(capacity, x, a);
    Restaged(x, y, a.id, y.held[a.id]);
  }

  predicate Relocates(a: Action) { a.Take? || a.Send? || a.CheckReplace? || a.Replace? || a.Remove? }

  lemma MoveSlots(capacity: nat, x: State, a: Action)
    requires Placed(x) && Slots(capacity, x) && Relocates(a) && Enabled(capacity, x, a)
    ensures Slots(capacity, Next(capacity, x, a))
  {
    hide Fresh, Distinct;
    var y := Next(capacity, x, a);
    if a.Take? {
      assert x.available[0] in Members(x.available);
      Entered(x, y, x.available[0], Taken);
    } else if a.id in y.held {
      Restaged(x, y, a.id, y.held[a.id]);
    } else {
      Left(x, y, a.id);
    }
  }

  lemma ReplacementSlots(capacity: nat, x: State, a: Action)
    requires Placed(x) && Slots(capacity, x) && (a.Start? || a.CountDown?) && Enabled(capacity, x, a)
    ensures Slots(capacity, Next(capacity, x, a))
  {
    hide Fresh, Distinct;
    var y := Next(capacity, x, a);
    if a.Start? { Entered(x, y, a.id, New); } else { Restaged(x, y, a.id, Uncounted); }
  }

  predicate Closes(a: Action) { a.Close? || a.WaitReturns? || a.Collect? || a.RemoveDoomed? || a.FinishClose? }

  lemma OtherSlots(capacity: nat, x: State, a: Action)
    requires Slots(capacity, x) && (a.GiveUp? || Closes(a))
    requires Enabled(capacity, x, a)
    ensures Slots(capacity, Next(capacity, x, a))
  {
    assert Fresh(Next(capacity, x, a)) == Fresh(x);
  }

  lemma StepSlots(capacity: nat, x: State, a: Action)
    requires Placed(x) && Slots(capacity, x) && Enabled(capacity, x, a)
    ensures Slots(capacity, Next(capacity, x, a))
  {
    hide Next, Slots, Placed, Enabled;
    if Restages(a) { RestageSlots(capacity, x, a); }
    else if Relocates(a) { MoveSlots(capacity, x, a); }
    else if a.Start? || a.CountDown? { ReplacementSlots(capacity, x, a); }
    else { OtherSlots(capacity, x, a); }
  }

  lemma OwnedStep(capacity: nat, x: State, a: Action, id: Sandbox)
    requires Placed(x) && Responsible(x) && Enabled(capacity, x, a) && id in Live(Next(capacity, x, a))
    ensures Owned(Next(capacity, x, a), id)
  {
    if !a.Start? || id != a.id { assert id in Live(x) && Owned(x, id); }
  }

  lemma InHandStep(capacity: nat, x: State, a: Action, id: Sandbox)
    requires Placed(x) && Responsible(x) && Enabled(capacity, x, a) && id in Live(Next(capacity, x, a))
    ensures id in Next(capacity, x, a).available || id in Next(capacity, x, a).held
  {
    hide Owned;
    var y := Next(capacity, x, a);
    if a.Take? && id in x.available {
      assert x.available == [x.available[0]] + y.available;
    }
  }

  lemma StepResponsible(capacity: nat, x: State, a: Action)
    requires Placed(x) && Responsible(x) && Enabled(capacity, x, a)
    ensures Responsible(Next(capacity, x, a))
  {
    hide Owned, Placed;
    var y := Next(capacity, x, a);
    forall id | id in Live(y) ensures Owned(y, id) && (id in y.available || id in y.held) {
      OwnedStep(capacity, x, a, id);
      InHandStep(capacity, x, a, id);
    }
  }

  lemma StepQuiet(capacity: nat, x: State, a: Action)
    requires Quiet(x) && Enabled(capacity, x, a) && (a.WaitReturns? ==> NoneApproved(x))
    ensures Quiet(Next(capacity, x, a))
  {
    hide Members;
    var y := Next(capacity, x, a);
    if !y.phase.Open? && !y.phase.Closing? {
      forall id | id in y.held ensures !Working(y.held[id]) && !y.held[id].Approved? {}
    }
  }

  // ----- runs -----

  function Initial(sandboxes: seq<Sandbox>): State {
    State(Open, sandboxes, Members(sandboxes), 0, map[], 0, {}, Members(sandboxes), {})
  }

  ghost predicate Run(sandboxes: seq<Sandbox>, states: seq<State>, actions: seq<Action>) {
    && Distinct(sandboxes) && |states| == |actions| + 1 && states[0] == Initial(sandboxes)
    && forall k :: 0 <= k < |actions| ==>
         Enabled(|sandboxes|, states[k], actions[k]) && states[k + 1] == Next(|sandboxes|, states[k], actions[k])
  }

  ghost predicate Invariant(capacity: nat, x: State) { Placed(x) && Slots(capacity, x) && Responsible(x) }

  lemma InitialInvariant(sandboxes: seq<Sandbox>)
    requires Distinct(sandboxes)
    ensures Invariant(|sandboxes|, Initial(sandboxes))
  {
    var x := Initial(sandboxes);
    assert Fresh(x) == {};
    assert forall id :: id in Members(sandboxes) ==> id in sandboxes;
  }

  lemma StepInvariant(capacity: nat, x: State, a: Action)
    requires Invariant(capacity, x) && Enabled(capacity, x, a)
    ensures Invariant(capacity, Next(capacity, x, a))
  {
    hide Placed, Slots, Responsible, Next, Enabled;
    StepPlaced(capacity, x, a);
    StepSlots(capacity, x, a);
    StepResponsible(capacity, x, a);
  }

  lemma {:induction false} RunInvariant(sandboxes: seq<Sandbox>, states: seq<State>, actions: seq<Action>, k: nat)
    requires Run(sandboxes, states, actions) && k < |states|
    ensures Invariant(|sandboxes|, states[k])
    decreases k
  {
    hide Invariant, Enabled, Next;
    if k == 0 {
      InitialInvariant(sandboxes);
    } else {
      RunInvariant(sandboxes, states, actions, k - 1);
      StepInvariant(|sandboxes|, states[k - 1], actions[k - 1]);
    }
  }

  lemma {:induction false} MembersSize(s: seq<Sandbox>)
    ensures |Members(s)| <= |s|
    decreases |s|
  {
    if s != [] {
      MembersSize(s[1..]);
      forall i | 0 <= i < |s| ensures s[i] in Members(s[1..]) + {s[0]} {
        if i > 0 { assert s[1..][i - 1] == s[i]; }
      }
      SubsetSize(Members(s), Members(s[1..]) + {s[0]});
    }
  }

  /** Conservation: before Close, sandboxes that are available, those that goroutines hold and
      the replacements being started add up to the capacity. */
  lemma Conservation(sandboxes: seq<Sandbox>, states: seq<State>, actions: seq<Action>, k: nat)
    requires Run(sandboxes, states, actions) && k < |states| && states[k].phase.Open?
    ensures var x := states[k];
            |x.available| + |x.held.Keys - Fresh(x)| + x.starting == |sandboxes|
            && Distinct(x.available) && Members(x.available) !! x.held.Keys
  {
    RunInvariant(sandboxes, states, actions, k);
    var x := states[k];
    assert Fresh(x) <= x.held.Keys;
    assert x.held.Keys == (x.held.Keys - Fresh(x)) + Fresh(x);
  }

  /** The send that gives a sandbox back always finds room in the channel. */
  lemma SendNeverBlocks(sandboxes: seq<Sandbox>, states: seq<State>, actions: seq<Action>, k: nat, id: Sandbox)
    requires Run(sandboxes, states, actions) && k < |states| && ReturningAt(states[k], id)
    ensures Enabled(|sandboxes|, states[k], Send(id))
  {
    RunInvariant(sandboxes, states, actions, k);
    assert id in states[k].held.Keys;
    SubsetSize({id}, states[k].held.Keys);
  }

  /** Never more live sandboxes than the capacity: an old one is removed before a new one starts. */
  lemma LiveBound(sandboxes: seq<Sandbox>, states: seq<State>, actions: seq<Action>, k: nat)
    requires Run(sandboxes, states, actions) && k < |states|
    ensures |Live(states[k])| <= |sandboxes|
  {
    RunInvariant(sandboxes, states, actions, k);
    var x := states[k];
    forall id | id in Live(x) ensures id in Members(x.available) + x.held.Keys {}
    SubsetSize(Live(x), Members(x.available) + x.held.Keys);
    MembersSize(x.available);
  }

  // ----- Close -----

  /** Whenever Wait returned, no goroutine was about to register a replacement. */
  ghost predicate Guarded(states: seq<State>, actions: seq<Action>)
    requires |states| == |actions| + 1
  {
    forall k :: 0 <= k < |actions| && actions[k].WaitReturns? ==> NoneApproved(states[k])
  }

  lemma {:induction false} RunQuiet(sandboxes: seq<Sandbox>, states: seq<State>, actions: seq<Action>, k: nat)
    requires Run(sandboxes, states, actions) && Guarded(states, actions) && k < |states|
    ensures Quiet(states[k])
    decreases k
  {
    hide Enabled, Next, NoneApproved, NoneWorking;
    if k > 0 {
      RunQuiet(sandboxes, states, actions, k - 1);
      StepQuiet(|sandboxes|, states[k - 1], actions[k - 1]);
    }
  }

  lemma QuietRemoved(capacity: nat, x: State)
    requires Invariant(capacity, x) && Quiet(x) && x.phase.Returned? && x.held == map[]
    ensures Live(x) == {}
  {
    assert forall id :: id in Live(x) ==> Owned(x, id);
  }

  /** No leak: when Wait returned at such a moment, then once Close has returned and no goroutine
      holds a sandbox any more, every sandbox ever started has been removed. */
  lemma NoLeakAfterClose(sandboxes: seq<Sandbox>, states: seq<State>, actions: seq<Action>, k: nat)
    requires Run(sandboxes, states, actions) && Guarded(states, actions) && k < |states|
    requires states[k].phase.Returned? && states[k].held == map[]
    ensures Live(states[k]) == {}
  {
    RunInvariant(sandboxes, states, actions, k);
    RunQuiet(sandboxes, states, actions, k);
    QuietRemoved(|sandboxes|, states[k]);
  }

  ghost predicate Leads(capacity: nat, x: State, y: State, n: nat)
    decreases n
  {
    if n == 0 then x == y else exists a :: Enabled(capacity, x, a) && Leads(capacity, Next(capacity, x, a), y, n - 1)
  }

  ghost predicate Reaches(capacity: nat, x: State, y: State) { exists n: nat :: Leads(capacity, x, y, n) }

  lemma Stays(capacity: nat, x: State)
    ensures Reaches(capacity, x, x)
  {
    assert Leads(capacity, x, x, 0);
  }

  lemma Steps(capacity: nat, x: State, a: Action, y: State)
    requires Enabled(capacity, x, a) && Reaches(capacity, Next(capacity, x, a), y)
    ensures Reaches(capacity, x, y)
  {
    hide Enabled, Next;
    var n: nat :| Leads(capacity, Next(capacity, x, a), y, n);
    assert Leads(capacity, x, y, n + 1);
  }

  lemma {:induction false} Onward(capacity: nat, x: State, y: State, z: State, n: nat)
    requires Leads(capacity, x, y, n) && Reaches(capacity, y, z)
    ensures Reaches(capacity, x, z)
    decreases n
  {
    hide Enabled, Next, Reaches;
    if n > 0 {
      var a :| Enabled(capacity, x, a) && Leads(capacity, Next(capacity, x, a), y, n - 1);
      Onward(capacity, Next(capacity, x, a), y, z, n - 1);
      Steps(capacity, x, a, z);
    }
  }

  lemma Joined(capacity: nat, x: State, y: State, z: State)
    requires Reaches(capacity, x, y) && Reaches(capacity, y, z)
    ensures Reaches(capacity, x, z)
  {
    var n: nat :| Leads(capacity, x, y, n);
    Onward(capacity, x, y, z, n);
  }

  lemma {:induction false} LeadsInvariant(capacity: nat, x: State, y: State, n: nat)
    requires Invariant(capacity, x) && Leads(capacity, x, y, n)
    ensures Invariant(capacity, y)
    ensures Quiet(x) && !x.phase.Open? && !x.phase.Closing? ==> Quiet(y)
    decreases n
  {
    hide Enabled, Next, Invariant;
    if n > 0 {
      var a :| Enabled(capacity, x, a) && Leads(capacity, Next(capacity, x, a), y, n - 1);
      StepInvariant(capacity, x, a);
      if Quiet(x) && !x.phase.Open? && !x.phase.Closing? { LateQuiet(capacity, x, a); }
      LeadsInvariant(capacity, Next(capacity, x, a), y, n - 1);
    }
  }

  lemma LateQuiet(capacity: nat, x: State, a: Action)
    requires Quiet(x) && Enabled(capacity, x, a) && !x.phase.Open? && !x.phase.Closing?
    ensures Quiet(Next(capacity, x, a)) && !Next(capacity, x, a).phase.Open? && !Next(capacity, x, a).phase.Closing?
  {
    StepQuiet(capacity, x, a);
  }

  // ----- the leak -----

  /** How far a goroutine in a closed pool is from dropping its sandbox. */
  function DropRank(s: Stage): nat {
    match s
    case Borrowed => 6
    case Configuring => 6
    case Taken => 5
    case Releasing(_, _) => 5
    case Resetting => 5
    case Returning(_) => 4
    case Deleting(_, _) => 3
    case Removing(_, _) => 2
    case _ => 1
  }

  predicate Droppable(s: Stage) { !s.New? && !s.Uncounted? && !s.Approved? }

  function DropStep(s: Stage, id: Sandbox): Action
    requires Droppable(s)
  {
    match s
    case Borrowed => Release(id, false, false)
    case Configuring => Configure(id, false)
    case Taken => CheckTaken(id)
    case Releasing(_, _) => CheckRelease(id)
    case Resetting => Reset(id, true)
    case Returning(_) => SeeClosed(id)
    case Deleting(_, _) => Delete(id)
    case Removing(_, _) => Remove(id)
    case Vacated => CheckReplace(id)
  }

  /** Some goroutines have dropped their sandboxes, and nobody started, took or gave back one. */
  ghost predicate Dropped(x: State, y: State, ids: set<Sandbox>) {
    && y.held == x.held - ids && y.phase == x.phase && y.available == x.available && y.started == x.started
    && y.starting == x.starting && y.sleeping == x.sleeping
  }

  lemma DropsOne(capacity: nat, x: State, id: Sandbox)
    requires !x.phase.Open? && NoneApproved(x) && id in x.held && Droppable(x.held[id])
    ensures var a := DropStep(x.held[id], id);
            Enabled(capacity, x, a) &&
            var z := Next(capacity, x, a);
            Dropped(x.(held := x.held - {id}), z.(held := z.held - {id}), {})
            && (id in z.held ==>
                  Droppable(z.held[id]) && DropRank(z.held[id]) < DropRank(x.held[id]) && NoneApproved(z))
  {
  }

  lemma {:induction false} DropOne(capacity: nat, x: State, id: Sandbox) returns (y: State)
    requires !x.phase.Open? && NoneApproved(x) && id in x.held && Droppable(x.held[id])
    ensures Reaches(capacity, x, y) && Dropped(x, y, {id})
    decreases DropRank(x.held[id])
  {
    hide Enabled, Next, Reaches;
    DropsOne(capacity, x, id);
    var a := DropStep(x.held[id], id);
    var z := Next(capacity, x, a);
    if id in z.held {
      y := DropOne(capacity, z, id);
    } else {
      y := z;
      assert z.held - {id} == z.held;
      Stays(capacity, z);
    }
    Steps(capacity, x, a, y);
  }

  /** In a closed pool, goroutines that do not work on replacements can drop what they hold. */
  lemma {:induction false} DropAll(capacity: nat, x: State) returns (y: State)
    requires !x.phase.Open? && forall id :: id in x.held ==> Droppable(x.held[id])
    ensures Reaches(capacity, x, y) && Dropped(x, y, x.held.Keys)
    decreases |x.held.Keys|
  {
    hide Reaches;
    if x.held.Keys == {} {
      y := x;
      Stays(capacity, x);
    } else {
      var id := Pick(x.held.Keys);
      var z := DropOne(capacity, x, id);
      assert z.held.Keys == x.held.Keys - {id};
      y := DropAll(capacity, z);
      Joined(capacity, x, z, y);
      assert y.held == x.held - x.held.Keys;
    }
  }

  lemma {:induction false} FinishRemoval(capacity: nat, x: State) returns (y: State)
    requires x.phase.Collected? && x.held == map[]
    ensures Reaches(capacity, x, y) && y == x.(phase := Returned, doomed := {}, removed := x.removed + x.doomed)
    decreases |x.doomed|
  {
    hide Reaches;
    if x.doomed == {} {
      y := Next(capacity, x, FinishClose);
      Stays(capacity, y);
      Steps(capacity, x, FinishClose, y);
    } else {
      var id := Pick(x.doomed);
      var z := Next(capacity, x, RemoveDoomed(id));
      y := FinishRemoval(capacity, z);
      Steps(capacity, x, RemoveDoomed(id), y);
      assert x.removed + {id} + (x.doomed - {id}) == x.removed + x.doomed;
    }
  }

  /** A replacement goroutine that registered too late starts its sandbox after Close. */
  lemma LateReplacement(capacity: nat, x: State, r: Sandbox) returns (y: State)
    requires x.phase.Returned? && x.held == map[] && x.sleeping > 0 && x.starting > 0 && |x.available| < capacity
    requires r !in x.started && x.removed <= x.started
    ensures Reaches(capacity, x, y) && y.phase.Returned? && y.held == map[] && r in Live(y)
  {
    hide Reaches, Distinct;
    var z := Next(capacity, x, Start(r));
    y := LateArrival(capacity, z, r);
    Steps(capacity, x, Start(r), y);
  }

  lemma LateArrival(capacity: nat, x: State, r: Sandbox) returns (y: State)
    requires x.phase.Returned? && x.held == map[r := New] && x.starting > 0 && |x.available| < capacity
    ensures Reaches(capacity, x, y) && y.phase.Returned? && y.held == map[] && Live(y) == Live(x)
  {
    hide Reaches, Distinct;
    var x1 := Next(capacity, x, CountDown(r));
    var x2 := Next(capacity, x1, Add(r));
    y := Next(capacity, x2, Send(r));
    Stays(capacity, y);
    Steps(capacity, x2, Send(r), y);
    Steps(capacity, x1, Add(r), y);
    Steps(capacity, x, CountDown(r), y);
  }

  lemma FreshSandbox(used: set<Sandbox>) returns (r: Sandbox)
    ensures r !in used
  {
    var all := NatsBelow(|used| + 1);
    if all <= used {
      SubsetSize(all, used);
      assert false;
    }
    r :| r in all && r !in used;
  }

  /** After Wait, the goroutine that holds the mutex registers its replacement, Close takes its
      list, and the others drop their sandboxes. */
  lemma LateRegistration(capacity: nat, x: State, id: Sandbox) returns (y: State)
    requires Invariant(capacity, x) && x.phase.Waited? && NoneWorking(x) && Is(x, id, Approved)
    ensures Reaches(capacity, x, y) && y.phase.Returned? && y.held == map[] && y.sleeping > 0 && y.starting > 0
    ensures |y.available| < capacity
  {
    SubsetSize({id}, x.held.Keys);
    var z := Next(capacity, x, Replace(id));
    hide Reaches;
    var w := DropAll(capacity, z);
    assert w.held == map[];
    y := FinishRemoval(capacity, Next(capacity, w, Collect));
    Steps(capacity, w, Collect, y);
    Joined(capacity, z, w, y);
    Steps(capacity, x, Replace(id), y);
  }

  /** Close may leave a live sandbox behind, with no goroutine left that holds one. */
  ghost predicate MayLeak(capacity: nat, x: State) {
    exists y :: Reaches(capacity, x, y) && y.phase.Returned? && y.held == map[] && Live(y) != {}
  }

  lemma Leak(capacity: nat, x: State, id: Sandbox)
    requires Invariant(capacity, x) && x.phase.Waited? && NoneWorking(x) && Is(x, id, Approved)
    ensures MayLeak(capacity, x)
  {
    hide Reaches, Invariant;
    var y := LateRegistration(capacity, x, id);
    ReachesInvariant(capacity, x, y);
    var r := FreshSandbox(y.started);
    var z := LateReplacement(capacity, y, r);
    Joined(capacity, x, y, z);
    assert r in Live(z);
  }

  lemma ReachesInvariant(capacity: nat, x: State, y: State)
    requires Invariant(capacity, x) && Reaches(capacity, x, y)
    ensures Invariant(capacity, y) && y.removed <= y.started
    ensures Quiet(x) && !x.phase.Open? && !x.phase.Closing? ==> Quiet(y)
  {
    var n: nat :| Leads(capacity, x, y, n);
    hide Leads;
    LeadsInvariant(capacity, x, y, n);
  }

  /** The exact condition, at the moment when Close's wait returns: a leak is possible from there
      just when a goroutine holds the mutex between the check and the registration. */
  lemma CloseLeaksExactly(capacity: nat, x: State)
    requires Invariant(capacity, x) && Enabled(capacity, x, WaitReturns)
    ensures MayLeak(capacity, Next(capacity, x, WaitReturns)) <==> !NoneApproved(x)
  {
    var w := Next(capacity, x, WaitReturns);
    StepInvariant(capacity, x, WaitReturns);
    hide Reaches, Invariant;
    if !NoneApproved(x) {
      var id :| id in x.held && x.held[id].Approved?;
      Leak(capacity, w, id);
    } else {
      forall y | Reaches(capacity, w, y) && y.phase.Returned? && y.held == map[] ensures Live(y) == {} {
        ReachesInvariant(capacity, w, y);
        QuietRemoved(capacity, y);
      }
    }
  }

  /** The only sandbox of a pool, at some stage. */
  function Only(phase: Phase, all: set<Sandbox>, s: Stage, removed: set<Sandbox>): State {
    State(phase, [], all, 0, map[0 := s], 0, {}, {0}, removed)
  }

  lemma FailedConfiguration(y: State)
    requires Reaches(1, Only(Open, {0}, Deleting(Refill, false), {}), y)
    ensures Reaches(1, Initial([0]), y)
  {
    hide Reaches;
    var x := Initial([0]);
    assert x.available[0] in Members(x.available);
    assert Members(x.available) == {0};
    var taken, asked := Only(Open, {0}, Taken, {}), Only(Open, {0}, Configuring, {});
    var failed := Only(Open, {0}, Releasing(true, false), {});
    assert Next(1, failed, CheckRelease(0)) == Only(Open, {0}, Deleting(Refill, false), {});
    Steps(1, failed, CheckRelease(0), y);
    assert Next(1, asked, Configure(0, false)) == failed;
    Steps(1, asked, Configure(0, false), y);
    assert Next(1, taken, CheckTaken(0)) == asked;
    Steps(1, taken, CheckTaken(0), y);
    assert Next(1, x, Take) == Only(Open, {0}, Taken, {});
    Steps(1, x, Take, y);
  }

  lemma RemovedNext(y: State)
    requires Reaches(1, Only(Open, {}, Vacated, {0}), y)
    ensures Reaches(1, Only(Open, {0}, Deleting(Refill, false), {}), y)
  {
    hide Reaches;
    assert Next(1, Only(Open, {}, Removing(Refill, false), {}), Remove(0)) == Only(Open, {}, Vacated, {0});
    Steps(1, Only(Open, {}, Removing(Refill, false), {}), Remove(0), y);
    assert Next(1, Only(Open, {0}, Deleting(Refill, false), {}), Delete(0)) ==
           Only(Open, {}, Removing(Refill, false), {});
    Steps(1, Only(Open, {0}, Deleting(Refill, false), {}), Delete(0), y);
  }

  /** Such a moment is reached, and so is a leak: one sandbox, a failed configuration, and a Close
      that waits while the replacement is approved and not yet registered. */
  lemma LeakIsReached() returns (x: State)
    ensures Reaches(1, Initial([0]), x) && Enabled(1, x, WaitReturns) && !NoneApproved(x)
    ensures MayLeak(1, Initial([0]))
  {
    x := Only(Closing, {}, Approved, {0});
    var w := Next(1, x, WaitReturns);
    assert Is(x, 0, Approved) && NoneWorking(x);
    hide Reaches, MayLeak;
    Stays(1, x);
    ClosedEarly(x);
    InitialInvariant([0]);
    ReachesInvariant(1, Initial([0]), x);
    CloseLeaksExactly(1, x);
    LeaksBefore(1, x, w);
    LeaksEarlier(1, Initial([0]), x);
  }

  lemma ClosedEarly(y: State)
    requires Reaches(1, Only(Closing, {}, Approved, {0}), y)
    ensures Reaches(1, Initial([0]), y)
  {
    hide Reaches;
    assert Next(1, Only(Open, {}, Approved, {0}), Close) == Only(Closing, {}, Approved, {0});
    Steps(1, Only(Open, {}, Approved, {0}), Close, y);
    assert Next(1, Only(Open, {}, Vacated, {0}), CheckReplace(0)) == Only(Open, {}, Approved, {0});
    Steps(1, Only(Open, {}, Vacated, {0}), CheckReplace(0), y);
    RemovedNext(y);
    FailedConfiguration(y);
  }

  lemma LeaksBefore(capacity: nat, x: State, w: State)
    requires Enabled(capacity, x, WaitReturns) && w == Next(capacity, x, WaitReturns) && MayLeak(capacity, w)
    ensures MayLeak(capacity, x)
  {
    hide Reaches, Enabled, Next;
    var y :| Reaches(capacity, w, y) && y.phase.Returned? && y.held == map[] && Live(y) != {};
    Steps(capacity, x, WaitReturns, y);
  }

  lemma LeaksEarlier(capacity: nat, x: State, w: State)
    requires Reaches(capacity, x, w) && MayLeak(capacity, w)
    ensures MayLeak(capacity, x)
  {
    hide Reaches;
    var y :| Reaches(capacity, w, y) && y.phase.Returned? && y.held == map[] && Live(y) != {};
    Joined(capacity, x, w, y);
  }

  // ----- slots come back -----

  /** How far a slot in transit is from being available again; a replacement that is still to be
      started has rank 4. */
  function StageRank(s: Stage): nat {
    match s
    case Releasing(_, _) => 10
    case Resetting => 9
    case Deleting(_, _) => 8
    case Removing(_, _) => 7
    case Vacated => 6
    case Approved => 5
    case New => 3
    case Uncounted => 2
    case Returning(_) => 1
    case _ => 0
  }

  /** The next step of the goroutine that holds the slot; `ok` says whether a reset succeeds. */
  function OwnStep(s: Stage, id: Sandbox, ok: bool): Action
    requires StageRank(s) > 0
  {
    match s
    case Releasing(_, _) => CheckRelease(id)
    case Resetting => Reset(id, ok)
    case Deleting(_, _) => Delete(id)
    case Removing(_, _) => Remove(id)
    case Vacated => CheckReplace(id)
    case Approved => Replace(id)
    case New => CountDown(id)
    case Uncounted => Add(id)
    case Returning(_) => Send(id)
  }

  /** In an open pool a slot in transit can take its next step, unless another goroutine holds the
      mutex, which one step of that goroutine frees. */
  lemma TransitReady(capacity: nat, x: State, id: Sandbox, ok: bool)
    requires Invariant(capacity, x) && x.phase.Open? && id in x.held && StageRank(x.held[id]) > 0
    ensures Enabled(capacity, x, OwnStep(x.held[id], id, ok)) ||
            exists other :: other in x.held && other != id && Enabled(capacity, x, Replace(other)) &&
              Enabled(capacity, Next(capacity, x, Replace(other)), OwnStep(x.held[id], id, ok))
  {
    hide Responsible, Members, Distinct;
    SubsetSize({id}, x.held.Keys);
    if x.held[id].New? {
      assert id in Fresh(x);
      SubsetSize({id}, Fresh(x));
    }
    if !NoneApproved(x) {
      var other :| other in x.held && x.held[other].Approved?;
      if other != id {
        assert NoneApproved(Next(capacity, x, Replace(other)));
        assert Enabled(capacity, x, Replace(other));
      }
    }
  }

  /** Every step of its own brings it closer: back to the channel, to a lower rank, or to a
      replacement that is being started. */
  lemma TransitProgress(capacity: nat, x: State, id: Sandbox, ok: bool)
    requires Placed(x) && x.phase.Open? && id in x.held && StageRank(x.held[id]) > 0
    requires Enabled(capacity, x, OwnStep(x.held[id], id, ok))
    ensures var y := Next(capacity, x, OwnStep(x.held[id], id, ok));
            y.phase.Open? && y.available == (if x.held[id].Returning? then x.available + [id] else x.available)
            && y.started == x.started && (x.held[id].Approved? ==> y.sleeping == x.sleeping + 1)
            && (!x.held[id].Approved? && !x.held[id].Returning? ==>
                  id in y.held && 0 < StageRank(y.held[id]) < StageRank(x.held[id]))
  {
  }

  /** The goroutine that holds the sandbox acts; Close works from its own list. */
  predicate ActsOn(a: Action, id: Sandbox) {
    match a
    case Take => false
    case RemoveDoomed(_) => false
    case GiveUp => false
    case Close => false
    case WaitReturns => false
    case Collect => false
    case FinishClose => false
    case _ => a.id == id
  }

  /** Other goroutines leave a held sandbox alone. */
  lemma Undisturbed(capacity: nat, x: State, a: Action, id: Sandbox)
    requires Placed(x) && Enabled(capacity, x, a) && id in x.held && !ActsOn(a, id)
    ensures id in Next(capacity, x, a).held && Next(capacity, x, a).held[id] == x.held[id]
  {
    if a.Take? { assert x.available[0] in Members(x.available); }
  }

  /** In an open pool only the goroutine that holds a sandbox acts on it. */
  lemma ActsItself(capacity: nat, x: State, a: Action, id: Sandbox) returns (ok: bool)
    requires Placed(x) && x.phase.Open? && Enabled(capacity, x, a) && ActsOn(a, id)
    requires id in x.held && StageRank(x.held[id]) > 0
    ensures a == OwnStep(x.held[id], id, ok)
  {
    assert id in x.held.Keys && id in x.started;
    ok := if a.Reset? then a.ok else true;
  }

  function OwnSteps(actions: seq<Action>, id: Sandbox, j: nat, m: nat): nat
    requires j <= m <= |actions|
    decreases m - j
  {
    if j == m then 0 else (if ActsOn(actions[j], id) then 1 else 0) + OwnSteps(actions, id, j + 1, m)
  }

  lemma OpenedBefore(sandboxes: seq<Sandbox>, states: seq<State>, actions: seq<Action>, j: nat, m: nat)
    requires Run(sandboxes, states, actions) && j <= m < |states| && states[m].phase.Open?
    ensures states[j].phase.Open?
    decreases m - j
  {
    if j < m {
      assert Enabled(|sandboxes|, states[m - 1], actions[m - 1]);
      OpenedBefore(sandboxes, states, actions, j, m - 1);
    }
  }

  /** What has become of a slot that was in transit at `j`. */
  ghost predicate Restoring(states: seq<State>, actions: seq<Action>, id: Sandbox, j: nat, m: nat)
    requires |states| == |actions| + 1 && j <= m < |states| && id in states[j].held
  {
    || (id in states[m].held && 0 < StageRank(states[m].held[id])
        && StageRank(states[m].held[id]) + OwnSteps(actions, id, j, m) <= StageRank(states[j].held[id]))
    || Given(states, actions, id, j, m)
    || (StageRank(states[j].held[id]) >= 5 && Refilled(states, actions, id, j, m))
  }

  /** The sandbox itself went into the channel. */
  ghost predicate Given(states: seq<State>, actions: seq<Action>, id: Sandbox, j: nat, m: nat)
    requires |states| == |actions| + 1 && j <= m < |states|
  {
    exists k :: j <= k < m && actions[k] == Send(id) && states[k + 1].available == states[k].available + [id]
  }

  /** A replacement was registered for the removed sandbox. */
  ghost predicate Refilled(states: seq<State>, actions: seq<Action>, id: Sandbox, j: nat, m: nat)
    requires |states| == |actions| + 1 && j <= m < |states|
  {
    exists k :: j <= k < m && actions[k] == Replace(id) && id in states[k].removed
                && states[k + 1].sleeping == states[k].sleeping + 1
  }

  lemma {:induction false} SlotRestoring(sandboxes: seq<Sandbox>, states: seq<State>, actions: seq<Action>, id: Sandbox,
                                         j: nat, m: nat)
    requires Run(sandboxes, states, actions) && j <= m < |states| && states[m].phase.Open?
    requires id in states[j].held && StageRank(states[j].held[id]) > 0
    ensures Restoring(states, actions, id, j, m)
    decreases m - j
  {
    if j < m {
      var capacity, x, a := |sandboxes|, states[j], actions[j];
      RunInvariant(sandboxes, states, actions, j);
      OpenedBefore(sandboxes, states, actions, j, m);
      assert Enabled(capacity, x, a) && states[j + 1] == Next(capacity, x, a);
      hide Run, Enabled, Next;
      if ActsOn(a, id) {
        var ok := ActsItself(capacity, x, a, id);
        TransitProgress(capacity, x, id, ok);
        if x.held[id].Approved? || x.held[id].Returning? { return; }
      } else {
        Undisturbed(capacity, x, a, id);
      }
      SlotRestoring(sandboxes, states, actions, id, j + 1, m);
    }
  }

  /** While the pool is open: whatever the others do, once the goroutine that holds a slot in transit has taken ten
      steps the sandbox is in the channel, or it was removed and a replacement is registered. */
  lemma SlotRestored(sandboxes: seq<Sandbox>, states: seq<State>, actions: seq<Action>, id: Sandbox, j: nat, m: nat)
    requires Run(sandboxes, states, actions) && j <= m < |states| && states[m].phase.Open?
    requires id in states[j].held && 0 < StageRank(states[j].held[id]) <= OwnSteps(actions, id, j, m)
    ensures Given(states, actions, id, j, m) || Refilled(states, actions, id, j, m)
  {
    SlotRestoring(sandboxes, states, actions, id, j, m);
  }

  lemma RunNext(sandboxes: seq<Sandbox>, states: seq<State>, actions: seq<Action>, k: nat)
    requires Run(sandboxes, states, actions) && (k < |actions| || k + 1 < |states|)
    ensures |states| == |actions| + 1 && Enabled(|sandboxes|, states[k], actions[k])
    ensures states[k + 1] == Next(|sandboxes|, states[k], actions[k])
  {
    hide Enabled, Next;
  }

  lemma StartedNew(capacity: nat, x: State, id: Sandbox)
    requires Enabled(capacity, x, Start(id))
    ensures Is(Next(capacity, x, Start(id)), id, New)
  {
  }

  /** And three steps after a replacement's start succeeded, that replacement is in the channel. */
  lemma ReplacementRestored(sandboxes: seq<Sandbox>, states: seq<State>, actions: seq<Action>, id: Sandbox, j: nat,
                            m: nat)
    requires Run(sandboxes, states, actions) && j < m < |states| && states[m].phase.Open?
    requires actions[j] == Start(id) && OwnSteps(actions, id, j + 1, m) >= 3
    ensures Given(states, actions, id, j + 1, m)
  {
    hide Run, Next, Enabled, Given, Refilled, OwnSteps;
    RunNext(sandboxes, states, actions, j);
    StartedNew(|sandboxes|, states[j], id);
    SlotRestoring(sandboxes, states, actions, id, j + 1, m);
  }

  /** A sleeping replacement goroutine that is not sleeping any more has started its sandbox. */
  lemma {:induction false} SleeperStarted(sandboxes: seq<Sandbox>, states: seq<State>, actions: seq<Action>,
                                          j: nat, m: nat) returns (k: nat)
    requires Run(sandboxes, states, actions) && j <= m < |states| && states[m].phase.Open?
    requires states[j].sleeping > 0 && states[m].sleeping == 0
    ensures j <= k < m && actions[k].Start?
    decreases m - j
  {
    OpenedBefore(sandboxes, states, actions, j, m);
    assert Enabled(|sandboxes|, states[j], actions[j]) && states[j + 1] == Next(|sandboxes|, states[j], actions[j]);
    if actions[j].Start? { return j; }
    assert states[j + 1].sleeping >= states[j].sleeping;
    hide Run;
    k := SleeperStarted(sandboxes, states, actions, j + 1, m);
  }

  /** A replacement was registered for the removed sandbox, started, and put into the channel. */
  ghost predicate Replaced(states: seq<State>, actions: seq<Action>, id: Sandbox, j: nat, m: nat)
    requires |states| == |actions| + 1 && j <= m < |states|
  {
    exists k, l :: j <= k < l < m && actions[k] == Replace(id) && actions[l].Start?
                   && Given(states, actions, actions[l].id, l + 1, m)
  }

  /** The whole way of a slot over one run of an open pool: when its goroutine has taken its steps,
      no replacement goroutine sleeps any more and each that started has taken its three, the sandbox
      itself or a replacement was put into the channel. */
  lemma SlotReturns(sandboxes: seq<Sandbox>, states: seq<State>, actions: seq<Action>, id: Sandbox, j: nat, m: nat)
    requires Run(sandboxes, states, actions) && j <= m < |states| && states[m].phase.Open?
    requires id in states[j].held && 0 < StageRank(states[j].held[id]) <= OwnSteps(actions, id, j, m)
    requires states[m].sleeping == 0
    requires forall l :: j <= l < m && actions[l].Start? ==> OwnSteps(actions, actions[l].id, l + 1, m) >= 3
    ensures Given(states, actions, id, j, m) || Replaced(states, actions, id, j, m)
  {
    SlotRestored(sandboxes, states, actions, id, j, m);
    hide Run, Given, OwnSteps;
    if k :| j <= k < m && actions[k] == Replace(id) && states[k + 1].sleeping == states[k].sleeping + 1 {
      var l := SleeperStarted(sandboxes, states, actions, k + 1, m);
      NoStepsLeft(actions, actions[l].id, m);
      ReplacementRestored(sandboxes, states, actions, actions[l].id, l, m);
    }
  }

  lemma NoStepsLeft(actions: seq<Action>, id: Sandbox, m: nat)
    requires m <= |actions|
    ensures OwnSteps(actions, id, m, m) == 0
  {
  }

  /** In an open pool where nothing is in transit and no replacement is due, every slot is in the
      channel or with a user. */
  lemma AllRestored(sandboxes: seq<Sandbox>, states: seq<State>, actions: seq<Action>, m: nat)
    requires Run(sandboxes, states, actions) && m < |states| && states[m].phase.Open?
    requires states[m].sleeping == 0 && forall id :: id in states[m].held ==> StageRank(states[m].held[id]) == 0
    ensures |states[m].available| + |states[m].held.Keys| == |sandboxes| && states[m].starting == 0
  {
    RunInvariant(sandboxes, states, actions, m);
    assert Fresh(states[m]) == {};
  }

  // ----- what became of a sandbox, and why -----

  /** A goroutine gets hold of the sandbox: it receives it, or has just started it. */
  predicate Begins(x: State, a: Action, id: Sandbox) {
    a == Start(id) || (a.Take? && x.available != [] && x.available[0] == id)
  }

  /** The step before `j` began the time for which the sandbox has been held up to `k`. */
  ghost predicate Tenure(states: seq<State>, actions: seq<Action>, id: Sandbox, j: nat, k: nat)
    requires |states| == |actions| + 1
  {
    0 < j <= k <= |actions| && Begins(states[j - 1], actions[j - 1], id)
    && forall i :: j <= i < k ==> !Begins(states[i], actions[i], id)
  }

  /** The steps on the sandbox from `j` to `k`. */
  function Own(actions: seq<Action>, id: Sandbox, j: nat, k: nat): seq<Action>
    requires j <= k <= |actions|
    decreases k
  {
    if j == k then []
    else Own(actions, id, j, k - 1) + if ActsOn(actions[k - 1], id) then [actions[k - 1]] else []
  }

  /** Received, found the pool open, and configured. */
  function Lent(id: Sandbox): seq<Action> { [CheckTaken(id), Configure(id, true)] }

  /** The ways of a sandbox that is given back: it was restarted, or reset with success, or is a new
      one. */
  predicate Succeeded(id: Sandbox, w: seq<Action>) {
    || w == Lent(id) + [Release(id, false, true), CheckRelease(id)]
    || w == Lent(id) + [Release(id, false, false), CheckRelease(id), Reset(id, true)]
    || w == [CountDown(id), Add(id)]
  }

  /** The ways of a sandbox that is replaced: its configuration failed, it was released as broken, or
      its reset failed. */
  predicate Failed(id: Sandbox, w: seq<Action>) {
    || w == [CheckTaken(id), Configure(id, false), CheckRelease(id)]
    || w == Lent(id) + [Release(id, true, false), CheckRelease(id)]
    || w == Lent(id) + [Release(id, true, true), CheckRelease(id)]
    || w == Lent(id) + [Release(id, false, false), CheckRelease(id), Reset(id, false)]
  }

  /** The steps that lead to a stage; nothing is said of sandboxes dropped by a closed pool. */
  predicate Path(id: Sandbox, s: Stage, w: seq<Action>) {
    match s
    case Taken => w == []
    case Configuring => w == [CheckTaken(id)]
    case Borrowed => w == Lent(id)
    case Releasing(n, r) =>
      w == Lent(id) + [Release(id, n, r)] || (n && !r && w == [CheckTaken(id), Configure(id, false)])
    case Resetting => w == Lent(id) + [Release(id, false, false), CheckRelease(id)]
    case Returning(_) => Succeeded(id, w)
    case New => w == []
    case Uncounted => w == [CountDown(id)]
    case Deleting(next, _) => next.Refill? ==> Failed(id, w)
    case Removing(next, _) => next.Refill? ==> |w| >= 1 && w[|w| - 1] == Delete(id) && Failed(id, w[..|w| - 1])
    case Vacated => |w| >= 2 && w[|w| - 2..] == [Delete(id), Remove(id)] && Failed(id, w[..|w| - 2])
    case Approved =>
      |w| >= 3 && w[|w| - 3..] == [Delete(id), Remove(id), CheckReplace(id)] && Failed(id, w[..|w| - 3])
  }

  lemma Longer(w: seq<Action>, a: Action, n: nat)
    requires n <= |w|
    ensures (w + [a])[..|w| - n] == w[..|w| - n] && (w + [a])[|w| - n..] == w[|w| - n..] + [a]
  {
  }

  lemma PathDelete(capacity: nat, x: State, id: Sandbox, w: seq<Action>)
    requires Enabled(capacity, x, Delete(id)) && Path(id, x.held[id], w)
    ensures var y := Next(capacity, x, Delete(id)); id in y.held && Path(id, y.held[id], w + [Delete(id)])
  {
    hide Failed, NoneApproved;
    Longer(w, Delete(id), 0);
  }

  lemma PathRemove(capacity: nat, x: State, id: Sandbox, w: seq<Action>)
    requires Enabled(capacity, x, Remove(id)) && Path(id, x.held[id], w)
    ensures var y := Next(capacity, x, Remove(id)); id in y.held ==> Path(id, y.held[id], w + [Remove(id)])
  {
    if x.held[id].next.Refill? {
      Removal(w, id);
      hide Failed, NoneApproved, Path;
      assert Next(capacity, x, Remove(id)).held[id] == Vacated;
      assert Path(id, Vacated, w + [Remove(id)]) by { VacatedPath(id, w + [Remove(id)]); }
    }
  }

  lemma Removal(w: seq<Action>, id: Sandbox)
    requires |w| >= 1 && w[|w| - 1] == Delete(id)
    ensures var v := w + [Remove(id)]; v[|v| - 2..] == [Delete(id), Remove(id)] && v[..|v| - 2] == w[..|w| - 1]
  {
  }

  lemma VacatedPath(id: Sandbox, w: seq<Action>)
    requires |w| >= 2 && w[|w| - 2..] == [Delete(id), Remove(id)] && Failed(id, w[..|w| - 2])
    ensures Path(id, Vacated, w)
  {
  }

  lemma PathCheck(capacity: nat, x: State, id: Sandbox, w: seq<Action>)
    requires Enabled(capacity, x, CheckReplace(id)) && Path(id, x.held[id], w)
    ensures var y := Next(capacity, x, CheckReplace(id)); id in y.held ==> Path(id, y.held[id], w + [CheckReplace(id)])
  {
    hide Failed, NoneApproved;
    if |w| >= 2 { Longer(w, CheckReplace(id), 2); }
  }

  lemma PathReleases(capacity: nat, x: State, a: Action, id: Sandbox, w: seq<Action>)
    requires Enabled(capacity, x, a) && (a == CheckRelease(id) || a == Reset(id, true) || a == Reset(id, false))
    requires id in x.held && Path(id, x.held[id], w)
    ensures id in Next(capacity, x, a).held && Path(id, Next(capacity, x, a).held[id], w + [a])
  {
    hide NoneApproved;
    assert Lent(id) + [Release(id, false, false), CheckRelease(id)] + [a] ==
           Lent(id) + [Release(id, false, false), CheckRelease(id), a];
    if a.CheckRelease? {
      var n, r := x.held[id].needsReplace, x.held[id].restarted;
      assert Lent(id) + [Release(id, n, r)] + [a] == Lent(id) + [Release(id, n, r), a];
      assert [CheckTaken(id), Configure(id, false)] + [a] == [CheckTaken(id), Configure(id, false), a];
    }
  }

  lemma PathUses(capacity: nat, x: State, a: Action, id: Sandbox, w: seq<Action>)
    requires Placed(x) && Enabled(capacity, x, a) && ActsOn(a, id) && id in x.held && Path(id, x.held[id], w)
    requires !a.Delete? && !a.Remove? && !a.CheckReplace? && !a.CheckRelease? && !a.Reset?
    ensures id in Next(capacity, x, a).held ==> Path(id, Next(capacity, x, a).held[id], w + [a])
  {
    hide Failed, Distinct, Members;
    assert id in x.held.Keys && id in x.started;
  }

  lemma PathStep(capacity: nat, x: State, a: Action, id: Sandbox, w: seq<Action>)
    requires Placed(x) && Enabled(capacity, x, a) && ActsOn(a, id) && id in x.held && Path(id, x.held[id], w)
    ensures id in Next(capacity, x, a).held ==> Path(id, Next(capacity, x, a).held[id], w + [a])
  {
    hide Placed, Enabled, Path, Next;
    match a
    case Delete(_) => PathDelete(capacity, x, id, w);
    case Remove(_) => PathRemove(capacity, x, id, w);
    case CheckReplace(_) => PathCheck(capacity, x, id, w);
    case CheckRelease(_) => PathReleases(capacity, x, a, id, w);
    case Reset(_, _) => PathReleases(capacity, x, a, id, w);
    case _ => PathUses(capacity, x, a, id, w);
  }

  lemma RunStep(sandboxes: seq<Sandbox>, states: seq<State>, actions: seq<Action>, k: nat, id: Sandbox)
    requires Run(sandboxes, states, actions) && k < |states| && id in states[k].held
    ensures k > 0 && |states| == |actions| + 1
    ensures Placed(states[k - 1]) && Enabled(|sandboxes|, states[k - 1], actions[k - 1])
    ensures states[k] == Next(|sandboxes|, states[k - 1], actions[k - 1])
  {
    assert k > 0;
    RunInvariant(sandboxes, states, actions, k - 1);
    hide Next, Enabled, Placed;
  }

  /** How every held sandbox came to its stage, in every run. */
  lemma {:induction false} HeldBecause(sandboxes: seq<Sandbox>, states: seq<State>, actions: seq<Action>, k: nat,
                                       id: Sandbox)
    returns (j: nat)
    requires Run(sandboxes, states, actions) && k < |states| && id in states[k].held
    ensures Tenure(states, actions, id, j, k) && Path(id, states[k].held[id], Own(actions, id, j, k))
    decreases k
  {
    hide Path, Run, Next, Enabled, Placed, Begins;
    RunStep(sandboxes, states, actions, k, id);
    var capacity, x, a := |sandboxes|, states[k - 1], actions[k - 1];
    if id in x.held {
      j := HeldBecause(sandboxes, states, actions, k - 1, id);
      NotBegun(capacity, x, a, id);
      if ActsOn(a, id) {
        PathStep(capacity, x, a, id, Own(actions, id, j, k - 1));
      } else {
        Undisturbed(capacity, x, a, id);
        assert Own(actions, id, j, k - 1) + [] == Own(actions, id, j, k - 1);
      }
    } else {
      j := k;
      BegunNow(capacity, x, a, id);
    }
  }

  lemma NotBegun(capacity: nat, x: State, a: Action, id: Sandbox)
    requires Placed(x) && Enabled(capacity, x, a) && id in x.held
    ensures !Begins(x, a, id)
  {
    if a.Take? { assert x.available[0] in Members(x.available); }
    assert id in x.held.Keys;
  }

  lemma BegunNow(capacity: nat, x: State, a: Action, id: Sandbox)
    requires Enabled(capacity, x, a) && id !in x.held && id in Next(capacity, x, a).held
    ensures Begins(x, a, id) && Path(id, Next(capacity, x, a).held[id], [])
  {
  }

  /** Only healthy sandboxes go back into the channel: the one that is sent was restarted or reset
      with success since it was released, without any failure, or is a new one. */
  lemma SentBecauseHealthy(sandboxes: seq<Sandbox>, states: seq<State>, actions: seq<Action>, k: nat, id: Sandbox)
    returns (j: nat)
    requires Run(sandboxes, states, actions) && k < |actions| && actions[k] == Send(id)
    ensures Tenure(states, actions, id, j, k) && Succeeded(id, Own(actions, id, j, k))
  {
    assert Enabled(|sandboxes|, states[k], actions[k]);
    hide Run;
    j := HeldBecause(sandboxes, states, actions, k, id);
  }

  /** And in an open pool only failed ones are removed. */
  lemma RemovedBecauseFailed(sandboxes: seq<Sandbox>, states: seq<State>, actions: seq<Action>, k: nat, id: Sandbox)
    returns (j: nat)
    requires Run(sandboxes, states, actions) && k < |actions| && actions[k] == Delete(id) && states[k].phase.Open?
    ensures Tenure(states, actions, id, j, k) && Failed(id, Own(actions, id, j, k))
  {
    assert Enabled(|sandboxes|, states[k], actions[k]);
    RunInvariant(sandboxes, states, actions, k);
    hide Run, Slots, Responsible, Apart, Exclusive, Failed;
    j := HeldBecause(sandboxes, states, actions, k, id);
  }

  ghost predicate WentWell(states: seq<State>, actions: seq<Action>, id: Sandbox, k: nat)
    requires |states| == |actions| + 1 && k < |actions|
  {
    exists j: nat :: Tenure(states, actions, id, j, k) && Succeeded(id, Own(actions, id, j, k))
  }

  ghost predicate WentWrong(states: seq<State>, actions: seq<Action>, id: Sandbox, k: nat)
    requires |states| == |actions| + 1 && k < |actions|
  {
    exists j: nat :: Tenure(states, actions, id, j, k) && |Own(actions, id, j, k)| >= 3
                     && Failed(id, Own(actions, id, j, k)[..|Own(actions, id, j, k)| - 3])
  }

  /** Which of the two ways back a slot takes is decided by what happened to the sandbox: in every run
      it is sent after success only, and a replacement is registered after failure only. */
  lemma RightWayBack(sandboxes: seq<Sandbox>, states: seq<State>, actions: seq<Action>, k: nat, id: Sandbox)
    requires Run(sandboxes, states, actions) && k < |actions|
    ensures actions[k] == Send(id) ==> WentWell(states, actions, id, k)
    ensures actions[k] == Replace(id) ==> WentWrong(states, actions, id, k)
  {
    hide Run, Failed, Succeeded, NoneApproved, Next, Tenure, Own;
    RunNext(sandboxes, states, actions, k);
    if actions[k] == Send(id) || actions[k] == Replace(id) {
      var j := HeldBecause(sandboxes, states, actions, k, id);
    }
  }

  lemma FoundNow(capacity: nat, x: State, a: Action, id: Sandbox)
    requires Placed(x) && Enabled(capacity, x, a) && id in Next(capacity, x, a).held
    requires Next(capacity, x, a).held[id].Configuring? || Next(capacity, x, a).held[id].Resetting?
    requires ActsOn(a, id) || id !in x.held
    ensures x.phase.Open?
    ensures a == if Next(capacity, x, a).held[id].Configuring? then CheckTaken(id) else CheckRelease(id)
  {
    hide Distinct, Members;
  }

  /** A closed pool lends nothing and resets nothing: whoever configures or resets a sandbox has found
      the pool open. */
  lemma {:induction false} FoundOpen(sandboxes: seq<Sandbox>, states: seq<State>, actions: seq<Action>, k: nat,
                                     id: Sandbox)
    returns (c: nat)
    requires Run(sandboxes, states, actions) && k < |states| && id in states[k].held
    requires states[k].held[id].Configuring? || states[k].held[id].Resetting?
    ensures c < k && states[c].phase.Open?
    ensures actions[c] == if states[k].held[id].Configuring? then CheckTaken(id) else CheckRelease(id)
    decreases k
  {
    hide Run, Next, Enabled, Placed;
    RunStep(sandboxes, states, actions, k, id);
    var capacity, x, a := |sandboxes|, states[k - 1], actions[k - 1];
    if ActsOn(a, id) || id !in x.held {
      FoundNow(capacity, x, a, id);
      c := k - 1;
    } else {
      Undisturbed(capacity, x, a, id);
      c := FoundOpen(sandboxes, states, actions, k - 1, id);
    }
  }

  lemma RoomToSend(capacity: nat, x: State, id: Sandbox)
    requires Invariant(capacity, x) && id in x.held
    ensures |x.available| < capacity
  {
    SubsetSize({id}, x.held.Keys);
  }

  // ----- the pool object -----

  /** The pool's fields and the sections that change them; each is one step of the protocol. */
  class ExecutorSandboxPool {
    const capacity: nat
    var available: seq<Sandbox>
    var all: set<Sandbox>
    var starting: nat
    var phase: Phase
    ghost var held: map<Sandbox, Stage>
    ghost var sleeping: nat
    ghost var doomed: set<Sandbox>
    ghost var started: set<Sandbox>
    ghost var removed: set<Sandbox>

    constructor (sandboxes: seq<Sandbox>)
      ensures capacity == |sandboxes| && Now() == Initial(sandboxes)
    {
      all := set i | 0 <= i < |sandboxes| :: sandboxes[i];
      capacity, available, starting, phase := |sandboxes|, sandboxes, 0, Open;
      held, sleeping, doomed, started, removed := map[], 0, {}, Members(sandboxes), {};
    }

    ghost function Now(): State
      reads this
    {
      State(phase, available, all, starting, held, sleeping, doomed, started, removed)
    }

    /** Receives from the channel. */
    method Receive() returns (sandbox: Sandbox)
      requires |available| > 0
      modifies this
      ensures Now() == Next(capacity, old(Now()), Take) && sandbox == old(available[0])
      ensures available == old(available)[1..] && held == old(held)[sandbox := Taken]
    {
      sandbox := available[0];
      available := available[1..];
      held := held[sandbox := Taken];
    }

    /** The send of a sandbox that is given back; with the invariant it has room. */
    method SendBack(sandbox: Sandbox)
      requires Invariant(capacity, Now()) && ReturningAt(Now(), sandbox)
      modifies this
      ensures Now() == Next(capacity, old(Now()), Send(sandbox)) && |available| <= capacity
      ensures available == old(available) + [sandbox] && held == old(held) - {sandbox}
    {
      RoomToSend(capacity, Now(), sandbox);
      available := available + [sandbox];
      held := held - {sandbox};
    }

    /** The first half of removeSandbox: the pool forgets the sandbox. */
    method Forget(sandbox: Sandbox)
      requires sandbox in held && held[sandbox].Deleting? && NoneApproved(Now())
      modifies this
      ensures Now() == Next(capacity, old(Now()), Delete(sandbox))
      ensures all == old(all) - {sandbox} && held[sandbox].next == old(held)[sandbox].next
    {
      all := all - {sandbox};
      held := held[sandbox := Removing(held[sandbox].next, held[sandbox].counted)];
    }

    /** Registers a replacement with the counter and the wait group. */
    method BeginReplacement(sandbox: Sandbox)
      requires Is(Now(), sandbox, Approved)
      modifies this
      ensures Now() == Next(capacity, old(Now()), Replace(sandbox))
      ensures starting == old(starting) + 1 && held == old(held) - {sandbox}
    {
      starting := starting + 1;
      sleeping := sleeping + 1;
      held := held - {sandbox};
    }

    method EndStarting(sandbox: Sandbox)
      requires starting > 0 && Is(Now(), sandbox, New) && NoneApproved(Now())
      modifies this
      ensures Now() == Next(capacity, old(Now()), CountDown(sandbox))
      ensures starting == old(starting) - 1 && all == old(all)
    {
      starting := starting - 1;
      held := held[sandbox := Uncounted];
    }

    method AddSandbox(sandbox: Sandbox)
      requires Is(Now(), sandbox, Uncounted) && NoneApproved(Now())
      modifies this
      ensures Now() == Next(capacity, old(Now()), Add(sandbox))
      ensures all == old(all) + {sandbox} && ReturningAt(Now(), sandbox)
    {
      all := all + {sandbox};
      held := held[sandbox := Returning(true)];
    }

    /** Close's wait for the replacement goroutines. */
    method FinishWait()
      requires phase.Closing? && NoneWorking(Now())
      modifies this
      ensures Now() == Next(capacity, old(Now()), WaitReturns)
    {
      phase := Waited;
    }

    /** Close's list: everything the pool owns when the mutex is free after that. */
    method CollectAll() returns (sandboxes: set<Sandbox>)
      requires phase.Waited? && NoneApproved(Now())
      modifies this
      ensures Now() == Next(capacity, old(Now()), Collect) && sandboxes == old(all)
    {
      sandboxes := all;
      doomed := all;
      all := {};
      phase := Collected;
    }

    /** The figures of Stats: in an open pool, busy counts the sandboxes that goroutines hold. */
    method Stats() returns (total: nat, free: nat, busy: int, pending: nat)
      requires Invariant(capacity, Now())
      ensures total == capacity && free == |available| && pending == starting && busy == total - free - pending
      ensures phase.Open? ==> busy == |held.Keys - Fresh(Now())|
    {
      total, free, pending := capacity, |available|, starting;
      busy := total - free - pending;
      assert Fresh(Now()) <= held.Keys;
      assert held.Keys == (held.Keys - Fresh(Now())) + Fresh(Now());
    }
  }
}
