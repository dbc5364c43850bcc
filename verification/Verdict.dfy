/** From test cases to a result: the supervisor's case loop, its result stream, the decoder,
    and the verdict loop. */
module Verdict {
  import opened Options

  /** What running one case gives; times in milliseconds, memory in KiB. */
  datatype Run =
    Run(stdout: string, stderr: string, exitCode: int, timedOut: bool, outputLimit: bool, cpuMs: int, maxRssKb: int)

  predicate Stops(r: Run) { r.exitCode != 0 || r.timedOut || r.outputLimit }

  predicate Measured(r: Run) { r.cpuMs >= 0 && r.maxRssKb >= 0 }

  // ----- the supervisor and its stream -----

  /** One JSON value of the supervisor's output: a result with all its fields, or anything else. */
  datatype Message = Reported(run: Run) | Malformed

  /** Results up to the first case that stops the loop. */
  function Batch(runs: seq<Run>): (r: seq<Run>)
    ensures r <= runs && (runs != [] ==> r != [])
  {
    if runs == [] then []
    else if Stops(runs[0]) then [runs[0]]
    else [runs[0]] + Batch(runs[1..])
  }

  function Stream(runs: seq<Run>): (m: seq<Message>)
    ensures |m| == |runs| && forall i :: 0 <= i < |m| ==> m[i] == Reported(runs[i])
  {
    seq(|runs|, i requires 0 <= i < |runs| => Reported(runs[i]))
  }

  lemma {:induction false} BatchSnoc(runs: seq<Run>, k: nat)
    requires k < |runs| && forall i :: 0 <= i < k ==> !Stops(runs[i])
    ensures Batch(runs[..k]) == runs[..k]
    ensures Stops(runs[k]) ==> Batch(runs) == runs[..k + 1]
    decreases k
  {
    if k == 0 {
      assert runs[..1] == [runs[0]];
    } else {
      assert runs[1..][..k - 1] == runs[1..k] && runs[..k][1..] == runs[1..k] && runs[1..][..k] == runs[1..k + 1];
      BatchSnoc(runs[1..], k - 1);
    }
  }

  lemma {:induction false} BatchWhole(runs: seq<Run>)
    requires forall i :: 0 <= i < |runs| ==> !Stops(runs[i])
    ensures Batch(runs) == runs
    decreases |runs|
  {
    if runs != [] { BatchWhole(runs[1..]); }
  }

  /** One round of the supervisor: the run, and whether the resets, the cleanup and the validation
      around it succeeded. */
  datatype Round = Round(run: Run, reset: bool, cleaned: bool, valid: bool)

  predicate Clean(r: Round) { r.reset && r.cleaned && r.valid }

  function Runs(rounds: seq<Round>): (runs: seq<Run>)
    ensures |runs| == |rounds| && forall i :: 0 <= i < |rounds| ==> runs[i] == rounds[i].run
  {
    seq(|rounds|, i requires 0 <= i < |rounds| => rounds[i].run)
  }

  /** Every round up to the stop is clean. */
  predicate Intact(rounds: seq<Round>) { forall i :: 0 <= i < |Batch(Runs(rounds))| ==> Clean(rounds[i]) }

  /** The supervisor's case loop: it reports the runs up to the stop and fails exactly when a round
      up to there is not clean. */
  method Supervise(rounds: seq<Round>) returns (output: seq<Message>, ok: bool)
    ensures ok <==> Intact(rounds)
    ensures ok ==> output == Stream(Batch(Runs(rounds)))
    ensures ok ==> forall i :: 0 <= i < |output| - 1 ==>
              rounds[i].run.exitCode == 0 && !rounds[i].run.timedOut && !rounds[i].run.outputLimit
    ensures ok && 0 < |output| < |rounds| ==>
              var last := rounds[|output| - 1].run; last.exitCode != 0 || last.timedOut || last.outputLimit
    ensures !ok ==> exists k: nat :: k < |rounds| && !Clean(rounds[k]) && output == Stream(Runs(rounds)[..k])
  {
    hide Clean, Intact, Batch;
    ghost var runs := Runs(rounds);
    output := [];
    for i := 0 to |rounds|
      invariant output == Stream(runs[..i]) && forall k :: 0 <= k < i ==> !Stops(runs[k]) && Clean(rounds[k])
    {
      ok := RunRound(rounds[i]);
      if !ok {
        Broken(rounds, i);
        return;
      }
      assert Stream(runs[..i + 1]) == Stream(runs[..i]) + [Reported(runs[i])];
      output := output + [Reported(rounds[i].run)];
      if rounds[i].run.exitCode != 0 || rounds[i].run.timedOut || rounds[i].run.outputLimit {
        Stopped(rounds, i);
        return;
      }
    }
    assert runs[..|runs|] == runs;
    BatchWhole(runs);
    Unstopped(rounds);
    ok := true;
  }

  lemma Broken(rounds: seq<Round>, i: nat)
    requires i < |rounds| && !Clean(rounds[i]) && forall k :: 0 <= k < i ==> !Stops(Runs(rounds)[k])
    ensures !Intact(rounds)
  {
    BatchReaches(Runs(rounds), i);
  }

  lemma Stopped(rounds: seq<Round>, i: nat)
    requires i < |rounds| && Stops(Runs(rounds)[i]) && forall k :: 0 <= k < i ==> !Stops(Runs(rounds)[k])
    requires forall k :: 0 <= k <= i ==> Clean(rounds[k])
    ensures Intact(rounds) && Batch(Runs(rounds)) == Runs(rounds)[..i + 1]
  {
    BatchSnoc(Runs(rounds), i);
  }

  lemma Unstopped(rounds: seq<Round>)
    requires forall k :: 0 <= k < |rounds| ==> Clean(rounds[k])
    ensures Intact(rounds)
  {
    assert |Batch(Runs(rounds))| <= |rounds|;
  }

  /** The steps around one run, in order; each failure ends the supervisor. */
  method RunRound(r: Round) returns (ok: bool)
    ensures ok == Clean(r)
  {
    if !r.reset { return false; }
    if !r.cleaned { return false; }
    if !r.valid { return false; }
    return true;
  }

  lemma {:induction false} BatchReaches(runs: seq<Run>, k: nat)
    requires k < |runs| && forall i :: 0 <= i < k ==> !Stops(runs[i])
    ensures k < |Batch(runs)|
    decreases k
  {
    if k > 0 { BatchReaches(runs[1..], k - 1); }
  }

  /** What a decoded stream is: enough results, or fewer and the last one stops the run. */
  ghost predicate Complete(results: seq<Run>, expected: nat) {
    && 0 < |results| <= expected
    && (forall i :: 0 <= i < |results| ==> Measured(results[i]))
    && (forall i :: 0 <= i < |results| - 1 ==> !Stops(results[i]))
    && (|results| < expected ==> Stops(results[|results| - 1]))
  }

  method Decode(output: seq<Message>, expected: nat) returns (r: Option<seq<Run>>)
    ensures r.Some? <==> exists results :: Complete(results, expected) && output == Stream(results)
    ensures r.Some? ==> Complete(r.value, expected) && output == Stream(r.value)
    ensures r.Some? ==> forall i :: 0 <= i < |r.value| ==> r.value[i].cpuMs >= 0 && r.value[i].maxRssKb >= 0
    ensures r.Some? && 0 < |r.value| < expected ==>
              var last := r.value[|r.value| - 1]; last.exitCode != 0 || last.timedOut || last.outputLimit
  {
    var results: seq<Run> := [];
    while |results| < expected
      invariant |results| <= |output| && |results| <= expected && forall i :: 0 <= i < |results| ==>
                output[i] == Reported(results[i])
      invariant forall i :: 0 <= i < |results| ==> Measured(results[i]) && !Stops(results[i])
      decreases expected - |results|
    {
      var i := |results|;
      if i == |output| {
        Refused(output, results, expected);
        return None;
      }
      if output[i].Malformed? { return None; }
      if output[i].run.cpuMs < 0 || output[i].run.maxRssKb < 0 {
        BadMeasure(output, i, expected);
        return None;
      }
      results := results + [output[i].run];
      if Stops(output[i].run) { break; }
    }
    if |results| == 0 {
      return None;
    }
    if |results| < |output| {
      Trailing(output, results, expected);
      return None;
    }
    assert output == Stream(results);
    return Some(results);
  }

  lemma {:induction false} Refused(output: seq<Message>, results: seq<Run>, expected: nat)
    requires |results| == |output| < expected && forall i :: 0 <= i < |results| ==>
             output[i] == Reported(results[i]) && !Stops(results[i])
    ensures forall other :: Complete(other, expected) ==> output != Stream(other)
  {
    forall other | Complete(other, expected) ensures output != Stream(other) {
      assert Stream(other)[|other| - 1] == Reported(other[|other| - 1]);
    }
  }

  lemma {:induction false} BadMeasure(output: seq<Message>, i: nat, expected: nat)
    requires i < |output| && output[i].Reported? && !Measured(output[i].run)
    ensures forall other :: Complete(other, expected) ==> output != Stream(other)
  {
  }

  lemma {:induction false} Trailing(output: seq<Message>, results: seq<Run>, expected: nat)
    requires 0 < |results| < |output| && |results| <= expected && forall i :: 0 <= i < |results| ==>
             output[i] == Reported(results[i])
    requires |results| == expected || Stops(results[|results| - 1])
    ensures forall other :: Complete(other, expected) ==> output != Stream(other)
  {
    forall other | Complete(other, expected) ensures output != Stream(other) {
      assert |other| >= |results| ==> Stream(other)[|results| - 1] == Reported(other[|results| - 1]);
    }
  }

  // ----- the verdict loop -----

  /** A test case: its number and the expected output, None when that cannot be computed. */
  datatype Case = Case(id: int, expected: Option<string>)

  datatype Status =
    | Accepted
    | WrongAnswer
    | TimeLimitExceeded
    | MemoryLimitExceeded
    | OutputLimitExceeded
    | RuntimeError

  /** Memory in bytes; the source divides by 2^20 for display. */
  datatype Result = Result(status: Status, passed: nat, total: nat, runtimeMs: int, memoryBytes: int,
                           failed: Option<(int, string)>, message: string)

  datatype Answer = Judged(result: Result) | NoResult(id: int) | BadExpectation(id: int) | SupervisorFailed

  /** The judge's job: memory limit, and how outputs are trimmed and compared. */
  datatype Job = Job(memoryLimitMb: nat, trim: string -> string, equal: (string, string) -> bool)

  function Bytes(r: Run): int { r.maxRssKb * 1024 }

  /** A case passes when its run ends well and prints what is expected, both trimmed. */
  predicate Passes(job: Job, c: Case, r: Run) {
    && !r.outputLimit && !r.timedOut && r.exitCode == 0
    && c.expected.Some? && job.equal(job.trim(r.stdout), job.trim(c.expected.value))
  }

  /** What the source promises about a case that does not pass, field by field. */
  ghost predicate Blames(job: Job, c: Case, r: Run, memory: int, passed: nat, total: nat, a: Answer) {
    var ended := !r.outputLimit && !r.timedOut;
    var nearLimit := r.exitCode == -1 && job.memoryLimitMb > 0
                     && r.maxRssKb * 1024 >= job.memoryLimitMb * 1024 * 1024 * 9 / 10;
    if ended && r.exitCode == 0 && c.expected.None? then a == BadExpectation(c.id)
    else
      a.Judged? &&
      var x := a.result;
      && (x.status.OutputLimitExceeded? <==> r.outputLimit)
      && (x.status.TimeLimitExceeded? <==> !r.outputLimit && r.timedOut)
      && (x.status.MemoryLimitExceeded? <==> ended && nearLimit)
      && (x.status.RuntimeError? <==> ended && !nearLimit && r.exitCode != 0)
      && (x.status.WrongAnswer? <==> ended && r.exitCode == 0)
      && x.passed == passed && x.total == total && x.runtimeMs == r.cpuMs && x.memoryBytes == memory
      && x.failed == Some((c.id, job.trim(if ended && r.exitCode == 0 then job.trim(r.stdout) else r.stdout)))
      && (x.status.RuntimeError? ==> x.message == r.stderr)
      && (x.status.OutputLimitExceeded? ==> x.message == "program output exceeded the allowed limit")
      && (!x.status.RuntimeError? && !x.status.OutputLimitExceeded? ==> x.message == "")
  }

  function MaxTime(runs: seq<Run>, n: nat): int
    requires n <= |runs|
  {
    if n == 0 then 0 else var m := MaxTime(runs, n - 1); if runs[n - 1].cpuMs > m then runs[n - 1].cpuMs else m
  }

  function MaxBytes(runs: seq<Run>, n: nat): int
    requires n <= |runs|
  {
    if n == 0 then 0 else var m := MaxBytes(runs, n - 1); if Bytes(runs[n - 1]) > m then Bytes(runs[n - 1]) else m
  }

  /** Case `k` is the first that does not pass, and the answer says so. */
  ghost predicate FailsAt(job: Job, cases: seq<Case>, runs: seq<Run>, k: nat, a: Answer)
    requires k < |cases| && k < |runs|
  {
    !Passes(job, cases[k], runs[k]) && Blames(job, cases[k], runs[k], MaxBytes(runs, k + 1), k, |cases|, a)
  }

  function Accepts(cases: seq<Case>, runs: seq<Run>): Answer
    requires |cases| <= |runs|
  {
    Judged(Result(Accepted, |cases|, |cases|, MaxTime(runs, |cases|), MaxBytes(runs, |cases|), None, ""))
  }

  ghost predicate AllPass(job: Job, cases: seq<Case>, runs: seq<Run>, k: nat) {
    k <= |cases| && k <= |runs| && forall i :: 0 <= i < k ==> Passes(job, cases[i], runs[i])
  }

  /** What the source promises: the first case that does not pass decides; if there is none,
      the answer is acceptance with the maxima over all cases. */
  ghost predicate Correct(job: Job, cases: seq<Case>, runs: seq<Run>, a: Answer) {
    if AllPass(job, cases, runs, |cases|) then a == Accepts(cases, runs)
    else exists k: nat :: AllPass(job, cases, runs, k) && k < |cases| &&
           if k < |runs| then FailsAt(job, cases, runs, k, a)
           else a == NoResult(cases[k].id)
  }

  /** The loop over the test cases, on results that are there beforehand. */
  method JudgeBatch(job: Job, cases: seq<Case>, results: seq<Run>) returns (a: Answer)
    ensures Correct(job, cases, results, a)
  {
    var maxRuntimeMs, maxMemoryBytes, passed: nat := 0, 0, 0;
    for i := 0 to |cases|
      invariant AllPass(job, cases, results, i) && passed == i
      invariant maxRuntimeMs == MaxTime(results, i) && maxMemoryBytes == MaxBytes(results, i)
    {
      if i >= |results| { return NoResult(cases[i].id); }
      var step;
      step, maxMemoryBytes := JudgeCase(job, cases[i], results[i], maxMemoryBytes, passed, |cases|);
      if step.Some? {
        assert FailsAt(job, cases, results, i, step.value);
        return step.value;
      }
      passed := passed + 1;
      if results[i].cpuMs > maxRuntimeMs { maxRuntimeMs := results[i].cpuMs; }
    }
    return Judged(Result(Accepted, passed, |cases|, maxRuntimeMs, maxMemoryBytes, None, ""));
  }

  /** The body of the loop: None when the case passes. */
  method JudgeCase(job: Job, c: Case, r: Run, memoryBefore: int, passed: nat, total: nat)
    returns (step: Option<Answer>, memory: int)
    ensures memory == if Bytes(r) > memoryBefore then Bytes(r) else memoryBefore
    ensures step.None? <==> Passes(job, c, r)
    ensures step.Some? ==> Blames(job, c, r, memory, passed, total, step.value)
  {
    memory := memoryBefore;
    if Bytes(r) > memory { memory := Bytes(r); }
    var shown := Some((c.id, job.trim(r.stdout)));
    if r.outputLimit {
      return Some(Judged(Result(OutputLimitExceeded, passed, total, r.cpuMs, memory, shown,
                                "program output exceeded the allowed limit"))), memory;
    }
    if r.timedOut { return Some(Judged(Result(TimeLimitExceeded, passed, total, r.cpuMs, memory, shown, ""))), memory; }
    if r.exitCode == -1 && job.memoryLimitMb > 0 && Bytes(r) >= job.memoryLimitMb * 1024 * 1024 * 9 / 10 {
      return Some(Judged(Result(MemoryLimitExceeded, passed, total, r.cpuMs, memory, shown, ""))), memory;
    }
    if r.exitCode != 0 {
      return Some(Judged(Result(RuntimeError, passed, total, r.cpuMs, memory, shown, r.stderr))), memory;
    }
    var output := job.trim(r.stdout);
    if c.expected.None? { return Some(BadExpectation(c.id)), memory; }
    if !job.equal(output, job.trim(c.expected.value)) {
      shown := Some((c.id, job.trim(output)));
      return Some(Judged(Result(WrongAnswer, passed, total, r.cpuMs, memory, shown, ""))), memory;
    }
    return None, memory;
  }

  function Outcomes<T>(oracle: nat -> T, n: nat): (r: seq<T>)
    ensures |r| == n && forall i :: 0 <= i < n ==> r[i] == oracle(i)
  {
    seq(n, i requires 0 <= i => oracle(i))
  }

  /** The same loop, running the cases one at a time as it gets to them. */
  method JudgeOneByOne(job: Job, cases: seq<Case>, oracle: nat -> Run) returns (a: Answer)
    ensures Correct(job, cases, Outcomes(oracle, |cases|), a)
  {
    var maxRuntimeMs, maxMemoryBytes, passed: nat := 0, 0, 0;
    ghost var runs := Outcomes(oracle, |cases|);
    for i := 0 to |cases|
      invariant AllPass(job, cases, runs, i) && passed == i
      invariant maxRuntimeMs == MaxTime(runs, i) && maxMemoryBytes == MaxBytes(runs, i)
    {
      var r := oracle(i);
      var step;
      step, maxMemoryBytes := JudgeCase(job, cases[i], r, maxMemoryBytes, passed, |cases|);
      if step.Some? {
        assert FailsAt(job, cases, runs, i, step.value);
        return step.value;
      }
      passed := passed + 1;
      if r.cpuMs > maxRuntimeMs { maxRuntimeMs := r.cpuMs; }
    }
    return Judged(Result(Accepted, passed, |cases|, maxRuntimeMs, maxMemoryBytes, None, ""));
  }

  // ----- refinement -----

  lemma {:induction false} MaximaPrefix(a: seq<Run>, b: seq<Run>, n: nat)
    requires a <= b && n <= |a|
    ensures MaxTime(a, n) == MaxTime(b, n) && MaxBytes(a, n) == MaxBytes(b, n)
    decreases n
  {
    if n > 0 { MaximaPrefix(a, b, n - 1); }
  }

  /** The answer is determined: there is only one first failing case. */
  lemma {:induction false} CorrectUnique(job: Job, cases: seq<Case>, runs: seq<Run>, a: Answer, b: Answer)
    requires Correct(job, cases, runs, a) && Correct(job, cases, runs, b)
    ensures a == b
  {
  }

  lemma {:induction false} BatchStops(runs: seq<Run>)
    ensures var r := Batch(runs);
            (forall i :: 0 <= i < |r| - 1 ==> !Stops(r[i])) && (|r| < |runs| ==> r != [] && Stops(r[|r| - 1]))
    decreases |runs|
  {
    if runs != [] && !Stops(runs[0]) { BatchStops(runs[1..]); }
  }

  lemma {:induction false} BatchComplete(runs: seq<Run>)
    requires runs != []
    ensures Complete(Batch(runs), |runs|) <==> AllMeasured(Batch(runs))
  {
    BatchStops(runs);
  }

  lemma StoppingFails(job: Job, c: Case, r: Run)
    requires Stops(r)
    ensures !Passes(job, c, r)
  {
  }

  /** After any successful decode the verdict loop finds a result for every case it looks at. */
  lemma {:induction false} NoResultUnreachable(job: Job, cases: seq<Case>, results: seq<Run>, a: Answer)
    requires Complete(results, |cases|) && Correct(job, cases, results, a)
    ensures !a.NoResult?
  {
    if |results| < |cases| { StoppingFails(job, cases[|results| - 1], results[|results| - 1]); }
  }

  lemma PrefixFails(job: Job, cases: seq<Case>, batch: seq<Run>, runs: seq<Run>, k: nat, a: Answer)
    requires batch <= runs && |runs| == |cases| && k < |batch| && AllPass(job, cases, batch, k)
    requires FailsAt(job, cases, batch, k, a)
    ensures AllPass(job, cases, runs, k) && FailsAt(job, cases, runs, k, a) && !AllPass(job, cases, runs, |cases|)
  {
    hide Blames, Passes;
    MaximaPrefix(batch, runs, k + 1);
    assert batch[k] == runs[k];
  }

  /** Judging the batch is judging all cases: the cases after the batch never matter. */
  lemma {:induction false} BatchRefines(job: Job, cases: seq<Case>, runs: seq<Run>, a: Answer)
    requires |runs| == |cases| && Correct(job, cases, Batch(runs), a) && cases != []
    ensures Correct(job, cases, runs, a)
  {
    hide Passes, FailsAt, Batch, Stops;
    var batch := Batch(runs);
    BatchStops(runs);
    if AllPass(job, cases, batch, |cases|) {
      assert batch == runs;
    } else {
      var k: nat :| AllPass(job, cases, batch, k) && k < |cases| &&
        if k < |batch| then FailsAt(job, cases, batch, k, a) else a == NoResult(cases[k].id);
      if |batch| < |runs| { StoppingFails(job, cases[|batch| - 1], batch[|batch| - 1]); }
      PrefixFails(job, cases, batch, runs, k, a);
    }
  }

  predicate AllMeasured(runs: seq<Run>) { forall i :: 0 <= i < |runs| ==> Measured(runs[i]) }

  /** Supervisor, stream, decoder and verdict loop together give the answer of judging the cases
      one at a time, whatever the program does; they fail exactly when some round up to the stop is
      not clean or reports a negative measurement. */
  method JudgeSupervised(job: Job, cases: seq<Case>, oracle: nat -> Round) returns (a: Answer)
    ensures var rounds := Outcomes(oracle, |cases|);
            if Intact(rounds) && AllMeasured(Batch(Runs(rounds)))
            then !a.NoResult? && Correct(job, cases, Runs(rounds), a)
            else a == SupervisorFailed
  {
    hide Correct, Complete, Batch, Intact;
    var rounds := Outcomes(oracle, |cases|);
    ghost var runs := Runs(rounds);
    if |cases| == 0 {
      a := NoCases(job, rounds, cases);
      return;
    }
    var output, ok := Supervise(rounds);
    if !ok { return SupervisorFailed; }
    var results := Decode(output, |cases|);
    if results.None? {
      BatchComplete(runs);
      return SupervisorFailed;
    }
    SameStream(results.value, Batch(runs));
    CompleteMeasured(results.value, |cases|);
    a := JudgeBatch(job, cases, results.value);
    NoResultUnreachable(job, cases, results.value, a);
    BatchRefines(job, cases, runs, a);
  }

  method NoCases(job: Job, ghost rounds: seq<Round>, cases: seq<Case>) returns (a: Answer)
    requires cases == [] && rounds == []
    ensures Intact(rounds) && AllMeasured(Batch(Runs(rounds))) && !a.NoResult? && Correct(job, cases, Runs(rounds), a)
  {
    a := JudgeBatch(job, cases, []);
    assert Runs(rounds) == [];
  }

  lemma CompleteMeasured(results: seq<Run>, expected: nat)
    requires Complete(results, expected)
    ensures AllMeasured(results)
  {
  }

  lemma {:induction false} SameStream(a: seq<Run>, b: seq<Run>)
    requires Stream(a) == Stream(b)
    ensures a == b
  {
    forall i | 0 <= i < |a| ensures a[i] == b[i] { assert Stream(a)[i] == Stream(b)[i]; }
  }

  /** The number of passed cases is the position of the first failing one, and an accepted
      result means that every case passed. */
  lemma {:induction false} PassedIsFirstFailure(job: Job, cases: seq<Case>, runs: seq<Run>, a: Answer)
    requires Correct(job, cases, runs, a) && a.Judged? && |cases| <= |runs|
    ensures a.result.total == |cases| && a.result.passed <= |cases|
    ensures forall i :: 0 <= i < a.result.passed ==> Passes(job, cases[i], runs[i])
    ensures a.result.status.Accepted? <==> a.result.passed == |cases|
    ensures a.result.passed < |cases| ==> !Passes(job, cases[a.result.passed], runs[a.result.passed])
  {
  }

  /** An accepted result reports the largest time and memory of all cases. */
  lemma {:induction false} MaximaBound(runs: seq<Run>, n: nat)
    requires n <= |runs|
    ensures forall i :: 0 <= i < n ==> runs[i].cpuMs <= MaxTime(runs, n) && Bytes(runs[i]) <= MaxBytes(runs, n)
    ensures MaxTime(runs, n) == 0 || exists i :: 0 <= i < n && runs[i].cpuMs == MaxTime(runs, n)
    ensures MaxBytes(runs, n) == 0 || exists i :: 0 <= i < n && Bytes(runs[i]) == MaxBytes(runs, n)
    decreases n
  {
    if n > 0 { MaximaBound(runs, n - 1); }
  }
}
