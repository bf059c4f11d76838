/** Whole runs of the encode threads, told by their steps alone: what the checksum counts, that every run is
  finite, and that every run can be brought to its end. */
module EncodeRuns {
  import opened Wrappers
  import opened Words
  import opened EncodeThreads

  // ---- What the checksum counts

  /** The number of serializations in a run. */
  function EncodeSteps(steps: seq<Step>): nat {
    if steps == [] then 0 else
      EncodeSteps(steps[..|steps| - 1]) + if Encodes(steps[|steps| - 1]) then 1 else 0
  }

  /** The number of those that succeed. */
  function OkSteps(steps: seq<Step>): nat {
    if steps == [] then 0 else
      var last := steps[|steps| - 1];
      OkSteps(steps[..|steps| - 1]) + if Encodes(last) && last.ok then 1 else 0
  }

  /** The serializations that the workers have begun. */
  function Begun(workers: seq<Worker>): nat {
    if workers == [] then 0 else BegunBy(workers[0]) + Begun(workers[1..])
  }

  function BegunBy(w: Worker): nat {
    w.i + if w.place.Encoded? || w.place.Adding? then 1 else 0
  }

  lemma {:induction false} SumsUpdate(workers: seq<Worker>, t: nat, w: Worker)
    requires t < |workers|
    ensures Successes(workers[t := w]) + workers[t].successes == Successes(workers) + w.successes
    ensures Begun(workers[t := w]) + BegunBy(workers[t]) == Begun(workers) + BegunBy(w)
  {
    if t == 0 {
      assert workers[0 := w][1..] == workers[1..];
    } else {
      assert workers[t := w][1..] == workers[1..][t - 1 := w];
      SumsUpdate(workers[1..], t - 1, w);
    }
  }

  predicate IsNew(w: Worker) {
    w == Worker(Starting, 0, 0, 0)
  }

  lemma {:induction false} NothingBegun(workers: seq<Worker>)
    requires forall w :: w in workers ==> IsNew(w)
    ensures Successes(workers) == Begun(workers) == 0
  {
    if workers != [] {
      assert workers[0] in workers;
      NothingBegun(workers[1..]);
    }
  }

  lemma StepCounts(c: Setup, s: State, step: Step)
    requires Accepts(c) && Enabled(c, s, step)
    ensures Successes(Apply(c, s, step).workers) == Successes(s.workers) + OkSteps([step])
    ensures Begun(Apply(c, s, step).workers) == Begun(s.workers) + EncodeSteps([step])
  {
    assert [step][..0] == [];
    if step != MainArrives {
      SumsUpdate(s.workers, step.t, Moved(c, s, step, s.workers[step.t]));
    }
  }

  /** The workers' counters are the counts of the run's steps. */
  lemma {:induction false} RunCounts(c: Setup, steps: seq<Step>)
    requires Accepts(c) && After(c, steps).Some?
    ensures Successes(After(c, steps).value.workers) == OkSteps(steps)
    ensures Begun(After(c, steps).value.workers) == EncodeSteps(steps)
  {
    if steps == [] {
      NothingBegun(Init(c).workers);
    } else {
      var init, last := steps[..|steps| - 1], steps[|steps| - 1];
      RunCounts(c, init);
      StepCounts(c, After(c, init).value, last);
      assert [last][..0] == [];
    }
  }

  lemma {:induction false} EqualShares(workers: seq<Worker>, quota: nat)
    requires forall w :: w in workers ==> w.place == Finished && w.i == quota
    ensures Begun(workers) == |workers| * quota
  {
    if workers != [] {
      EqualShares(workers[1..], quota);
      MulDistributes(1, |workers| - 1, quota);
    }
  }

  lemma SharesMakeWhole(c: Setup)
    requires Accepts(c)
    ensures c.threads * Quota(c) == c.iterations
  {
  }

  /** Every serialization of the run succeeds. */
  ghost predicate AllOk(steps: seq<Step>) {
    forall step :: step in steps && Encodes(step) ==> step.ok
  }

  lemma {:induction false} OkStepsBounded(steps: seq<Step>)
    ensures OkSteps(steps) <= EncodeSteps(steps)
    ensures AllOk(steps) ==> OkSteps(steps) == EncodeSteps(steps)
  {
    if steps != [] {
      OkStepsBounded(steps[..|steps| - 1]);
      assert steps[|steps| - 1] in steps;
    }
  }

  /** At join exactly the configured number of serializations has been made, and the checksum is the bytes of
    those that succeeded, whatever the mode and the interleaving. */
  lemma ChecksumAtJoin(c: Setup, steps: seq<Step>, s: State)
    requires Accepts(c) && After(c, steps) == Some(s) && Joined(s)
    ensures EncodeSteps(steps) == c.iterations && OkSteps(steps) <= c.iterations
    ensures s.checksum == OkSteps(steps) * c.bytes % WORD
  {
    RunKeepsInv(c, steps);
    RunCounts(c, steps);
    QuotaBounds(c, s);
    EqualShares(s.workers, Quota(c));
    SharesMakeWhole(c);
    OkStepsBounded(steps);
    ChecksumOfWorkers(c, s);
    WordSumIsProduct(OkSteps(steps), c.bytes);
  }

  /** When every serialization of the run succeeds the checksum is iterations * bytes. */
  lemma FullChecksumAtJoin(c: Setup, steps: seq<Step>, s: State)
    requires Accepts(c) && After(c, steps) == Some(s) && Joined(s)
    requires AllOk(steps)
    ensures s.checksum == c.iterations * c.bytes % WORD
  {
    ChecksumAtJoin(c, steps, s);
    OkStepsBounded(steps);
  }

  // ---- Every run ends

  /** A bound on the steps a worker can still take. */
  function StepsLeft(c: Setup, w: Worker): nat
    requires Accepts(c) && w.i <= Quota(c)
  {
    5 * (Quota(c) - w.i) + match w.place
                           case Starting => 6
                           case AtBarrier => 5
                           case Looping => 4
                           case InBuffer => 3
                           case Encoded(_) => 2
                           case Adding(_) => 1
                           case InChecksum => 3
                           case Loaded(_) => 2
                           case Stored => 1
                           case Finished => 0
  }

  predicate WithinQuota(c: Setup, workers: seq<Worker>)
    requires Accepts(c)
  {
    forall w :: w in workers ==> w.i <= Quota(c)
  }

  function AllStepsLeft(c: Setup, workers: seq<Worker>): nat
    requires Accepts(c) && WithinQuota(c, workers)
  {
    if workers == [] then 0 else
      assert workers[0] in workers;
      StepsLeft(c, workers[0]) + AllStepsLeft(c, workers[1..])
  }

  function Remaining(c: Setup, s: State): nat
    requires Accepts(c) && WithinQuota(c, s.workers)
  {
    AllStepsLeft(c, s.workers) + if s.mainArrived then 0 else 1
  }

  lemma {:induction false} StepsLeftUpdate(c: Setup, workers: seq<Worker>, t: nat, w: Worker)
    requires Accepts(c) && WithinQuota(c, workers) && t < |workers| && w.i <= Quota(c)
    ensures WithinQuota(c, workers[t := w]) && workers[t].i <= Quota(c)
    ensures AllStepsLeft(c, workers[t := w]) + StepsLeft(c, workers[t]) ==
            AllStepsLeft(c, workers) + StepsLeft(c, w)
  {
    assert workers[t] in workers;
    if t == 0 {
      assert workers[0 := w][1..] == workers[1..];
    } else {
      assert workers[t := w][1..] == workers[1..][t - 1 := w];
      StepsLeftUpdate(c, workers[1..], t - 1, w);
    }
  }

  lemma InvWithinQuota(c: Setup, s: State)
    requires Accepts(c) && Inv(c, s)
    ensures WithinQuota(c, s.workers)
  {
    forall w | w in s.workers ensures w.i <= Quota(c) {
      var t :| 0 <= t < |s.workers| && s.workers[t] == w;
      assert WorkerInv(c, s, t, s.workers[t]);
    }
  }

  lemma MovedHasFewerSteps(c: Setup, s: State, step: Step)
    requires Accepts(c) && Inv(c, s) && Enabled(c, s, step) && step != MainArrives
    ensures s.workers[step.t].i <= Quota(c) && Moved(c, s, step, s.workers[step.t]).i <= Quota(c)
    ensures StepsLeft(c, Moved(c, s, step, s.workers[step.t])) < StepsLeft(c, s.workers[step.t])
  {
    assert WorkerInv(c, s, step.t, s.workers[step.t]);
  }

  /** Every step brings the run nearer to its end. */
  lemma StepDecreases(c: Setup, s: State, step: Step)
    requires Accepts(c) && Inv(c, s) && Enabled(c, s, step)
    ensures WithinQuota(c, s.workers) && WithinQuota(c, Apply(c, s, step).workers)
    ensures Remaining(c, Apply(c, s, step)) < Remaining(c, s)
  {
    InvWithinQuota(c, s);
    if step != MainArrives {
      MovedHasFewerSteps(c, s, step);
      StepsLeftUpdate(c, s.workers, step.t, Moved(c, s, step, s.workers[step.t]));
    }
  }

  lemma {:induction false} AtMostEach(c: Setup, workers: seq<Worker>)
    requires Accepts(c) && forall w :: w in workers ==> IsNew(w)
    ensures WithinQuota(c, workers) && AllStepsLeft(c, workers) == |workers| * (5 * Quota(c) + 6)
  {
    if workers != [] {
      var n, each := |workers| - 1, 5 * Quota(c) + 6;
      assert workers[0] in workers && IsNew(workers[0]);
      AtMostEach(c, workers[1..]);
      assert AllStepsLeft(c, workers) == each + n * each;
      MulDistributes(1, n, each);
    }
  }

  lemma {:induction false} RunUsesUp(c: Setup, steps: seq<Step>)
    requires Accepts(c) && After(c, steps).Some?
    ensures WithinQuota(c, After(c, steps).value.workers)
    ensures |steps| + Remaining(c, After(c, steps).value) <= c.threads * (5 * Quota(c) + 6) + 1
  {
    if steps == [] {
      AtMostEach(c, Init(c).workers);
    } else {
      var init, last := steps[..|steps| - 1], steps[|steps| - 1];
      RunUsesUp(c, init);
      RunKeepsInv(c, init);
      StepDecreases(c, After(c, init).value, last);
    }
  }

  /** No run is longer than five steps per iteration, six more per worker and one for the main thread. */
  lemma RunIsBounded(c: Setup, steps: seq<Step>)
    requires Accepts(c) && After(c, steps).Some?
    ensures |steps| <= 5 * c.iterations + 6 * c.threads + 1
  {
    RunUsesUp(c, steps);
    SharesMakeWhole(c);
    StepsOfAll(c.threads, Quota(c), c.iterations);
  }

  lemma StepsOfAll(threads: nat, quota: nat, iterations: nat)
    requires threads * quota == iterations
    ensures threads * (5 * quota + 6) == 5 * iterations + 6 * threads
  {
    MulDistributes(5 * quota, 6, threads);
    MulAssociates(5, quota, threads);
  }

  // ---- Every run can be brought to its end

  lemma OneMoreStep(c: Setup, steps: seq<Step>) returns (step: Step)
    requires Accepts(c) && After(c, steps).Some? && !Joined(After(c, steps).value)
    ensures After(c, steps + [step]).Some? && (Encodes(step) ==> step.ok)
    ensures |steps| < 5 * c.iterations + 6 * c.threads + 1
  {
    var s := After(c, steps).value;
    assert Reachable(c, s);
    step := NoDeadlock(c, s);
    assert (steps + [step])[..|steps|] == steps;
    RunIsBounded(c, steps + [step]);
  }

  lemma OneMoreOk(steps: seq<Step>, step: Step, rest: seq<Step>)
    requires AllOk(rest) && (Encodes(step) ==> step.ok)
    ensures AllOk([step] + rest) && steps + [step] + rest == steps + ([step] + rest)
  {
  }

  /** Whatever has happened so far, the run can go on until all workers have finished, and every further
    serialization may succeed. */
  lemma {:induction false} RunCanFinish(c: Setup, steps: seq<Step>) returns (more: seq<Step>, s: State)
    requires Accepts(c) && After(c, steps).Some?
    ensures After(c, steps + more) == Some(s) && Joined(s)
    ensures AllOk(more)
    decreases 5 * c.iterations + 6 * c.threads + 1 - |steps|
  {
    s := After(c, steps).value;
    if Joined(s) {
      more := [];
      assert steps + more == steps;
    } else {
      var step := OneMoreStep(c, steps);
      var rest;
      rest, s := RunCanFinish(c, steps + [step]);
      more := [step] + rest;
      OneMoreOk(steps, step, rest);
    }
  }

  /** For every accepted configuration there is a run in which all serializations succeed, and its checksum is
    iterations * bytes. */
  lemma FullRun(c: Setup) returns (steps: seq<Step>, s: State)
    requires Accepts(c)
    ensures After(c, steps) == Some(s) && Joined(s) && OkSteps(steps) == EncodeSteps(steps) == c.iterations
    ensures s.checksum == c.iterations * c.bytes % WORD
  {
    steps, s := RunCanFinish(c, []);
    assert [] + steps == steps;
    ChecksumAtJoin(c, steps, s);
    FullChecksumAtJoin(c, steps, s);
    OkStepsBounded(steps);
  }
}
