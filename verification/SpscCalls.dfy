/** What the callers of the ring see, over any interleaving of whole and unfinished calls: which pushes were
  reported as successful, and which values the pops returned. */
module SpscCalls {
  import opened Words
  import opened SpscRing

  /** The value being pushed, the values whose try_push returned true, and the values that pop returned. */
  datatype Log = Log(offered: Pointer, pushes: seq<Pointer>, pops: seq<Pointer>)

  function Observe(w: State, step: Step, log: Log): Log {
    match step
    case PushLoadHead(v) => log.(offered := v)
    case PushReturn => log.(pushes := log.pushes + Pushing(w, log))
    case PopReturn => log.(pops := log.pops + Popping(w))
    case _ => log
  }

  /** A value published by a push that has not returned yet. */
  function Pushing(w: State, log: Log): seq<Pointer> {
    if w.producer == PDone(true) then [log.offered] else []
  }

  /** A value taken by a pop that has not returned yet. */
  function Popping(w: State): seq<Pointer> {
    if w.consumer.CDone? && w.consumer.value != Null then [w.consumer.value] else []
  }

  function Observed(k: nat, w: State, steps: seq<Step>, log: Log): Log
    requires Runs(Wrap64, k, w, steps)
    decreases |steps|
  {
    if steps == [] then log
    else Observed(k, Apply(Wrap64, k, w, steps[0]), steps[1..], Observe(w, steps[0], log))
  }

  predicate HasValue(p: Producer) {
    p.POwn? || p.PView? || p.PSlot? || p.PPublish?
  }

  /** The ring's history agrees with what its callers have seen. */
  ghost predicate Agrees(w: State, log: Log) {
    && w.accepted == log.pushes + Pushing(w, log)
    && w.popped == log.pops + Popping(w)
    && Null !in w.accepted
    && (HasValue(w.producer) ==> w.producer.value == log.offered != Null)
  }

  /** No caller pushes the null pointer, which pop returns for an empty ring. */
  predicate NoNull(steps: seq<Step>) {
    forall step :: step in steps && step.PushLoadHead? ==> step.value != Null
  }

  lemma StepAgrees(k: nat, s: State, step: Step, log: Log)
    requires k <= 63 && Inv(k, s) && Enabled(Wrap64, k, Wrap(s), step) && Agrees(Wrap(s), log)
    requires step.PushLoadHead? ==> step.value != Null
    ensures Agrees(Apply(Wrap64, k, Wrap(s), step), Observe(Wrap(s), step, log))
  {
    var w := Wrap(s);
    var w' := Apply(Wrap64, k, w, step);
    if step.PopPublish? {
      assert s.consumer.value in s.accepted;
    } else if !step.PushPublish? {
      assert w'.accepted == w.accepted && w'.popped == w.popped;
    }
  }

  lemma {:induction false} RunAgrees(k: nat, s: State, steps: seq<Step>, log: Log)
    requires k <= 63 && Inv(k, s) && Runs(Wrap64, k, Wrap(s), steps) && Agrees(Wrap(s), log) && NoNull(steps)
    ensures Agrees(Exec(Wrap64, k, Wrap(s), steps), Observed(k, Wrap(s), steps, log))
    decreases |steps|
  {
    if steps != [] {
      assert steps[0] in steps;
      StepAgrees(k, s, steps[0], log);
      WrapBackward(k, s, steps[0]);
      StepKeepsInv(k, s, Unwrap(s, steps[0]));
      RunAgrees(k, Apply(Unbounded, k, s, Unwrap(s, steps[0])), steps[1..], Observe(Wrap(s), steps[0], log));
    }
  }

  /** In any interleaving of pushes and pops the values returned by pop are, in order, the first of the values
    whose try_push returned true; a value may be out before its own push has returned. */
  lemma PopsFollowPushes(k: nat, steps: seq<Step>)
    requires k <= 63 && Runs(Wrap64, k, Init(k), steps) && NoNull(steps)
    ensures var w, log := Exec(Wrap64, k, Init(k), steps), Observed(k, Init(k), steps, Log(Null, [], []));
            && log.pops + Popping(w) <= log.pushes + Pushing(w, log)
            && |log.pushes + Pushing(w, log)| - |log.pops + Popping(w)| <= Pow2(k)
            && (w.producer == PIdle && w.consumer == CIdle ==> log.pops <= log.pushes)
  {
    var w, log := Exec(Wrap64, k, Init(k), steps), Observed(k, Init(k), steps, Log(Null, [], []));
    InitInv(k);
    assert Wrap(Init(k)) == Init(k);
    RunAgrees(k, Init(k), steps, Log(Null, [], []));
    assert Reachable(k, w);
    ReachableIsFifo(k, w);
    assert log.pops + [] == log.pops && log.pushes + [] == log.pushes;
  }
}
