/** The N-thread encode run: a start barrier, an equal share of the iterations for every worker, a mutex
  around the shared output buffer and one around the shared checksum. */
module EncodeThreads {
  import opened Wrappers
  import opened Words

  datatype Mode = OwnState | SharedReadonly | SharedBufferMutex

  datatype Setup = Setup(mode: Mode, threads: nat, iterations: nat, bytes: nat)

  /** The configurations run accepts. */
  predicate Accepts(c: Setup) {
    c.threads > 0 && c.iterations % c.threads == 0
  }

  function Quota(c: Setup): nat
    requires Accepts(c)
  {
    c.iterations / c.threads
  }

  /** Where a worker is.  The shared checksum is read and written in two steps. */
  datatype Place =
    | Starting | AtBarrier | Looping
    | InBuffer | Encoded(ok: bool)          // holding the buffer mutex
    | Adding(ok: bool)
    | InChecksum | Loaded(sum: nat) | Stored  // holding the checksum mutex
    | Finished

  /** `successes` is history: how many serializations of this worker succeeded. */
  datatype Worker = Worker(place: Place, i: nat, local: nat, successes: nat)

  datatype State = State(workers: seq<Worker>, mainArrived: bool,
                         bufferOwner: Option<nat>, checksumOwner: Option<nat>, checksum: nat)

  datatype Step =
    | MainArrives
    | Arrive(t: nat) | Release(t: nat)
    | LockBuffer(t: nat) | EncodeShared(t: nat, ok: bool) | UnlockBuffer(t: nat)
    | Encode(t: nat, ok: bool) | Add(t: nat)
    | LockChecksum(t: nat) | Load(t: nat) | Store(t: nat) | UnlockChecksum(t: nat)

  /** The step serializes a message. */
  predicate Encodes(step: Step) {
    step.Encode? || step.EncodeShared?
  }

  function Init(c: Setup): State {
    State(seq(c.threads, _ => Worker(Starting, 0, 0, 0)), false, None, None, 0)
  }

  predicate AllArrived(s: State) {
    s.mainArrived && forall w :: w in s.workers ==> w.place != Starting
  }

  predicate Enabled(c: Setup, s: State, step: Step)
    requires Accepts(c)
  {
    if step == MainArrives then !s.mainArrived
    else step.t < |s.workers| &&
         var w := s.workers[step.t];
         match step
         case Arrive(_) => w.place == Starting
         case Release(_) => w.place == AtBarrier && AllArrived(s)
         case LockBuffer(_) =>
           c.mode == SharedBufferMutex && w.place == Looping && w.i < Quota(c) && s.bufferOwner == None
         case EncodeShared(_, _) => w.place == InBuffer
         case UnlockBuffer(_) => w.place.Encoded?
         case Encode(_, _) => c.mode != SharedBufferMutex && w.place == Looping && w.i < Quota(c)
         case Add(_) => w.place.Adding?
         case LockChecksum(_) => w.place == Looping && w.i >= Quota(c) && s.checksumOwner == None
         case Load(_) => w.place == InChecksum
         case Store(_) => w.place.Loaded?
         case UnlockChecksum(_) => w.place == Stored
         case MainArrives => true
  }

  function Count(ok: bool): nat {
    if ok then 1 else 0
  }

  /** The worker that takes the step, afterwards. */
  function Moved(c: Setup, s: State, step: Step, w: Worker): Worker {
    match step
    case MainArrives => w
    case Arrive(_) => w.(place := AtBarrier)
    case Release(_) => w.(place := Looping)
    case LockBuffer(_) => w.(place := InBuffer)
    case EncodeShared(_, ok) => w.(place := Encoded(ok), successes := w.successes + Count(ok))
    case UnlockBuffer(_) => if w.place.Encoded? then w.(place := Adding(w.place.ok)) else w
    case Encode(_, ok) => w.(place := Adding(ok), successes := w.successes + Count(ok))
    case Add(_) =>
      if w.place.Adding? then
        w.(place := Looping, i := w.i + 1, local := AddWord(w.local, if w.place.ok then c.bytes else 0))
      else w
    case LockChecksum(_) => w.(place := InChecksum)
    case Load(_) => w.(place := Loaded(s.checksum))
    case Store(_) => w.(place := Stored)
    case UnlockChecksum(_) => w.(place := Finished)
  }

  function Apply(c: Setup, s: State, step: Step): State
    requires Accepts(c) && Enabled(c, s, step)
  {
    if step == MainArrives then s.(mainArrived := true) else
      var w := s.workers[step.t];
      var s' := s.(workers := s.workers[step.t := Moved(c, s, step, w)]);
      match step
      case LockBuffer(t) => s'.(bufferOwner := Some(t))
      case UnlockBuffer(_) => s'.(bufferOwner := None)
      case LockChecksum(t) => s'.(checksumOwner := Some(t))
      case Store(_) => s'.(checksum := AddWord(w.place.sum, w.local))
      case UnlockChecksum(_) => s'.(checksumOwner := None)
      case _ => s'
  }

  function After(c: Setup, steps: seq<Step>): Option<State>
    requires Accepts(c)
  {
    if steps == [] then Some(Init(c)) else
      match After(c, steps[..|steps| - 1])
      case None => None
      case Some(s) =>
        if Enabled(c, s, steps[|steps| - 1]) then Some(Apply(c, s, steps[|steps| - 1])) else None
  }

  ghost predicate Reachable(c: Setup, s: State)
    requires Accepts(c)
  {
    exists steps :: After(c, steps) == Some(s)
  }

  // ---- The invariant

  predicate HoldsBuffer(w: Worker) {
    w.place == InBuffer || w.place.Encoded?
  }

  predicate HoldsChecksum(w: Worker) {
    w.place == InChecksum || w.place.Loaded? || w.place == Stored
  }

  /** The worker's sum is in the shared checksum. */
  predicate Delivered(w: Worker) {
    w.place == Stored || w.place == Finished
  }

  /** Successes not yet added to the worker's own sum. */
  function Pending(w: Worker): nat {
    if (w.place.Encoded? || w.place.Adding?) && w.place.ok then 1 else 0
  }

  /** All successes that the shared checksum accounts for. */
  function DeliveredSuccesses(workers: seq<Worker>): nat {
    if workers == [] then 0 else Share(workers[0]) + DeliveredSuccesses(workers[1..])
  }

  function Share(w: Worker): nat {
    if Delivered(w) then w.successes else 0
  }

  /** The worker's own counters fit its place. */
  predicate Counts(c: Setup, w: Worker)
    requires Accepts(c)
  {
    && Pending(w) <= w.successes && w.local == WordSum(w.successes - Pending(w), c.bytes)
    && w.i <= Quota(c)
    && (w.place == Starting || w.place == AtBarrier ==> w.i == w.successes == 0)
    && (w.place == InBuffer || w.place.Encoded? || w.place.Adding? ==> w.i < Quota(c))
    && (HoldsChecksum(w) || Delivered(w) ==> w.i == Quota(c))
    && w.successes <= w.i + Pending(w)
  }

  /** What the worker's place says about the shared state. */
  ghost predicate Fits(s: State, t: nat, w: Worker) {
    && (w.place.Loaded? ==> w.place.sum == s.checksum)
    && (HoldsBuffer(w) <==> s.bufferOwner == Some(t))
    && (HoldsChecksum(w) <==> s.checksumOwner == Some(t))
    && (w.place != Starting && w.place != AtBarrier ==> AllArrived(s))
  }

  ghost predicate WorkerInv(c: Setup, s: State, t: nat, w: Worker)
    requires Accepts(c)
  {
    Counts(c, w) && Fits(s, t, w)
  }

  ghost predicate Inv(c: Setup, s: State)
    requires Accepts(c)
  {
    && |s.workers| == c.threads
    && (forall t :: 0 <= t < c.threads ==> WorkerInv(c, s, t, s.workers[t]))
    && (s.bufferOwner.Some? ==> s.bufferOwner.value < c.threads)
    && (s.checksumOwner.Some? ==> s.checksumOwner.value < c.threads)
    && s.checksum == WordSum(DeliveredSuccesses(s.workers), c.bytes)
  }

  lemma {:induction false} NothingDelivered(workers: seq<Worker>)
    requires forall w :: w in workers ==> !Delivered(w)
    ensures DeliveredSuccesses(workers) == 0
  {
    if workers != [] {
      NothingDelivered(workers[1..]);
    }
  }

  lemma InitInv(c: Setup)
    requires Accepts(c)
    ensures Inv(c, Init(c))
  {
    NothingDelivered(Init(c).workers);
  }

  /** Replacing one worker changes the accounted successes by that worker's share. */
  lemma {:induction false} SharesUpdate(workers: seq<Worker>, t: nat, w: Worker)
    requires t < |workers|
    ensures DeliveredSuccesses(workers[t := w]) + Share(workers[t]) == DeliveredSuccesses(workers) + Share(w)
  {
    if t == 0 {
      assert workers[0 := w][1..] == workers[1..];
    } else {
      assert workers[t := w][1..] == workers[1..][t - 1 := w];
      SharesUpdate(workers[1..], t - 1, w);
    }
  }

  lemma ArrivalStays(c: Setup, s: State, step: Step)
    requires Accepts(c) && Enabled(c, s, step) && AllArrived(s)
    ensures AllArrived(Apply(c, s, step))
  {
    var s' := Apply(c, s, step);
    forall w | w in s'.workers ensures w.place != Starting {
      if step != MainArrives {
        var u :| 0 <= u < |s'.workers| && s'.workers[u] == w;
        assert s.workers[u] in s.workers && s.workers[step.t] in s.workers;
      }
    }
  }

  lemma AddKeepsCounts(c: Setup, s: State, t: nat)
    requires Accepts(c) && Enabled(c, s, Add(t)) && Counts(c, s.workers[t])
    ensures Counts(c, Moved(c, s, Add(t), s.workers[t]))
  {
    WordSumIsWord(s.workers[t].successes, c.bytes);
  }

  lemma MovedKeepsCounts(c: Setup, s: State, step: Step)
    requires Accepts(c) && Enabled(c, s, step) && step != MainArrives && Counts(c, s.workers[step.t])
    ensures Counts(c, Moved(c, s, step, s.workers[step.t]))
  {
    var w := s.workers[step.t];
    var w' := Moved(c, s, step, w);
    if step.Add? {
      AddKeepsCounts(c, s, step.t);
    } else {
      assert w'.local == w.local && w'.successes - Pending(w') == w.successes - Pending(w);
    }
  }

  lemma MovedFits(c: Setup, s: State, step: Step)
    requires Accepts(c) && Enabled(c, s, step) && step != MainArrives && Fits(s, step.t, s.workers[step.t])
    ensures Fits(Apply(c, s, step), step.t, Moved(c, s, step, s.workers[step.t]))
  {
    if AllArrived(s) {
      ArrivalStays(c, s, step);
    }
  }

  /** The worker that moves keeps its invariant. */
  lemma MovedKeepsInv(c: Setup, s: State, step: Step)
    requires Accepts(c) && Inv(c, s) && Enabled(c, s, step) && step != MainArrives
    ensures WorkerInv(c, Apply(c, s, step), step.t, Apply(c, s, step).workers[step.t])
  {
    assert WorkerInv(c, s, step.t, s.workers[step.t]);
    MovedKeepsCounts(c, s, step);
    MovedFits(c, s, step);
  }

  /** The workers that do not move keep theirs. */
  lemma OthersKeepInv(c: Setup, s: State, step: Step, u: nat)
    requires Accepts(c) && Inv(c, s) && Enabled(c, s, step) && u < c.threads
    requires step != MainArrives ==> u != step.t
    ensures WorkerInv(c, Apply(c, s, step), u, Apply(c, s, step).workers[u])
  {
    assert WorkerInv(c, s, u, s.workers[u]);
    if AllArrived(s) {
      ArrivalStays(c, s, step);
    }
    if step != MainArrives {
      assert WorkerInv(c, s, step.t, s.workers[step.t]);
    }
  }

  /** Adding a worker's own sum accounts for its successes. */
  lemma OneMoreShare(workers: seq<Worker>, t: nat, w: Worker, each: nat)
    requires t < |workers| && Share(workers[t]) == 0
    ensures AddWord(WordSum(DeliveredSuccesses(workers), each), WordSum(Share(w), each)) ==
            WordSum(DeliveredSuccesses(workers[t := w]), each)
  {
    SharesUpdate(workers, t, w);
    WordSumAdds(DeliveredSuccesses(workers), Share(w), each);
  }

  lemma StoreKeepsSum(c: Setup, s: State, t: nat)
    requires Accepts(c) && Inv(c, s) && Enabled(c, s, Store(t))
    ensures Apply(c, s, Store(t)).checksum == WordSum(DeliveredSuccesses(Apply(c, s, Store(t)).workers), c.bytes)
  {
    var w := s.workers[t];
    assert Counts(c, w) && Fits(s, t, w) by {
      assert WorkerInv(c, s, t, w);
    }
    assert Share(w) == 0 && w.place.sum == s.checksum && w.local == WordSum(w.successes, c.bytes);
    OneMoreShare(s.workers, t, w.(place := Stored), c.bytes);
  }

  lemma ChecksumKeepsInv(c: Setup, s: State, step: Step)
    requires Accepts(c) && Inv(c, s) && Enabled(c, s, step)
    ensures Apply(c, s, step).checksum == WordSum(DeliveredSuccesses(Apply(c, s, step).workers), c.bytes)
  {
    if step.Store? {
      StoreKeepsSum(c, s, step.t);
    } else if step != MainArrives {
      var w := s.workers[step.t];
      var w' := Moved(c, s, step, w);
      SharesUpdate(s.workers, step.t, w');
      assert Share(w') == Share(w);
    }
  }

  lemma StepKeepsInv(c: Setup, s: State, step: Step)
    requires Accepts(c) && Inv(c, s) && Enabled(c, s, step)
    ensures Inv(c, Apply(c, s, step))
  {
    ChecksumKeepsInv(c, s, step);
    var s' := Apply(c, s, step);
    forall u | 0 <= u < c.threads ensures WorkerInv(c, s', u, s'.workers[u]) {
      if step != MainArrives && u == step.t {
        MovedKeepsInv(c, s, step);
      } else {
        OthersKeepInv(c, s, step, u);
      }
    }
  }

  lemma {:induction false} RunKeepsInv(c: Setup, steps: seq<Step>)
    requires Accepts(c) && After(c, steps).Some?
    ensures Inv(c, After(c, steps).value)
  {
    if steps == [] {
      InitInv(c);
    } else {
      RunKeepsInv(c, steps[..|steps| - 1]);
      StepKeepsInv(c, After(c, steps[..|steps| - 1]).value, steps[|steps| - 1]);
    }
  }

  lemma ReachableInv(c: Setup, s: State)
    requires Accepts(c) && Reachable(c, s)
    ensures Inv(c, s)
  {
    var steps :| After(c, steps) == Some(s);
    RunKeepsInv(c, steps);
  }

  // ---- Whole runs

  /** At most one worker is inside the shared-buffer section, and at most one inside the checksum section. */
  lemma MutualExclusion(c: Setup, s: State, t: nat, u: nat)
    requires Accepts(c) && Reachable(c, s) && t < |s.workers| && u < |s.workers| && t != u
    ensures !(HoldsBuffer(s.workers[t]) && HoldsBuffer(s.workers[u]))
    ensures !(HoldsChecksum(s.workers[t]) && HoldsChecksum(s.workers[u]))
  {
    ReachableInv(c, s);
    assert WorkerInv(c, s, t, s.workers[t]) && WorkerInv(c, s, u, s.workers[u]);
  }

  /** With the shared buffer, whoever serializes holds its mutex. */
  lemma SharedEncodeIsLocked(c: Setup, s: State, step: Step)
    requires Accepts(c) && Reachable(c, s) && c.mode == SharedBufferMutex && Enabled(c, s, step) && Encodes(step)
    ensures s.bufferOwner == Some(step.t)
  {
    ReachableInv(c, s);
    assert WorkerInv(c, s, step.t, s.workers[step.t]);
  }

  /** No worker encodes anything before every worker and the main thread have reached the barrier. */
  lemma NoEarlyStart(c: Setup, s: State, t: nat)
    requires Accepts(c) && Reachable(c, s) && t < |s.workers| && !AllArrived(s)
    ensures s.workers[t].successes == 0 && s.workers[t].i == 0
  {
    ReachableInv(c, s);
    assert WorkerInv(c, s, t, s.workers[t]);
  }

  predicate Joined(s: State) {
    forall w :: w in s.workers ==> w.place == Finished
  }

  function Successes(workers: seq<Worker>): nat {
    if workers == [] then 0 else workers[0].successes + Successes(workers[1..])
  }

  lemma {:induction false} AllDelivered(workers: seq<Worker>)
    requires forall w :: w in workers ==> Delivered(w)
    ensures DeliveredSuccesses(workers) == Successes(workers)
  {
    if workers != [] {
      AllDelivered(workers[1..]);
    }
  }

  lemma QuotaBounds(c: Setup, s: State)
    requires Accepts(c) && Inv(c, s) && Joined(s)
    ensures forall w :: w in s.workers ==> Delivered(w) && w.successes <= w.i == Quota(c)
  {
    forall w | w in s.workers ensures Delivered(w) && w.successes <= w.i == Quota(c) {
      var t :| 0 <= t < |s.workers| && s.workers[t] == w;
      assert WorkerInv(c, s, t, s.workers[t]);
    }
  }

  /** At join the checksum is the sum of the workers' successes. */
  lemma ChecksumOfWorkers(c: Setup, s: State)
    requires Accepts(c) && Inv(c, s) && Joined(s)
    ensures s.checksum == WordSum(Successes(s.workers), c.bytes)
  {
    QuotaBounds(c, s);
    AllDelivered(s.workers);
  }

  /** The step an unfinished worker can take, when it is not waiting for a mutex. */
  function NextStep(c: Setup, t: nat, w: Worker): Step
    requires Accepts(c)
  {
    match w.place
    case Starting => Arrive(t)
    case AtBarrier => Release(t)
    case Looping =>
      if w.i >= Quota(c) then LockChecksum(t)
      else if c.mode == SharedBufferMutex then LockBuffer(t) else Encode(t, true)
    case InBuffer => EncodeShared(t, true)
    case Encoded(_) => UnlockBuffer(t)
    case Adding(_) => Add(t)
    case InChecksum => Load(t)
    case Loaded(_) => Store(t)
    case Stored => UnlockChecksum(t)
    case Finished => MainArrives
  }

  /** Whoever holds a mutex can go on. */
  lemma HolderMoves(c: Setup, s: State, u: nat)
    requires Accepts(c) && Inv(c, s) && u < |s.workers|
    requires HoldsBuffer(s.workers[u]) || HoldsChecksum(s.workers[u])
    ensures Enabled(c, s, NextStep(c, u, s.workers[u]))
  {
  }

  /** After the barrier some worker can move. */
  lemma SomeWorkerMoves(c: Setup, s: State, t: nat) returns (step: Step)
    requires Accepts(c) && Inv(c, s) && AllArrived(s) && t < |s.workers| && s.workers[t].place != Finished
    ensures Enabled(c, s, step) && (Encodes(step) ==> step.ok)
  {
    step := NextStep(c, t, s.workers[t]);
    assert s.workers[t] in s.workers;
    if step.LockBuffer? && s.bufferOwner.Some? {
      var u := s.bufferOwner.value;
      assert WorkerInv(c, s, u, s.workers[u]);
      HolderMoves(c, s, u);
      step := NextStep(c, u, s.workers[u]);
    } else if step.LockChecksum? && s.checksumOwner.Some? {
      var u := s.checksumOwner.value;
      assert WorkerInv(c, s, u, s.workers[u]);
      HolderMoves(c, s, u);
      step := NextStep(c, u, s.workers[u]);
    }
  }

  /** Until all workers have finished, some thread can always move: the run never deadlocks. */
  lemma NoDeadlock(c: Setup, s: State) returns (step: Step)
    requires Accepts(c) && Reachable(c, s) && !Joined(s)
    ensures Enabled(c, s, step) && (Encodes(step) ==> step.ok)
  {
    ReachableInv(c, s);
    if !s.mainArrived {
      step := MainArrives;
    } else if AllArrived(s) {
      var w :| w in s.workers && w.place != Finished;
      var t :| 0 <= t < |s.workers| && s.workers[t] == w;
      step := SomeWorkerMoves(c, s, t);
    } else {
      var w :| w in s.workers && w.place == Starting;
      var t :| 0 <= t < |s.workers| && s.workers[t] == w;
      step := Arrive(t);
    }
  }
}
