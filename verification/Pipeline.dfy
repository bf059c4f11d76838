/** The two-thread pipeline of `run_async`: a producer pushing every iteration into the ring, a worker
  popping and processing until it reads `producer_done`, interleaved step by step. */
module Pipeline {
  import opened Wrappers
  import opened Words
  import opened SpscRing
  import SpscPointerRing

  const POOL_SIZE: nat := 1024

  /** `cost` is what processing the event in a pool cell adds to the checksum.  `drains` selects a
    worker that, after reading `producer_done`, goes on popping until the ring is empty once more;
    the program's worker does not. */
  datatype Setup = Setup(k: nat, iterations: nat, drains: bool, cost: nat -> nat)

  datatype Worker = Popping | Flag | Process(index: nat) | Exited

  /** `hot` and `samples` are the recorded times; `processed` is history: the pool cells processed. */
  datatype Machine = Machine(ring: SpscRing.State,
                             i: nat, dropped: nat, hot: seq<nat>, done: bool,
                             worker: Worker, draining: bool,
                             completed: nat, samples: seq<nat>, checksum: nat,
                             processed: seq<nat>)

  datatype Step =
    | Push(step: SpscRing.Step)         // inside try_push
    | PushResult(elapsed: nat)          // try_push returned: count the drop or keep the sample
    | Finish                            // store producer_done
    | Pop(step: SpscRing.Step)          // inside pop
    | PopResult                         // pop returned: test for null
    | ReadDone(seen: bool)              // load producer_done, possibly stale
    | ProcessEvent(elapsed: nat)

  function Init(c: Setup): Machine {
    Machine(SpscRing.Init(c.k), 0, 0, [], false, Popping, false, 0, [], 0, [])
  }

  function Cell(i: nat): nat {
    BitAnd(i, POOL_SIZE - 1)
  }

  predicate Enabled(a: Indices, c: Setup, p: Machine, step: Step) {
    match step
    case Push(s) =>
      && IsPush(s) && !s.PushReturn? && SpscRing.Enabled(a, c.k, p.ring, s)
      && (s.PushLoadHead? ==> p.i < c.iterations && s.value == Address(Cell(p.i)))
    case PushResult(_) => SpscRing.Enabled(a, c.k, p.ring, PushReturn)
    case Finish => p.ring.producer.PIdle? && p.i >= c.iterations && !p.done
    case Pop(s) => p.worker.Popping? && !IsPush(s) && !s.PopReturn? && SpscRing.Enabled(a, c.k, p.ring, s)
    case PopResult => p.worker.Popping? && SpscRing.Enabled(a, c.k, p.ring, PopReturn)
    case ReadDone(seen) => p.worker.Flag? && (seen ==> p.done)
    case ProcessEvent(_) => p.worker.Process?
  }

  function Apply(a: Indices, c: Setup, p: Machine, step: Step): Machine
    requires Enabled(a, c, p, step)
  {
    match step
    case Push(s) => p.(ring := SpscRing.Apply(a, c.k, p.ring, s))
    case PushResult(elapsed) =>
      var q := p.(ring := SpscRing.Apply(a, c.k, p.ring, PushReturn), i := p.i + 1);
      if p.ring.producer.ok then q.(hot := p.hot + [elapsed]) else q.(dropped := p.dropped + 1)
    case Finish => p.(done := true)
    case Pop(s) => p.(ring := SpscRing.Apply(a, c.k, p.ring, s))
    case PopResult =>
      p.(ring := SpscRing.Apply(a, c.k, p.ring, PopReturn),
         worker := match p.ring.consumer.value
                   case Null => if p.draining then Exited else Flag
                   case Address(index) => Process(index))
    case ReadDone(seen) =>
      if !seen then p.(worker := Popping)
      else if !c.drains then p.(worker := Exited)
      // Acquiring the flag also makes every earlier publication visible.
      else p.(worker := Popping, draining := true, ring := p.ring.(headView := p.ring.head))
    case ProcessEvent(elapsed) =>
      p.(worker := Popping, completed := p.completed + 1, samples := p.samples + [elapsed],
         checksum := AddWord(p.checksum, c.cost(p.worker.index)), processed := p.processed + [p.worker.index])
  }

  /** The state after a sequence of steps from the start, if all of them can be taken. */
  function After(a: Indices, c: Setup, steps: seq<Step>): Option<Machine> {
    if steps == [] then Some(Init(c)) else
      match After(a, c, steps[..|steps| - 1])
      case None => None
      case Some(p) =>
        if Enabled(a, c, p, steps[|steps| - 1]) then Some(Apply(a, c, p, steps[|steps| - 1])) else None
  }

  ghost predicate Reachable(c: Setup, p: Machine) {
    exists steps :: After(Wrap64, c, steps) == Some(p)
  }

  lemma Extend(c: Setup, p: Machine, step: Step) returns (q: Machine)
    requires Reachable(c, p) && Enabled(Wrap64, c, p, step)
    ensures q == Apply(Wrap64, c, p, step) && Reachable(c, q)
  {
    q := Apply(Wrap64, c, p, step);
    var steps :| After(Wrap64, c, steps) == Some(p);
    assert (steps + [step])[..|steps|] == steps;
    assert After(Wrap64, c, steps + [step]) == Some(Apply(Wrap64, c, p, step));
  }

  // ---- The invariant, on unbounded counters

  /** The checksum of a list of processed cells. */
  function Total(cost: nat -> nat, cells: seq<nat>): nat {
    if cells == [] then 0 else AddWord(Total(cost, cells[..|cells| - 1]), cost(cells[|cells| - 1]))
  }

  function Offered(s: SpscRing.State): Option<Pointer> {
    match s.producer
    case POwn(v, _) => Some(v)
    case PView(v, _, _) => Some(v)
    case PSlot(v, _) => Some(v)
    case PPublish(v, _) => Some(v)
    case _ => None
  }

  /** A successful push whose sample is not recorded yet. */
  function Uncounted(p: Machine): nat {
    if p.ring.producer == PDone(true) then 1 else 0
  }

  ghost predicate ProducerSide(c: Setup, p: Machine) {
    && p.i <= c.iterations
    && (!p.ring.producer.PIdle? ==> p.i < c.iterations)
    && (p.done ==> p.ring.producer.PIdle? && p.i == c.iterations)
    && |p.ring.accepted| + p.dropped == p.i + Uncounted(p)
    && |p.hot| + Uncounted(p) == |p.ring.accepted|
    && (Offered(p.ring).Some? ==> Offered(p.ring).value == Address(Cell(p.i)))
    && (forall v :: v in p.ring.accepted ==> v.Address?)
    && (p.dropped == 0 ==> forall j :: 0 <= j < |p.ring.accepted| ==> p.ring.accepted[j] == Address(Cell(j)))
    && (c.iterations <= Pow2(c.k) ==> p.dropped == 0 && p.ring.producer != PDone(false))
  }

  /** An event popped and not yet processed. */
  function InHand(p: Machine): seq<Pointer> {
    match p.worker
    case Process(index) => [Address(index)]
    case _ => if p.ring.consumer.CDone? && p.ring.consumer.value.Address? then [p.ring.consumer.value] else []
  }

  ghost predicate WorkerSide(c: Setup, p: Machine) {
    && (!p.worker.Popping? ==> p.ring.consumer.CIdle?)
    && |p.processed| == |p.samples| == p.completed
    && |p.ring.popped| == p.completed + |InHand(p)|
    && (forall j :: 0 <= j < p.completed ==> p.ring.popped[j] == Address(p.processed[j]))
    && InHand(p) <= p.ring.popped[p.completed..]
    && p.checksum == Total(c.cost, p.processed)
    && (p.worker.Flag? || p.worker.Exited? ==> p.ring.tail == p.ring.headView)
    && (p.draining ==> c.drains && p.done && p.ring.headView == p.ring.head && !p.worker.Flag?)
    && (p.worker.Exited? ==> p.done && (c.drains ==> p.draining))
  }

  ghost predicate Inv(c: Setup, p: Machine) {
    SpscRing.Inv(c.k, p.ring) && ProducerSide(c, p) && WorkerSide(c, p)
  }

  lemma InitInv(c: Setup)
    ensures Inv(c, Init(c))
  {
  }

  lemma PublishKeepsInv(c: Setup, p: Machine)
    requires Inv(c, p) && Enabled(Unbounded, c, p, Push(PushPublish))
    ensures ProducerSide(c, Apply(Unbounded, c, p, Push(PushPublish)))
  {
    var p' := Apply(Unbounded, c, p, Push(PushPublish));
    assert p'.ring.accepted == p.ring.accepted + [Address(Cell(p.i))];
  }

  lemma PushKeepsInv(c: Setup, p: Machine, s: SpscRing.Step)
    requires Inv(c, p) && Enabled(Unbounded, c, p, Push(s))
    ensures Inv(c, Apply(Unbounded, c, p, Push(s)))
  {
    var p' := Apply(Unbounded, c, p, Push(s));
    StepKeepsInv(c.k, p.ring, s);
    assert WorkerSide(c, p') by {
      assert p'.ring.popped == p.ring.popped && p'.ring.consumer == p.ring.consumer;
    }
    if s.PushPublish? {
      PublishKeepsInv(c, p);
    } else {
      assert ProducerSide(c, p') by {
        assert p'.ring.accepted == p.ring.accepted;
      }
    }
  }

  lemma PushResultKeepsInv(c: Setup, p: Machine, elapsed: nat)
    requires Inv(c, p) && Enabled(Unbounded, c, p, PushResult(elapsed))
    ensures Inv(c, Apply(Unbounded, c, p, PushResult(elapsed)))
  {
    var p' := Apply(Unbounded, c, p, PushResult(elapsed));
    StepKeepsInv(c.k, p.ring, PushReturn);
    assert p'.ring == p.ring.(producer := PIdle);
  }

  lemma PopKeepsInv(c: Setup, p: Machine, s: SpscRing.Step)
    requires Inv(c, p) && Enabled(Unbounded, c, p, Pop(s))
    ensures Inv(c, Apply(Unbounded, c, p, Pop(s)))
  {
    var p' := Apply(Unbounded, c, p, Pop(s));
    StepKeepsInv(c.k, p.ring, s);
    assert ProducerSide(c, p') by {
      assert p'.ring.accepted == p.ring.accepted && p'.ring.producer == p.ring.producer;
    }
    if s.PopPublish? {
      PopPublishKeepsWorker(c, p);
    } else {
      assert p'.ring.popped == p.ring.popped;
    }
  }

  lemma PopPublishKeepsWorker(c: Setup, p: Machine)
    requires Inv(c, p) && Enabled(Unbounded, c, p, Pop(PopPublish))
    ensures WorkerSide(c, Apply(Unbounded, c, p, Pop(PopPublish)))
  {
    assert p.ring.consumer.value == p.ring.accepted[p.ring.tail];
  }

  lemma ProcessKeepsInv(c: Setup, p: Machine, elapsed: nat)
    requires Inv(c, p) && p.worker.Process?
    ensures Inv(c, Apply(Unbounded, c, p, ProcessEvent(elapsed)))
  {
    var p' := Apply(Unbounded, c, p, ProcessEvent(elapsed));
    assert p'.processed[..p.completed] == p.processed;
    assert p.ring.popped[p.completed] == p.ring.popped[p.completed..][0] == Address(p.worker.index);
  }

  lemma OtherStepKeepsInv(c: Setup, p: Machine, step: Step)
    requires Inv(c, p) && Enabled(Unbounded, c, p, step)
    requires step.Finish? || step.PopResult? || step.ReadDone?
    ensures Inv(c, Apply(Unbounded, c, p, step))
  {
    if step == PopResult {
      StepKeepsInv(c.k, p.ring, PopReturn);
    }
  }

  lemma StepKeepsMachineInv(c: Setup, p: Machine, step: Step)
    requires Inv(c, p) && Enabled(Unbounded, c, p, step)
    ensures Inv(c, Apply(Unbounded, c, p, step))
  {
    if step.Push? {
      PushKeepsInv(c, p, step.step);
    } else if step.PushResult? {
      PushResultKeepsInv(c, p, step.elapsed);
    } else if step.Pop? {
      PopKeepsInv(c, p, step.step);
    } else if step.ProcessEvent? {
      ProcessKeepsInv(c, p, step.elapsed);
    } else {
      OtherStepKeepsInv(c, p, step);
    }
  }

  // ---- From counters to 64-bit words

  function WrapState(p: Machine): Machine {
    p.(ring := Wrap(p.ring))
  }

  function UnwrapStep(p: Machine, step: Step): Step {
    match step
    case Push(s) => Push(Unwrap(p.ring, s))
    case Pop(s) => Pop(Unwrap(p.ring, s))
    case _ => step
  }

  lemma WrapStepBackward(c: Setup, p: Machine, step: Step)
    requires c.k <= 63 && Inv(c, p) && Enabled(Wrap64, c, WrapState(p), step)
    ensures Enabled(Unbounded, c, p, UnwrapStep(p, step))
    ensures Apply(Wrap64, c, WrapState(p), step) == WrapState(Apply(Unbounded, c, p, UnwrapStep(p, step)))
  {
    match step {
      case Push(s) => WrapBackward(c.k, p.ring, s);
      case PushResult(_) => WrapBackward(c.k, p.ring, PushReturn);
      case Pop(s) => WrapBackward(c.k, p.ring, s);
      case PopResult => WrapBackward(c.k, p.ring, PopReturn);
      case _ =>
    }
  }

  /** Every run of the program's pipeline has a run on counters behind it. */
  lemma {:induction false} UnwrapRun(c: Setup, steps: seq<Step>) returns (p: Machine)
    requires c.k <= 63 && After(Wrap64, c, steps).Some?
    ensures Inv(c, p) && After(Wrap64, c, steps) == Some(WrapState(p))
  {
    if steps == [] {
      InitInv(c);
      p := Init(c);
    } else {
      var q := UnwrapRun(c, steps[..|steps| - 1]);
      var step := steps[|steps| - 1];
      WrapStepBackward(c, q, step);
      StepKeepsMachineInv(c, q, UnwrapStep(q, step));
      p := Apply(Unbounded, c, q, UnwrapStep(q, step));
    }
  }

  lemma ReachableUnwraps(c: Setup, w: Machine) returns (p: Machine)
    requires c.k <= 63 && Reachable(c, w)
    ensures Inv(c, p) && WrapState(p) == w
  {
    var steps :| After(Wrap64, c, steps) == Some(w);
    p := UnwrapRun(c, steps);
  }

  /** The pipeline only ever drives the ring through the ring's own steps. */
  lemma {:induction false} RingIsReachable(c: Setup, steps: seq<Step>)
    requires !c.drains && After(Wrap64, c, steps).Some?
    ensures SpscRing.Reachable(c.k, After(Wrap64, c, steps).value.ring)
  {
    if steps == [] {
      var start := SpscRing.Init(c.k);
      assert Runs(Wrap64, c.k, start, []) && Exec(Wrap64, c.k, start, []) == start;
    } else {
      var before := After(Wrap64, c, steps[..|steps| - 1]).value.ring;
      RingIsReachable(c, steps[..|steps| - 1]);
      var taken := match steps[|steps| - 1]
        case Push(s) => [s]
        case PushResult(_) => [PushReturn]
        case Pop(s) => [s]
        case PopResult => [PopReturn]
        case _ => [];
      if taken != [] {
        SpscPointerRing.RunOne(c.k, before, taken[0]);
        SpscPointerRing.ReachableGoesOn(c.k, before, [taken[0]]);
      }
    }
  }

  // ---- What is recorded

  /** The time of a push that returns with success. */
  function PushTime(p: Machine, step: Step): seq<nat> {
    if step.PushResult? && p.ring.producer == PDone(true) then [step.elapsed] else []
  }

  /** The time of an event processed. */
  function EventTime(step: Step): seq<nat> {
    if step.ProcessEvent? then [step.elapsed] else []
  }

  function PushTimes(c: Setup, steps: seq<Step>): seq<nat>
    requires After(Wrap64, c, steps).Some?
  {
    if steps == [] then [] else
      var init := steps[..|steps| - 1];
      PushTimes(c, init) + PushTime(After(Wrap64, c, init).value, steps[|steps| - 1])
  }

  function EventTimes(steps: seq<Step>): seq<nat> {
    if steps == [] then [] else EventTimes(steps[..|steps| - 1]) + EventTime(steps[|steps| - 1])
  }

  lemma StepRecords(c: Setup, p: Machine, step: Step)
    requires Enabled(Wrap64, c, p, step)
    ensures Apply(Wrap64, c, p, step).hot == p.hot + PushTime(p, step)
    ensures Apply(Wrap64, c, p, step).samples == p.samples + EventTime(step)
  {
  }

  /** The recorded samples are the times of the successful pushes and of the processed events, in order. */
  lemma {:induction false} SamplesAreTimes(c: Setup, steps: seq<Step>)
    requires After(Wrap64, c, steps).Some?
    ensures After(Wrap64, c, steps).value.hot == PushTimes(c, steps)
    ensures After(Wrap64, c, steps).value.samples == EventTimes(steps)
  {
    if steps != [] {
      var init, last := steps[..|steps| - 1], steps[|steps| - 1];
      SamplesAreTimes(c, init);
      StepRecords(c, After(Wrap64, c, init).value, last);
    }
  }

  // ---- Whole runs

  /** Both threads have been joined. */
  predicate Joined(p: Machine) {
    p.worker.Exited? && p.done
  }

  /** The events accepted by the ring and never popped. */
  function Leftover(p: Machine): seq<Pointer>
    requires |p.ring.popped| <= |p.ring.accepted|
  {
    Queue(p.ring)
  }

  /** Conservation at join, whatever the interleaving and however stale the views. */
  lemma Conservation(c: Setup, w: Machine)
    requires c.k <= 63 && Reachable(c, w) && Joined(w)
    ensures c.iterations == |w.ring.accepted| + w.dropped
    ensures |w.ring.popped| <= |w.ring.accepted| == w.completed + |Leftover(w)|
    ensures |w.hot| == |w.ring.accepted| && |w.samples| == w.completed == |w.processed|
    ensures forall j :: 0 <= j < w.completed ==> w.ring.accepted[j] == Address(w.processed[j])
    ensures w.checksum == Total(c.cost, w.processed)
  {
    var p := ReachableUnwraps(c, w);
    forall j | 0 <= j < w.completed ensures w.ring.accepted[j] == Address(w.processed[j]) {
      assert w.ring.popped[j] == w.ring.accepted[j];
    }
  }

  lemma {:induction false} TotalOfOneCell(cost: nat -> nat, cell: nat, cells: seq<nat>)
    requires forall x :: cost(x) == if x == cell then 1 else 0
    ensures Total(cost, cells) == multiset(cells)[cell] % WORD
  {
    if cells != [] {
      var init, last := cells[..|cells| - 1], cells[|cells| - 1];
      var values: multiset<nat> := multiset(init);
      TotalOfOneCell(cost, cell, init);
      assert cells == init + [last];
      AddToCount(values[cell], cost(last));
    }
  }

  lemma AddToCount(count: nat, more: nat)
    requires more <= 1
    ensures AddWord(count % WORD, more) == (count + more) % WORD
  {
    var q, r := count / WORD, count % WORD;
    if r + more < WORD {
      ModUnique(count + more, WORD, q, r + more);
    } else {
      ModUnique(count + more, WORD, q + 1, 0);
    }
  }

  /** The cost is that of the event popped: when only one pool cell costs anything, the checksum counts the
    events processed from that cell. */
  lemma ChecksumCountsCell(c: Setup, w: Machine, cell: nat)
    requires c.k <= 63 && Reachable(c, w) && Joined(w)
    requires forall x :: c.cost(x) == if x == cell then 1 else 0
    ensures w.checksum == multiset(w.processed)[cell] % WORD
  {
    Conservation(c, w);
    TotalOfOneCell(c.cost, cell, w.processed);
  }

  /** Without drops the i-th processed event is the one in pool cell i & 1023. */
  lemma ProcessedInOrder(c: Setup, w: Machine)
    requires c.k <= 63 && Reachable(c, w) && w.dropped == 0
    ensures |w.processed| == w.completed
    ensures forall j :: 0 <= j < w.completed ==> w.processed[j] == j % 1024
  {
    var p := ReachableUnwraps(c, w);
    forall j | 0 <= j < w.completed ensures w.processed[j] == j % 1024 {
      assert w.ring.popped[j] == w.ring.accepted[j];
      assert Pow2(10) == POOL_SIZE;
      MaskIsMod(j, 10);
    }
  }

  /** When the ring has a slot for every iteration nothing is ever dropped. */
  lemma NothingDropped(c: Setup, w: Machine)
    requires c.k <= 63 && Reachable(c, w) && c.iterations <= Pow2(c.k)
    ensures w.dropped == 0
  {
    var p := ReachableUnwraps(c, w);
  }

  /** The program's worker leaves exactly the events its final, empty pop did not see: it is complete if
    and only if the head that pop acquired was the final one. */
  lemma LeftoverIsUnseen(c: Setup, w: Machine)
    requires c.k <= 63 && Reachable(c, w) && Joined(w) && !c.drains
    ensures |w.ring.popped| <= |w.ring.accepted|
    ensures w.ring.headView == w.ring.tail && Minus(Wrap64, w.ring.head, w.ring.headView) == |Leftover(w)|
    ensures Leftover(w) == [] <==> w.ring.headView == w.ring.head
  {
    var p := ReachableUnwraps(c, w);
    CapacityFits(c.k);
    WrappedMinus(p.ring.head, p.ring.headView);
  }

  predicate LoadsHead(step: Step) {
    step.Pop? && step.step.PopLoadHead?
  }

  lemma AfterAppend(c: Setup, steps: seq<Step>, step: Step)
    requires After(Wrap64, c, steps + [step]).Some?
    ensures After(Wrap64, c, steps).Some? && Enabled(Wrap64, c, After(Wrap64, c, steps).value, step)
    ensures After(Wrap64, c, steps + [step]).value == Apply(Wrap64, c, After(Wrap64, c, steps).value, step)
  {
    assert (steps + [step])[..|steps|] == steps;
  }

  /** One step, on words and on the counters behind them: a load of the head misses as many accepted events
    as the loaded word lies behind the head, and any other step leaves the worker's view alone. */
  lemma StepMovesView(c: Setup, q: Machine, step: Step) returns (p: Machine)
    requires c.k <= 63 && !c.drains && Inv(c, q) && Enabled(Wrap64, c, WrapState(q), step)
    ensures Inv(c, p) && WrapState(p) == Apply(Wrap64, c, WrapState(q), step)
    ensures LoadsHead(step) ==>
              p.ring.headView == |q.ring.accepted| - Minus(Wrap64, q.ring.head % WORD, step.step.h)
    ensures !LoadsHead(step) ==> p.ring.headView == q.ring.headView
  {
    WrapStepBackward(c, q, step);
    StepKeepsMachineInv(c, q, UnwrapStep(q, step));
    p := Apply(Unbounded, c, q, UnwrapStep(q, step));
    if LoadsHead(step) {
      UnwrapLoad(c.k, q.ring, step.step.h);
    } else {
      OtherStepsKeepView(c, q, UnwrapStep(q, step));
    }
  }

  lemma OtherStepsKeepView(c: Setup, q: Machine, step: Step)
    requires !c.drains && Enabled(Unbounded, c, q, step) && !LoadsHead(step)
    ensures Apply(Unbounded, c, q, step).ring.headView == q.ring.headView
  {
  }

  /** How many events a load of the head after these steps has seen. */
  function SeenByLoad(c: Setup, before: seq<Step>, load: Step): int
    requires After(Wrap64, c, before).Some? && LoadsHead(load)
  {
    var ring := After(Wrap64, c, before).value.ring;
    |ring.accepted| - Minus(Wrap64, ring.head, load.step.h)
  }

  /** From a load of the head on, as long as the worker does not load it again, its view is the number of
    events that load has seen. */
  lemma {:induction false} ViewSinceLoad(c: Setup, before: seq<Step>, load: Step, after: seq<Step>)
    returns (p: Machine)
    requires c.k <= 63 && !c.drains && After(Wrap64, c, before + [load] + after).Some?
    requires After(Wrap64, c, before).Some? && LoadsHead(load)
    requires forall step :: step in after ==> !LoadsHead(step)
    ensures Inv(c, p) && After(Wrap64, c, before + [load] + after) == Some(WrapState(p))
    ensures p.ring.headView == SeenByLoad(c, before, load)
    decreases |after|
  {
    if after == [] {
      assert before + [load] + after == before + [load];
      AfterAppend(c, before, load);
      var q := UnwrapRun(c, before);
      p := StepMovesView(c, q, load);
    } else {
      var init, last := after[..|after| - 1], after[|after| - 1];
      assert before + [load] + after == (before + [load] + init) + [last];
      AfterAppend(c, before + [load] + init, last);
      var q := ViewSinceLoad(c, before, load, init);
      p := StepMovesView(c, q, last);
    }
  }

  lemma UpToDateSeesAll(c: Setup, before: seq<Step>, load: Step)
    requires After(Wrap64, c, before).Some? && LoadsHead(load)
    requires load.step.h == After(Wrap64, c, before).value.ring.head
    ensures SeenByLoad(c, before, load) == |After(Wrap64, c, before).value.ring.accepted|
  {
  }

  lemma LeftoverOfView(c: Setup, p: Machine)
    requires Inv(c, p) && Joined(p) && !c.drains
    ensures 0 <= p.ring.headView == |p.ring.popped| <= |p.ring.accepted|
    ensures Leftover(WrapState(p)) == p.ring.accepted[p.ring.headView..]
  {
  }

  /** The leftover at join is exactly what the worker's last load of the head had not seen: for an up-to-date
    load, the events accepted after it, and for a stale one also those it missed. */
  lemma LeftoverIsLater(c: Setup, before: seq<Step>, load: Step, after: seq<Step>, w: Machine)
    requires c.k <= 63 && !c.drains && After(Wrap64, c, before + [load] + after) == Some(w) && Joined(w)
    requires After(Wrap64, c, before).Some? && LoadsHead(load)
    requires forall step :: step in after ==> !LoadsHead(step)
    ensures 0 <= SeenByLoad(c, before, load) == |w.ring.popped| <= |w.ring.accepted|
    ensures Leftover(w) == w.ring.accepted[SeenByLoad(c, before, load)..]
    ensures load.step.h == After(Wrap64, c, before).value.ring.head ==>
              Leftover(w) == w.ring.accepted[|After(Wrap64, c, before).value.ring.accepted|..]
  {
    var p := ViewSinceLoad(c, before, load, after);
    LeftoverOfView(c, p);
    if load.step.h == After(Wrap64, c, before).value.ring.head {
      UpToDateSeesAll(c, before, load);
    }
  }

  /** A worker that pops until empty again after reading `producer_done` completes every accepted event. */
  lemma DrainingLeavesNothing(c: Setup, w: Machine)
    requires c.k <= 63 && Reachable(c, w) && Joined(w) && c.drains
    ensures |w.ring.popped| <= |w.ring.accepted| && Leftover(w) == [] && w.completed == |w.ring.accepted|
  {
    var p := ReachableUnwraps(c, w);
  }
}
