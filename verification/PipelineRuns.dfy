/** Runs of the pipeline, built step by step: one that completes everything and one that loses it. */
module PipelineRuns {
  import opened Wrappers
  import opened Words
  import opened SpscRing
  import opened SpscPointerRing
  import opened Pipeline

  lemma InitReachable(c: Setup)
    ensures Pipeline.Reachable(c, Pipeline.Init(c))
  {
    assert After(Wrap64, c, []) == Some(Pipeline.Init(c));
  }

  // ---- A whole try_push and a whole pop, uninterrupted

  /** The producer is at the top of its loop with an iteration to go. */
  predicate CanPush(c: Setup, p: Machine, t: nat) {
    && p.ring.producer == PIdle && p.i < c.iterations && |p.ring.entries| == Pow2(c.k)
    && Between(Wrap64, p.ring.tailView, t, p.ring.tail)
  }

  predicate Fits(c: Setup, p: Machine, t: nat) {
    Minus(Wrap64, p.ring.head, t) != Pow2(c.k)
  }

  /** The machine after one iteration of the producer's loop. */
  function AfterIteration(c: Setup, p: Machine, t: nat): Machine
    requires CanPush(c, p, t)
  {
    var v := Address(Cell(p.i));
    if Fits(c, p, t)
    then p.(ring := AfterPush(c.k, p.ring, v, t, true), i := p.i + 1, hot := p.hot + [0])
    else p.(ring := AfterPush(c.k, p.ring, v, t, false), i := p.i + 1, dropped := p.dropped + 1)
  }

  lemma PushTests(c: Setup, p: Machine, t: nat, v: Pointer) returns (q: Machine)
    requires Pipeline.Reachable(c, p) && CanPush(c, p, t) && v == Address(Cell(p.i))
    ensures Pipeline.Reachable(c, q)
    ensures q == p.(ring := p.ring.(tailView := t,
                                    producer := if Fits(c, p, t) then PSlot(v, p.ring.head) else PDone(false)))
  {
    q := Extend(c, p, Push(PushLoadHead(v)));
    assert q == p.(ring := p.ring.(producer := POwn(v, p.ring.head)));
    q := Extend(c, q, Push(PushLoadTail(t)));
    assert q == p.(ring := p.ring.(producer := PView(v, p.ring.head, t), tailView := t));
    q := Extend(c, q, Push(PushTest));
  }

  /** The ring after filling and publishing the slot of index h. */
  function Published(k: nat, r: State, v: Pointer, h: nat): State
    requires |r.entries| == Pow2(k)
  {
    r.(entries := r.entries[BitAnd(h, Pow2(k) - 1) := v], head := (h + 1) % WORD, accepted := r.accepted + [v],
       producer := PDone(true))
  }

  lemma PublishedIsPushed(k: nat, r: State, v: Pointer, t: nat)
    requires r.producer == PIdle && |r.entries| == Pow2(k)
    ensures Published(k, r.(tailView := t, producer := PSlot(v, r.head)), v, r.head).(producer := PIdle) ==
            AfterPush(k, r, v, t, true)
  {
  }

  lemma PushFills(c: Setup, p: Machine, v: Pointer, h: nat) returns (q: Machine)
    requires Pipeline.Reachable(c, p) && p.ring.producer == PSlot(v, h) && |p.ring.entries| == Pow2(c.k)
    ensures Pipeline.Reachable(c, q) && q == p.(ring := Published(c.k, p.ring, v, h))
  {
    q := Extend(c, p, Push(PushFill));
    assert q == p.(ring := p.ring.(entries := p.ring.entries[BitAnd(h, Pow2(c.k) - 1) := v],
                                   producer := PPublish(v, h)));
    q := Extend(c, q, Push(PushPublish));
  }

  lemma PushReturns(c: Setup, p: Machine, ok: bool) returns (q: Machine)
    requires Pipeline.Reachable(c, p) && p.ring.producer == PDone(ok) && |p.ring.entries| == Pow2(c.k)
    ensures Pipeline.Reachable(c, q)
    ensures q == p.(ring := p.ring.(producer := PIdle), i := p.i + 1,
                    hot := if ok then p.hot + [0] else p.hot, dropped := if ok then p.dropped else p.dropped + 1)
  {
    q := Extend(c, p, PushResult(0));
  }

  lemma PushAccepts(c: Setup, p: Machine, t: nat, v: Pointer) returns (q: Machine)
    requires Pipeline.Reachable(c, p) && CanPush(c, p, t) && v == Address(Cell(p.i)) && Fits(c, p, t)
    ensures Pipeline.Reachable(c, q)
    ensures q == p.(ring := AfterPush(c.k, p.ring, v, t, true), i := p.i + 1, hot := p.hot + [0])
  {
    q := PushTests(c, p, t, v);
    q := PushFills(c, q, v, p.ring.head);
    q := PushReturns(c, q, true);
    PublishedIsPushed(c.k, p.ring, v, t);
  }

  lemma PushOnce(c: Setup, p: Machine, t: nat) returns (q: Machine)
    requires Pipeline.Reachable(c, p) && CanPush(c, p, t)
    ensures Pipeline.Reachable(c, q) && q == AfterIteration(c, p, t)
  {
    var v := Address(Cell(p.i));
    if Fits(c, p, t) {
      q := PushAccepts(c, p, t, v);
    } else {
      q := PushTests(c, p, t, v);
      q := PushReturns(c, q, false);
    }
  }

  predicate CanPop(c: Setup, p: Machine, h: nat) {
    && p.worker.Popping? && p.ring.consumer == CIdle && |p.ring.entries| == Pow2(c.k)
    && Between(Wrap64, p.ring.headView, h, p.ring.head)
  }

  lemma PopFindsNothing(c: Setup, p: Machine, h: nat) returns (q: Machine)
    requires Pipeline.Reachable(c, p) && CanPop(c, p, h) && p.ring.tail == h
    ensures Pipeline.Reachable(c, q)
    ensures q == p.(ring := AfterPop(c.k, p.ring, h, true), worker := if p.draining then Exited else Flag)
  {
    q := PopLoads(c, p, h);
    q := Extend(c, q, Pop(PopTest));
    assert q == p.(ring := p.ring.(consumer := CDone(Null), headView := h));
    q := Extend(c, q, PopResult);
  }

  lemma PopLoads(c: Setup, p: Machine, h: nat) returns (q: Machine)
    requires Pipeline.Reachable(c, p) && CanPop(c, p, h)
    ensures Pipeline.Reachable(c, q) && q == p.(ring := p.ring.(consumer := CView(p.ring.tail, h), headView := h))
  {
    q := Extend(c, p, Pop(PopLoadTail));
    assert q == p.(ring := p.ring.(consumer := COwn(p.ring.tail)));
    q := Extend(c, q, Pop(PopLoadHead(h)));
  }

  lemma PopReads(c: Setup, p: Machine, t: nat, v: Pointer) returns (q: Machine)
    requires Pipeline.Reachable(c, p) && p.worker.Popping? && p.ring.consumer == CSlot(t)
    requires |p.ring.entries| == Pow2(c.k) && v == p.ring.entries[BitAnd(t, Pow2(c.k) - 1)]
    ensures Pipeline.Reachable(c, q) && q == p.(ring := p.ring.(consumer := CPublish(t, v)))
  {
    q := Extend(c, p, Pop(PopRead));
  }

  lemma PopTests(c: Setup, p: Machine, h: nat) returns (q: Machine)
    requires Pipeline.Reachable(c, p) && CanPop(c, p, h) && p.ring.tail != h
    ensures Pipeline.Reachable(c, q) && q == p.(ring := p.ring.(consumer := CSlot(p.ring.tail), headView := h))
  {
    q := PopLoads(c, p, h);
    q := Extend(c, q, Pop(PopTest));
  }

  /** The ring after taking the value v of index t. */
  function Taken(r: State, t: nat, v: Pointer): State {
    r.(tail := (t + 1) % WORD, popped := r.popped + [v], consumer := CDone(v))
  }

  lemma TakenIsPopped(k: nat, r: State, h: nat)
    requires r.consumer == CIdle && |r.entries| == Pow2(k)
    ensures var v := r.entries[BitAnd(r.tail, Pow2(k) - 1)];
            Taken(r.(consumer := CPublish(r.tail, v), headView := h), r.tail, v).(consumer := CIdle) ==
            AfterPop(k, r, h, false)
  {
  }

  lemma PopPublishes(c: Setup, p: Machine, t: nat, v: Pointer) returns (q: Machine)
    requires Pipeline.Reachable(c, p) && p.worker.Popping? && p.ring.consumer == CPublish(t, v)
    requires |p.ring.entries| == Pow2(c.k)
    ensures Pipeline.Reachable(c, q) && q == p.(ring := Taken(p.ring, t, v))
  {
    q := Extend(c, p, Pop(PopPublish));
  }

  lemma PopReturns(c: Setup, p: Machine, index: nat) returns (q: Machine)
    requires Pipeline.Reachable(c, p) && p.worker.Popping? && p.ring.consumer == CDone(Address(index))
    requires |p.ring.entries| == Pow2(c.k)
    ensures Pipeline.Reachable(c, q)
    ensures q == p.(ring := p.ring.(consumer := CIdle), completed := p.completed + 1, samples := p.samples + [0],
                    checksum := AddWord(p.checksum, c.cost(index)), processed := p.processed + [index])
  {
    q := Extend(c, p, PopResult);
    assert q == p.(ring := p.ring.(consumer := CIdle), worker := Process(index));
    q := Extend(c, q, ProcessEvent(0));
    assert p.worker == Popping;
  }

  /** The machine after the worker has popped and processed one event. */
  function AfterEvent(c: Setup, p: Machine, h: nat, index: nat): Machine
    requires |p.ring.entries| == Pow2(c.k)
  {
    p.(ring := AfterPop(c.k, p.ring, h, false), completed := p.completed + 1, samples := p.samples + [0],
       checksum := AddWord(p.checksum, c.cost(index)), processed := p.processed + [index])
  }

  lemma PopOnce(c: Setup, p: Machine, h: nat, index: nat) returns (q: Machine)
    requires Pipeline.Reachable(c, p) && CanPop(c, p, h) && p.ring.tail != h
    requires p.ring.entries[BitAnd(p.ring.tail, Pow2(c.k) - 1)] == Address(index)
    ensures Pipeline.Reachable(c, q) && q == AfterEvent(c, p, h, index)
  {
    var v := Address(index);
    q := PopTests(c, p, h);
    q := PopReads(c, q, p.ring.tail, v);
    q := PopPublishes(c, q, p.ring.tail, v);
    q := PopReturns(c, q, index);
    TakenIsPopped(c.k, p.ring, h);
  }

  // ---- A run that completes everything

  /** Every event pushed so far has been processed, and both threads are at the top of their loops. */
  predicate CaughtUp(c: Setup, p: Machine) {
    && p.ring.producer == PIdle && p.worker == Popping && p.ring.consumer == CIdle && !p.done && !p.draining
    && |p.ring.entries| == Pow2(c.k) && p.ring.head == p.ring.tail < WORD && |p.ring.popped| == |p.ring.accepted|
    && p.i == p.completed <= c.iterations && p.dropped == 0
  }

  lemma StillBetween(view: nat, x: nat)
    requires x < WORD
    ensures Between(Wrap64, view, x, x)
  {
  }

  lemma OneRound(c: Setup, p: Machine) returns (q: Machine)
    requires Pipeline.Reachable(c, p) && CaughtUp(c, p) && p.i < c.iterations
    ensures Pipeline.Reachable(c, q) && CaughtUp(c, q) && q.i == p.i + 1
  {
    var h := (p.ring.head + 1) % WORD;
    StillBetween(p.ring.tailView, p.ring.tail);
    q := PushOnce(c, p, p.ring.tail);
    StillBetween(q.ring.headView, h);
    q := PopOnce(c, q, h, Cell(p.i));
  }

  lemma {:induction false} AllRounds(c: Setup, p: Machine) returns (q: Machine)
    requires Pipeline.Reachable(c, p) && CaughtUp(c, p)
    ensures Pipeline.Reachable(c, q) && CaughtUp(c, q) && q.i == c.iterations
    decreases c.iterations - p.i
  {
    q := p;
    if p.i < c.iterations {
      q := OneRound(c, p);
      q := AllRounds(c, q);
    }
  }

  /** For every setup, with the program's worker and with the draining one, some run drops nothing and
    completes everything. */
  lemma EverythingCanBeCompleted(c: Setup) returns (w: Machine)
    ensures Pipeline.Reachable(c, w) && Joined(w) && w.dropped == 0 && w.completed == c.iterations
    ensures |w.ring.popped| <= |w.ring.accepted| && Leftover(w) == []
  {
    InitReachable(c);
    w := AllRounds(c, Pipeline.Init(c));
    w := Extend(c, w, Finish);
    StillBetween(w.ring.headView, w.ring.head);
    w := PopFindsNothing(c, w, w.ring.head);
    w := Extend(c, w, ReadDone(true));
    if c.drains {
      StillBetween(w.ring.headView, w.ring.head);
      w := PopFindsNothing(c, w, w.ring.head);
    }
  }

  // ---- A run that loses everything the ring can hold

  /** The worker has found the ring empty and is about to read the flag; the producer has filled the ring as
    far as it goes and dropped the rest. */
  predicate Waiting(c: Setup, p: Machine) {
    && p.worker == Flag && !p.done && p.ring.producer == PIdle && p.ring.consumer == CIdle
    && |p.ring.entries| == Pow2(c.k) && p.ring.tail == p.ring.tailView == 0 && p.ring.popped == []
    && p.ring.head == |p.ring.accepted| == (if p.i <= Pow2(c.k) then p.i else Pow2(c.k))
    && p.i <= c.iterations && p.dropped == p.i - p.ring.head && p.completed == 0
  }

  lemma NoWrapYet(k: nat, head: nat)
    requires k <= 63 && head <= Pow2(k)
    ensures Minus(Wrap64, head, 0) == head && (head + 1) % WORD == head + 1
  {
    CapacityFits(k);
  }

  lemma PushWhileWaiting(c: Setup, p: Machine) returns (q: Machine)
    requires c.k <= 63 && Pipeline.Reachable(c, p) && Waiting(c, p) && p.i < c.iterations
    ensures Pipeline.Reachable(c, q) && Waiting(c, q) && q.i == p.i + 1
  {
    StillBetween(0, 0);
    NoWrapYet(c.k, p.ring.head);
    q := PushOnce(c, p, 0);
    if p.i < Pow2(c.k) {
      assert q.ring.head == p.i + 1 == |q.ring.accepted|;
    } else {
      assert q.ring == AfterPush(c.k, p.ring, Address(Cell(p.i)), 0, false);
    }
  }

  lemma {:induction false} PushAllWhileWaiting(c: Setup, p: Machine) returns (q: Machine)
    requires c.k <= 63 && Pipeline.Reachable(c, p) && Waiting(c, p)
    ensures Pipeline.Reachable(c, q) && Waiting(c, q) && q.i == c.iterations
    decreases c.iterations - p.i
  {
    q := p;
    if p.i < c.iterations {
      q := PushWhileWaiting(c, p);
      q := PushAllWhileWaiting(c, q);
    }
  }

  /** For every number of iterations there is a run of the program's pipeline that completes nothing: the
    producer fills the ring and sets the flag between the worker's empty pop and its read of the flag.
    Nothing is dropped in it unless the iterations exceed the capacity. */
  lemma EverythingCanBeLeftOver(c: Setup) returns (w: Machine)
    requires c.k <= 63 && !c.drains
    ensures Pipeline.Reachable(c, w) && Joined(w) && w.completed == 0 && |w.ring.popped| <= |w.ring.accepted|
    ensures |Leftover(w)| == if c.iterations <= Pow2(c.k) then c.iterations else Pow2(c.k)
    ensures c.iterations <= Pow2(c.k) ==> w.dropped == 0
  {
    InitReachable(c);
    StillBetween(0, 0);
    w := PopFindsNothing(c, Pipeline.Init(c), 0);
    w := PushAllWhileWaiting(c, w);
    w := Extend(c, w, Finish);
    w := Extend(c, w, ReadDone(true));
  }

  /** Every run of this setup completes every event it accepts. */
  ghost predicate AlwaysComplete(c: Setup) {
    forall w :: Pipeline.Reachable(c, w) && Joined(w) ==> |w.ring.popped| == |w.ring.accepted|
  }

  /** The program's worker is sure to complete what is accepted exactly when there is nothing to do. */
  lemma CompleteOnlyWithoutWork(c: Setup)
    requires c.k <= 63 && !c.drains
    ensures AlwaysComplete(c) <==> c.iterations == 0
  {
    if c.iterations == 0 {
      forall w | Pipeline.Reachable(c, w) && Joined(w) ensures |w.ring.popped| == |w.ring.accepted| {
        Conservation(c, w);
      }
    } else {
      var w := EverythingCanBeLeftOver(c);
      assert |w.ring.popped| != |w.ring.accepted|;
    }
  }
}
