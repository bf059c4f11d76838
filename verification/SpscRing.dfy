/** The lock-free single-producer/single-consumer ring as a machine of atomic steps.

  Every load, store and test of `try_push` and `pop` is one step, so any interleaving of the two
  calls is a sequence of steps.  An acquire load of the other side's index may return any value
  between the last one this side saw and the current one.

  The same machine runs on two kinds of index: `Wrap64`, the program's 64-bit words, and
  `Unbounded`, mathematical counters.  Facts are proved on the counters and carried to the words by
  the bisimulation at the end of this file. */
module SpscRing {
  import opened Words

  /** What a slot holds: the null pointer or the address of an event of the pool. */
  datatype Pointer = Null | Address(index: nat)

  datatype Indices = Unbounded | Wrap64

  /** Where the producer is inside `try_push`. */
  datatype Producer =
    | PIdle
    | POwn(value: Pointer, h: nat)             // own index loaded
    | PView(value: Pointer, h: nat, t: nat)    // the consumer's index loaded
    | PSlot(value: Pointer, h: nat)            // not full: about to fill the slot
    | PPublish(value: Pointer, h: nat)         // slot filled: about to publish
    | PDone(ok: bool)

  /** Where the consumer is inside `pop`. */
  datatype Consumer =
    | CIdle
    | COwn(t: nat)
    | CView(t: nat, h: nat)
    | CSlot(t: nat)
    | CPublish(t: nat, value: Pointer)
    | CDone(value: Pointer)

  /** `tailView` and `headView` are the last values the producer and the consumer acquired.
    `accepted` and `popped` are history: the values published by pushes and taken by pops so far. */
  datatype State = State(entries: seq<Pointer>, head: nat, tail: nat,
                         tailView: nat, headView: nat,
                         producer: Producer, consumer: Consumer,
                         accepted: seq<Pointer>, popped: seq<Pointer>)

  datatype Step =
    | PushLoadHead(value: Pointer) | PushLoadTail(t: nat) | PushTest | PushFill | PushPublish | PushReturn
    | PopLoadTail | PopLoadHead(h: nat) | PopTest | PopRead | PopPublish | PopReturn

  // ---- Index arithmetic

  function Next(a: Indices, x: nat): nat {
    if a == Wrap64 then (x + 1) % WORD else x + 1
  }

  /** The difference of two indices, as subtraction on the index type gives it. */
  function Minus(a: Indices, x: nat, y: nat): int {
    if a == Wrap64 then (x - y) % WORD else x - y
  }

  function Slot(a: Indices, k: nat, x: nat): (s: nat)
    ensures s < Pow2(k)
  {
    if a == Wrap64 then BitAnd(x, Pow2(k) - 1) else x % Pow2(k)
  }

  /** x is one of the values an index takes while it advances from lo to hi. */
  predicate Between(a: Indices, lo: nat, x: nat, hi: nat) {
    (a == Wrap64 ==> x < WORD) && 0 <= Minus(a, x, lo) <= Minus(a, hi, lo)
  }

  // ---- The machine, for a ring of 2^k slots

  function Init(k: nat): State {
    State(seq(Pow2(k), _ => Null), 0, 0, 0, 0, PIdle, CIdle, [], [])
  }

  predicate Enabled(a: Indices, k: nat, s: State, step: Step) {
    && |s.entries| == Pow2(k)
    && match step
       case PushLoadHead(_) => s.producer.PIdle?
       case PushLoadTail(t) => s.producer.POwn? && Between(a, s.tailView, t, s.tail)
       case PushTest => s.producer.PView?
       case PushFill => s.producer.PSlot?
       case PushPublish => s.producer.PPublish?
       case PushReturn => s.producer.PDone?
       case PopLoadTail => s.consumer.CIdle?
       case PopLoadHead(h) => s.consumer.COwn? && Between(a, s.headView, h, s.head)
       case PopTest => s.consumer.CView?
       case PopRead => s.consumer.CSlot?
       case PopPublish => s.consumer.CPublish?
       case PopReturn => s.consumer.CDone?
  }

  function Apply(a: Indices, k: nat, s: State, step: Step): State
    requires Enabled(a, k, s, step)
  {
    match step
    case PushLoadHead(v) => s.(producer := POwn(v, s.head))
    case PushLoadTail(t) => s.(producer := PView(s.producer.value, s.producer.h, t), tailView := t)
    case PushTest =>
      if Minus(a, s.producer.h, s.producer.t) == Pow2(k)
      then s.(producer := PDone(false))
      else s.(producer := PSlot(s.producer.value, s.producer.h))
    case PushFill =>
      s.(entries := s.entries[Slot(a, k, s.producer.h) := s.producer.value],
         producer := PPublish(s.producer.value, s.producer.h))
    case PushPublish =>
      s.(head := Next(a, s.producer.h), accepted := s.accepted + [s.producer.value], producer := PDone(true))
    case PushReturn => s.(producer := PIdle)
    case PopLoadTail => s.(consumer := COwn(s.tail))
    case PopLoadHead(h) => s.(consumer := CView(s.consumer.t, h), headView := h)
    case PopTest =>
      if s.consumer.t == s.consumer.h
      then s.(consumer := CDone(Null))
      else s.(consumer := CSlot(s.consumer.t))
    case PopRead => s.(consumer := CPublish(s.consumer.t, s.entries[Slot(a, k, s.consumer.t)]))
    case PopPublish =>
      s.(tail := Next(a, s.consumer.t), popped := s.popped + [s.consumer.value], consumer := CDone(s.consumer.value))
    case PopReturn => s.(consumer := CIdle)
  }

  /** The steps can be taken one after the other from s. */
  predicate Runs(a: Indices, k: nat, s: State, steps: seq<Step>)
    decreases |steps|
  {
    steps == [] || (Enabled(a, k, s, steps[0]) && Runs(a, k, Apply(a, k, s, steps[0]), steps[1..]))
  }

  function Exec(a: Indices, k: nat, s: State, steps: seq<Step>): State
    requires Runs(a, k, s, steps)
    decreases |steps|
  {
    if steps == [] then s else Exec(a, k, Apply(a, k, s, steps[0]), steps[1..])
  }

  // ---- The invariant, on unbounded counters

  /** What the ring holds: accepted and not yet popped, oldest first. */
  function Queue(s: State): seq<Pointer>
    requires |s.popped| <= |s.accepted|
  {
    s.accepted[|s.popped|..]
  }

  ghost predicate Live(k: nat, s: State)
    requires |s.entries| == Pow2(k)
  {
    forall j: nat {:trigger s.accepted[j]} :: s.tail <= j < |s.accepted| ==> s.entries[j % Pow2(k)] == s.accepted[j]
  }

  ghost predicate ProducerInv(k: nat, s: State)
    requires |s.entries| == Pow2(k)
  {
    match s.producer
    case PIdle => true
    case POwn(_, h) => h == s.head
    case PView(_, h, t) => h == s.head && t == s.tailView
    case PSlot(_, h) => h == s.head < s.tailView + Pow2(k)
    case PPublish(v, h) => h == s.head < s.tailView + Pow2(k) && s.entries[h % Pow2(k)] == v
    case PDone(_) => true
  }

  ghost predicate ConsumerInv(s: State) {
    match s.consumer
    case CIdle => true
    case COwn(t) => t == s.tail
    case CView(t, h) => t == s.tail && h == s.headView
    case CSlot(t) => t == s.tail < s.headView
    case CPublish(t, v) => t == s.tail < s.headView && t < |s.accepted| && v == s.accepted[t]
    case CDone(v) =>
      || (v.Null? && s.tail == s.headView)
      || (s.tail > 0 && s.tail == |s.popped| && v == s.popped[s.tail - 1])
  }

  ghost predicate Inv(k: nat, s: State) {
    && |s.entries| == Pow2(k)
    && s.head == |s.accepted| && s.tail == |s.popped|
    && s.tailView <= s.tail <= s.headView <= s.head <= s.tailView + Pow2(k)
    && s.popped == s.accepted[..s.tail]
    && Live(k, s) && ProducerInv(k, s) && ConsumerInv(s)
  }

  lemma InitInv(k: nat)
    ensures Inv(k, Init(k))
  {
  }

  lemma FillKeepsLive(k: nat, s: State)
    requires Inv(k, s) && s.producer.PSlot?
    ensures Live(k, Apply(Unbounded, k, s, PushFill))
  {
    forall j: nat | s.tail <= j < |s.accepted| ensures s.head % Pow2(k) != j % Pow2(k) {
      ModDistinct(j, s.head, Pow2(k));
    }
  }

  /** Every step keeps the invariant. */
  lemma StepKeepsInv(k: nat, s: State, step: Step)
    requires Inv(k, s) && Enabled(Unbounded, k, s, step)
    ensures Inv(k, Apply(Unbounded, k, s, step))
  {
    var s' := Apply(Unbounded, k, s, step);
    match step {
      case PushFill => FillKeepsLive(k, s);
      case PushPublish =>
        assert s'.accepted[..s.tail] == s.accepted[..s.tail];
      case PopRead =>
        assert s.accepted[s.tail] == s.entries[s.tail % Pow2(k)];
      case PopPublish =>
        assert s'.popped == s.accepted[..s'.tail];
      case _ =>
    }
  }

  lemma {:induction false} RunKeepsInv(k: nat, s: State, steps: seq<Step>)
    requires Inv(k, s) && Runs(Unbounded, k, s, steps)
    ensures Inv(k, Exec(Unbounded, k, s, steps))
    decreases |steps|
  {
    if steps != [] {
      StepKeepsInv(k, s, steps[0]);
      RunKeepsInv(k, Apply(Unbounded, k, s, steps[0]), steps[1..]);
    }
  }

  // ---- Wrapping the counters: a bisimulation

  function WrapProducer(p: Producer): Producer {
    match p
    case POwn(v, h) => POwn(v, h % WORD)
    case PView(v, h, t) => PView(v, h % WORD, t % WORD)
    case PSlot(v, h) => PSlot(v, h % WORD)
    case PPublish(v, h) => PPublish(v, h % WORD)
    case _ => p
  }

  function WrapConsumer(c: Consumer): Consumer {
    match c
    case COwn(t) => COwn(t % WORD)
    case CView(t, h) => CView(t % WORD, h % WORD)
    case CSlot(t) => CSlot(t % WORD)
    case CPublish(t, v) => CPublish(t % WORD, v)
    case _ => c
  }

  /** The 64-bit state that a state on unbounded counters stands for. */
  function Wrap(s: State): State {
    s.(head := s.head % WORD, tail := s.tail % WORD, tailView := s.tailView % WORD, headView := s.headView % WORD,
       producer := WrapProducer(s.producer), consumer := WrapConsumer(s.consumer))
  }

  function WrapStep(step: Step): Step {
    match step
    case PushLoadTail(t) => PushLoadTail(t % WORD)
    case PopLoadHead(h) => PopLoadHead(h % WORD)
    case _ => step
  }

  /** The counter step behind a 64-bit step: an observed word is unwrapped from the last view. */
  function Unwrap(s: State, step: Step): Step {
    match step
    case PushLoadTail(t) => PushLoadTail(s.tailView + (t - s.tailView % WORD) % WORD)
    case PopLoadHead(h) => PopLoadHead(s.headView + (h - s.headView % WORD) % WORD)
    case _ => step
  }

  /** Subtracting two wrapped counters less than 2^64 apart gives their true distance. */
  lemma WrappedMinus(x: nat, y: nat)
    requires y <= x < y + WORD
    ensures Minus(Wrap64, x % WORD, y % WORD) == x - y
  {
    var q := x / WORD - y / WORD;
    assert x % WORD - y % WORD == (x - y) - q * WORD;
    ModUnique(x % WORD - y % WORD, WORD, -q, x - y);
  }

  lemma WrappedEqual(x: nat, y: nat)
    requires y <= x < y + WORD
    ensures x % WORD == y % WORD <==> x == y
  {
    WrappedMinus(x, y);
  }

  /** Masking the wrapped counter selects the slot of the true counter, also across the 2^64 wrap. */
  lemma WrappedSlot(k: nat, x: nat)
    requires k <= 63
    ensures Slot(Wrap64, k, x % WORD) == x % Pow2(k)
  {
    MaskIsMod(x % WORD, k);
    ModOfWord(x, k);
  }

  lemma WrappedNext(x: nat)
    ensures Next(Wrap64, x % WORD) == (x + 1) % WORD
  {
    var q, r := x / WORD, x % WORD;
    if r + 1 < WORD {
      ModUnique(x + 1, WORD, q, r + 1);
    } else {
      ModUnique(x + 1, WORD, q + 1, 0);
    }
  }

  /** Unwrapping an observed word: it lies between the two counters exactly when the word lies
    between their wrapped values. */
  lemma UnwrapBetween(lo: nat, w: nat, hi: nat)
    requires lo <= hi < lo + WORD && w < WORD
    ensures var x := lo + (w - lo % WORD) % WORD;
            x % WORD == w && (Between(Wrap64, lo % WORD, w, hi % WORD) <==> lo <= x <= hi)
  {
    var d := (w - lo % WORD) % WORD;
    var x := lo + d;
    var q := (w - lo % WORD) / WORD;
    assert w - lo % WORD == q * WORD + d;
    ModUnique(x, WORD, lo / WORD - q, w);
    WrappedMinus(hi, lo);
  }

  lemma WrapBetween(lo: nat, x: nat, hi: nat)
    requires lo <= x <= hi < lo + WORD
    ensures Between(Wrap64, lo % WORD, x % WORD, hi % WORD)
  {
    WrappedMinus(x, lo);
    WrappedMinus(hi, lo);
  }

  predicate IsPush(step: Step) {
    step.PushLoadHead? || step.PushLoadTail? || step.PushTest? || step.PushFill? || step.PushPublish?
    || step.PushReturn?
  }

  lemma WrapForwardPush(k: nat, s: State, step: Step)
    requires k <= 63 && Inv(k, s) && Enabled(Unbounded, k, s, step) && IsPush(step)
    ensures Enabled(Wrap64, k, Wrap(s), WrapStep(step))
    ensures Apply(Wrap64, k, Wrap(s), WrapStep(step)) == Wrap(Apply(Unbounded, k, s, step))
  {
    CapacityFits(k);
    match step {
      case PushLoadTail(t) => WrapBetween(s.tailView, t, s.tail);
      case PushTest => WrappedMinus(s.producer.h, s.producer.t);
      case PushFill => WrappedSlot(k, s.head);
      case PushPublish => WrappedNext(s.head);
      case _ =>
    }
  }

  lemma WrapForwardPop(k: nat, s: State, step: Step)
    requires k <= 63 && Inv(k, s) && Enabled(Unbounded, k, s, step) && !IsPush(step)
    ensures Enabled(Wrap64, k, Wrap(s), WrapStep(step))
    ensures Apply(Wrap64, k, Wrap(s), WrapStep(step)) == Wrap(Apply(Unbounded, k, s, step))
  {
    CapacityFits(k);
    match step {
      case PopLoadHead(h) => WrapBetween(s.headView, h, s.head);
      case PopTest => WrappedEqual(s.consumer.h, s.consumer.t);
      case PopRead => WrappedSlot(k, s.tail);
      case PopPublish => WrappedNext(s.tail);
      case _ =>
    }
  }

  /** A step on the counters is matched by the wrapped step on the words, with the same effect. */
  lemma WrapForward(k: nat, s: State, step: Step)
    requires k <= 63 && Inv(k, s) && Enabled(Unbounded, k, s, step)
    ensures Enabled(Wrap64, k, Wrap(s), WrapStep(step))
    ensures Apply(Wrap64, k, Wrap(s), WrapStep(step)) == Wrap(Apply(Unbounded, k, s, step))
  {
    if IsPush(step) {
      WrapForwardPush(k, s, step);
    } else {
      WrapForwardPop(k, s, step);
    }
  }

  /** A step on the words is matched by its unwrapped step on the counters. */
  lemma WrapBackward(k: nat, s: State, step: Step)
    requires k <= 63 && Inv(k, s) && Enabled(Wrap64, k, Wrap(s), step)
    ensures Enabled(Unbounded, k, s, Unwrap(s, step)) && WrapStep(Unwrap(s, step)) == step
    ensures Apply(Wrap64, k, Wrap(s), step) == Wrap(Apply(Unbounded, k, s, Unwrap(s, step)))
  {
    UnwrapEnabled(k, s, step);
    WrapForward(k, s, Unwrap(s, step));
  }

  lemma UnwrapEnabled(k: nat, s: State, step: Step)
    requires k <= 63 && Inv(k, s) && Enabled(Wrap64, k, Wrap(s), step)
    ensures Enabled(Unbounded, k, s, Unwrap(s, step)) && WrapStep(Unwrap(s, step)) == step
  {
    CapacityFits(k);
    match step {
      case PushLoadTail(t) => UnwrapBetween(s.tailView, t, s.tail);
      case PopLoadHead(h) => UnwrapBetween(s.headView, h, s.head);
      case _ =>
    }
  }

  /** An acquired head stands for the counter as far behind the current one as the words are apart. */
  lemma UnwrapLoad(k: nat, s: State, h: nat)
    requires k <= 63 && Inv(k, s) && Between(Wrap64, s.headView % WORD, h, s.head % WORD)
    ensures Unwrap(s, PopLoadHead(h)).h == s.head - Minus(Wrap64, s.head % WORD, h)
  {
    CapacityFits(k);
    UnwrapBetween(s.headView, h, s.head);
    WrappedMinus(s.head, Unwrap(s, PopLoadHead(h)).h);
  }

  /** The 64-bit ring and the ring on counters are bisimilar: related states take matching steps to
    related states, in both directions. */
  lemma Bisimulation(k: nat, s: State)
    requires k <= 63 && Inv(k, s)
    ensures forall step :: Enabled(Unbounded, k, s, step) ==>
              && Enabled(Wrap64, k, Wrap(s), WrapStep(step))
              && Apply(Wrap64, k, Wrap(s), WrapStep(step)) == Wrap(Apply(Unbounded, k, s, step))
    ensures forall step :: Enabled(Wrap64, k, Wrap(s), step) ==>
              && Enabled(Unbounded, k, s, Unwrap(s, step))
              && WrapStep(Unwrap(s, step)) == step
              && Apply(Wrap64, k, Wrap(s), step) == Wrap(Apply(Unbounded, k, s, Unwrap(s, step)))
  {
    forall step | Enabled(Unbounded, k, s, step)
      ensures Enabled(Wrap64, k, Wrap(s), WrapStep(step))
      ensures Apply(Wrap64, k, Wrap(s), WrapStep(step)) == Wrap(Apply(Unbounded, k, s, step))
    {
      WrapForward(k, s, step);
    }
    forall step | Enabled(Wrap64, k, Wrap(s), step)
      ensures Enabled(Unbounded, k, s, Unwrap(s, step)) && WrapStep(Unwrap(s, step)) == step
      ensures Apply(Wrap64, k, Wrap(s), step) == Wrap(Apply(Unbounded, k, s, Unwrap(s, step)))
    {
      WrapBackward(k, s, step);
    }
  }

  /** Every run of the 64-bit ring has a run on counters behind it. */
  lemma {:induction false} UnwrapRun(k: nat, s: State, steps: seq<Step>) returns (s': State)
    requires k <= 63 && Inv(k, s) && Runs(Wrap64, k, Wrap(s), steps)
    ensures Inv(k, s') && Wrap(s') == Exec(Wrap64, k, Wrap(s), steps)
    decreases |steps|
  {
    if steps == [] {
      s' := s;
    } else {
      var step := Unwrap(s, steps[0]);
      WrapBackward(k, s, steps[0]);
      StepKeepsInv(k, s, step);
      s' := UnwrapRun(k, Apply(Unbounded, k, s, step), steps[1..]);
    }
  }

  // ---- What holds in every reachable state of the 64-bit ring

  /** s is reachable on 64-bit words from the empty ring. */
  ghost predicate Reachable(k: nat, s: State) {
    exists steps :: Runs(Wrap64, k, Init(k), steps) && Exec(Wrap64, k, Init(k), steps) == s
  }

  lemma ReachableUnwraps(k: nat, w: State) returns (s: State)
    requires k <= 63 && Reachable(k, w)
    ensures Inv(k, s) && Wrap(s) == w
  {
    var steps :| Runs(Wrap64, k, Init(k), steps) && Exec(Wrap64, k, Init(k), steps) == w;
    InitInv(k);
    s := UnwrapRun(k, Init(k), steps);
  }

  /** The slot of the i-th value in the queue. */
  function LiveSlot(k: nat, w: State, i: nat): nat {
    Slot(Wrap64, k, (w.tail + i) % WORD)
  }

  lemma LiveSlotUnwraps(k: nat, s: State, i: nat)
    requires k <= 63
    ensures LiveSlot(k, Wrap(s), i) == (s.tail + i) % Pow2(k)
  {
    var q := (s.tail + i) / WORD - s.tail / WORD;
    ModUnique(s.tail % WORD + i, WORD, q, (s.tail + i) % WORD);
    WrappedSlot(k, s.tail + i);
  }

  /** First in, first out: the popped values are a prefix of the accepted ones and the rest, never
    more than the capacity, sits in order in the slots from tail on; `head - tail` is their number. */
  lemma ReachableIsFifo(k: nat, w: State)
    requires k <= 63 && Reachable(k, w)
    ensures w.popped <= w.accepted && |w.entries| == Pow2(k)
    ensures |Queue(w)| <= Pow2(k)
    ensures Minus(Wrap64, w.head, w.tail) == |Queue(w)|
    ensures forall i :: 0 <= i < |Queue(w)| ==>
              LiveSlot(k, w, i) < |w.entries| && w.entries[LiveSlot(k, w, i)] == Queue(w)[i]
  {
    var s := ReachableUnwraps(k, w);
    CapacityFits(k);
    WrappedMinus(s.head, s.tail);
    forall i | 0 <= i < |Queue(w)| ensures w.entries[LiveSlot(k, w, i)] == Queue(w)[i] {
      LiveSlotUnwraps(k, s, i);
      assert s.accepted[s.tail + i] == Queue(w)[i];
    }
  }

  /** What one step does to a bounded FIFO queue: publishing appends the offered value to a queue that
    is not full and reports success, popping returns the oldest value, and every other step leaves
    the queue alone. */
  ghost predicate FifoStep(capacity: nat, w: State, step: Step, w': State)
    requires |w.popped| <= |w.accepted| && |w'.popped| <= |w'.accepted|
  {
    var q, q' := Queue(w), Queue(w');
    match step
    case PushPublish =>
      && |q| < capacity && w.producer.PPublish? && q' == q + [w.producer.value]
      && w'.producer == PDone(true) && w'.popped == w.popped
    case PopPublish =>
      && |q| > 0 && q' == q[1..] && w'.popped == w.popped + [q[0]] && w'.consumer == CDone(q[0])
    case _ => q' == q && w'.popped == w.popped
  }

  /** The 64-bit ring refines the bounded FIFO queue, step by step. */
  lemma RefinesFifo(k: nat, w: State, step: Step)
    requires k <= 63 && Reachable(k, w) && Enabled(Wrap64, k, w, step)
    ensures var w' := Apply(Wrap64, k, w, step);
            && |w.popped| <= |w.accepted| && |w'.popped| <= |w'.accepted|
            && FifoStep(Pow2(k), w, step, w')
  {
    var s := ReachableUnwraps(k, w);
    WrapBackward(k, s, step);
    StepKeepsInv(k, s, Unwrap(s, step));
  }

  /** The number of pops the producer has seen, behind its view of the tail. */
  function PopsSeen(w: State): int {
    |w.popped| - Minus(Wrap64, w.tail, w.tailView)
  }

  /** The number of pushes the consumer has seen, behind its view of the head. */
  function PushesSeen(w: State): int {
    |w.accepted| - Minus(Wrap64, w.head, w.headView)
  }

  /** A try_push gives up exactly when the values accepted exceed the pops it has seen by the capacity; so
    with an up-to-date view exactly when the queue is full. */
  lemma PushFailsOnlyWhenFull(k: nat, w: State)
    requires k <= 63 && Reachable(k, w) && Enabled(Wrap64, k, w, PushTest)
    ensures 0 <= PopsSeen(w) <= |w.popped| <= |w.accepted|
    ensures Apply(Wrap64, k, w, PushTest).producer == PDone(false) <==> |w.accepted| == PopsSeen(w) + Pow2(k)
    ensures w.tailView == w.tail ==>
              (Apply(Wrap64, k, w, PushTest).producer == PDone(false) <==> |Queue(w)| == Pow2(k))
  {
    var s := ReachableUnwraps(k, w);
    PopsSeenUnwraps(k, s);
    WrappedMinus(s.head, s.tailView);
    assert Minus(Wrap64, w.producer.h, w.producer.t) == s.head - s.tailView;
    assert w.tailView == w.tail ==> Minus(Wrap64, w.tail, w.tailView) == 0;
  }

  lemma PopsSeenUnwraps(k: nat, s: State)
    requires k <= 63 && Inv(k, s)
    ensures PopsSeen(Wrap(s)) == s.tailView && s.head < s.tailView + WORD
  {
    CapacityFits(k);
    WrappedMinus(s.tail, s.tailView);
  }

  lemma PushesSeenUnwraps(k: nat, s: State)
    requires k <= 63 && Inv(k, s)
    ensures PushesSeen(Wrap(s)) == s.headView && s.headView < s.tail + WORD
  {
    CapacityFits(k);
    WrappedMinus(s.head, s.headView);
  }

  /** A pop returns nothing exactly when it has taken all the pushes it has seen; so with an up-to-date view
    exactly when the queue is empty. */
  lemma PopFailsOnlyWhenEmpty(k: nat, w: State)
    requires k <= 63 && Reachable(k, w) && Enabled(Wrap64, k, w, PopTest)
    ensures |w.popped| <= PushesSeen(w) <= |w.accepted|
    ensures Apply(Wrap64, k, w, PopTest).consumer == CDone(Null) <==> |w.popped| == PushesSeen(w)
    ensures w.headView == w.head ==> (Apply(Wrap64, k, w, PopTest).consumer == CDone(Null) <==> Queue(w) == [])
  {
    var s := ReachableUnwraps(k, w);
    PushesSeenUnwraps(k, s);
    WrappedEqual(s.headView, s.tail);
  }

  /** The producer is between its full check and its head store, on this slot. */
  ghost predicate ProducerHolds(k: nat, s: State, slot: nat) {
    (s.producer.PSlot? || s.producer.PPublish?) && slot == Slot(Wrap64, k, s.producer.h)
  }

  /** The consumer is between its empty check and its tail store, on this slot. */
  ghost predicate ConsumerHolds(k: nat, s: State, slot: nat) {
    (s.consumer.CSlot? || s.consumer.CPublish?) && slot == Slot(Wrap64, k, s.consumer.t)
  }

  /** Producer and consumer never hold the same slot, and the slot being filled holds no unread value. */
  lemma SlotExclusivity(k: nat, w: State, p: nat)
    requires k <= 63 && Reachable(k, w) && ProducerHolds(k, w, p)
    ensures !ConsumerHolds(k, w, p)
    ensures |w.popped| <= |w.accepted|
    ensures forall i :: 0 <= i < |Queue(w)| ==> LiveSlot(k, w, i) != p
  {
    var s := ReachableUnwraps(k, w);
    WrappedSlot(k, s.head);
    WrappedSlot(k, s.tail);
    assert !ConsumerHolds(k, w, p) by {
      if s.tail < s.head {
        ModDistinct(s.tail, s.head, Pow2(k));
      }
    }
    forall i | 0 <= i < |Queue(w)| ensures LiveSlot(k, w, i) != p {
      LiveSlotUnwraps(k, s, i);
      ModDistinct(s.tail + i, s.head, Pow2(k));
    }
  }
}
