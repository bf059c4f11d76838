/** The ring as the program's object: `try_push` and `pop` update the slot array and the two indices in
  place.  Each call is the machine's own sequence of steps, for any value the acquire load may return. */
module SpscPointerRing {
  import opened Words
  import opened SpscRing

  lemma {:induction false} RunsAppend(k: nat, s: State, xs: seq<Step>, ys: seq<Step>)
    requires Runs(Wrap64, k, s, xs) && Runs(Wrap64, k, Exec(Wrap64, k, s, xs), ys)
    ensures Runs(Wrap64, k, s, xs + ys)
    ensures Exec(Wrap64, k, s, xs + ys) == Exec(Wrap64, k, Exec(Wrap64, k, s, xs), ys)
    decreases |xs|
  {
    if xs == [] {
      assert xs + ys == ys;
    } else {
      assert (xs + ys)[1..] == xs[1..] + ys;
      RunsAppend(k, Apply(Wrap64, k, s, xs[0]), xs[1..], ys);
    }
  }

  lemma ReachableGoesOn(k: nat, w: State, ys: seq<Step>)
    requires Reachable(k, w) && Runs(Wrap64, k, w, ys)
    ensures Reachable(k, Exec(Wrap64, k, w, ys))
  {
    var xs :| Runs(Wrap64, k, Init(k), xs) && Exec(Wrap64, k, Init(k), xs) == w;
    RunsAppend(k, Init(k), xs, ys);
  }

  lemma RunOne(k: nat, s: State, step: Step)
    requires Enabled(Wrap64, k, s, step)
    ensures Runs(Wrap64, k, s, [step]) && Exec(Wrap64, k, s, [step]) == Apply(Wrap64, k, s, step)
  {
    var s' := Apply(Wrap64, k, s, step);
    assert [step][1..] == [];
    assert Runs(Wrap64, k, s', []) && Exec(Wrap64, k, s', []) == s';
  }

  /** One more step at the end of a run. */
  lemma RunMore(k: nat, s: State, xs: seq<Step>, step: Step)
    requires Runs(Wrap64, k, s, xs) && Enabled(Wrap64, k, Exec(Wrap64, k, s, xs), step)
    ensures Runs(Wrap64, k, s, xs + [step])
    ensures Exec(Wrap64, k, s, xs + [step]) == Apply(Wrap64, k, Exec(Wrap64, k, s, xs), step)
  {
    RunOne(k, Exec(Wrap64, k, s, xs), step);
    RunsAppend(k, s, xs, [step]);
  }

  /** The steps of one whole call. */
  function PushCall(value: Pointer, t: nat, ok: bool): seq<Step> {
    if ok then [PushLoadHead(value)] + [PushLoadTail(t)] + [PushTest] + [PushFill] + [PushPublish] + [PushReturn]
    else [PushLoadHead(value)] + [PushLoadTail(t)] + [PushTest] + [PushReturn]
  }

  function PopCall(h: nat, empty: bool): seq<Step> {
    if empty then [PopLoadTail] + [PopLoadHead(h)] + [PopTest] + [PopReturn]
    else [PopLoadTail] + [PopLoadHead(h)] + [PopTest] + [PopRead] + [PopPublish] + [PopReturn]
  }

  /** The steps lead from w to w'. */
  ghost predicate Takes(k: nat, w: State, steps: seq<Step>, w': State) {
    Runs(Wrap64, k, w, steps) && Exec(Wrap64, k, w, steps) == w'
  }

  /** Between two calls neither thread is inside the ring. */
  predicate AtRest(s: State) {
    s.producer == PIdle && s.consumer == CIdle
  }

  /** The memory after a whole `try_push` from a ring at rest. */
  function AfterPush(k: nat, w: State, value: Pointer, t: nat, ok: bool): State
    requires |w.entries| == Pow2(k)
  {
    if ok
    then w.(tailView := t, entries := w.entries[BitAnd(w.head, Pow2(k) - 1) := value],
            head := (w.head + 1) % WORD, accepted := w.accepted + [value])
    else w.(tailView := t)
  }

  lemma PushCallRuns(k: nat, w: State, value: Pointer, t: nat)
    requires AtRest(w) && Enabled(Wrap64, k, w, PushLoadHead(value)) && Between(Wrap64, w.tailView, t, w.tail)
    ensures var ok := Minus(Wrap64, w.head, t) != Pow2(k);
            Takes(k, w, PushCall(value, t, ok), AfterPush(k, w, value, t, ok))
  {
    var ok := Minus(Wrap64, w.head, t) != Pow2(k);
    var steps := [PushLoadHead(value)];
    RunOne(k, w, PushLoadHead(value));
    RunMore(k, w, steps, PushLoadTail(t));
    steps := steps + [PushLoadTail(t)];
    RunMore(k, w, steps, PushTest);
    steps := steps + [PushTest];
    if ok {
      RunMore(k, w, steps, PushFill);
      steps := steps + [PushFill];
      RunMore(k, w, steps, PushPublish);
      steps := steps + [PushPublish];
    }
    RunMore(k, w, steps, PushReturn);
  }

  /** The memory after a whole `pop` from a ring at rest. */
  function AfterPop(k: nat, w: State, h: nat, empty: bool): State
    requires |w.entries| == Pow2(k)
  {
    if empty
    then w.(headView := h)
    else w.(headView := h, tail := (w.tail + 1) % WORD, popped := w.popped + [w.entries[BitAnd(w.tail, Pow2(k) - 1)]])
  }

  lemma PopCallRuns(k: nat, w: State, h: nat)
    requires AtRest(w) && Enabled(Wrap64, k, w, PopLoadTail) && Between(Wrap64, w.headView, h, w.head)
    ensures Takes(k, w, PopCall(h, w.tail == h), AfterPop(k, w, h, w.tail == h))
  {
    var steps := [PopLoadTail];
    RunOne(k, w, PopLoadTail);
    RunMore(k, w, steps, PopLoadHead(h));
    steps := steps + [PopLoadHead(h)];
    RunMore(k, w, steps, PopTest);
    steps := steps + [PopTest];
    if w.tail != h {
      RunMore(k, w, steps, PopRead);
      steps := steps + [PopRead];
      RunMore(k, w, steps, PopPublish);
      steps := steps + [PopPublish];
    }
    RunMore(k, w, steps, PopReturn);
  }

  /** What a whole `try_push` does to the queue. */
  lemma PushCallEffect(k: nat, w: State, value: Pointer, t: nat)
    requires k <= 63 && Reachable(k, w) && AtRest(w) && |w.entries| == Pow2(k)
    requires Between(Wrap64, w.tailView, t, w.tail)
    ensures var ok := Minus(Wrap64, w.head, t) != Pow2(k);
            var w' := AfterPush(k, w, value, t, ok);
            && Takes(k, w, PushCall(value, t, ok), w')
            && Reachable(k, w') && |w.popped| <= |w.accepted| && |w'.popped| <= |w'.accepted|
            && Queue(w') == (if ok then Queue(w) + [value] else Queue(w))
            && (t == w.tail ==> (ok <==> |Queue(w)| < Pow2(k)))
  {
    var ok := Minus(Wrap64, w.head, t) != Pow2(k);
    PushCallRuns(k, w, value, t);
    ReachableGoesOn(k, w, PushCall(value, t, ok));
    ReachableIsFifo(k, w);
    ReachableIsFifo(k, AfterPush(k, w, value, t, ok));
  }

  /** What a whole `pop` does to the queue. */
  lemma PopCallEffect(k: nat, w: State, h: nat)
    requires k <= 63 && Reachable(k, w) && AtRest(w) && |w.entries| == Pow2(k)
    requires Between(Wrap64, w.headView, h, w.head)
    ensures var w' := AfterPop(k, w, h, w.tail == h);
            && Takes(k, w, PopCall(h, w.tail == h), w')
            && Reachable(k, w') && |w.popped| <= |w.accepted| && |w'.popped| <= |w'.accepted|
            && (if w.tail == h then Queue(w') == Queue(w)
                else Queue(w) == [w.entries[BitAnd(w.tail, Pow2(k) - 1)]] + Queue(w'))
            && (h == w.head ==> (w.tail == h <==> Queue(w) == []))
  {
    var w' := AfterPop(k, w, h, w.tail == h);
    PopCallRuns(k, w, h);
    ReachableGoesOn(k, w, PopCall(h, w.tail == h));
    ReachableIsFifo(k, w);
    ReachableIsFifo(k, w');
    if h == w.head {
      HeadIsTail(k, w);
    }
    if w.tail != h {
      assert w'.popped[|w.popped|] == w.entries[BitAnd(w.tail, Pow2(k) - 1)];
      assert w'.accepted[|w.popped|] == w'.popped[|w.popped|];
    }
  }

  lemma HeadIsTail(k: nat, w: State)
    requires k <= 63 && Reachable(k, w)
    ensures |w.popped| <= |w.accepted| && (w.tail == w.head <==> Queue(w) == [])
  {
    var s := ReachableUnwraps(k, w);
    CapacityFits(k);
    WrappedMinus(s.head, s.tail);
  }

  class SpscPointerRing {
    const k: nat
    const entries: array<Pointer>
    var head: nat
    var tail: nat
    // What the two threads last acquired, and the history of the ring.
    ghost var tailView: nat
    ghost var headView: nat
    ghost var accepted: seq<Pointer>
    ghost var popped: seq<Pointer>

    ghost function Current(): State
      reads this, entries
    {
      State(entries[..], head, tail, tailView, headView, PIdle, CIdle, accepted, popped)
    }

    ghost predicate Valid()
      reads this, entries
    {
      k <= 63 && entries.Length == Pow2(k) && Reachable(k, Current()) && |popped| <= |accepted|
    }

    /** The values waiting in the ring, oldest first. */
    ghost function Contents(): seq<Pointer>
      requires Valid()
      reads this, entries
    {
      Queue(Current())
    }

    constructor (k: nat)
      requires k <= 63
      ensures this.k == k && Valid() && fresh(entries) && Contents() == []
      ensures Current() == Init(k)
    {
      this.k := k;
      entries := new Pointer[Pow2(k)](_ => Null);
      head, tail, tailView, headView := 0, 0, 0, 0;
      accepted, popped := [], [];
      new;
      assert entries[..] == Init(k).entries;
      assert Runs(Wrap64, k, Init(k), []) && Exec(Wrap64, k, Init(k), []) == Init(k);
    }

    /** `observed` is what the acquire load of the consumer's index returns: any value not older than
      the last one seen. */
    method TryPush(value: Pointer, observed: nat) returns (ok: bool)
      requires Valid() && Between(Wrap64, tailView, observed, tail)
      modifies this, entries
      ensures Valid()
      ensures Contents() == if ok then old(Contents()) + [value] else old(Contents())
      ensures observed == old(tail) ==> (ok <==> |old(Contents())| < Pow2(k))
      ensures Takes(k, old(Current()), PushCall(value, observed, ok), Current())
    {
      ghost var before := Current();
      var h := head;
      tailView := observed;
      var t := observed;
      if Minus(Wrap64, h, t) == Pow2(k) {
        assert Current() == AfterPush(k, before, value, observed, false);
        PushCallEffect(k, before, value, observed);
        return false;
      }
      entries[BitAnd(h, Pow2(k) - 1)] := value;
      assert entries[..] == before.entries[BitAnd(h, Pow2(k) - 1) := value];
      head := (h + 1) % WORD;
      accepted := accepted + [value];
      assert Current() == AfterPush(k, before, value, observed, true);
      PushCallEffect(k, before, value, observed);
      return true;
    }

    /** `observed` is what the acquire load of the producer's index returns. */
    method Pop(observed: nat) returns (value: Pointer)
      requires Valid() && Between(Wrap64, headView, observed, head)
      modifies this
      ensures Valid()
      ensures observed == old(tail) ==> value == Null && Contents() == old(Contents())
      ensures observed != old(tail) ==> old(Contents()) == [value] + Contents()
      ensures observed == old(head) ==> (observed == old(tail) <==> old(Contents()) == [])
      ensures Takes(k, old(Current()), PopCall(observed, observed == old(tail)), Current())
    {
      PopCallEffect(k, Current(), observed);
      var t := tail;
      headView := observed;
      var h := observed;
      if t == h {
        return Null;
      }
      value := entries[BitAnd(t, Pow2(k) - 1)];
      tail := (t + 1) % WORD;
      popped := popped + [value];
    }
  }
}
