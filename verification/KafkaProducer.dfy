/** The Kafka producer against an abstract librdkafka: who owns each payload, what each call does to the queue,
  and which delivery errors a repetition reports. */
module KafkaProducer {
  import opened Wrappers
  import opened Words
  import opened KafkaRetry
  import opened KafkaRepetition

  function Without(inFlight: seq<nat>, position: nat): seq<nat>
    requires position < |inFlight|
  {
    inFlight[..position] + inFlight[position + 1..]
  }

  function FailuresIn(served: seq<bool>): nat {
    if served == [] then 0 else
      FailuresIn(served[..|served| - 1]) + if served[|served| - 1] then 1 else 0
  }

  lemma {:induction false} FailuresCount(served: seq<bool>)
    ensures FailuresIn(served) == multiset(served)[true]
  {
    if served != [] {
      FailuresCount(served[..|served| - 1]);
      assert served == served[..|served| - 1] + [served[|served| - 1]];
    }
  }

  lemma DeliveryTallies(inFlight: seq<nat>, repetition: nat, position: nat, served: seq<bool>, failed: bool)
    requires position < |inFlight| && forall r :: r in inFlight ==> r == repetition
    ensures inFlight[position] == repetition && |Without(inFlight, position)| == |inFlight| - 1
    ensures forall r :: r in Without(inFlight, position) ==> r == repetition
    ensures FailuresIn(served + [failed]) == FailuresIn(served) + if failed then 1 else 0
  {
    assert (served + [failed])[..|served|] == served;
    assert inFlight[position] in inFlight;
    forall r | r in Without(inFlight, position) ensures r in inFlight {
      assert r in inFlight[..position] || r in inFlight[position + 1..];
    }
  }

  // ---- The producer

  class Producer {
    // The application's side: the last error, the error counter, the running repetition.
    var lastError: Error
    var deliveryErrors: nat
    var repetition: nat
    // Payloads are numbered as they are allocated; each is owned by the application, freed or handed over.
    var issued: nat
    var owned: set<nat>
    var freed: set<nat>
    var handed: set<nat>
    // librdkafka's side: how many messages its queue takes, the repetitions of the messages waiting in it for
    // their delivery reports, and history: the outcomes reported in the running repetition.
    const capacity: nat
    var inFlight: seq<nat>
    var served: seq<bool>

    /** Every payload allocated so far is owned, freed or handed over, and only one of these. */
    ghost predicate Accounted()
      reads this
    {
      && (forall p :: p in owned || p in freed || p in handed <==> 0 <= p < issued)
      && owned !! freed && owned !! handed && freed !! handed
    }

    /** Only messages of the running repetition are in flight, and the counter holds its failures. */
    ghost predicate Tallied()
      reads this
    {
      (forall r :: r in inFlight ==> r == repetition) && deliveryErrors == FailuresIn(served)
    }

    /** Messages of the running repetition accepted so far: reported or still in flight. */
    ghost function Accepted(): nat
      reads this
    {
      |served| + |inFlight|
    }

    ghost predicate Valid()
      reads this
    {
      Accounted() && Tallied() && 0 < capacity && |inFlight| <= capacity
    }

    constructor (capacity: nat)
      requires capacity > 0
      ensures this.capacity == capacity
      ensures Valid() && owned == {} && issued == 0 && inFlight == [] && served == []
      ensures lastError == NoError && repetition == 0
    {
      this.capacity := capacity;
      lastError, deliveryErrors, repetition := NoError, 0, 0;
      issued, owned, freed, handed := 0, {}, {}, {};
      inFlight, served := [], [];
    }

    /** rd_kafka_produce: the queue takes the message or leaves an error. */
    method Enqueue(refusal: Option<nat>) returns (ok: bool)
      requires Valid()
      modifies this`lastError, this`inFlight
      ensures Valid() && ok == (lastError == NoError) && lastError == Answer(capacity, |old(inFlight)|, refusal)
      ensures inFlight == if ok then old(inFlight) + [repetition] else old(inFlight)
    {
      if |inFlight| >= capacity {
        lastError := QueueFull;
        return false;
      }
      if refusal.Some? {
        lastError := OtherError(refusal.value);
        return false;
      }
      inFlight := inFlight + [repetition];
      lastError := NoError;
      return true;
    }

    method Allocate() returns (p: nat)
      requires Valid()
      modifies this`issued, this`owned
      ensures Valid() && p == old(issued) && issued == p + 1 && owned == old(owned) + {p}
      ensures p !in old(owned) && p !in freed && p !in handed
    {
      p := issued;
      issued := issued + 1;
      owned := owned + {p};
    }

    /** Only a payload still owned may be freed, so none is freed twice or after it was handed over. */
    method Free(p: nat)
      requires Valid() && p in owned
      modifies this`owned, this`freed
      ensures Valid() && owned == old(owned) - {p} && freed == old(freed) + {p}
    {
      owned := owned - {p};
      freed := freed + {p};
    }

    method HandOver(p: nat)
      requires Valid() && p in owned
      modifies this`owned, this`handed
      ensures Valid() && owned == old(owned) - {p} && handed == old(handed) + {p}
    {
      owned := owned - {p};
      handed := handed + {p};
    }

    /** Allocates, serializes and enqueues with RD_KAFKA_MSG_F_FREE; None stands for std::bad_alloc.  The
      payload is handed over if the message was accepted and freed otherwise. */
    method ProduceOwned(attempt: Attempt) returns (ok: bool, outOfMemory: bool)
      requires Valid()
      modifies this`lastError, this`inFlight, this`issued, this`owned, this`freed, this`handed
      ensures Valid() && owned == old(owned) && outOfMemory == !attempt.allocates
      ensures ok == (attempt.allocates && attempt.serializes && lastError == NoError)
      ensures issued == old(issued) + if attempt.allocates then 1 else 0
      ensures handed == if ok then old(handed) + {old(issued)} else old(handed)
      ensures freed == if attempt.allocates && !ok then old(freed) + {old(issued)} else old(freed)
      ensures lastError == if attempt.allocates && attempt.serializes
                           then Answer(capacity, |old(inFlight)|, attempt.refusal) else old(lastError)
      ensures inFlight == if ok then old(inFlight) + [repetition] else old(inFlight)
    {
      ok, outOfMemory := false, !attempt.allocates;
      if outOfMemory {
        return;
      }
      var payload := Allocate();
      if !attempt.serializes {
        Free(payload);
        return;
      }
      ok := Enqueue(attempt.refusal);
      if ok {
        HandOver(payload);
      } else {
        Free(payload);
      }
    }

    /** One attempt in either mode; in copy mode no payload changes hands. */
    method ProduceOnce(mode: Mode, attempt: Attempt) returns (ok: bool, outOfMemory: bool)
      requires Valid()
      modifies this`lastError, this`inFlight, this`issued, this`owned, this`freed, this`handed
      ensures Valid() && owned == old(owned) && outOfMemory == !Allocated(mode, attempt)
      ensures ok == (!outOfMemory && attempt.serializes && lastError == NoError)
      ensures issued == old(issued) + if mode == Owned && attempt.allocates then 1 else 0
      ensures handed == if ok && mode == Owned then old(handed) + {old(issued)} else old(handed)
      ensures lastError == if !outOfMemory && attempt.serializes
                           then Answer(capacity, |old(inFlight)|, attempt.refusal) else old(lastError)
      ensures inFlight == if ok then old(inFlight) + [repetition] else old(inFlight)
    {
      ok, outOfMemory := false, false;
      if mode == Copy {
        if attempt.serializes {
          ok := Enqueue(attempt.refusal);
        }
      } else {
        ok, outOfMemory := ProduceOwned(attempt);
      }
    }

    /** One delivery report reaches delivery_callback: the message leaves the queue, and its outcome counts. */
    method Deliver(d: Delivery)
      requires Valid()
      modifies this`inFlight, this`served, this`deliveryErrors
      ensures Valid() && Accepted() == old(Accepted())
      ensures old(inFlight) == [] ==> inFlight == [] && served == old(served)
      ensures old(inFlight) != [] ==> served == old(served) + [d.failed]
      ensures old(inFlight) != [] ==> inFlight == Without(old(inFlight), d.position % |old(inFlight)|)
      ensures |inFlight| == if old(inFlight) == [] then 0 else |old(inFlight)| - 1
    {
      if inFlight == [] {
        return;
      }
      var position := d.position % |inFlight|;
      DeliveryTallies(inFlight, repetition, position, served, d.failed);
      served := served + [d.failed];
      inFlight := Without(inFlight, position);
      if d.failed {
        deliveryErrors := deliveryErrors + 1;
      }
    }

    /** rd_kafka_poll: serves delivery reports, as far as messages are in flight. */
    method Poll(reports: seq<Delivery>)
      requires Valid()
      modifies this`inFlight, this`served, this`deliveryErrors
      ensures Valid() && Accepted() == old(Accepted()) && |inFlight| == AfterPoll(|old(inFlight)|, reports)
      ensures served == old(served) + Flags(reports, |old(inFlight)|)
    {
      for i := 0 to |reports|
        invariant Valid() && Accepted() == old(Accepted())
        invariant |inFlight| == AfterPoll(|old(inFlight)|, reports[..i])
        invariant served == old(served) + Flags(reports[..i], |old(inFlight)|)
      {
        assert reports[..i + 1][..i] == reports[..i];
        ServedMore(old(served), Flags(reports[..i], |old(inFlight)|), [reports[i].failed]);
        Deliver(reports[i]);
      }
      assert reports[..|reports|] == reports;
    }

    /** One round of the retry loop: an attempt, and a poll if it met a full queue. */
    method TryOnce(mode: Mode, attempt: Attempt) returns (outcome: Outcome)
      requires Valid() && owned == {}
      modifies this`lastError, this`inFlight, this`served, this`deliveryErrors
      modifies this`issued, this`owned, this`freed, this`handed
      ensures Valid() && owned == {}
      ensures outcome == AttemptOutcome(mode, capacity, |old(inFlight)|, old(lastError), attempt)
      ensures outcome == Retrying ==> lastError == QueueFull && |inFlight| == AfterPoll(|old(inFlight)|, attempt.polled)
      ensures outcome == Returned ==> lastError == NoError && |inFlight| == |old(inFlight)| + 1
      ensures outcome.Threw? ==> lastError == outcome.error
      ensures outcome == OutOfMemory || outcome.Threw? ==> inFlight == old(inFlight)
      ensures served == old(served) + if outcome == Retrying then Flags(attempt.polled, |old(inFlight)|) else []
      ensures Accepted() == old(Accepted()) + if outcome == Returned then 1 else 0
      ensures issued == old(issued) + if mode == Owned && attempt.allocates then 1 else 0
      ensures handed == if outcome == Returned && mode == Owned then old(handed) + {old(issued)} else old(handed)
    {
      var ok, outOfMemory := ProduceOnce(mode, attempt);
      if outOfMemory {
        return OutOfMemory;
      }
      if ok {
        return Returned;
      }
      if lastError != QueueFull {
        return Threw(lastError);
      }
      Poll(attempt.polled);
      outcome := Retrying;
    }

    /** The retry loop.  However it ends, the application is left owning no payload, and a call that
      returns has had exactly one message accepted, in owned mode by handing over exactly one payload. */
    method ProduceWithRetry(mode: Mode, script: seq<Attempt>) returns (outcome: Outcome)
      requires Valid() && owned == {}
      modifies this`lastError, this`inFlight, this`served, this`deliveryErrors
      modifies this`issued, this`owned, this`freed, this`handed
      ensures Valid() && owned == {}
      ensures var end := Retry(mode, capacity, |old(inFlight)|, old(lastError), script);
              && outcome == end.outcome && |inFlight| == end.waiting
              && served == old(served) + PolledFlags(|old(inFlight)|, script, end.polls)
      ensures outcome == Returned ==> lastError == NoError
      ensures outcome.Threw? ==> lastError == outcome.error
      ensures Accepted() == old(Accepted()) + if outcome == Returned then 1 else 0
      ensures mode == Owned && outcome == Returned ==>
                issued > old(issued) && handed == old(handed) + {issued - 1}
      ensures mode == Owned && outcome != Returned ==> handed == old(handed)
      ensures mode == Copy ==> issued == old(issued)
    {
      ghost var waiting := |inFlight|;
      for i := 0 to |script|
        invariant Valid() && owned == {} && Accepted() == old(Accepted()) && issued >= old(issued)
        invariant handed == old(handed) && (mode == Copy ==> issued == old(issued))
        invariant Undecided(mode, capacity, waiting, old(lastError), script, i)
        invariant lastError == if i == 0 then old(lastError) else QueueFull
        invariant |inFlight| == WaitingAt(waiting, script, i)
        invariant served == old(served) + PolledFlags(waiting, script, i)
      {
        AttemptEnds(mode, capacity, waiting, old(lastError), script, i);
        ServedMore(old(served), PolledFlags(waiting, script, i), Flags(script[i].polled, |inFlight|));
        outcome := TryOnce(mode, script[i]);
        if outcome != Retrying {
          assert Retry(mode, capacity, waiting, old(lastError), script) == CallEnd(outcome, |inFlight|, i);
          assert served == old(served) + PolledFlags(waiting, script, i);
          return;
        }
      }
      RetryDecides(mode, capacity, waiting, old(lastError), script, |script|);
      outcome := Retrying;
    }

    /** rd_kafka_flush: serves delivery reports until nothing is in flight or its time is up. */
    method Flush(reports: seq<Delivery>) returns (ok: bool)
      requires Valid()
      modifies this`inFlight, this`served, this`deliveryErrors
      ensures Valid() && Accepted() == old(Accepted()) && ok == (inFlight == [])
      ensures ok <==> |old(inFlight)| <= |reports|
      ensures served == old(served) + Flags(reports, |old(inFlight)|)
    {
      Poll(reports);
      ok := inFlight == [];
    }

    /** The i-th produce call of a repetition, and the poll after every 16384th. */
    method ProduceAndPoll(mode: Mode, call: seq<Attempt>, i: nat, polled: seq<Delivery>) returns (ok: bool)
      requires Valid() && owned == {}
      modifies this`lastError, this`inFlight, this`served, this`deliveryErrors
      modifies this`issued, this`owned, this`freed, this`handed
      ensures Valid() && owned == {}
      ensures var next := AfterCall(mode, capacity, |old(inFlight)|, old(lastError), call,
                                    if i % 16384 == 0 then polled else []);
              && ok == next.ok && |inFlight| == next.waiting
              && served == old(served) + next.served
      ensures ok ==> Accepted() == old(Accepted()) + 1 && lastError == NoError
    {
      var outcome := ProduceWithRetry(mode, call);
      if outcome != Returned {
        return false;
      }
      ghost var end := Retry(mode, capacity, |old(inFlight)|, old(lastError), call);
      ghost var flags := PolledFlags(|old(inFlight)|, call, end.polls);
      assert flags + Flags([], |inFlight|) == flags;
      Every16384(i);
      if BitAnd(i, 0x3fff) == 0 {
        ServedMore(old(served), flags, Flags(polled, |inFlight|));
        Poll(polled);
      }
      ok := true;
    }

    /** The produce calls of one repetition, up to the first that fails. */
    method ProduceAll(mode: Mode, calls: seq<seq<Attempt>>, polls: seq<seq<Delivery>>) returns (ok: bool)
      requires Valid() && owned == {} && |calls| == |polls|
      modifies this`lastError, this`inFlight, this`served, this`deliveryErrors
      modifies this`issued, this`owned, this`freed, this`handed
      ensures Valid() && owned == {}
      ensures var end := AfterCalls(mode, capacity, |old(inFlight)|, old(lastError), calls, polls, |calls|);
              && ok == end.ok && |inFlight| == end.waiting
              && served == old(served) + end.served
      ensures ok ==> Accepted() == old(Accepted()) + |calls|
      ensures ok ==> lastError == if calls == [] then old(lastError) else NoError
    {
      ghost var waiting := |inFlight|;
      for i := 0 to |calls|
        invariant Valid() && owned == {} && Accepted() == old(Accepted()) + i
        invariant lastError == if i == 0 then old(lastError) else NoError
        invariant var end := AfterCalls(mode, capacity, waiting, old(lastError), calls, polls, i);
                  && end.ok && |inFlight| == end.waiting
                  && served == old(served) + end.served
      {
        ghost var next := OneMoreCall(mode, capacity, waiting, old(lastError), calls, polls, i, old(served));
        ok := ProduceAndPoll(mode, calls[i], i, polls[i]);
        if !ok {
          FailureStays(mode, capacity, waiting, old(lastError), calls, polls, i + 1, |calls|);
          return;
        }
      }
      ok := true;
    }

    /** The produce calls of one repetition and the flush. */
    method ProduceAndFlush(mode: Mode, script: RepetitionScript) returns (ok: bool)
      requires Valid() && owned == {} && inFlight == [] && |script.calls| == |script.polls|
      modifies this`lastError, this`inFlight, this`served, this`deliveryErrors
      modifies this`issued, this`owned, this`freed, this`handed
      ensures Valid() && owned == {} && ok == Finishes(mode, capacity, old(lastError), script)
      ensures served == old(served) + ServedIn(mode, capacity, old(lastError), script)
      ensures ok ==> inFlight == [] && |served| == |old(served)| + |script.calls|
      ensures ok ==> lastError == if script.calls == [] then old(lastError) else NoError
    {
      ok := ProduceAll(mode, script.calls, script.polls);
      if ok {
        ghost var end := AfterCalls(mode, capacity, 0, old(lastError), script.calls, script.polls, |script.calls|);
        ServedMore(old(served), end.served, Flags(script.flushed, end.waiting));
        ok := Flush(script.flushed);
      }
    }

    /** One repetition: reset the counter, produce every message, flush, report the counter.  A reported
      count is the number of failures among the reports served in this repetition, one for each of its
      messages; nothing stays in flight for the next one. */
    method RunRepetition(mode: Mode, iterations: nat, script: RepetitionScript) returns (report: Option<nat>)
      requires Valid() && owned == {} && inFlight == [] && |script.calls| == |script.polls| == iterations
      modifies this
      ensures Valid() && owned == {} && repetition == old(repetition) + 1
      ensures served == ServedIn(mode, capacity, old(lastError), script)
      ensures report.Some? <==> Finishes(mode, capacity, old(lastError), script)
      ensures report.Some? ==> inFlight == [] && lastError == if iterations == 0 then old(lastError) else NoError
      ensures report.Some? ==> ReportIs(iterations, served, report.value)
    {
      repetition := repetition + 1;
      deliveryErrors, served := 0, [];
      var ok := ProduceAndFlush(mode, script);
      FailuresCount(served);
      report := if ok then Some(deliveryErrors) else None;
    }

    /** All repetitions of a new producer, up to the first that fails.  Every reported count belongs to its
      repetition alone. */
    method Run(mode: Mode, iterations: nat, scripts: seq<RepetitionScript>) returns (reports: seq<nat>)
      requires Valid() && owned == {} && inFlight == [] && repetition == 0 && lastError == NoError
      requires forall r :: 0 <= r < |scripts| ==> |scripts[r].calls| == |scripts[r].polls| == iterations
      modifies this
      ensures Valid() && owned == {} && |reports| <= |scripts|
      ensures forall r :: 0 <= r < |reports| ==>
                && Finishes(mode, capacity, NoError, scripts[r])
                && ReportIs(iterations, ServedIn(mode, capacity, NoError, scripts[r]), reports[r])
      ensures |reports| < |scripts| ==> !Finishes(mode, capacity, NoError, scripts[|reports|])
      ensures |reports| == |scripts| ==> lastError == NoError && inFlight == []
    {
      reports := [];
      for r := 0 to |scripts|
        invariant Valid() && owned == {} && inFlight == [] && repetition == r == |reports| && lastError == NoError
        invariant forall q :: 0 <= q < r ==>
                    && Finishes(mode, capacity, NoError, scripts[q])
                    && ReportIs(iterations, ServedIn(mode, capacity, NoError, scripts[q]), reports[q])
      {
        var report := RunRepetition(mode, iterations, scripts[r]);
        if report.None? {
          return;
        }
        reports := reports + [report.value];
      }
    }
  }

  /** The call that never ends is within a run's reach: a new producer, as many produce calls as the queue
    takes while nothing is served, then a call whose serializer works once and fails from then on. */
  method RunIntoFullQueue(mode: Mode, capacity: nat, script: seq<Attempt>) returns (outcome: Outcome)
    requires capacity > 0 && script != [] && script[0].serializes
    requires forall i :: 0 <= i < |script| ==> Allocated(mode, script[i])
    requires forall i :: 1 <= i < |script| ==> !script[i].serializes
    ensures outcome == Retrying
  {
    var producer := new Producer(capacity);
    for i := 0 to capacity
      invariant producer.Valid() && producer.owned == {} && producer.capacity == capacity
      invariant |producer.inFlight| == i && producer.lastError == NoError && fresh(producer)
    {
      var returned := producer.ProduceWithRetry(mode, [Attempt(true, true, None, [])]);
      if BitAnd(i, 0x3fff) == 0 {
        producer.Poll([]);
      }
    }
    StuckAfterFullQueue(mode, capacity, capacity, script);
    outcome := producer.ProduceWithRetry(mode, script);
  }
}
