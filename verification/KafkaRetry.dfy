/** The retry loop of the Kafka producer on a bounded queue: when it ends, and how. */
module KafkaRetry {
  import opened Wrappers

  datatype Error = NoError | QueueFull | OtherError(code: nat)

  datatype Mode = Copy | Owned

  /** One round of the retry loop as the environment plays it: does malloc succeed, does the serializer, does
    librdkafka refuse the message for another reason than a full queue, and which delivery reports does a
    poll after a full queue serve. */
  datatype Attempt = Attempt(allocates: bool, serializes: bool, refusal: Option<nat>, polled: seq<Delivery>)

  /** A delivery report: which waiting message it is for, and whether delivery failed. */
  datatype Delivery = Delivery(position: nat, failed: bool)

  /** How a call ends: it returns, it throws, or the environment's script ends while it still retries. */
  datatype Outcome = Returned | OutOfMemory | Threw(error: Error) | Retrying

  // ---- The retry loop

  /** What rd_kafka_produce answers with this many messages waiting: a full queue exactly when they have
    reached the capacity. */
  function Answer(capacity: nat, waiting: nat, refusal: Option<nat>): Error {
    if waiting >= capacity then QueueFull else
      match refusal
      case None => NoError
      case Some(code) => OtherError(code)
  }

  /** Messages waiting after a poll has served its reports. */
  function AfterPoll(waiting: nat, reports: seq<Delivery>): nat {
    if |reports| <= waiting then waiting - |reports| else 0
  }

  /** How a call ended, the messages waiting then, and how often it polled. */
  datatype CallEnd = CallEnd(outcome: Outcome, waiting: nat, polls: nat)

  /** How one attempt leaves the call; Retrying means that it polls and tries again.  A failed serialization
    does not touch the last error, so the loop judges it by whatever error was left over. */
  function AttemptOutcome(mode: Mode, capacity: nat, waiting: nat, lastError: Error, attempt: Attempt): Outcome {
    if mode == Owned && !attempt.allocates then OutOfMemory
    else
      var error := if attempt.serializes then Answer(capacity, waiting, attempt.refusal) else lastError;
      if attempt.serializes && error == NoError then Returned
      else if error != QueueFull then Threw(error) else Retrying
  }

  /** produce_with_retry on a queue of this capacity. */
  function Retry(mode: Mode, capacity: nat, waiting: nat, lastError: Error, script: seq<Attempt>): (end: CallEnd)
    ensures end.waiting <= waiting + if end.outcome == Returned then 1 else 0
    ensures end.polls <= |script| && (end.outcome == Returned ==> end.waiting <= capacity)
    decreases |script|
  {
    if script == [] then CallEnd(Retrying, waiting, 0)
    else
      var outcome := AttemptOutcome(mode, capacity, waiting, lastError, script[0]);
      if outcome != Retrying then CallEnd(outcome, waiting + if outcome == Returned then 1 else 0, 0)
      else
        var rest := Retry(mode, capacity, AfterPoll(waiting, script[0].polled), QueueFull, script[1..]);
        rest.(polls := rest.polls + 1)
  }

  /** Messages waiting before attempt i, when every attempt before it polled. */
  function WaitingAt(waiting: nat, script: seq<Attempt>, i: nat): nat
    requires i <= |script|
  {
    if i == 0 then waiting else AfterPoll(WaitingAt(waiting, script, i - 1), script[i - 1].polled)
  }

  lemma {:induction false} WaitingShifts(waiting: nat, script: seq<Attempt>, i: nat)
    requires 0 < i <= |script|
    ensures WaitingAt(waiting, script, i) == WaitingAt(AfterPoll(waiting, script[0].polled), script[1..], i - 1)
  {
    if i > 1 {
      WaitingShifts(waiting, script, i - 1);
    }
  }

  predicate Allocated(mode: Mode, attempt: Attempt) {
    mode == Copy || attempt.allocates
  }

  /** Attempt i ends the call whatever the last error was: it runs out of memory, or it has a payload and
    meets a queue with a free place. */
  predicate Decides(mode: Mode, capacity: nat, waiting: nat, script: seq<Attempt>, i: nat)
    requires i < |script|
  {
    !Allocated(mode, script[i]) || (script[i].serializes && WaitingAt(waiting, script, i) < capacity)
  }

  /** How a deciding attempt ends the call. */
  function Verdict(mode: Mode, attempt: Attempt): Outcome {
    if !Allocated(mode, attempt) then OutOfMemory else
      match attempt.refusal
      case None => Returned
      case Some(code) => Threw(OtherError(code))
  }

  /** The first deciding attempt, or the number of attempts. */
  ghost predicate FirstToDecide(mode: Mode, capacity: nat, waiting: nat, script: seq<Attempt>, n: nat) {
    && n <= |script|
    && (forall i :: 0 <= i < n ==> !Decides(mode, capacity, waiting, script, i))
    && (n < |script| ==> Decides(mode, capacity, waiting, script, n))
  }

  /** The first attempt is judged by an error that an earlier call left over. */
  predicate JudgedByLeftover(mode: Mode, lastError: Error, script: seq<Attempt>) {
    script != [] && Allocated(mode, script[0]) && !script[0].serializes && lastError != QueueFull
  }

  lemma FirstShifts(mode: Mode, capacity: nat, waiting: nat, script: seq<Attempt>, n: nat)
    requires FirstToDecide(mode, capacity, waiting, script, n) && 0 < n
    ensures FirstToDecide(mode, capacity, AfterPoll(waiting, script[0].polled), script[1..], n - 1)
    ensures WaitingAt(waiting, script, n) == WaitingAt(AfterPoll(waiting, script[0].polled), script[1..], n - 1)
  {
    var fewer, rest := AfterPoll(waiting, script[0].polled), script[1..];
    forall i | 0 <= i < |rest|
      ensures Decides(mode, capacity, fewer, rest, i) <==> Decides(mode, capacity, waiting, script, i + 1)
    {
      WaitingShifts(waiting, script, i + 1);
    }
    WaitingShifts(waiting, script, n);
  }

  /** The outcome of every call: a first attempt without a payload throws the error left over unless that is
    a full queue; otherwise the first deciding attempt decides, and without one the call retries for as
    long as it is let. */
  lemma {:induction false} RetryDecides(mode: Mode, capacity: nat, waiting: nat, lastError: Error,
                                        script: seq<Attempt>, n: nat)
    requires FirstToDecide(mode, capacity, waiting, script, n)
    ensures var end := Retry(mode, capacity, waiting, lastError, script);
            if JudgedByLeftover(mode, lastError, script) then end == CallEnd(Threw(lastError), waiting, 0)
            else if n == |script| then end == CallEnd(Retrying, WaitingAt(waiting, script, n), n)
            else
              && end.polls == n
              && end.outcome == Verdict(mode, script[n])
              && end.waiting == WaitingAt(waiting, script, n) + if end.outcome == Returned then 1 else 0
    decreases |script|
  {
    if n > 0 && !JudgedByLeftover(mode, lastError, script) {
      FirstShifts(mode, capacity, waiting, script, n);
      assert !Decides(mode, capacity, waiting, script, 0);
      RetryDecides(mode, capacity, AfterPoll(waiting, script[0].polled), QueueFull, script[1..], n - 1);
    }
  }

  /** No attempt before i has ended the call. */
  ghost predicate Undecided(mode: Mode, capacity: nat, waiting: nat, lastError: Error, script: seq<Attempt>, i: nat) {
    && i <= |script|
    && (forall j :: 0 <= j < i ==> !Decides(mode, capacity, waiting, script, j))
    && (i > 0 ==> !JudgedByLeftover(mode, lastError, script))
  }

  /** What attempt i makes of an undecided call. */
  lemma AttemptEnds(mode: Mode, capacity: nat, waiting: nat, lastError: Error, script: seq<Attempt>, i: nat)
    requires i < |script| && Undecided(mode, capacity, waiting, lastError, script, i)
    ensures var w := WaitingAt(waiting, script, i);
            var outcome := AttemptOutcome(mode, capacity, w, if i == 0 then lastError else QueueFull, script[i]);
            if outcome == Retrying then Undecided(mode, capacity, waiting, lastError, script, i + 1)
            else Retry(mode, capacity, waiting, lastError, script) ==
                 CallEnd(outcome, w + if outcome == Returned then 1 else 0, i)
  {
    if Decides(mode, capacity, waiting, script, i) {
      RetryDecides(mode, capacity, waiting, lastError, script, i);
    } else if i == 0 && JudgedByLeftover(mode, lastError, script) {
      var n := SomeFirst(mode, capacity, waiting, script, 0);
      RetryDecides(mode, capacity, waiting, lastError, script, n);
    }
  }

  lemma {:induction false} SomeFirst(mode: Mode, capacity: nat, waiting: nat, script: seq<Attempt>, from: nat)
    returns (n: nat)
    requires from <= |script|
    requires forall i :: 0 <= i < from ==> !Decides(mode, capacity, waiting, script, i)
    ensures FirstToDecide(mode, capacity, waiting, script, n)
    decreases |script| - from
  {
    n := from;
    if from < |script| && !Decides(mode, capacity, waiting, script, from) {
      n := SomeFirst(mode, capacity, waiting, script, from + 1);
    }
  }

  /** A call of a run starts without a last error.  It then throws an error that names no error exactly when
    its first serialization fails, and retries for as long as it is let exactly when it gets past that and
    no attempt decides. */
  lemma CallInARun(mode: Mode, capacity: nat, waiting: nat, script: seq<Attempt>)
    requires script != []
    ensures var outcome := Retry(mode, capacity, waiting, NoError, script).outcome;
            var nameless := Allocated(mode, script[0]) && !script[0].serializes;
            && (outcome == Threw(NoError) <==> nameless)
            && (outcome == Retrying <==>
                !nameless && forall i :: 0 <= i < |script| ==> !Decides(mode, capacity, waiting, script, i))
  {
    var n := SomeFirst(mode, capacity, waiting, script, 0);
    RetryDecides(mode, capacity, waiting, NoError, script, n);
    assert n < |script| ==> Decides(mode, capacity, waiting, script, n);
  }

  /** After a full queue a serializer that fails from then on keeps the call retrying, however much room the
    polls make. */
  lemma StuckAfterFullQueue(mode: Mode, capacity: nat, waiting: nat, script: seq<Attempt>)
    requires script != [] && waiting >= capacity && script[0].serializes
    requires forall i :: 0 <= i < |script| ==> Allocated(mode, script[i])
    requires forall i :: 1 <= i < |script| ==> !script[i].serializes
    ensures Retry(mode, capacity, waiting, NoError, script) ==
            CallEnd(Retrying, WaitingAt(waiting, script, |script|), |script|)
  {
    RetryDecides(mode, capacity, waiting, NoError, script, |script|);
  }

  // ---- The retry loop with a working serializer

  ghost predicate Serializes(mode: Mode, script: seq<Attempt>) {
    forall i :: 0 <= i < |script| ==> Allocated(mode, script[i]) && script[i].serializes
  }

  /** The number of leading attempts whose poll serves nothing. */
  function EmptyPolls(script: seq<Attempt>): (m: nat)
    ensures m <= |script|
    ensures forall i :: 0 <= i < m ==> script[i].polled == []
    ensures m < |script| ==> script[m].polled != []
  {
    if script != [] && script[0].polled == [] then 1 + EmptyPolls(script[1..]) else 0
  }

  lemma {:induction false} FullUntilServed(waiting: nat, script: seq<Attempt>, i: nat)
    requires waiting > 0 && i <= EmptyPolls(script)
    ensures WaitingAt(waiting, script, i) == waiting
    ensures i == EmptyPolls(script) < |script| ==> WaitingAt(waiting, script, i + 1) < waiting
  {
    if i > 0 {
      FullUntilServed(waiting, script, i - 1);
    }
  }

  /** With a working serializer the call ends at the first attempt if the queue has room.  If it is full, the
    call ends one attempt after the first poll that serves a report: it finds the queue full once more often
    than polls serve nothing, and still retries only if no poll but the last has served anything. */
  lemma RetryEndsWithSpace(mode: Mode, capacity: nat, waiting: nat, lastError: Error, script: seq<Attempt>)
    requires 0 < capacity && waiting <= capacity && Serializes(mode, script)
    ensures var n := if waiting < capacity then 0 else EmptyPolls(script) + 1;
            && (forall i :: 0 <= i < n && i < |script| ==> WaitingAt(waiting, script, i) == capacity)
            && (n < |script| ==> WaitingAt(waiting, script, n) < capacity)
            && Retry(mode, capacity, waiting, lastError, script).outcome ==
               if n < |script| then Verdict(mode, script[n]) else Retrying
  {
    var n := if waiting < capacity then 0 else EmptyPolls(script) + 1;
    forall i | 0 <= i < n && i < |script| ensures WaitingAt(waiting, script, i) == capacity {
      FullUntilServed(waiting, script, i);
    }
    if 0 < n < |script| {
      FullUntilServed(waiting, script, n - 1);
    }
    RetryDecides(mode, capacity, waiting, lastError, script, if n < |script| then n else |script|);
  }
}
