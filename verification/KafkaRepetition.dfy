/** The delivery reports that one repetition of the Kafka producer is served, told from the environment's script
  alone: by the polls of its calls, by the occasional polls and by the flush. */
module KafkaRepetition {
  import opened Wrappers
  import opened Words
  import opened KafkaRetry

  /** The outcomes of the reports that a poll serves: at most one for every message waiting. */
  function Flags(reports: seq<Delivery>, waiting: nat): seq<bool> {
    if reports == [] then [] else
      var n := |reports| - 1;
      Flags(reports[..n], waiting) + if n < waiting then [reports[n].failed] else []
  }

  /** They are the first of the reports, each with its own outcome. */
  lemma {:induction false} FlagsAre(reports: seq<Delivery>, waiting: nat)
    ensures |Flags(reports, waiting)| == if |reports| <= waiting then |reports| else waiting
    ensures forall j :: 0 <= j < |Flags(reports, waiting)| ==> Flags(reports, waiting)[j] == reports[j].failed
  {
    if reports != [] {
      FlagsAre(reports[..|reports| - 1], waiting);
    }
  }

  /** The outcomes served by the first n polls of a call. */
  function PolledFlags(waiting: nat, script: seq<Attempt>, n: nat): seq<bool>
    requires n <= |script|
  {
    if n == 0 then [] else
      PolledFlags(waiting, script, n - 1) + Flags(script[n - 1].polled, WaitingAt(waiting, script, n - 1))
  }

  lemma {:induction false} NoneServedYet(waiting: nat, script: seq<Attempt>, n: nat)
    requires n <= EmptyPolls(script)
    ensures PolledFlags(waiting, script, n) == []
  {
    if n > 0 {
      NoneServedYet(waiting, script, n - 1);
    }
  }

  lemma ServedMore(before: seq<bool>, served: seq<bool>, more: seq<bool>)
    ensures (before + served) + more == before + (served + more)
  {
  }

  /** A call with a working serializer that meets a full queue is served the reports of its first poll with
    any, and those only. */
  lemma FullQueueServes(mode: Mode, capacity: nat, lastError: Error, script: seq<Attempt>)
    requires 0 < capacity && Serializes(mode, script)
    ensures var m := EmptyPolls(script);
            PolledFlags(capacity, script, Retry(mode, capacity, capacity, lastError, script).polls) ==
            if m < |script| then Flags(script[m].polled, capacity) else []
  {
    var m := EmptyPolls(script);
    var n := if m + 1 < |script| then m + 1 else |script|;
    RetryEndsWithSpace(mode, capacity, capacity, lastError, script);
    RetryDecides(mode, capacity, capacity, lastError, script, n);
    NoneServedYet(capacity, script, m);
    FullUntilServed(capacity, script, m);
    if m < |script| {
      assert PolledFlags(capacity, script, m + 1) == [] + Flags(script[m].polled, capacity);
    }
  }

  /** Whether the calls so far have returned, the messages waiting, and the outcomes served. */
  datatype Progress = Progress(ok: bool, waiting: nat, served: seq<bool>)

  /** The first n calls of a repetition, up to the first that fails. */
  function AfterCalls(mode: Mode, capacity: nat, waiting: nat, lastError: Error, calls: seq<seq<Attempt>>,
                      polls: seq<seq<Delivery>>, n: nat): Progress
    requires n <= |calls| == |polls|
    decreases n, 0
  {
    if n == 0 then Progress(true, waiting, [])
    else OneCallMore(mode, capacity, waiting, lastError, calls, polls, n - 1)
  }

  /** The first i calls and the next, with a poll after every 16384th from the first on. */
  function OneCallMore(mode: Mode, capacity: nat, waiting: nat, lastError: Error, calls: seq<seq<Attempt>>,
                       polls: seq<seq<Delivery>>, i: nat): Progress
    requires i < |calls| == |polls|
    decreases i, 1
  {
    var before := AfterCalls(mode, capacity, waiting, lastError, calls, polls, i);
    if !before.ok then before else
      var next := AfterCall(mode, capacity, before.waiting, if i == 0 then lastError else NoError, calls[i],
                            if i % 16384 == 0 then polls[i] else []);
      next.(served := before.served + next.served)
  }

  /** One call, and the poll after it if it returns. */
  function AfterCall(mode: Mode, capacity: nat, waiting: nat, lastError: Error, call: seq<Attempt>,
                     polled: seq<Delivery>): Progress
  {
    var end := Retry(mode, capacity, waiting, lastError, call);
    var served := PolledFlags(waiting, call, end.polls);
    if end.outcome != Returned then Progress(false, end.waiting, served)
    else Progress(true, AfterPoll(end.waiting, polled), served + Flags(polled, end.waiting))
  }

  lemma OneMoreCall(mode: Mode, capacity: nat, waiting: nat, lastError: Error, calls: seq<seq<Attempt>>,
                    polls: seq<seq<Delivery>>, i: nat, served: seq<bool>)
    returns (next: Progress)
    requires i < |calls| == |polls| && AfterCalls(mode, capacity, waiting, lastError, calls, polls, i).ok
    ensures var before := AfterCalls(mode, capacity, waiting, lastError, calls, polls, i);
            var after := AfterCalls(mode, capacity, waiting, lastError, calls, polls, i + 1);
            && next == AfterCall(mode, capacity, before.waiting, if i == 0 then lastError else NoError, calls[i],
                                 if i % 16384 == 0 then polls[i] else [])
            && after.ok == next.ok && after.waiting == next.waiting
            && (served + before.served) + next.served == served + after.served
  {
    var before := AfterCalls(mode, capacity, waiting, lastError, calls, polls, i);
    next := AfterCall(mode, capacity, before.waiting, if i == 0 then lastError else NoError, calls[i],
                      if i % 16384 == 0 then polls[i] else []);
    ServedMore(served, before.served, next.served);
  }

  lemma {:induction false} FailureStays(mode: Mode, capacity: nat, waiting: nat, lastError: Error,
                                        calls: seq<seq<Attempt>>, polls: seq<seq<Delivery>>, m: nat, n: nat)
    requires m <= n <= |calls| == |polls|
    requires !AfterCalls(mode, capacity, waiting, lastError, calls, polls, m).ok
    ensures AfterCalls(mode, capacity, waiting, lastError, calls, polls, n) ==
            AfterCalls(mode, capacity, waiting, lastError, calls, polls, m)
    decreases n
  {
    if m < n {
      FailureStays(mode, capacity, waiting, lastError, calls, polls, m, n - 1);
    }
  }

  /** The i-th call of a repetition meets no error, and once the queue may be full one of its polls, not
    counting the last, serves a report. */
  ghost predicate Served(mode: Mode, capacity: nat, i: nat, call: seq<Attempt>) {
    && call != [] && Serializes(mode, call) && (forall j :: 0 <= j < |call| ==> call[j].refusal == None)
    && (i < capacity || exists j :: 0 <= j < |call| - 1 && call[j].polled != [])
  }

  lemma ServedReturns(mode: Mode, capacity: nat, waiting: nat, lastError: Error, i: nat, call: seq<Attempt>)
    requires 0 < capacity && waiting <= capacity && waiting <= i && Served(mode, capacity, i, call)
    ensures Retry(mode, capacity, waiting, lastError, call).outcome == Returned
  {
    RetryEndsWithSpace(mode, capacity, waiting, lastError, call);
    if waiting == capacity {
      var j :| 0 <= j < |call| - 1 && call[j].polled != [];
      assert EmptyPolls(call) <= j;
    }
  }

  /** The report of a repetition: as many outcomes as messages, and the count of failures among them. */
  predicate ReportIs(iterations: nat, served: seq<bool>, report: nat) {
    |served| == iterations && report == multiset(served)[true]
  }

  /** One repetition as the environment plays it: a retry script for every produce call, the reports of
    the occasional polls, and those of the final flush. */
  datatype RepetitionScript =
    RepetitionScript(calls: seq<seq<Attempt>>, polls: seq<seq<Delivery>>, flushed: seq<Delivery>)

  /** The outcomes of all reports that a repetition is served: by the polls of its calls, by the occasional
    polls and by the flush. */
  function ServedIn(mode: Mode, capacity: nat, lastError: Error, script: RepetitionScript): seq<bool>
    requires |script.calls| == |script.polls|
  {
    var end := AfterCalls(mode, capacity, 0, lastError, script.calls, script.polls, |script.calls|);
    if end.ok then end.served + Flags(script.flushed, end.waiting) else end.served
  }

  /** Every call returns, and the flush has time for what is left in the queue. */
  predicate Finishes(mode: Mode, capacity: nat, lastError: Error, script: RepetitionScript)
    requires |script.calls| == |script.polls|
  {
    var end := AfterCalls(mode, capacity, 0, lastError, script.calls, script.polls, |script.calls|);
    end.ok && end.waiting <= |script.flushed|
  }

  /** The call is accepted at its first attempt if the queue has room. */
  predicate AcceptedAtOnce(mode: Mode, call: seq<Attempt>) {
    call != [] && Allocated(mode, call[0]) && call[0].serializes && call[0].refusal == None
  }

  /** A call that is accepted at once and not followed by a poll only adds a message. */
  lemma QuietCall(mode: Mode, capacity: nat, lastError: Error, calls: seq<seq<Attempt>>, polls: seq<seq<Delivery>>,
                  n: nat, waiting: nat, served: seq<bool>)
    requires n < |calls| == |polls| && n % 16384 != 0 && AcceptedAtOnce(mode, calls[n])
    requires AfterCalls(mode, capacity, 0, lastError, calls, polls, n) == Progress(true, waiting, served)
    requires waiting < capacity
    ensures AfterCalls(mode, capacity, 0, lastError, calls, polls, n + 1) == Progress(true, waiting + 1, served)
  {
    CallAtOnce(mode, capacity, waiting, NoError, calls[n], []);
    var next := OneMoreCall(mode, capacity, 0, lastError, calls, polls, n, []);
    assert ([] + served) + next.served == served;
  }

  lemma FirstCall(mode: Mode, capacity: nat, lastError: Error, calls: seq<seq<Attempt>>, polls: seq<seq<Delivery>>)
    requires 1 <= |calls| == |polls| && 0 < capacity && AcceptedAtOnce(mode, calls[0])
    ensures AfterCalls(mode, capacity, 0, lastError, calls, polls, 1) == AfterFirst(polls[0])
  {
    CallAtOnce(mode, capacity, 0, lastError, calls[0], polls[0]);
    FirstPoll(polls[0]);
    var next := OneMoreCall(mode, capacity, 0, lastError, calls, polls, 0, []);
    Unprefixed(next.served);
  }

  lemma Unprefixed(served: seq<bool>)
    ensures ([] + []) + served == [] + served == served
  {
  }

  lemma FirstPoll(polled: seq<Delivery>)
    ensures Progress(true, AfterPoll(1, polled), Flags(polled, 1)) == AfterFirst(polled)
  {
    FlagsAre(polled, 1);
    assert polled != [] ==> Flags(polled, 1) == [polled[0].failed];
  }

  /** One message waiting, unless a poll reports it. */
  function AfterFirst(polled: seq<Delivery>): Progress {
    if polled == [] then Progress(true, 1, []) else Progress(true, 0, [polled[0].failed])
  }

  lemma {:induction false} ShortProgress(mode: Mode, capacity: nat, lastError: Error, calls: seq<seq<Attempt>>,
                                         polls: seq<seq<Delivery>>, n: nat)
    requires 1 <= n <= |calls| == |polls| && |calls| <= capacity && |calls| <= 16384
    requires forall i :: 0 <= i < |calls| ==> AcceptedAtOnce(mode, calls[i])
    ensures AfterCalls(mode, capacity, 0, lastError, calls, polls, n) ==
            Progress(true, AfterFirst(polls[0]).waiting + n - 1, AfterFirst(polls[0]).served)
  {
    if n == 1 {
      FirstCall(mode, capacity, lastError, calls, polls);
    } else {
      var first := AfterFirst(polls[0]);
      ShortProgress(mode, capacity, lastError, calls, polls, n - 1);
      assert (n - 1) % 16384 != 0;
      QuietCall(mode, capacity, lastError, calls, polls, n - 1, first.waiting + n - 2, first.served);
    }
  }

  lemma CallAtOnce(mode: Mode, capacity: nat, waiting: nat, lastError: Error, call: seq<Attempt>, polled: seq<Delivery>)
    requires waiting < capacity && AcceptedAtOnce(mode, call)
    ensures AfterCall(mode, capacity, waiting, lastError, call, polled) ==
            Progress(true, AfterPoll(waiting + 1, polled), Flags(polled, waiting + 1))
  {
    assert Retry(mode, capacity, waiting, lastError, call) == CallEnd(Returned, waiting + 1, 0);
    assert PolledFlags(waiting, call, 0) == [];
  }

  lemma ShortFlags(polled: seq<Delivery>, flushed: seq<Delivery>, n: nat)
    requires 1 <= n <= |flushed|
    ensures var served := AfterFirst(polled).served + Flags(flushed, AfterFirst(polled).waiting + n - 1);
            && |served| == n
            && (polled == [] ==> forall j :: 0 <= j < n ==> served[j] == flushed[j].failed)
            && (polled != [] ==> served[0] == polled[0].failed)
            && (polled != [] ==> forall j :: 1 <= j < n ==> served[j] == flushed[j - 1].failed)
  {
    if polled == [] {
      FlagsAre(flushed, n);
      assert [] + Flags(flushed, n) == Flags(flushed, n);
    } else {
      FlagsAre(flushed, n - 1);
    }
  }

  lemma ShortServed(mode: Mode, capacity: nat, lastError: Error, script: RepetitionScript)
    requires 1 <= |script.calls| == |script.polls| && |script.calls| <= capacity && |script.calls| <= 16384
    requires forall i :: 0 <= i < |script.calls| ==> AcceptedAtOnce(mode, script.calls[i])
    ensures var first := AfterFirst(script.polls[0]);
            var waiting := first.waiting + |script.calls| - 1;
            && ServedIn(mode, capacity, lastError, script) == first.served + Flags(script.flushed, waiting)
            && (Finishes(mode, capacity, lastError, script) <==> waiting <= |script.flushed|)
  {
    ShortProgress(mode, capacity, lastError, script.calls, script.polls, |script.calls|);
  }

  /** A repetition that polls once, after its first call, is served that poll's first report and then those of
    the flush, each with its own outcome. */
  lemma ShortRepetition(mode: Mode, capacity: nat, lastError: Error, script: RepetitionScript)
    requires 1 <= |script.calls| == |script.polls| && |script.calls| <= capacity && |script.calls| <= 16384
    requires forall i :: 0 <= i < |script.calls| ==> AcceptedAtOnce(mode, script.calls[i])
    requires |script.flushed| >= |script.calls|
    ensures var served, first := ServedIn(mode, capacity, lastError, script), script.polls[0];
            && Finishes(mode, capacity, lastError, script) && |served| == |script.calls|
            && (first == [] ==> forall j :: 0 <= j < |served| ==> served[j] == script.flushed[j].failed)
            && (first != [] ==> served[0] == first[0].failed)
            && (first != [] ==> forall j :: 1 <= j < |served| ==> served[j] == script.flushed[j - 1].failed)
  {
    ShortServed(mode, capacity, lastError, script);
    ShortFlags(script.polls[0], script.flushed, |script.calls|);
  }

  /** Every call is served, and the flush is given time for the messages that can be left in the queue. */
  ghost predicate CanFinish(mode: Mode, capacity: nat, script: RepetitionScript) {
    && (forall i :: 0 <= i < |script.calls| ==> Served(mode, capacity, i, script.calls[i]))
    && |script.flushed| >= if |script.calls| <= capacity then |script.calls| else capacity
  }

  lemma Every16384(i: nat)
    ensures BitAnd(i, 0x3fff) == 0 <==> i % 16384 == 0
  {
    assert Pow2(7) == 128;
    Pow2Sum(7, 7);
    MaskIsMod(i, 14);
  }

  lemma {:induction false} ServedProgress(mode: Mode, capacity: nat, lastError: Error, script: RepetitionScript, n: nat)
    requires 0 < capacity && n <= |script.calls| == |script.polls| && CanFinish(mode, capacity, script)
    ensures var end := AfterCalls(mode, capacity, 0, lastError, script.calls, script.polls, n);
            end.ok && end.waiting <= n && end.waiting <= capacity
  {
    if n > 0 {
      ServedProgress(mode, capacity, lastError, script, n - 1);
      var before := AfterCalls(mode, capacity, 0, lastError, script.calls, script.polls, n - 1);
      ServedCall(mode, capacity, before.waiting, if n == 1 then lastError else NoError, n - 1, script.calls[n - 1],
                 if (n - 1) % 16384 == 0 then script.polls[n - 1] else []);
      var next := OneMoreCall(mode, capacity, 0, lastError, script.calls, script.polls, n - 1, []);
    }
  }

  lemma ServedCall(mode: Mode, capacity: nat, waiting: nat, lastError: Error, i: nat, call: seq<Attempt>,
                   polled: seq<Delivery>)
    requires 0 < capacity && waiting <= capacity && waiting <= i && Served(mode, capacity, i, call)
    ensures var next := AfterCall(mode, capacity, waiting, lastError, call, polled);
            next.ok && next.waiting <= i + 1 && next.waiting <= capacity
  {
    ServedReturns(mode, capacity, waiting, lastError, i, call);
  }

  /** A repetition is reported if no call meets an error, every call that may find the queue full has a poll
    that serves a report, and the flush has time for what the queue can hold. */
  lemma ServedFinishes(mode: Mode, capacity: nat, lastError: Error, script: RepetitionScript)
    requires 0 < capacity && |script.calls| == |script.polls| && CanFinish(mode, capacity, script)
    ensures Finishes(mode, capacity, lastError, script)
  {
    ServedProgress(mode, capacity, lastError, script, |script.calls|);
  }
}
