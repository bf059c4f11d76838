/** What one event costs, and the synchronous loop the pipeline is compared with. */
module ProcessEvents {
  import opened Wrappers
  import opened Words
  import opened EventFormat
  import SchemaRegistry
  import Pipeline

  const OUTPUT_CAPACITY: nat := 8192

  datatype Mode = SyncBoth | AsyncHandoff | AsyncProtobuf | AsyncPipe | AsyncBoth

  predicate DoesProto(mode: Mode) {
    mode == SyncBoth || mode == AsyncProtobuf || mode == AsyncBoth
  }

  predicate DoesPipe(mode: Mode) {
    mode == SyncBoth || mode == AsyncPipe || mode == AsyncBoth
  }

  /** The serializer of the generated message class: it yields the payload or fails. */
  type Serializer = Event -> Option<seq<byte>>

  /** The bytes an event is worth: its frame and its line.  A failed serialization also skips the line. */
  function Cost(encode: Serializer, mode: Mode, e: Event): nat {
    if DoesProto(mode) && encode(e).None? then 0
    else (if DoesProto(mode) then |SchemaRegistry.Prefix(1) + encode(e).value| else 0)
         + (if DoesPipe(mode) then |Line(e)| else 0)
  }

  /** The fixed prefix, and the payload behind it if there is one. */
  method WriteFrame(payload: Option<seq<byte>>, output: array<byte>)
    requires output.Length == OUTPUT_CAPACITY && (payload.Some? ==> |payload.value| + 6 <= OUTPUT_CAPACITY)
    modifies output
    ensures payload.None? ==> output[..6] == SchemaRegistry.Prefix(1)
    ensures payload.Some? ==> output[..6 + |payload.value|] == SchemaRegistry.Prefix(1) + payload.value
  {
    output[0], output[1], output[2], output[3], output[4], output[5] := 0, 0, 0, 0, 1, 0;
    assert output[..6] == SchemaRegistry.Prefix(1);
    if payload.Some? {
      SchemaRegistry.CopyTo(output, 6, payload.value);
      assert output[..6 + |payload.value|] == output[..][..6 + |payload.value|];
    }
  }

  method WriteLine(e: Event, line: array<char>) returns (length: nat)
    requires IsEvent(e) && line.Length == LOG_CAPACITY
    modifies line
    ensures length == |Line(e)| <= LOG_CAPACITY && line[..length] == Line(e)
  {
    match e {
      case IntEvent(_, _) => length := FormatInt(e, line);
      case DecimalEvent(_, _) => length := FormatDecimal(e, line);
      case WideEvent(_) => length := FormatWide(e, line);
    }
    assert line[..length] == line[..][..length];
  }

  method ProcessEvent(encode: Serializer, e: Event, mode: Mode, output: array<byte>, line: array<char>)
    returns (checksum: nat)
    requires IsEvent(e) && output.Length == OUTPUT_CAPACITY && line.Length == LOG_CAPACITY
    requires encode(e).Some? ==> |encode(e).value| + 6 <= OUTPUT_CAPACITY
    modifies output, line
    ensures checksum == Cost(encode, mode, e)
    ensures mode == AsyncHandoff ==> checksum == 0
    ensures mode == AsyncProtobuf && encode(e).Some? ==>
              checksum <= OUTPUT_CAPACITY && output[..checksum] == SchemaRegistry.Prefix(1) + encode(e).value
    ensures mode == AsyncPipe ==> checksum <= LOG_CAPACITY && line[..checksum] == Line(e)
    ensures (mode == SyncBoth || mode == AsyncBoth) && encode(e).Some? ==>
              var frame := SchemaRegistry.Prefix(1) + encode(e).value;
              && checksum == |frame| + |Line(e)| && |frame| <= OUTPUT_CAPACITY && |Line(e)| <= LOG_CAPACITY
              && output[..|frame|] == frame && line[..|Line(e)|] == Line(e)
    ensures mode != AsyncHandoff && mode != AsyncPipe && encode(e).None? ==>
              checksum == 0 && output[..6] == SchemaRegistry.Prefix(1)
    ensures mode == AsyncHandoff || mode == AsyncPipe ==> output[..] == old(output[..])
    ensures mode == AsyncHandoff || mode == AsyncProtobuf || (mode != AsyncPipe && encode(e).None?) ==>
              line[..] == old(line[..])
  {
    checksum := 0;
    if DoesProto(mode) {
      WriteFrame(encode(e), output);
      if encode(e).None? {
        return 0;
      }
      checksum := checksum + |encode(e).value| + 6;
    }
    if DoesPipe(mode) {
      var length := WriteLine(e, line);
      checksum := checksum + length;
    }
  }

  datatype RunResult = RunResult(completed: nat, checksum: nat, hot: seq<nat>)

  function SyncChecksum(encode: Serializer, base: Event, iterations: nat): nat {
    WordSum(iterations, Cost(encode, SyncBoth, base))
  }

  /** The bytes of a frame and a line, or nothing if the serialization failed. */
  function BytesOfBoth(payload: Option<seq<byte>>, e: Event): nat {
    match payload
    case None => 0
    case Some(bytes) => |SchemaRegistry.Prefix(1) + bytes| + |Line(e)|
  }

  /** The synchronous checksum is the bytes of every iteration's frame and line, in a 64-bit word. */
  lemma SyncChecksumIs(encode: Serializer, base: Event, iterations: nat)
    ensures SyncChecksum(encode, base, iterations) == iterations * BytesOfBoth(encode(base), base) % WORD
  {
    WordSumIsProduct(iterations, Cost(encode, SyncBoth, base));
  }

  /** The synchronous loop; `elapsed` is what the clock shows for each iteration. */
  method RunSync(encode: Serializer, base: Event, warmups: nat, elapsed: seq<nat>) returns (r: RunResult)
    requires IsEvent(base) && (encode(base).Some? ==> |encode(base).value| + 6 <= OUTPUT_CAPACITY)
    ensures r == RunResult(|elapsed|, SyncChecksum(encode, base, |elapsed|), elapsed)
    ensures r.checksum == |elapsed| * BytesOfBoth(encode(base), base) % WORD
  {
    SyncChecksumIs(encode, base, |elapsed|);
    var output := new byte[OUTPUT_CAPACITY](_ => 0);
    var line := new char[LOG_CAPACITY](_ => NUL);
    for i := 0 to warmups {
      var _ := ProcessEvent(encode, base, SyncBoth, output, line);
    }
    var checksum, hot := 0, [];
    ghost var each := Cost(encode, SyncBoth, base);
    assert elapsed[..0] == [];
    for i := 0 to |elapsed|
      invariant checksum == WordSum(i, each)
      invariant hot == elapsed[..i]
    {
      var cost := ProcessEvent(encode, base, SyncBoth, output, line);
      OneMoreSummand(i, each);
      assert elapsed[..i + 1] == elapsed[..i] + [elapsed[i]];
      checksum := AddWord(checksum, cost);
      hot := hot + [elapsed[i]];
    }
    assert elapsed[..|elapsed|] == elapsed;
    r := RunResult(|elapsed|, checksum, hot);
  }

  lemma {:induction false} TotalOfEqualCosts(cost: nat -> nat, each: nat, cells: seq<nat>)
    requires forall cell :: cost(cell) == each
    ensures Pipeline.Total(cost, cells) == WordSum(|cells|, each)
  {
    if cells != [] {
      var n := |cells| - 1;
      TotalOfEqualCosts(cost, each, cells[..n]);
    }
  }

  /** The setup whose pool holds copies of one event. */
  ghost predicate PoolOf(c: Pipeline.Setup, encode: Serializer, mode: Mode, base: Event) {
    forall cell :: c.cost(cell) == Cost(encode, mode, base)
  }

  /** At join the worker's checksum accounts for exactly the completed events. */
  lemma ChecksumCountsCompleted(c: Pipeline.Setup, w: Pipeline.Machine, encode: Serializer, mode: Mode, base: Event)
    requires c.k <= 63 && Pipeline.Reachable(c, w) && Pipeline.Joined(w) && PoolOf(c, encode, mode, base)
    ensures w.checksum == WordSum(w.completed, Cost(encode, mode, base))
    ensures mode == AsyncPipe ==> w.checksum == w.completed * |Line(base)| % WORD
    ensures mode == AsyncProtobuf && encode(base).Some? ==>
              w.checksum == w.completed * |SchemaRegistry.Prefix(1) + encode(base).value| % WORD
    ensures mode == AsyncBoth ==> w.checksum == w.completed * BytesOfBoth(encode(base), base) % WORD
  {
    Pipeline.Conservation(c, w);
    TotalOfEqualCosts(c.cost, Cost(encode, mode, base), w.processed);
    CostPerMode(encode, base);
    WordSumIsProduct(w.completed, Cost(encode, mode, base));
  }

  /** The bytes an event is worth in each mode of the pipeline. */
  lemma CostPerMode(encode: Serializer, e: Event)
    ensures Cost(encode, AsyncHandoff, e) == 0
    ensures Cost(encode, AsyncPipe, e) == |Line(e)|
    ensures Cost(encode, AsyncProtobuf, e) ==
            match encode(e) case None => 0 case Some(bytes) => |SchemaRegistry.Prefix(1) + bytes|
    ensures Cost(encode, AsyncBoth, e) == Cost(encode, SyncBoth, e) == BytesOfBoth(encode(e), e)
  {
    CostOfBoth(encode, SyncBoth, e);
    CostOfBoth(encode, AsyncBoth, e);
    CostOfFrame(encode, e);
  }

  lemma CostOfBoth(encode: Serializer, mode: Mode, e: Event)
    requires mode == SyncBoth || mode == AsyncBoth
    ensures Cost(encode, mode, e) == BytesOfBoth(encode(e), e)
  {
  }

  lemma CostOfFrame(encode: Serializer, e: Event)
    ensures Cost(encode, AsyncProtobuf, e) ==
            match encode(e) case None => 0 case Some(bytes) => |SchemaRegistry.Prefix(1) + bytes|
  {
  }

  /** Whenever nothing is dropped and nothing left over, the pipeline computes the checksum of the
    synchronous loop. */
  lemma AsyncMatchesSync(c: Pipeline.Setup, w: Pipeline.Machine, encode: Serializer, base: Event)
    requires c.k <= 63 && Pipeline.Reachable(c, w) && Pipeline.Joined(w) && PoolOf(c, encode, AsyncBoth, base)
    requires w.dropped == 0 && |w.ring.popped| <= |w.ring.accepted| && Pipeline.Leftover(w) == []
    ensures w.completed == c.iterations && w.checksum == SyncChecksum(encode, base, c.iterations)
    ensures w.checksum == c.iterations * BytesOfBoth(encode(base), base) % WORD
  {
    SyncChecksumIs(encode, base, c.iterations);
    assert w.completed == c.iterations by {
      Pipeline.Conservation(c, w);
    }
    ChecksumCountsCompleted(c, w, encode, AsyncBoth, base);
    CostPerMode(encode, base);
  }
}
