/**
  The coordinator's sequential logic around its pipes: `write_all`, the
  round-robin hand-out of input lines to the mappers, and the two
  read loops that track which mapper and reducer outputs are still open.
  System calls are replaced by the results they return, given as inputs.
*/
module Coordinator {
  import opened Bytes
  import opened Records
  import opened Routing

  const NumMappers := 4
  /** Size of the `fgets` buffer: one call stores at most 1023 bytes. */
  const MaxLine := 1024
  const BufferSize := 4096
  /** The descriptor value marking a closed pipe end. */
  const Closed := -1

  // ---------------------------------------------------------------------
  // write_all

  /**
    What one `write` call does: accept up to `capacity` bytes (a pipe with
    that much room), fail with EINTR, or fail with any other error.
  */
  datatype WriteReply = Accepts(capacity: nat) | Interrupted | Fails

  /** `write`'s return value for a request of `request` bytes. */
  function WriteCall(request: nat, reply: WriteReply): (ret: int)
    ensures -1 <= ret <= request
    ensures ret == -1 <==> !reply.Accepts?
  {
    match reply
    case Accepts(c) => if c < request then c else request
    case Interrupted => -1
    case Fails => -1
  }

  /** `write_all`'s return value, or `Blocked` if the replies run out first. */
  datatype WriteOutcome = Returned(value: int) | Blocked(written: nat)

  /** The outcome of `write_all` once `written` of `count` bytes are out. */
  function WriteAllFrom(count: nat, written: nat, replies: seq<WriteReply>): WriteOutcome
    requires written <= count
    decreases |replies|
  {
    if written == count then Returned(count)
    else if replies == [] then Blocked(written)
    else
      var ret := WriteCall(count - written, replies[0]);
      if ret < 0 then
        if replies[0].Interrupted? then WriteAllFrom(count, written, replies[1..]) else Returned(ret)
      else if ret == 0 then Returned(written)
      else WriteAllFrom(count, written + ret, replies[1..])
  }

  /** `write_all(fd, buf, count)` against the successive replies of `write`. */
  method WriteAll(count: nat, replies: seq<WriteReply>) returns (outcome: WriteOutcome)
    ensures outcome == WriteAllFrom(count, 0, replies)
  {
    var written := 0;
    var k := 0;
    while written < count
      invariant written <= count && k <= |replies|
      invariant WriteAllFrom(count, 0, replies) == WriteAllFrom(count, written, replies[k..])
      decreases |replies| - k
    {
      if k == |replies| {
        return Blocked(written);
      }
      assert replies[k..][1..] == replies[k + 1..];
      var reply := replies[k];
      k := k + 1;
      var ret := WriteCall(count - written, reply);
      if ret < 0 {
        if reply.Interrupted? {
          continue;
        }
        return Returned(ret);
      }
      if ret == 0 {
        break;
      }
      written := written + ret;
    }
    outcome := Returned(written);
  }

  /** Total room offered by a run of replies. */
  function Capacity(replies: seq<WriteReply>): nat
  {
    if replies == [] then 0
    else (if replies[0].Accepts? then replies[0].capacity else 0) + Capacity(replies[1..])
  }

  /**
    The byte count stays within `[written, count]`: `write_all` returns
    either -1, after some reply failed, or the bytes written, which fall
    short of `count` only after a zero-byte write.
  */
  lemma {:induction false} WriteAllOutcomes(count: nat, written: nat, replies: seq<WriteReply>)
    requires written <= count
    ensures WriteAllFrom(count, written, replies).Blocked? ==>
      written <= WriteAllFrom(count, written, replies).written < count
    ensures WriteAllFrom(count, written, replies).Returned? ==>
      var v := WriteAllFrom(count, written, replies).value;
      (v == -1 && Fails in replies) || (written <= v <= count && (v < count ==> Accepts(0) in replies))
    decreases |replies|
  {
    if written < count && replies != [] {
      WriteAllOutcomes(count, written, replies[1..]);
      var ret := WriteCall(count - written, replies[0]);
      if ret > 0 {
        WriteAllOutcomes(count, written + ret, replies[1..]);
      }
      if ret == 0 {
        assert replies[0] == Accepts(0);
      }
    }
  }

  /** Replies that only accept (at least one byte each) and offer room enough. */
  lemma {:induction false} WriteAllCompletes(count: nat, written: nat, replies: seq<WriteReply>)
    requires written <= count
    requires forall i :: 0 <= i < |replies| ==> replies[i].Accepts? && replies[i].capacity > 0
    requires Capacity(replies) >= count - written
    ensures WriteAllFrom(count, written, replies) == Returned(count)
    decreases |replies|
  {
    if written < count {
      var ret := WriteCall(count - written, replies[0]);
      if written + ret < count {
        WriteAllCompletes(count, written + ret, replies[1..]);
      }
    }
  }

  /** EINTR is invisible: dropping the interrupted calls changes nothing. */
  function WithoutInterrupts(replies: seq<WriteReply>): (r: seq<WriteReply>)
    ensures Interrupted !in r
  {
    if replies == [] then []
    else if replies[0].Interrupted? then WithoutInterrupts(replies[1..])
    else [replies[0]] + WithoutInterrupts(replies[1..])
  }

  lemma {:induction false} WriteAllRetriesInterrupts(count: nat, written: nat, replies: seq<WriteReply>)
    requires written <= count
    ensures WriteAllFrom(count, written, replies) == WriteAllFrom(count, written, WithoutInterrupts(replies))
    decreases |replies|
  {
    if written < count && replies != [] {
      var rest := WithoutInterrupts(replies[1..]);
      if replies[0].Interrupted? {
        WriteAllRetriesInterrupts(count, written, replies[1..]);
      } else {
        var r := WithoutInterrupts(replies);
        assert r == [replies[0]] + rest && r[1..] == rest;
        var ret := WriteCall(count - written, replies[0]);
        if ret > 0 {
          WriteAllRetriesInterrupts(count, written + ret, replies[1..]);
        }
      }
    }
  }

  // ---------------------------------------------------------------------
  // Round-robin distribution of input lines.

  /** How many bytes one `fgets(line, 1024, stdin)` call consumes. */
  function FgetsLength(input: seq<Byte>): (n: nat)
    requires input != []
    ensures 0 < n <= |input| && n <= MaxLine - 1
  {
    var k := FirstIndex(input, NEWLINE);
    var limit := if |input| < MaxLine - 1 then |input| else MaxLine - 1;
    if k < limit then k + 1 else limit
  }

  /** The successive buffers `fgets` fills, until end of input. */
  function FgetsChunks(input: seq<Byte>): seq<seq<Byte>>
    decreases |input|
  {
    if input == [] then []
    else
      var n := FgetsLength(input);
      [input[..n]] + FgetsChunks(input[n..])
  }

  /** `fgets` splits the input without loss: the chunks concatenate back to it. */
  lemma {:induction false} FgetsChunksConcat(input: seq<Byte>)
    ensures Flatten(FgetsChunks(input)) == input
    decreases |input|
  {
    if input != [] {
      var n := FgetsLength(input);
      var chunk, tail := input[..n], input[n..];
      FgetsChunksConcat(tail);
      FgetsChunksUnfold(input);
      FlattenCons(chunk, FgetsChunks(tail));
      SplitJoin(input, n);
    }
  }

  lemma FgetsChunksUnfold(input: seq<Byte>)
    requires input != []
    ensures FgetsChunks(input) == [input[..FgetsLength(input)]] + FgetsChunks(input[FgetsLength(input)..])
  {
  }

  /**
    No chunk is empty or longer than 1023 bytes, and a '\n' can only be
    the last byte of a chunk.
  */
  lemma {:induction false} FgetsChunksBounded(input: seq<Byte>, j: int)
    requires 0 <= j < |FgetsChunks(input)|
    ensures 0 < |FgetsChunks(input)[j]| < MaxLine
    ensures NoNewline(FgetsChunks(input)[j][..|FgetsChunks(input)[j]| - 1])
    decreases |input|
  {
    var n := FgetsLength(input);
    if j > 0 {
      assert FgetsChunks(input)[j] == FgetsChunks(input[n..])[j - 1];
      FgetsChunksBounded(input[n..], j - 1);
    } else {
      var c := input[..n];
      assert FgetsChunks(input)[0] == c;
      assert forall i :: 0 <= i < n - 1 ==> c[..n - 1][i] == input[i];
    }
  }

  /** What mapper `m` has been sent once `chunks` are dealt out in turn. */
  function Dealt(chunks: seq<seq<Byte>>, m: nat): seq<Byte>
  {
    if chunks == [] then []
    else
      var k := |chunks| - 1;
      Dealt(chunks[..k], m) + (if k % NumMappers == m then CStr(chunks[k]) else [])
  }

  /** The chunks with index `m`, `m + 4`, `m + 8`, ... */
  function EveryFourth(chunks: seq<seq<Byte>>, m: nat): (r: seq<seq<Byte>>)
    requires m < NumMappers
    ensures |r| == (|chunks| + NumMappers - 1 - m) / NumMappers
    ensures forall j :: 0 <= j < |r| ==> r[j] == chunks[NumMappers * j + m]
  {
    var n := (|chunks| + NumMappers - 1 - m) / NumMappers;
    seq(n, j requires 0 <= j < n => chunks[NumMappers * j + m])
  }

  function FlattenStrings(chunks: seq<seq<Byte>>): seq<Byte>
  {
    if chunks == [] then [] else FlattenStrings(chunks[..|chunks| - 1]) + CStr(chunks[|chunks| - 1])
  }

  /**
    Mapper `m` receives, in input order, the C strings of exactly the
    chunks whose index is `m` modulo 4.
  */
  lemma {:induction false} DealtIsRoundRobin(chunks: seq<seq<Byte>>, m: nat)
    requires m < NumMappers
    ensures Dealt(chunks, m) == FlattenStrings(EveryFourth(chunks, m))
    decreases |chunks|
  {
    if chunks != [] {
      var k := |chunks| - 1;
      var before := chunks[..k];
      DealtIsRoundRobin(before, m);
      EveryFourthSnoc(chunks, m);
      if k % NumMappers == m {
        FlattenStringsSnoc(EveryFourth(before, m), chunks[k]);
      }
    }
  }

  /** Mapper `m`'s share grows by the last chunk exactly when its index is `m` modulo 4. */
  lemma EveryFourthSnoc(chunks: seq<seq<Byte>>, m: nat)
    requires chunks != [] && m < NumMappers
    ensures var k := |chunks| - 1;
      k % NumMappers == m ==> EveryFourth(chunks, m) == EveryFourth(chunks[..k], m) + [chunks[k]]
    ensures var k := |chunks| - 1;
      k % NumMappers != m ==> EveryFourth(chunks, m) == EveryFourth(chunks[..k], m)
  {
    var k := |chunks| - 1;
    var r, r' := EveryFourth(chunks, m), EveryFourth(chunks[..k], m);
    QuarterStep(k, m);
    assert forall j :: 0 <= j < |r'| ==> r[j] == r'[j];
    if k % NumMappers == m {
      assert r == r' + [chunks[k]];
    }
  }

  lemma FlattenStringsSnoc(cs: seq<seq<Byte>>, c: seq<Byte>)
    ensures FlattenStrings(cs + [c]) == FlattenStrings(cs) + CStr(c)
  {
    assert (cs + [c])[..|cs|] == cs;
  }

  /** One more chunk adds one to mapper `m`'s share exactly when its index is `m` modulo 4. */
  lemma QuarterStep(k: nat, m: nat)
    requires m < NumMappers
    ensures (k + 1 + NumMappers - 1 - m) / NumMappers ==
      (k + NumMappers - 1 - m) / NumMappers + (if k % NumMappers == m then 1 else 0)
    ensures k % NumMappers == m ==> NumMappers * ((k + NumMappers - 1 - m) / NumMappers) + m == k
  {
  }

  /**
    The distribution loop: each `fgets` chunk is written, up to its first
    NUL (`strlen`), to mapper `current`, which then advances modulo 4.
  */
  method Distribute(input: seq<Byte>) returns (streams: seq<seq<Byte>>)
    ensures |streams| == NumMappers
    ensures forall m :: 0 <= m < NumMappers ==> streams[m] == Dealt(FgetsChunks(input), m)
  {
    streams := [[], [], [], []];
    var current := 0;
    var rest := input;
    ghost var sent: seq<seq<Byte>> := [];
    while rest != []
      invariant 0 <= current < NumMappers && current == |sent| % NumMappers
      invariant sent + FgetsChunks(rest) == FgetsChunks(input)
      invariant |streams| == NumMappers
      invariant forall m :: 0 <= m < NumMappers ==> streams[m] == Dealt(sent, m)
      decreases |rest|
    {
      ghost var rest0, sent0, streams0, current0 := rest, sent, streams, current;
      var n := FgetsLength(rest);
      var line := rest[..n];
      rest := rest[n..];
      sent := sent + [line];
      streams := streams[current := streams[current] + CStr(line)];
      current := (current + 1) % NumMappers;
      DistributeStep(input, rest0, sent0, streams0, current0, line, rest, sent, streams, current);
    }
    assert sent == FgetsChunks(input);
  }

  /** One pass of the distribution loop deals the next line to the mapper whose turn it is. */
  lemma DistributeStep(input: seq<Byte>, rest0: seq<Byte>, sent0: seq<seq<Byte>>, streams0: seq<seq<Byte>>,
                       current0: int, line: seq<Byte>, rest: seq<Byte>, sent: seq<seq<Byte>>,
                       streams: seq<seq<Byte>>, current: int)
    requires rest0 != [] && line == rest0[..FgetsLength(rest0)] && rest == rest0[FgetsLength(rest0)..]
    requires 0 <= current0 < NumMappers && current0 == |sent0| % NumMappers
    requires sent0 + FgetsChunks(rest0) == FgetsChunks(input)
    requires |streams0| == NumMappers
    requires forall m :: 0 <= m < NumMappers ==> streams0[m] == Dealt(sent0, m)
    requires sent == sent0 + [line] && current == (current0 + 1) % NumMappers
    requires streams == streams0[current0 := streams0[current0] + CStr(line)]
    ensures 0 <= current < NumMappers && current == |sent| % NumMappers
    ensures sent + FgetsChunks(rest) == FgetsChunks(input)
    ensures |streams| == NumMappers
    ensures forall m :: 0 <= m < NumMappers ==> streams[m] == Dealt(sent, m)
  {
    FgetsChunksUnfold(rest0);
    SnocThenAppend(sent0, line, FgetsChunks(rest));
    NextTurn(|sent0|, current0, |sent|, current);
    DealtSnoc(sent0, line);
    forall m | 0 <= m < NumMappers
      ensures streams[m] == Dealt(sent, m)
    {
      if m == current0 {
        assert streams[m] == Dealt(sent0, m) + CStr(line);
      } else {
        assert streams[m] == Dealt(sent0, m);
      }
    }
  }

  /** Dealing one more chunk extends only the stream of the mapper whose turn it is. */
  lemma DealtSnoc(sent: seq<seq<Byte>>, chunk: seq<Byte>)
    ensures forall m :: 0 <= m < NumMappers ==>
      Dealt(sent + [chunk], m) == Dealt(sent, m) + (if |sent| % NumMappers == m then CStr(chunk) else [])
  {
    assert (sent + [chunk])[..|sent|] == sent;
  }

  lemma NextTurn(x: nat, c: int, y: nat, d: int)
    requires c == x % NumMappers && y == x + 1 && d == (c + 1) % NumMappers
    ensures 0 <= d < NumMappers && d == y % NumMappers
  {
  }

  lemma SnocThenAppend<T>(a: seq<T>, x: T, b: seq<T>)
    ensures (a + [x]) + b == a + ([x] + b)
  {
  }

  // ---------------------------------------------------------------------
  // The active-set read loops.

  /** What one `read` on a ready descriptor returned. */
  datatype ReadResult = Data(bytes: seq<Byte>) | EndOfFile | ReadFailed

  /** Descriptor `worker` was reported ready and read. */
  datatype Ready = Ready(worker: nat, result: ReadResult)

  /** Number of descriptors not yet closed. */
  function CountOpen(fds: seq<int>): (n: nat)
    ensures n <= |fds|
    ensures n == 0 <==> forall i :: 0 <= i < |fds| ==> fds[i] == Closed
  {
    if fds == [] then 0 else (if fds[0] != Closed then 1 else 0) + CountOpen(fds[1..])
  }

  lemma {:induction false} CountOpenAllOpen(fds: seq<int>)
    requires forall i :: 0 <= i < |fds| ==> fds[i] != Closed
    ensures CountOpen(fds) == |fds|
    decreases |fds|
  {
    if fds != [] {
      CountOpenAllOpen(fds[1..]);
    }
  }

  /** Closing one open descriptor lowers the count by exactly one. */
  lemma {:induction false} CountOpenClose(fds: seq<int>, i: int)
    requires 0 <= i < |fds| && fds[i] != Closed
    ensures CountOpen(fds[i := Closed]) == CountOpen(fds) - 1
    decreases |fds|
  {
    if i > 0 {
      assert fds[i := Closed][1..] == fds[1..][i - 1 := Closed];
      CountOpenClose(fds[1..], i - 1);
    }
  }

  /** A read is acted on only if its descriptor is still open. */
  function Live(fds: seq<int>, e: Ready): bool
  {
    e.worker < |fds| && fds[e.worker] != Closed
  }

  /** The descriptors after one read: end of file closes the descriptor. */
  function Step(fds: seq<int>, e: Ready): (r: seq<int>)
    ensures |r| == |fds|
  {
    if Live(fds, e) && e.result.EndOfFile? then fds[e.worker := Closed] else fds
  }

  function After(fds: seq<int>, events: seq<Ready>): (r: seq<int>)
    ensures |r| == |fds|
    decreases |events|
  {
    if events == [] then fds else After(Step(fds, events[0]), events[1..])
  }

  /** The data of the reads acted on, in order. */
  function Delivered(fds: seq<int>, events: seq<Ready>): seq<seq<Byte>>
    decreases |events|
  {
    if events == [] then []
    else
      (if Live(fds, events[0]) && events[0].result.Data? then [events[0].result.bytes] else [])
      + Delivered(Step(fds, events[0]), events[1..])
  }

  /**
    A descriptor ends up closed exactly when it started closed or one of
    the reads reported its end of file; an open one keeps its value.
  */
  lemma {:induction false} AfterCloses(fds: seq<int>, events: seq<Ready>, i: int)
    requires 0 <= i < |fds|
    ensures After(fds, events)[i] == Closed <==>
      fds[i] == Closed || exists j :: 0 <= j < |events| && events[j] == Ready(i, EndOfFile)
    ensures After(fds, events)[i] != Closed ==> After(fds, events)[i] == fds[i]
    decreases |events|
  {
    if events != [] {
      var fds' := Step(fds, events[0]);
      AfterCloses(fds', events[1..], i);
      if exists j :: 0 <= j < |events[1..]| && events[1..][j] == Ready(i, EndOfFile) {
        var j :| 0 <= j < |events[1..]| && events[1..][j] == Ready(i, EndOfFile);
        assert events[j + 1] == Ready(i, EndOfFile);
      }
      if exists j :: 0 <= j < |events| && events[j] == Ready(i, EndOfFile) {
        var j :| 0 <= j < |events| && events[j] == Ready(i, EndOfFile);
        if j > 0 {
          assert events[1..][j - 1] == Ready(i, EndOfFile);
        }
      }
    }
  }

  /** The data one read contributes, if it is acted on. */
  function Newly(fds: seq<int>, e: Ready): seq<seq<Byte>>
  {
    if Live(fds, e) && e.result.Data? then [e.result.bytes] else []
  }

  lemma {:induction false} AfterSnoc(fds: seq<int>, events: seq<Ready>, e: Ready)
    ensures After(fds, events + [e]) == Step(After(fds, events), e)
    ensures Delivered(fds, events + [e]) == Delivered(fds, events) + Newly(After(fds, events), e)
    decreases |events|
  {
    if events != [] {
      assert (events + [e])[0] == events[0];
      assert (events + [e])[1..] == events[1..] + [e];
      AfterSnoc(Step(fds, events[0]), events[1..], e);
    } else {
      assert events + [e] == [e];
      assert [e][1..] == [];
    }
  }

  /** One more read, as the loops see it. */
  lemma ReadStep(fds: seq<int>, events: seq<Ready>, used: nat)
    requires used < |events|
    ensures After(fds, events[..used + 1]) == Step(After(fds, events[..used]), events[used])
    ensures Delivered(fds, events[..used + 1]) ==
      Delivered(fds, events[..used]) + Newly(After(fds, events[..used]), events[used])
  {
    assert events[..used + 1] == events[..used] + [events[used]];
    AfterSnoc(fds, events[..used], events[used]);
  }

  function ForwardsOf(chunks: seq<seq<Byte>>): seq<Forward>
  {
    if chunks == [] then [] else ForwardsOf(chunks[..|chunks| - 1]) + ChunkForwards(chunks[|chunks| - 1])
  }

  /** Every read the loop is given is for a known descriptor and fits the buffer. */
  predicate WellFormedReads(events: seq<Ready>, workers: nat, limit: nat)
  {
    forall j :: 0 <= j < |events| ==>
      events[j].worker < workers &&
      (events[j].result.Data? ==> 0 < |events[j].result.bytes| <= limit)
  }

  /**
    The shuffle loop: while some mapper output is open, take the next
    ready read; data is parsed and routed chunk by chunk, end of file
    closes that mapper's descriptor and decrements `active_mappers`, and a
    failed read does nothing.  Returns how many reads were consumed.
  */
  method Shuffle(mapperOut: array<int>, events: seq<Ready>) returns (active: int, sent: seq<Forward>, used: nat)
    requires mapperOut.Length == NumMappers
    requires forall i :: 0 <= i < NumMappers ==> mapperOut[i] != Closed
    requires WellFormedReads(events, NumMappers, BufferSize - 1)
    modifies mapperOut
    ensures used <= |events|
    ensures mapperOut[..] == After(old(mapperOut[..]), events[..used])
    ensures sent == ForwardsOf(Delivered(old(mapperOut[..]), events[..used]))
    ensures active == CountOpen(mapperOut[..])
    ensures active == 0 || used == |events|
  {
    ghost var fds0 := mapperOut[..];
    CountOpenAllOpen(fds0);
    active := NumMappers;
    sent := [];
    used := 0;
    while active > 0 && used < |events|
      invariant used <= |events|
      invariant mapperOut[..] == After(fds0, events[..used])
      invariant sent == ForwardsOf(Delivered(fds0, events[..used]))
      invariant active == CountOpen(mapperOut[..])
    {
      var e := events[used];
      ReadStep(fds0, events, used);
      ghost var d := Delivered(fds0, events[..used]);
      if mapperOut[e.worker] != Closed {
        match e.result {
          case Data(bytes) =>
            var routed := RouteChunk(bytes);
            assert (d + [bytes])[..|d|] == d;
            sent := sent + routed;
          case EndOfFile =>
            assert d + [] == d;
            CountOpenClose(mapperOut[..], e.worker);
            mapperOut[e.worker] := Closed;
            active := active - 1;
          case ReadFailed =>
            assert d + [] == d;
        }
      } else {
        assert d + [] == d;
      }
      used := used + 1;
    }
  }

  /**
    The drain loop: the same bookkeeping over the reducers' outputs, whose
    data is copied to standard output unchanged.
  */
  method Drain(reducerOut: array<int>, events: seq<Ready>) returns (active: int, out: seq<Byte>, used: nat)
    requires reducerOut.Length == NumReducers
    requires forall i :: 0 <= i < NumReducers ==> reducerOut[i] != Closed
    requires WellFormedReads(events, NumReducers, BufferSize)
    modifies reducerOut
    ensures used <= |events|
    ensures reducerOut[..] == After(old(reducerOut[..]), events[..used])
    ensures out == Flatten(Delivered(old(reducerOut[..]), events[..used]))
    ensures active == CountOpen(reducerOut[..])
    ensures active == 0 || used == |events|
  {
    ghost var fds0 := reducerOut[..];
    CountOpenAllOpen(fds0);
    active := NumReducers;
    out := [];
    used := 0;
    while active > 0 && used < |events|
      invariant used <= |events|
      invariant reducerOut[..] == After(fds0, events[..used])
      invariant out == Flatten(Delivered(fds0, events[..used]))
      invariant active == CountOpen(reducerOut[..])
    {
      var e := events[used];
      ReadStep(fds0, events, used);
      ghost var d := Delivered(fds0, events[..used]);
      if reducerOut[e.worker] != Closed {
        match e.result {
          case Data(bytes) =>
            FlattenSnoc(d, bytes);
            out := out + bytes;
          case EndOfFile =>
            assert d + [] == d;
            CountOpenClose(reducerOut[..], e.worker);
            reducerOut[e.worker] := Closed;
            active := active - 1;
          case ReadFailed =>
            assert d + [] == d;
        }
      } else {
        assert d + [] == d;
      }
      used := used + 1;
    }
  }

  lemma FlattenSnoc(chunks: seq<seq<Byte>>, c: seq<Byte>)
    ensures Flatten(chunks + [c]) == Flatten(chunks) + c
  {
    if chunks != [] {
      assert (chunks + [c])[1..] == chunks[1..] + [c];
    } else {
      assert chunks + [c] == [c];
    }
  }
}
