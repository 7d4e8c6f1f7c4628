/** Framed transfer over a connected socket: `send`/`recv` split a `len`-byte
    transfer into raw calls of at most `BUFFER_SIZE` bytes and advance a
    `size_t` offset by each raw result.

    The raw calls are oracles. A raw call either fails (-1, with an errno
    class) or the kernel is ready to move some number of bytes; the raw result
    is that number capped at the request, as `send`/`recv` never report more
    than they were asked for. A finite oracle sequence stands for the kernel's
    answers; when it runs out while the loop still wants to call, the run ends
    `Exhausted`, which is where the real loop would keep going.
 */
module TcpTransceiver {
  import opened ByteOrder
  import opened Posix

  const BUFFER_SIZE: nat := 1024

  /** `Blocking` and `Nonblocking` are the two specialisations as written;
      `NonblockingRetry` is the nonblocking loop with a would-block treated as
      "nothing moved", the behaviour the code evidently intends. */
  datatype Mode = Blocking | Nonblocking | NonblockingRetry

  /** The kernel's answer to one raw call */
  datatype Raw = Fail(errno: Errno) | Ready(count: nat)

  /** The kernel's answer to one raw `recv`: a failure, or the bytes it delivers
      (at most the request of them reach the buffer) */
  datatype Incoming = Refused(errno: Errno) | Data(bytes: seq<byte>)

  function RawOf(x: Incoming): Raw
  {
    match x
    case Refused(e) => Fail(e)
    case Data(bs) => Ready(|bs|)
  }

  function RawsOf(xs: seq<Incoming>): (rs: seq<Raw>)
    ensures |rs| == |xs|
    ensures forall k :: 0 <= k < |xs| ==> rs[k] == RawOf(xs[k])
  {
    seq(|xs|, k requires 0 <= k < |xs| => RawOf(xs[k]))
  }

  /** One raw call: the offset it started at, the size it requested, what it returned */
  datatype Call = Call(offset: size_t, size: nat, result: int)

  datatype End = Returned(ok: bool) | Exhausted

  /** A run of the framing loop: how it ended, its raw calls, its final offset */
  datatype Run = Run(end: End, calls: seq<Call>, offset: size_t)

  /** The request of one raw call: the bytes remaining, capped at `BUFFER_SIZE` */
  function ChunkSize(len: size_t, offset: size_t): (size: nat)
    requires offset < len
    ensures 0 < size <= BUFFER_SIZE && size <= len - offset
    ensures size == BUFFER_SIZE || size == len - offset
  {
    if len - offset > BUFFER_SIZE then BUFFER_SIZE else len - offset
  }

  /** What the raw call returns for a request of `size` bytes */
  function RawResult(raw: Raw, size: nat): (r: int)
    ensures raw.Fail? <==> r == -1
    ensures raw.Ready? ==> 0 <= r <= size && r <= raw.count && (r == size || r == raw.count)
  {
    match raw
    case Fail(_) => -1
    case Ready(n) => if n < size then n else size
  }

  /** A raw answer on which the loop returns false */
  predicate Fatal(mode: Mode, raw: Raw)
  {
    raw.Fail? && (mode == Blocking || raw.errno != WouldBlock)
  }

  /** `offset += result`, in `size_t` arithmetic (the corrected nonblocking loop
      leaves the offset alone on a would-block) */
  function Advance(mode: Mode, offset: size_t, result: int): size_t
  {
    if mode == NonblockingRetry && result == -1 then offset else AddSize(offset, result)
  }

  /** Every call was made while `offset < len`, requested `ChunkSize`, and got
      the answer the oracle gives for that request */
  predicate ValidCalls(len: size_t, oracle: seq<Raw>, calls: seq<Call>)
  {
    && |calls| <= |oracle|
    && forall k :: 0 <= k < |calls| ==>
         && calls[k].offset < len
         && calls[k].size == ChunkSize(len, calls[k].offset)
         && calls[k].result == RawResult(oracle[k], calls[k].size)
  }

  /** Each call starts where the previous one left the offset */
  predicate Chained(mode: Mode, calls: seq<Call>)
  {
    forall k :: 0 <= k < |calls| - 1 ==> calls[k + 1].offset == Advance(mode, calls[k].offset, calls[k].result)
  }

  /** The offset after the calls so far, when none of them ended the loop */
  predicate Follows(mode: Mode, calls: seq<Call>, offset: size_t)
  {
    if |calls| == 0 then offset == 0
    else offset == Advance(mode, calls[|calls| - 1].offset, calls[|calls| - 1].result)
  }

  predicate NoFatalBefore(mode: Mode, oracle: seq<Raw>, n: nat)
    requires n <= |oracle|
  {
    forall k :: 0 <= k < n ==> !Fatal(mode, oracle[k])
  }

  /** The framing loop from a given state: `offset` and the calls made so far */
  function Frame(mode: Mode, len: size_t, oracle: seq<Raw>, offset: size_t, calls: seq<Call>): Run
    decreases |oracle| - |calls|
  {
    if offset >= len then Run(Returned(true), calls, offset)
    else if |calls| >= |oracle| then Run(Exhausted, calls, offset)
    else
      var raw := oracle[|calls|];
      var size := ChunkSize(len, offset);
      var result := RawResult(raw, size);
      var calls' := calls + [Call(offset, size, result)];
      if Fatal(mode, raw) then Run(Returned(false), calls', offset)
      else Frame(mode, len, oracle, Advance(mode, offset, result), calls')
  }

  /** A run from a consistent state extends the calls made so far with
      consistent calls, the first of them at the current offset */
  lemma {:induction false} FrameCalls(mode: Mode, len: size_t, oracle: seq<Raw>, offset: size_t, calls: seq<Call>)
    requires ValidCalls(len, oracle, calls) && Chained(mode, calls) && Follows(mode, calls, offset)
    requires NoFatalBefore(mode, oracle, |calls|)
    ensures var r := Frame(mode, len, oracle, offset, calls);
            && |calls| <= |r.calls| <= |oracle| && r.calls[..|calls|] == calls
            && ValidCalls(len, oracle, r.calls) && Chained(mode, r.calls)
            && (|r.calls| > |calls| ==> r.calls[|calls|].offset == offset)
    decreases |oracle| - |calls|
  {
    if offset < len && |calls| < |oracle| {
      var size := ChunkSize(len, offset);
      var result := RawResult(oracle[|calls|], size);
      var calls' := calls + [Call(offset, size, result)];
      StepKeeps(mode, len, oracle, offset, calls);
      if !Fatal(mode, oracle[|calls|]) {
        FrameCalls(mode, len, oracle, Advance(mode, offset, result), calls');
        var r := Frame(mode, len, oracle, Advance(mode, offset, result), calls');
        assert r.calls[..|calls|] == r.calls[..|calls'|][..|calls|];
      }
    }
  }

  /** How a run from a consistent state ends: false exactly on a fatal answer,
      exhausted only short of `len`, true only at or past `len` */
  lemma {:induction false} FrameEnd(mode: Mode, len: size_t, oracle: seq<Raw>, offset: size_t, calls: seq<Call>)
    requires ValidCalls(len, oracle, calls) && Chained(mode, calls) && Follows(mode, calls, offset)
    requires NoFatalBefore(mode, oracle, |calls|)
    ensures var r := Frame(mode, len, oracle, offset, calls);
            && |r.calls| <= |oracle|
            && (r.end == Returned(false) <==> |r.calls| > 0 && Fatal(mode, oracle[|r.calls| - 1]))
            && (r.end == Returned(false) ==> NoFatalBefore(mode, oracle, |r.calls| - 1))
            && (r.end == Returned(false) ==> r.offset == r.calls[|r.calls| - 1].offset)
            && (r.end != Returned(false) ==> NoFatalBefore(mode, oracle, |r.calls|) && Follows(mode, r.calls, r.offset))
            && (r.end == Exhausted ==> |r.calls| == |oracle| && r.offset < len)
            && (r.end == Returned(true) ==> r.offset >= len)
    decreases |oracle| - |calls|
  {
    if offset < len && |calls| < |oracle| {
      var size := ChunkSize(len, offset);
      var result := RawResult(oracle[|calls|], size);
      StepKeeps(mode, len, oracle, offset, calls);
      if !Fatal(mode, oracle[|calls|]) {
        FrameEnd(mode, len, oracle, Advance(mode, offset, result), calls + [Call(offset, size, result)]);
      }
    }
  }

  /** One more call keeps the loop's bookkeeping consistent */
  lemma StepKeeps(mode: Mode, len: size_t, oracle: seq<Raw>, offset: size_t, calls: seq<Call>)
    requires ValidCalls(len, oracle, calls) && Chained(mode, calls) && Follows(mode, calls, offset)
    requires NoFatalBefore(mode, oracle, |calls|)
    requires offset < len && |calls| < |oracle|
    ensures var size := ChunkSize(len, offset);
            var calls' := calls + [Call(offset, size, RawResult(oracle[|calls|], size))];
            && calls'[..|calls|] == calls
            && ValidCalls(len, oracle, calls') && Chained(mode, calls')
            && (!Fatal(mode, oracle[|calls|]) ==>
                  && Follows(mode, calls', Advance(mode, offset, calls'[|calls|].result))
                  && NoFatalBefore(mode, oracle, |calls'|))
  {
    var size := ChunkSize(len, offset);
    var calls' := calls + [Call(offset, size, RawResult(oracle[|calls|], size))];
    assert calls'[..|calls|] == calls;
    assert forall k :: 0 <= k < |calls| ==> calls'[k] == calls[k];
  }

  /** The loop state of the methods below: bookkeeping consistent, and the
      rest of the run from here ends in `target`, the whole run */
  predicate Invariant(mode: Mode, len: size_t, oracle: seq<Raw>, offset: size_t, calls: seq<Call>, target: Run)
  {
    && ValidCalls(len, oracle, calls) && Chained(mode, calls) && Follows(mode, calls, offset)
    && NoFatalBefore(mode, oracle, |calls|)
    && Frame(mode, len, oracle, offset, calls) == target
  }

  /** The raw call the loop makes at `offset` when the kernel answers `raw` */
  function NextCall(len: size_t, offset: size_t, raw: Raw): Call
    requires offset < len
  {
    var size := ChunkSize(len, offset);
    Call(offset, size, RawResult(raw, size))
  }

  /** One iteration of the loop, in terms of `Invariant` */
  lemma Iterate(mode: Mode, len: size_t, oracle: seq<Raw>, offset: size_t, calls: seq<Call>, target: Run)
    requires Invariant(mode, len, oracle, offset, calls, target)
    requires offset < len && |calls| < |oracle|
    ensures var size := ChunkSize(len, offset);
            var result := RawResult(oracle[|calls|], size);
            var calls' := calls + [Call(offset, size, result)];
            && calls'[..|calls|] == calls
            && ValidCalls(len, oracle, calls')
            && (Fatal(mode, oracle[|calls|]) ==>
                  target == Run(Returned(false), calls', offset))
            && (!Fatal(mode, oracle[|calls|]) ==>
                  Invariant(mode, len, oracle, Advance(mode, offset, result), calls', target))
  {
    StepKeeps(mode, len, oracle, offset, calls);
  }

  /** `send(buf, len)` / `recv(buf, len)` as a run of raw calls, from offset 0
      and no calls made */
  function Transfer(mode: Mode, len: size_t, oracle: seq<Raw>): Run
  {
    Frame(mode, len, oracle, 0, [])
  }

  /** The calls of a run are consistent, starting at offset 0 */
  lemma TransferCalls(mode: Mode, len: size_t, oracle: seq<Raw>)
    ensures var r := Transfer(mode, len, oracle);
            && ValidCalls(len, oracle, r.calls) && Chained(mode, r.calls)
            && (|r.calls| > 0 ==> r.calls[0].offset == 0)
  {
    FrameCalls(mode, len, oracle, 0, []);
  }

  /** How a run ends */
  lemma TransferEnd(mode: Mode, len: size_t, oracle: seq<Raw>)
    ensures var r := Transfer(mode, len, oracle);
            && |r.calls| <= |oracle|
            && (r.end == Returned(false) <==> |r.calls| > 0 && Fatal(mode, oracle[|r.calls| - 1]))
            && (r.end == Returned(false) ==> NoFatalBefore(mode, oracle, |r.calls| - 1))
            && (r.end == Returned(false) ==> r.offset == r.calls[|r.calls| - 1].offset)
            && (r.end != Returned(false) ==> NoFatalBefore(mode, oracle, |r.calls|) && Follows(mode, r.calls, r.offset))
            && (r.end == Exhausted ==> |r.calls| == |oracle| && r.offset < len)
            && (r.end == Returned(true) ==> r.offset >= len)
  {
    FrameEnd(mode, len, oracle, 0, []);
  }

  /** The shape of every run: each request is `min(len - offset, BUFFER_SIZE)`
      and positive, calls start at offset 0 and each starts where the previous
      one left the offset, the loop returns false exactly when the last call
      failed fatally, and true only once the offset reached `len` */
  lemma TransferRuns(mode: Mode, len: size_t, oracle: seq<Raw>)
    ensures var r := Transfer(mode, len, oracle);
            && ValidCalls(len, oracle, r.calls) && Chained(mode, r.calls)
            && (forall k :: 0 <= k < |r.calls| ==>
                  && 0 < r.calls[k].size <= BUFFER_SIZE
                  && r.calls[k].size <= len - r.calls[k].offset
                  && -1 <= r.calls[k].result <= r.calls[k].size)
            && (|r.calls| > 0 ==> r.calls[0].offset == 0)
            && (r.end == Returned(false) <==> |r.calls| > 0 && Fatal(mode, oracle[|r.calls| - 1]))
            && (r.end == Returned(false) ==> NoFatalBefore(mode, oracle, |r.calls| - 1))
            && (r.end == Returned(false) ==> r.offset == r.calls[|r.calls| - 1].offset)
            && (r.end != Returned(false) ==> NoFatalBefore(mode, oracle, |r.calls|) && Follows(mode, r.calls, r.offset))
            && (r.end == Exhausted ==> |r.calls| == |oracle| && r.offset < len)
            && (r.end == Returned(true) ==> r.offset >= len)
            && (len == 0 ==> r == Run(Returned(true), [], 0))
  {
    TransferCalls(mode, len, oracle);
    TransferEnd(mode, len, oracle);
  }

  /** The bytes call `c` moved between the buffer and the wire */
  function Chunk(buf: seq<byte>, c: Call): seq<byte>
    requires c.offset + c.result <= |buf|
  {
    if c.result <= 0 then [] else buf[c.offset..c.offset + c.result]
  }

  predicate Fits(calls: seq<Call>, n: nat)
  {
    forall k :: 0 <= k < |calls| ==> calls[k].offset + calls[k].result <= n
  }

  lemma ValidCallsFit(len: size_t, oracle: seq<Raw>, calls: seq<Call>)
    requires ValidCalls(len, oracle, calls)
    ensures Fits(calls, len)
  {
  }

  /** Unless a would-block moves it back, the offset advances over exactly the
      bytes the call moved */
  lemma PrefixGrows(mode: Mode, buf: seq<byte>, len: size_t, c: Call)
    requires mode != Nonblocking && len <= |buf|
    requires c.offset < len && -1 <= c.result <= len - c.offset
    requires mode == Blocking ==> c.result >= 0
    ensures Advance(mode, c.offset, c.result) <= len
    ensures buf[..c.offset] + Chunk(buf, c) == buf[..Advance(mode, c.offset, c.result)]
  {
    if c.result > 0 {
      assert buf[..c.offset + c.result] == buf[..c.offset] + buf[c.offset..c.offset + c.result];
    }
  }

  /** What the raw sends put on the wire, in order */
  function Sent(buf: seq<byte>, calls: seq<Call>): seq<byte>
    requires Fits(calls, |buf|)
  {
    if |calls| == 0 then [] else Sent(buf, calls[..|calls| - 1]) + Chunk(buf, calls[|calls| - 1])
  }

  lemma SentAppend(buf: seq<byte>, calls: seq<Call>, c: Call)
    requires Fits(calls, |buf|) && c.offset + c.result <= |buf|
    ensures Fits(calls + [c], |buf|)
    ensures Sent(buf, calls + [c]) == Sent(buf, calls) + Chunk(buf, c)
  {
    assert (calls + [c])[..|calls|] == calls;
  }

  /** The state of `send`'s loop: the framing bookkeeping, and the wire so far */
  predicate Sending(mode: Mode, buf: seq<byte>, len: size_t, oracle: seq<Raw>, offset: size_t, calls: seq<Call>, wire: seq<byte>, target: Run)
  {
    && len <= |buf| && Invariant(mode, len, oracle, offset, calls, target)
    && Fits(calls, |buf|) && wire == Sent(buf, calls)
  }

  /** One iteration of `send`, in terms of `Sending` */
  lemma SendStep(mode: Mode, buf: seq<byte>, len: size_t, oracle: seq<Raw>, offset: size_t, calls: seq<Call>, wire: seq<byte>, target: Run)
    requires Sending(mode, buf, len, oracle, offset, calls, wire, target)
    requires offset < len && |calls| < |oracle|
    ensures var c := NextCall(len, offset, oracle[|calls|]);
            && c.offset + c.result <= |buf|
            && (Fatal(mode, oracle[|calls|]) ==>
                  && target == Run(Returned(false), calls + [c], offset)
                  && Fits(calls + [c], |buf|) && wire == Sent(buf, calls + [c]))
            && (!Fatal(mode, oracle[|calls|]) ==>
                  Sending(mode, buf, len, oracle, Advance(mode, offset, c.result), calls + [c], wire + Chunk(buf, c), target))
  {
    var c := NextCall(len, offset, oracle[|calls|]);
    Iterate(mode, len, oracle, offset, calls, target);
    SentAppend(buf, calls, c);
  }

  /** `send(buf, len)`: the framing loop, and the bytes it put on the wire */
  method Send(mode: Mode, buf: seq<byte>, len: size_t, oracle: seq<Raw>) returns (r: Run, wire: seq<byte>)
    requires len <= |buf|
    ensures r == Transfer(mode, len, oracle)
    ensures Fits(r.calls, |buf|) && wire == Sent(buf, r.calls)
  {
    var offset: size_t := 0;
    var calls: seq<Call> := [];
    ghost var target := Transfer(mode, len, oracle);
    wire := [];
    while offset < len
      invariant Sending(mode, buf, len, oracle, offset, calls, wire, target)
      decreases |oracle| - |calls|
    {
      if |calls| == |oracle| {
        r := Run(Exhausted, calls, offset);
        return;
      }
      var c := NextCall(len, offset, oracle[|calls|]);
      SendStep(mode, buf, len, oracle, offset, calls, wire, target);
      if Fatal(mode, oracle[|calls|]) {
        r := Run(Returned(false), calls + [c], offset);
        return;
      }
      calls, wire, offset := calls + [c], wire + Chunk(buf, c), Advance(mode, offset, c.result);
    }
    r := Run(Returned(true), calls, offset);
  }

  /** Along a consistent run of the retrying or blocking loop, the wire holds
      exactly the first `offset` bytes of the buffer */
  lemma {:induction false} SentFollows(mode: Mode, buf: seq<byte>, len: size_t, oracle: seq<Raw>, calls: seq<Call>, offset: size_t)
    requires mode != Nonblocking && len <= |buf|
    requires ValidCalls(len, oracle, calls) && Chained(mode, calls) && Follows(mode, calls, offset)
    requires NoFatalBefore(mode, oracle, |calls|)
    requires |calls| > 0 ==> calls[0].offset == 0
    ensures offset <= len && Fits(calls, |buf|)
    ensures Sent(buf, calls) == buf[..offset]
  {
    if |calls| > 0 {
      var n := |calls| - 1;
      var init, c := calls[..n], calls[n];
      assert forall k :: 0 <= k < n ==> init[k] == calls[k];
      SentFollows(mode, buf, len, oracle, init, c.offset);
      PrefixGrows(mode, buf, len, c);
    }
  }

  /** The calls of a run before any fatal one: all of them, or all but the
      last when the run returned false, whose call moved nothing and left the
      offset where it was */
  lemma SettledCalls(mode: Mode, len: size_t, oracle: seq<Raw>) returns (n: nat)
    ensures var r := Transfer(mode, len, oracle);
            && n <= |r.calls| <= |oracle|
            && ValidCalls(len, oracle, r.calls)
            && ValidCalls(len, oracle, r.calls[..n]) && Chained(mode, r.calls[..n])
            && Follows(mode, r.calls[..n], r.offset) && NoFatalBefore(mode, oracle, n)
            && (n > 0 ==> r.calls[0].offset == 0)
            && (n < |r.calls| ==> n == |r.calls| - 1 && r.calls[n].result == -1)
  {
    var r := Transfer(mode, len, oracle);
    TransferCalls(mode, len, oracle);
    TransferEnd(mode, len, oracle);
    if r.end == Returned(false) {
      n := |r.calls| - 1;
      var init := r.calls[..n];
      assert forall k :: 0 <= k < n ==> init[k] == r.calls[k];
    } else {
      n := |r.calls|;
      assert r.calls[..n] == r.calls;
    }
  }

  /** The retrying and the blocking `send` put the buffer's first `offset`
      bytes on the wire in order, and all `len` of them when they return true */
  lemma SendDelivers(mode: Mode, buf: seq<byte>, len: size_t, oracle: seq<Raw>)
    requires mode != Nonblocking && len <= |buf|
    ensures var r := Transfer(mode, len, oracle);
            && r.offset <= len && Fits(r.calls, |buf|)
            && Sent(buf, r.calls) == buf[..r.offset]
            && (r.end == Returned(true) ==> r.offset == len && Sent(buf, r.calls) == buf[..len])
  {
    var r := Transfer(mode, len, oracle);
    var n := SettledCalls(mode, len, oracle);
    ValidCallsFit(len, oracle, r.calls);
    SentFollows(mode, buf, len, oracle, r.calls[..n], r.offset);
    if n < |r.calls| {
      assert Sent(buf, r.calls) == Sent(buf, r.calls[..n]) + Chunk(buf, r.calls[n]);
      assert Chunk(buf, r.calls[n]) == [];
    } else {
      assert r.calls[..n] == r.calls;
    }
    TransferEnd(mode, len, oracle);
  }

  /** The buffer after call `c` of a `recv`, whose answer was `x`, wrote its bytes */
  function WriteChunk(buf: seq<byte>, c: Call, x: Incoming): (b: seq<byte>)
    requires c.offset + c.result <= |buf|
    requires c.result > 0 ==> x.Data? && c.result <= |x.bytes|
    ensures |b| == |buf|
  {
    if c.result <= 0 then buf
    else buf[..c.offset] + x.bytes[..c.result] + buf[c.offset + c.result..]
  }

  /** Each call's answer was the one the `recv` oracle gave it */
  predicate AnsweredBy(calls: seq<Call>, incoming: seq<Incoming>)
  {
    && |calls| <= |incoming|
    && forall k :: 0 <= k < |calls| && calls[k].result > 0 ==>
         incoming[k].Data? && calls[k].result <= |incoming[k].bytes|
  }

  lemma ValidCallsAnswered(len: size_t, incoming: seq<Incoming>, calls: seq<Call>)
    requires ValidCalls(len, RawsOf(incoming), calls)
    ensures AnsweredBy(calls, incoming)
  {
  }

  /** The buffer after the raw receives wrote their bytes, each at its offset */
  function Filled(buf: seq<byte>, calls: seq<Call>, incoming: seq<Incoming>): (b: seq<byte>)
    requires Fits(calls, |buf|) && AnsweredBy(calls, incoming)
    ensures |b| == |buf|
  {
    if |calls| == 0 then buf
    else
      var n := |calls| - 1;
      WriteChunk(Filled(buf, calls[..n], incoming), calls[n], incoming[n])
  }

  /** The bytes the raw receives delivered, in order */
  function Delivered(calls: seq<Call>, incoming: seq<Incoming>): seq<byte>
    requires AnsweredBy(calls, incoming)
  {
    if |calls| == 0 then []
    else
      var n := |calls| - 1;
      Delivered(calls[..n], incoming) + (if calls[n].result <= 0 then [] else incoming[n].bytes[..calls[n].result])
  }

  /** The state of `recv`'s loop: the framing bookkeeping, and the buffer so far */
  predicate Receiving(mode: Mode, buf: seq<byte>, len: size_t, incoming: seq<Incoming>, offset: size_t, calls: seq<Call>, filled: seq<byte>, target: Run)
  {
    && len <= |buf| && Invariant(mode, len, RawsOf(incoming), offset, calls, target)
    && Fits(calls, |buf|) && AnsweredBy(calls, incoming) && filled == Filled(buf, calls, incoming)
  }

  /** One iteration of `recv`, in terms of `Receiving` */
  lemma RecvStep(mode: Mode, buf: seq<byte>, len: size_t, incoming: seq<Incoming>, offset: size_t, calls: seq<Call>, filled: seq<byte>, target: Run)
    requires Receiving(mode, buf, len, incoming, offset, calls, filled, target)
    requires offset < len && |calls| < |incoming|
    ensures var c := NextCall(len, offset, RawsOf(incoming)[|calls|]);
            && c.offset + c.result <= |buf|
            && (c.result > 0 ==> incoming[|calls|].Data? && c.result <= |incoming[|calls|].bytes|)
            && (Fatal(mode, RawsOf(incoming)[|calls|]) ==>
                  && target == Run(Returned(false), calls + [c], offset)
                  && Fits(calls + [c], |buf|) && AnsweredBy(calls + [c], incoming)
                  && filled == Filled(buf, calls + [c], incoming))
            && (!Fatal(mode, RawsOf(incoming)[|calls|]) ==>
                  Receiving(mode, buf, len, incoming, Advance(mode, offset, c.result), calls + [c],
                            WriteChunk(filled, c, incoming[|calls|]), target))
  {
    var oracle := RawsOf(incoming);
    var c := NextCall(len, offset, oracle[|calls|]);
    Iterate(mode, len, oracle, offset, calls, target);
    FilledAppend(buf, calls, c, incoming);
  }

  /** `recv(buf, len)`: the framing loop, and the buffer it leaves */
  method Recv(mode: Mode, buf: seq<byte>, len: size_t, incoming: seq<Incoming>) returns (r: Run, filled: seq<byte>)
    requires len <= |buf|
    ensures r == Transfer(mode, len, RawsOf(incoming))
    ensures Fits(r.calls, |buf|) && AnsweredBy(r.calls, incoming)
    ensures filled == Filled(buf, r.calls, incoming)
  {
    var oracle := RawsOf(incoming);
    var offset: size_t := 0;
    var calls: seq<Call> := [];
    ghost var target := Transfer(mode, len, oracle);
    filled := buf;
    while offset < len
      invariant Receiving(mode, buf, len, incoming, offset, calls, filled, target)
      decreases |incoming| - |calls|
    {
      if |calls| == |incoming| {
        r := Run(Exhausted, calls, offset);
        return;
      }
      var c := NextCall(len, offset, oracle[|calls|]);
      RecvStep(mode, buf, len, incoming, offset, calls, filled, target);
      if Fatal(mode, oracle[|calls|]) {
        r := Run(Returned(false), calls + [c], offset);
        return;
      }
      filled, calls, offset := WriteChunk(filled, c, incoming[|calls|]), calls + [c], Advance(mode, offset, c.result);
    }
    r := Run(Returned(true), calls, offset);
  }

  lemma FilledAppend(buf: seq<byte>, calls: seq<Call>, c: Call, incoming: seq<Incoming>)
    requires Fits(calls, |buf|) && AnsweredBy(calls, incoming)
    requires c.offset + c.result <= |buf| && |calls| < |incoming|
    requires c.result > 0 ==> incoming[|calls|].Data? && c.result <= |incoming[|calls|].bytes|
    ensures Fits(calls + [c], |buf|) && AnsweredBy(calls + [c], incoming)
    ensures Filled(buf, calls + [c], incoming) == WriteChunk(Filled(buf, calls, incoming), c, incoming[|calls|])
  {
    assert (calls + [c])[..|calls|] == calls;
  }

  /** One raw receive of the retrying or blocking loop extends the delivered
      prefix by its bytes and leaves the rest of the buffer alone */
  lemma FillStep(buf: seq<byte>, before: seq<byte>, c: Call, x: Incoming, delivered: seq<byte>, next: size_t)
    requires c.offset <= |buf| && c.offset + c.result <= |buf| == |before| && -1 <= c.result
    requires c.result > 0 ==> x.Data? && c.result <= |x.bytes|
    requires next == (if c.result <= 0 then c.offset else c.offset + c.result)
    requires before[..c.offset] == delivered && before[c.offset..] == buf[c.offset..]
    ensures var after := WriteChunk(before, c, x);
            && after[..next] == delivered + (if c.result <= 0 then [] else x.bytes[..c.result])
            && after[next..] == buf[next..]
  {
    if c.result > 0 {
      var piece := x.bytes[..c.result];
      var after := WriteChunk(before, c, x);
      assert after == before[..c.offset] + piece + before[c.offset + c.result..];
      assert after[..next] == before[..c.offset] + piece;
      assert before[c.offset + c.result..] == buf[c.offset..][c.result..];
    }
  }

  /** Along a consistent run of the retrying or blocking loop, the buffer's
      first `offset` bytes are the delivered bytes in order and the rest of it
      is untouched */
  lemma {:induction false} FilledFollows(mode: Mode, buf: seq<byte>, len: size_t, incoming: seq<Incoming>, calls: seq<Call>, offset: size_t)
    requires mode != Nonblocking && len <= |buf|
    requires ValidCalls(len, RawsOf(incoming), calls) && Chained(mode, calls) && Follows(mode, calls, offset)
    requires NoFatalBefore(mode, RawsOf(incoming), |calls|)
    requires |calls| > 0 ==> calls[0].offset == 0
    ensures offset <= len && Fits(calls, |buf|) && AnsweredBy(calls, incoming)
    ensures Filled(buf, calls, incoming)[..offset] == Delivered(calls, incoming)
    ensures Filled(buf, calls, incoming)[offset..] == buf[offset..]
  {
    ValidCallsFit(len, RawsOf(incoming), calls);
    ValidCallsAnswered(len, incoming, calls);
    if |calls| > 0 {
      var n := |calls| - 1;
      var init, c := calls[..n], calls[n];
      assert forall k :: 0 <= k < n ==> init[k] == calls[k];
      FilledFollows(mode, buf, len, incoming, init, c.offset);
      PrefixGrows(mode, buf, len, c);
      FillStep(buf, Filled(buf, init, incoming), c, incoming[n], Delivered(init, incoming), offset);
    }
  }

  /** A last raw receive that failed changes neither the buffer nor the
      delivered bytes */
  lemma FailedLastRecv(buf: seq<byte>, calls: seq<Call>, incoming: seq<Incoming>)
    requires Fits(calls, |buf|) && AnsweredBy(calls, incoming)
    requires |calls| > 0 && calls[|calls| - 1].result == -1
    ensures var init := calls[..|calls| - 1];
            && Fits(init, |buf|) && AnsweredBy(init, incoming)
            && Filled(buf, calls, incoming) == Filled(buf, init, incoming)
            && Delivered(calls, incoming) == Delivered(init, incoming)
  {
    var init := calls[..|calls| - 1];
    assert Delivered(calls, incoming) == Delivered(init, incoming) + [];
  }

  /** The buffer after a run's calls, all of which but a failed last one are settled */
  lemma SettledFilled(mode: Mode, buf: seq<byte>, len: size_t, incoming: seq<Incoming>, calls: seq<Call>, n: nat, offset: size_t)
    requires mode != Nonblocking && len <= |buf| && n <= |calls|
    requires ValidCalls(len, RawsOf(incoming), calls)
    requires ValidCalls(len, RawsOf(incoming), calls[..n]) && Chained(mode, calls[..n])
    requires Follows(mode, calls[..n], offset) && NoFatalBefore(mode, RawsOf(incoming), n)
    requires n > 0 ==> calls[0].offset == 0
    requires n < |calls| ==> n == |calls| - 1 && calls[n].result == -1
    ensures offset <= len && Fits(calls, |buf|) && AnsweredBy(calls, incoming)
    ensures Filled(buf, calls, incoming)[..offset] == Delivered(calls, incoming)
    ensures Filled(buf, calls, incoming)[offset..] == buf[offset..]
  {
    ValidCallsFit(len, RawsOf(incoming), calls);
    ValidCallsAnswered(len, incoming, calls);
    FilledFollows(mode, buf, len, incoming, calls[..n], offset);
    if n < |calls| {
      FailedLastRecv(buf, calls, incoming);
    } else {
      assert calls[..n] == calls;
    }
  }

  /** The retrying and the blocking `recv` leave the delivered bytes, in order,
      in the buffer's first `offset` bytes and the rest untouched; when they
      return true, the first `len` bytes are the delivered stream */
  lemma RecvDelivers(mode: Mode, buf: seq<byte>, len: size_t, incoming: seq<Incoming>)
    requires mode != Nonblocking && len <= |buf|
    ensures var r := Transfer(mode, len, RawsOf(incoming));
            && r.offset <= len && Fits(r.calls, |buf|) && AnsweredBy(r.calls, incoming)
            && Filled(buf, r.calls, incoming)[..r.offset] == Delivered(r.calls, incoming)
            && Filled(buf, r.calls, incoming)[r.offset..] == buf[r.offset..]
            && (r.end == Returned(true) ==> r.offset == len)
  {
    var oracle := RawsOf(incoming);
    var r := Transfer(mode, len, oracle);
    var n := SettledCalls(mode, len, oracle);
    SettledFilled(mode, buf, len, incoming, r.calls, n, r.offset);
    TransferEnd(mode, len, oracle);
  }

  /** With every raw call moving at least one byte and at least `len` answers
      available, the loop returns true with the offset exactly at `len`. */
  lemma {:induction false} ProgressCompletes(mode: Mode, len: size_t, oracle: seq<Raw>, offset: size_t, calls: seq<Call>)
    requires ValidCalls(len, oracle, calls) && Chained(mode, calls) && Follows(mode, calls, offset)
    requires NoFatalBefore(mode, oracle, |calls|)
    requires |calls| <= offset <= len <= |oracle|
    requires forall k :: |calls| <= k < |oracle| ==> oracle[k].Ready? && oracle[k].count >= 1
    ensures Frame(mode, len, oracle, offset, calls).end == Returned(true)
    ensures Frame(mode, len, oracle, offset, calls).offset == len
    decreases |oracle| - |calls|
  {
    if offset < len {
      var size := ChunkSize(len, offset);
      var result := RawResult(oracle[|calls|], size);
      var calls' := calls + [Call(offset, size, result)];
      StepKeeps(mode, len, oracle, offset, calls);
      ProgressCompletes(mode, len, oracle, Advance(mode, offset, result), calls');
    }
  }

  lemma TransferCompletes(mode: Mode, len: size_t, oracle: seq<Raw>)
    requires len <= |oracle|
    requires forall k :: 0 <= k < |oracle| ==> oracle[k].Ready? && oracle[k].count >= 1
    ensures Transfer(mode, len, oracle).end == Returned(true)
    ensures Transfer(mode, len, oracle).offset == len
  {
    ProgressCompletes(mode, len, oracle, 0, []);
  }

  /** A raw result of 0 moves nothing: the next call starts at the same offset */
  lemma ZeroResultNoProgress(mode: Mode, len: size_t, oracle: seq<Raw>, k: nat)
    requires k + 1 < |Transfer(mode, len, oracle).calls|
    requires Transfer(mode, len, oracle).calls[k].result == 0
    ensures Transfer(mode, len, oracle).calls[k + 1].offset == Transfer(mode, len, oracle).calls[k].offset
  {
    TransferRuns(mode, len, oracle);
  }

  /** The nonblocking loop as written: a would-block adds -1 to the `size_t`
      offset. Mid-transfer this moves the offset back one byte; at offset 0 it
      wraps to 2^64 - 1, which ends the loop with true although nothing moved. */
  lemma WouldBlockStepsBack(len: size_t, oracle: seq<Raw>, k: nat)
    requires k + 1 < |Transfer(Nonblocking, len, oracle).calls|
    requires k < |oracle| && oracle[k] == Fail(WouldBlock)
    ensures var calls := Transfer(Nonblocking, len, oracle).calls;
            calls[k].offset > 0 && calls[k + 1].offset == calls[k].offset - 1
  {
    var calls := Transfer(Nonblocking, len, oracle).calls;
    TransferRuns(Nonblocking, len, oracle);
    assert calls[k + 1].offset == AddSize(calls[k].offset, -1);
  }

  lemma WouldBlockAtStartReturnsTrue(len: size_t, rest: seq<Raw>)
    requires len > 0
    ensures var r := Transfer(Nonblocking, len, [Fail(WouldBlock)] + rest);
            && r.end == Returned(true)
            && r.calls == [Call(0, ChunkSize(len, 0), -1)]
            && r.offset == SIZE_LIMIT - 1
  {
    var oracle := [Fail(WouldBlock)] + rest;
    var c := Call(0, ChunkSize(len, 0), -1);
    assert [] + [c] == [c];
    assert Frame(Nonblocking, len, oracle, SIZE_LIMIT - 1, [c]) == Run(Returned(true), [c], SIZE_LIMIT - 1);
  }

  /** Counterexample: `send` of one byte returns true with nothing on the wire */
  lemma NonblockingSendLosesData(b: byte)
    ensures var oracle := [Fail(WouldBlock)];
            var r := Transfer(Nonblocking, 1, oracle);
            && r.end == Returned(true)
            && Sent([b], r.calls) == []
            && Sent([b], r.calls) != [b][..1]
  {
    WouldBlockAtStartReturnsTrue(1, []);
    TransferRuns(Nonblocking, 1, [Fail(WouldBlock)]);
    var r := Transfer(Nonblocking, 1, [Fail(WouldBlock)]);
    assert r.calls[..0] == [];
  }

  /** `std::string`/`std::vector` `resize(len)`: truncate, or pad with zero bytes */
  function Resize(container: seq<byte>, len: nat): (b: seq<byte>)
    ensures |b| == len
    ensures forall k :: 0 <= k < len && k < |container| ==> b[k] == container[k]
    ensures forall k :: |container| <= k < len ==> b[k] == 0
  {
    if len <= |container| then container[..len]
    else container + seq(len - |container|, _ => 0)
  }

  /** `send(container)`: the whole container, `size()` bytes */
  method SendContainer(mode: Mode, container: seq<byte>, oracle: seq<Raw>) returns (r: Run, wire: seq<byte>)
    requires |container| < SIZE_LIMIT
    ensures r == Transfer(mode, |container|, oracle)
    ensures Fits(r.calls, |container|) && wire == Sent(container, r.calls)
    ensures mode != Nonblocking && r.end == Returned(true) ==> wire == container
  {
    if mode != Nonblocking {
      SendDelivers(mode, container, |container|, oracle);
    }
    r, wire := Send(mode, container, |container|, oracle);
  }

  /** `recv(container, len)`: resize to `len`, then receive into it */
  method RecvContainer(mode: Mode, container: seq<byte>, len: size_t, incoming: seq<Incoming>)
    returns (r: Run, filled: seq<byte>)
    ensures r == Transfer(mode, len, RawsOf(incoming))
    ensures |filled| == len && AnsweredBy(r.calls, incoming)
    ensures Fits(r.calls, len) && filled == Filled(Resize(container, len), r.calls, incoming)
    ensures mode != Nonblocking && r.end == Returned(true) ==> filled == Delivered(r.calls, incoming)
  {
    if mode != Nonblocking {
      RecvDelivers(mode, Resize(container, len), len, incoming);
    }
    r, filled := Recv(mode, Resize(container, len), len, incoming);
  }
}
