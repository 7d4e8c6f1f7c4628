/** The blocking echo server's `transceive`: receive into a zeroed 1024-byte
    buffer until the last byte received so far is 0 or the buffer is full,
    then send back the first `offset` bytes.

    As written, every raw receive is given the start of the buffer, not the
    position `offset`, so each chunk overwrites the previous ones while
    `offset` still counts them all. `AtOffset` is the loop with each chunk
    stored at `offset`, the behaviour the code evidently intends.
 */
module EchoServer {
  import opened ByteOrder
  import opened Posix
  import opened TcpTransceiver

  const ECHO_BUFFER: nat := 1024

  /** Where a raw receive stores its bytes */
  datatype Placement = AtStart | AtOffset

  /** `buffer` with `bytes` written from position `at` */
  function Store(buffer: seq<byte>, at: nat, bytes: seq<byte>): (b: seq<byte>)
    requires at + |bytes| <= |buffer|
    ensures |b| == |buffer|
  {
    buffer[..at] + bytes + buffer[at + |bytes|..]
  }

  /** One raw receive of `ECHO_BUFFER - offset` bytes: it failed, or it stored
      what it got and advanced the offset by that much */
  datatype Receipt = Failed | Stored(buffer: seq<byte>, offset: nat)

  function Receive(p: Placement, buffer: seq<byte>, offset: nat, x: Incoming): (r: Receipt)
    requires |buffer| == ECHO_BUFFER && offset < ECHO_BUFFER
    ensures x.Refused? <==> r.Failed?
    ensures r.Stored? ==> |r.buffer| == ECHO_BUFFER && offset <= r.offset <= ECHO_BUFFER
    ensures r.Stored? ==> r.offset - offset == (if |x.bytes| < ECHO_BUFFER - offset then |x.bytes| else ECHO_BUFFER - offset)
  {
    var received := RawResult(RawOf(x), ECHO_BUFFER - offset);
    if received == -1 then Failed
    else
      var at := if p == AtStart then 0 else offset;
      Stored(Store(buffer, at, x.bytes[..received]), offset + received)
  }

  /** The loop's exit test: the last byte counted so far is 0 */
  predicate Ends(buffer: seq<byte>, offset: nat)
    requires offset <= |buffer|
  {
    offset > 0 && buffer[offset - 1] == 0
  }

  /** How the receive loop ended: a failed receive, the receives ran out while
      the loop still wanted more (in the state it would go on from), or the
      loop left with the buffer and `offset` */
  datatype Gathered = RecvFailed | Starved(buffer: seq<byte>, offset: nat) | Complete(buffer: seq<byte>, len: nat)

  /** The receive loop from a state: the buffer, `offset`, the receives to come */
  function Gather(p: Placement, buffer: seq<byte>, offset: nat, incoming: seq<Incoming>): Gathered
    requires |buffer| == ECHO_BUFFER && offset <= ECHO_BUFFER
    decreases |incoming|
  {
    if offset >= ECHO_BUFFER then Complete(buffer, offset)
    else if |incoming| == 0 then Starved(buffer, offset)
    else
      match Receive(p, buffer, offset, incoming[0])
      case Failed => RecvFailed
      case Stored(buffer', offset') =>
        if Ends(buffer', offset') then Complete(buffer', offset')
        else Gather(p, buffer', offset', incoming[1..])
  }

  /** The loop leaves with a full-sized buffer, an offset no smaller than the
      one it started from and within the buffer, and either the buffer full or
      the last byte counted 0 */
  lemma {:induction false} GatherBounds(p: Placement, buffer: seq<byte>, offset: nat, incoming: seq<Incoming>)
    requires |buffer| == ECHO_BUFFER && offset <= ECHO_BUFFER
    ensures var g := Gather(p, buffer, offset, incoming);
            g.Complete? ==>
              && |g.buffer| == ECHO_BUFFER && offset <= g.len <= ECHO_BUFFER
              && (g.len == ECHO_BUFFER || Ends(g.buffer, g.len))
    decreases |incoming|
  {
    if offset < ECHO_BUFFER && |incoming| > 0 {
      match Receive(p, buffer, offset, incoming[0])
      case Failed =>
      case Stored(buffer', offset') =>
        GatherBounds(p, buffer', offset', incoming[1..]);
    }
  }

  /** Once the loop has left, on a failed receive or through its exit test,
      no later receive is read */
  lemma {:induction false} GatherStopsAtExit(p: Placement, buffer: seq<byte>, offset: nat, xs: seq<Incoming>, ys: seq<Incoming>)
    requires |buffer| == ECHO_BUFFER && offset <= ECHO_BUFFER
    requires !Gather(p, buffer, offset, xs).Starved?
    ensures Gather(p, buffer, offset, xs + ys) == Gather(p, buffer, offset, xs)
    decreases |xs|
  {
    if offset < ECHO_BUFFER {
      assert (xs + ys)[0] == xs[0] && (xs + ys)[1..] == xs[1..] + ys;
      match Receive(p, buffer, offset, xs[0])
      case Failed =>
      case Stored(buffer', offset') =>
        if !Ends(buffer', offset') {
          GatherStopsAtExit(p, buffer', offset', xs[1..], ys);
        }
    }
  }

  /** The converse: while the receives run out before the loop leaves, it
      waits in a state with room left whose last receive failed the exit test,
      and later receives carry on from exactly that state */
  lemma {:induction false} GatherResumes(p: Placement, buffer: seq<byte>, offset: nat, xs: seq<Incoming>, ys: seq<Incoming>)
    requires |buffer| == ECHO_BUFFER && offset <= ECHO_BUFFER
    ensures var g := Gather(p, buffer, offset, xs);
            g.Starved? ==>
              && |g.buffer| == ECHO_BUFFER && offset <= g.offset < ECHO_BUFFER
              && (|xs| > 0 ==> !Ends(g.buffer, g.offset))
              && Gather(p, buffer, offset, xs + ys) == Gather(p, g.buffer, g.offset, ys)
    decreases |xs|
  {
    if offset < ECHO_BUFFER && |xs| > 0 {
      assert (xs + ys)[0] == xs[0] && (xs + ys)[1..] == xs[1..] + ys;
      match Receive(p, buffer, offset, xs[0])
      case Failed =>
      case Stored(buffer', offset') =>
        if !Ends(buffer', offset') {
          GatherResumes(p, buffer', offset', xs[1..], ys);
        }
    } else if |xs| == 0 {
      assert xs + ys == ys;
    }
  }

  /** The loop's starting state: a zeroed buffer and offset 0 */
  function GatherAll(p: Placement, incoming: seq<Incoming>): Gathered
  {
    Gather(p, Zeros(ECHO_BUFFER), 0, incoming)
  }

  /** What `transceive` did: returned false on a failed receive, is still
      receiving, or sent back the first `len` bytes with a blocking `send` */
  datatype Echo = RecvError | Waiting | Replied(buffer: seq<byte>, len: nat, run: Run, wire: seq<byte>)

  /** `transceive`: gather, then send back what the loop counted */
  function Transceive(p: Placement, incoming: seq<Incoming>, sendOracle: seq<Raw>): (e: Echo)
    ensures GatherAll(p, incoming).RecvFailed? <==> e == RecvError
    ensures GatherAll(p, incoming).Starved? <==> e == Waiting
    ensures GatherAll(p, incoming).Complete? ==>
              && e.Replied?
              && e.buffer == GatherAll(p, incoming).buffer
              && e.len == GatherAll(p, incoming).len
    ensures e.Replied? ==>
              && |e.buffer| == ECHO_BUFFER && e.len <= ECHO_BUFFER
              && e.run == Transfer(Blocking, e.len, sendOracle)
              && e.run.offset <= e.len && Fits(e.run.calls, |e.buffer|)
              && e.wire == Sent(e.buffer, e.run.calls)
              && e.wire == e.buffer[..e.run.offset]
              && (e.run.end == Returned(true) ==> e.wire == e.buffer[..e.len])
  {
    match GatherAll(p, incoming)
    case RecvFailed => RecvError
    case Starved(_, _) => Waiting
    case Complete(buffer, len) =>
      GatherBounds(p, Zeros(ECHO_BUFFER), 0, incoming);
      var run := Transfer(Blocking, len, sendOracle);
      SendDelivers(Blocking, buffer, len, sendOracle);
      Replied(buffer, len, run, Sent(buffer, run.calls))
  }

  /** `transceive` as the loop it is, followed by the `send` method */
  method TransceiveLoop(p: Placement, incoming: seq<Incoming>, sendOracle: seq<Raw>) returns (e: Echo)
    ensures e == Transceive(p, incoming, sendOracle)
  {
    var buffer := Zeros(ECHO_BUFFER);
    var offset := 0;
    var i := 0;
    while offset < ECHO_BUFFER
      invariant |buffer| == ECHO_BUFFER && offset <= ECHO_BUFFER && i <= |incoming|
      invariant Gather(p, buffer, offset, incoming[i..]) == GatherAll(p, incoming)
      decreases |incoming| - i
    {
      if i == |incoming| {
        return Waiting;
      }
      assert incoming[i..][1..] == incoming[i + 1..];
      match Receive(p, buffer, offset, incoming[i])
      case Failed =>
        return RecvError;
      case Stored(buffer', offset') =>
        buffer, offset, i := buffer', offset', i + 1;
        if Ends(buffer, offset) {
          break;
        }
    }
    var run, wire := Send(Blocking, buffer, offset, sendOracle);
    return Replied(buffer, offset, run, wire);
  }

  /** The bytes of a sequence of receives that all delivered data */
  predicate AllData(incoming: seq<Incoming>)
  {
    forall k :: 0 <= k < |incoming| ==> incoming[k].Data?
  }

  function Flatten(incoming: seq<Incoming>): seq<byte>
    requires AllData(incoming)
  {
    if |incoming| == 0 then [] else incoming[0].bytes + Flatten(incoming[1..])
  }

  /** A message whose only chunk ending in 0 is the last one, which is not empty */
  predicate Terminated(incoming: seq<Incoming>)
  {
    && AllData(incoming)
    && |incoming| > 0
    && (var last := incoming[|incoming| - 1].bytes; |last| > 0 && last[|last| - 1] == 0)
    && forall k :: 0 <= k < |incoming| - 1 ==>
         |incoming[k].bytes| == 0 || incoming[k].bytes[|incoming[k].bytes| - 1] != 0
  }

  lemma TerminatedRest(incoming: seq<Incoming>)
    requires Terminated(incoming) && |incoming| > 1
    ensures Terminated(incoming[1..])
    ensures incoming[|incoming| - 1] == incoming[1..][|incoming[1..]| - 1]
  {
  }

  lemma {:induction false} FlattenHasLast(incoming: seq<Incoming>)
    requires AllData(incoming) && |incoming| > 0
    ensures |Flatten(incoming)| >= |incoming[|incoming| - 1].bytes|
  {
    if |incoming| > 1 {
      FlattenHasLast(incoming[1..]);
      assert incoming[1..][|incoming| - 2] == incoming[|incoming| - 1];
    }
  }

  /** A receive that delivers `bs`, all of which fit, stores all of them */
  lemma ReceiveData(p: Placement, buffer: seq<byte>, offset: nat, bs: seq<byte>)
    requires |buffer| == ECHO_BUFFER && offset < ECHO_BUFFER && |bs| <= ECHO_BUFFER - offset
    ensures Receive(p, buffer, offset, Data(bs))
            == Stored(Store(buffer, if p == AtStart then 0 else offset, bs), offset + |bs|)
  {
    assert bs[..|bs|] == bs;
  }

  /** Storing after a prefix into zeros extends the prefix */
  lemma StoreAfterPrefix(prefix: seq<byte>, bs: seq<byte>)
    requires |prefix| + |bs| <= ECHO_BUFFER
    ensures Store(prefix + Zeros(ECHO_BUFFER - |prefix|), |prefix|, bs)
            == prefix + bs + Zeros(ECHO_BUFFER - |prefix| - |bs|)
  {
    var buffer := prefix + Zeros(ECHO_BUFFER - |prefix|);
    assert buffer[..|prefix|] == prefix;
    assert buffer[|prefix| + |bs|..] == Zeros(ECHO_BUFFER - |prefix| - |bs|);
  }

  /** The corrected loop's receive after `prefix` appends the chunk to it */
  lemma AtOffsetStores(prefix: seq<byte>, bs: seq<byte>)
    requires |prefix| < ECHO_BUFFER && |prefix| + |bs| <= ECHO_BUFFER
    ensures Receive(AtOffset, prefix + Zeros(ECHO_BUFFER - |prefix|), |prefix|, Data(bs))
            == Stored(prefix + bs + Zeros(ECHO_BUFFER - |prefix + bs|), |prefix + bs|)
  {
    StoreAfterPrefix(prefix, bs);
    ReceiveData(AtOffset, prefix + Zeros(ECHO_BUFFER - |prefix|), |prefix|, bs);
  }

  /** The corrected loop's step over a chunk after which the last byte stored
      is not 0: it goes on with the chunk appended to the prefix */
  lemma AtOffsetSteps(prefix: seq<byte>, incoming: seq<Incoming>)
    requires |incoming| > 0 && incoming[0].Data?
    requires |prefix| < ECHO_BUFFER && |prefix + incoming[0].bytes| <= ECHO_BUFFER
    requires var prefix' := prefix + incoming[0].bytes; |prefix'| == 0 || prefix'[|prefix'| - 1] != 0
    ensures var prefix' := prefix + incoming[0].bytes;
            Gather(AtOffset, prefix + Zeros(ECHO_BUFFER - |prefix|), |prefix|, incoming)
            == Gather(AtOffset, prefix' + Zeros(ECHO_BUFFER - |prefix'|), |prefix'|, incoming[1..])
  {
    var bs := incoming[0].bytes;
    var prefix' := prefix + bs;
    var buffer := prefix + Zeros(ECHO_BUFFER - |prefix|);
    var buffer' := prefix' + Zeros(ECHO_BUFFER - |prefix'|);
    AtOffsetStores(prefix, bs);
    assert Receive(AtOffset, buffer, |prefix|, incoming[0]) == Stored(buffer', |prefix'|);
    assert !Ends(buffer', |prefix'|);
  }

  /** Moving the first chunk into the prefix keeps the whole */
  lemma FlattenCons(prefix: seq<byte>, incoming: seq<Incoming>)
    requires AllData(incoming) && |incoming| > 0
    ensures (prefix + incoming[0].bytes) + Flatten(incoming[1..]) == prefix + Flatten(incoming)
  {
    assert Flatten(incoming) == incoming[0].bytes + Flatten(incoming[1..]);
  }

  /** One step of the corrected loop, in the form the induction below uses */
  lemma AtOffsetAdvances(prefix: seq<byte>, incoming: seq<Incoming>, whole: seq<byte>) returns (prefix': seq<byte>)
    requires Terminated(incoming) && |incoming| > 1
    requires whole == prefix + Flatten(incoming) && |whole| <= ECHO_BUFFER
    requires |prefix| == 0 || prefix[|prefix| - 1] != 0
    ensures prefix' == prefix + incoming[0].bytes
    ensures Terminated(incoming[1..])
    ensures whole == prefix' + Flatten(incoming[1..])
    ensures |prefix| < ECHO_BUFFER && |prefix'| <= ECHO_BUFFER
    ensures |prefix'| == 0 || prefix'[|prefix'| - 1] != 0
  {
    var bs := incoming[0].bytes;
    prefix' := prefix + bs;
    TerminatedRest(incoming);
    FirstChunkOpen(incoming);
    OpenAppend(prefix, bs);
    FlattenCons(prefix, incoming);
    FlattenHasLast(incoming);
  }

  /** Before the last chunk of a terminated message, no chunk ends in 0 */
  lemma FirstChunkOpen(incoming: seq<Incoming>)
    requires Terminated(incoming) && |incoming| > 1
    ensures incoming[0].Data?
    ensures var bs := incoming[0].bytes; |bs| == 0 || bs[|bs| - 1] != 0
  {
    assert 0 < |incoming| - 1;
  }

  /** Appending a chunk that does not end in 0 keeps the last byte nonzero */
  lemma OpenAppend(prefix: seq<byte>, bs: seq<byte>)
    requires |prefix| == 0 || prefix[|prefix| - 1] != 0
    requires |bs| == 0 || bs[|bs| - 1] != 0
    ensures var s := prefix + bs; |s| == 0 || s[|s| - 1] != 0
  {
    if |bs| == 0 {
      assert prefix + bs == prefix;
    } else {
      assert (prefix + bs)[|prefix + bs| - 1] == bs[|bs| - 1];
    }
  }

  /** The corrected loop's step over the last chunk: it stops there */
  lemma AtOffsetFinishes(prefix: seq<byte>, incoming: seq<Incoming>)
    requires Terminated(incoming) && |incoming| == 1
    requires |prefix| + |Flatten(incoming)| <= ECHO_BUFFER
    ensures var whole := prefix + Flatten(incoming);
            Gather(AtOffset, prefix + Zeros(ECHO_BUFFER - |prefix|), |prefix|, incoming)
            == Complete(whole + Zeros(ECHO_BUFFER - |whole|), |whole|)
  {
    var bs := incoming[0].bytes;
    var prefix' := prefix + bs;
    var buffer := prefix + Zeros(ECHO_BUFFER - |prefix|);
    var buffer' := prefix' + Zeros(ECHO_BUFFER - |prefix'|);
    assert Flatten(incoming) == bs by {
      assert Flatten(incoming[1..]) == [];
    }
    AtOffsetStores(prefix, bs);
    assert Gather(AtOffset, buffer, |prefix|, incoming) == Complete(buffer', |prefix'|) by {
      assert Receive(AtOffset, buffer, |prefix|, incoming[0]) == Stored(buffer', |prefix'|);
      assert buffer'[|prefix'| - 1] == bs[|bs| - 1];
      assert Ends(buffer', |prefix'|);
    }
  }

  /** The corrected loop, from a state that has stored `prefix`, gathers a
      terminated message that fits: it stores the chunks one after the other
      and stops after the last one */
  lemma {:induction false} AtOffsetGathers(prefix: seq<byte>, buffer: seq<byte>, incoming: seq<Incoming>, whole: seq<byte>)
    requires Terminated(incoming)
    requires whole == prefix + Flatten(incoming) && |whole| <= ECHO_BUFFER
    requires buffer == prefix + Zeros(ECHO_BUFFER - |prefix|)
    requires |prefix| == 0 || prefix[|prefix| - 1] != 0
    ensures Gather(AtOffset, buffer, |prefix|, incoming) == Complete(whole + Zeros(ECHO_BUFFER - |whole|), |whole|)
    decreases |incoming|
  {
    if |incoming| == 1 {
      AtOffsetFinishes(prefix, incoming);
    } else {
      var prefix' := AtOffsetAdvances(prefix, incoming, whole);
      AtOffsetSteps(prefix, incoming);
      AtOffsetGathers(prefix', prefix' + Zeros(ECHO_BUFFER - |prefix'|), incoming[1..], whole);
    }
  }

  /** The corrected loop gathers a terminated message that fits, and nothing else */
  lemma CorrectedGathers(incoming: seq<Incoming>)
    requires Terminated(incoming) && |Flatten(incoming)| <= ECHO_BUFFER
    ensures var msg := Flatten(incoming);
            GatherAll(AtOffset, incoming) == Complete(msg + Zeros(ECHO_BUFFER - |msg|), |msg|)
  {
    var msg := Flatten(incoming);
    assert [] + msg == msg;
    assert [] + Zeros(ECHO_BUFFER) == Zeros(ECHO_BUFFER);
    AtOffsetGathers([], Zeros(ECHO_BUFFER), incoming, msg);
  }

  /** The corrected server echoes a terminated message that fits in its buffer
      back byte for byte, once `send` can move it */
  lemma CorrectedEchoRoundTrip(incoming: seq<Incoming>, sendOracle: seq<Raw>)
    requires Terminated(incoming) && |Flatten(incoming)| <= ECHO_BUFFER
    requires |Flatten(incoming)| <= |sendOracle|
    requires forall k :: 0 <= k < |sendOracle| ==> sendOracle[k].Ready? && sendOracle[k].count >= 1
    ensures var e := Transceive(AtOffset, incoming, sendOracle);
            e.Replied? && e.run.end == Returned(true) && e.wire == Flatten(incoming)
  {
    var msg := Flatten(incoming);
    CorrectedGathers(incoming);
    var buffer := msg + Zeros(ECHO_BUFFER - |msg|);
    assert buffer[..|msg|] == msg;
    TransferCompletes(Blocking, |msg|, sendOracle);
  }

  /** As written, a message sent in two chunks comes back with the second
      chunk in place of the first and zeros after it */
  lemma AsWrittenEchoesOverwritten()
    ensures var incoming := [Data([97, 98]), Data([99, 0])];
            && GatherAll(AtStart, incoming) == Complete([99, 0, 0, 0] + Zeros(ECHO_BUFFER - 4), 4)
            && GatherAll(AtOffset, incoming) == Complete([97, 98, 99, 0] + Zeros(ECHO_BUFFER - 4), 4)
  {
    var incoming := [Data([97, 98]), Data([99, 0])];
    var first := [97, 98] + Zeros(ECHO_BUFFER - 2);
    var second := [99, 0, 0, 0] + Zeros(ECHO_BUFFER - 4);
    StoreAfterPrefix([], [97, 98]);
    ReceiveData(AtStart, Zeros(ECHO_BUFFER), 0, [97, 98]);
    assert [] + Zeros(ECHO_BUFFER) == Zeros(ECHO_BUFFER);
    assert !Ends(first, 2);
    assert Store(first, 0, [99, 0]) == second;
    ReceiveData(AtStart, first, 2, [99, 0]);
    assert Ends(second, 4);
    assert Gather(AtStart, first, 2, incoming[1..]) == Complete(second, 4);
    assert Flatten(incoming) == [97, 98, 99, 0] by {
      assert Flatten(incoming[1..][1..]) == [];
    }
    CorrectedGathers(incoming);
  }

  /** As written, a second chunk ends the loop before any 0 arrives: its last
      position still holds a byte of the zeroed buffer */
  lemma AsWrittenStopsEarly()
    ensures var incoming := [Data([97, 98]), Data([99, 100]), Data([0])];
            GatherAll(AtStart, incoming) == Complete([99, 100, 0, 0] + Zeros(ECHO_BUFFER - 4), 4)
  {
    var incoming := [Data([97, 98]), Data([99, 100]), Data([0])];
    var first := [97, 98] + Zeros(ECHO_BUFFER - 2);
    var second := [99, 100, 0, 0] + Zeros(ECHO_BUFFER - 4);
    StoreAfterPrefix([], [97, 98]);
    ReceiveData(AtStart, Zeros(ECHO_BUFFER), 0, [97, 98]);
    assert [] + Zeros(ECHO_BUFFER) == Zeros(ECHO_BUFFER);
    assert !Ends(first, 2);
    assert Store(first, 0, [99, 100]) == second;
    ReceiveData(AtStart, first, 2, [99, 100]);
    assert Ends(second, 4);
    assert Gather(AtStart, first, 2, incoming[1..]) == Complete(second, 4);
  }

  lemma StoreNothing(buffer: seq<byte>, at: nat)
    requires at <= |buffer|
    ensures Store(buffer, at, []) == buffer
  {
    assert buffer[..at] + [] + buffer[at..] == buffer;
  }

  /** A receive of 0 bytes (the peer closed) moves nothing, so while no 0 has
      been seen the loop asks again and again: it never leaves */
  lemma {:induction false} ClosedPeerStarves(p: Placement, buffer: seq<byte>, offset: nat, incoming: seq<Incoming>)
    requires |buffer| == ECHO_BUFFER && offset < ECHO_BUFFER
    requires offset == 0 || buffer[offset - 1] != 0
    requires forall k :: 0 <= k < |incoming| ==> incoming[k] == Data([])
    ensures Gather(p, buffer, offset, incoming) == Starved(buffer, offset)
    decreases |incoming|
  {
    if |incoming| > 0 {
      StoreNothing(buffer, if p == AtStart then 0 else offset);
      ReceiveData(p, buffer, offset, []);
      assert !Ends(buffer, offset);
      ClosedPeerStarves(p, buffer, offset, incoming[1..]);
    }
  }

  /** When every receive delivers at least one byte, the loop leaves after at
      most `ECHO_BUFFER - offset` of them, placement notwithstanding */
  lemma {:induction false} ProgressFinishes(p: Placement, buffer: seq<byte>, offset: nat, incoming: seq<Incoming>)
    requires |buffer| == ECHO_BUFFER && offset <= ECHO_BUFFER
    requires ECHO_BUFFER - offset <= |incoming|
    requires forall k :: 0 <= k < |incoming| ==> incoming[k].Data? && |incoming[k].bytes| >= 1
    ensures Gather(p, buffer, offset, incoming).Complete?
    decreases |incoming|
  {
    if offset < ECHO_BUFFER {
      var received := RawResult(RawOf(incoming[0]), ECHO_BUFFER - offset);
      var at := if p == AtStart then 0 else offset;
      var buffer' := Store(buffer, at, incoming[0].bytes[..received]);
      ProgressFinishes(p, buffer', offset + received, incoming[1..]);
    }
  }
}
