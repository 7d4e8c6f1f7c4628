/** The IPv4 listener: a `tcp_socket` bound at construction, then a loop that,
    until the quit flag is seen set, calls `listen`, accepts one peer and hands
    it to `transceive` — in place and closing it afterwards (blocking), or on a
    detached thread (nonblocking).

    One turn of the loop is driven by a `Tick`: the quit flag as loaded and
    what `listen`, `accept` and `transceive` returned. A finite sequence of
    ticks stands for the environment; when it runs out, the real loop would go
    on, and the model halts `OutOfTicks`.
 */
module TcpListener {
  import opened ByteOrder
  import opened Posix
  import opened SocketBase
  import opened TcpSocket
  import opened TcpTransceiver

  /** A bound socket and the backlog it passes to `listen` */
  datatype Listener = Listener(sock: TcpSocket, backlog: int)

  /** The default backlog, `std::numeric_limits<int>::max()` */
  const DefaultBacklog: int := INT_MAX

  /** The constructors: build the `tcp_socket`, then `bind`, which succeeds
      exactly when it returns 0. A failed bind throws from the listener's own
      constructor body, so the fully built base is unwound and its descriptor
      closed. */
  function NewListener(plat: Platform, nonblocking: bool, os: SocketOracle, ctor: Ctor, bindResult: int,
                       backlog: int := DefaultBacklog)
    : (c: Construct<Listener>)
    ensures var base := New(plat, nonblocking, os, ctor);
            && (c.result.Ok? <==> base.result.Ok? && bindResult == 0)
            && (base.result.Err? ==> c.result == Err(base.result.error) && c.events == base.events)
            && (base.result.Ok? ==>
                  var s := base.result.value;
                  && |c.events| > |base.events|
                  && c.events[..|base.events|] == base.events
                  && c.events[|base.events|] == Bind(s.base.fd, s.ep.port, s.ep.addr)
                  && (bindResult != 0 ==>
                        && c.result == Err(BindFailure(s.ep.port, s.ep.addr))
                        && c.events[|base.events| + 1..] == [Close(s.base.fd)])
                  && (bindResult == 0 ==>
                        && c.result == Ok(Listener(s, backlog))
                        && |c.events| == |base.events| + 1))
  {
    var base := New(plat, nonblocking, os, ctor);
    match base.result
    case Err(e) => Construct(Err(e), base.events)
    case Ok(s) =>
      var bound := base.events + [Bind(s.base.fd, s.ep.port, s.ep.addr)];
      if bindResult != 0 then
        assert (bound + [Close(s.base.fd)])[|base.events| + 1..] == [Close(s.base.fd)];
        Construct(Err(BindFailure(s.ep.port, s.ep.addr)), bound + [Close(s.base.fd)])
      else Construct(Ok(Listener(s, backlog)), bound)
  }

  /** No `tcp_socket` constructor that succeeds closes anything */
  lemma {:induction false} SocketNeverCloses(plat: Platform, nonblocking: bool, os: SocketOracle, ctor: Ctor)
    requires New(plat, nonblocking, os, ctor).result.Ok?
    ensures forall fd :: Closes(New(plat, nonblocking, os, ctor).events, fd) == 0
  {
    var events := New(plat, nonblocking, os, ctor).events;
    assert forall k :: 0 <= k < |events| ==> events[k].SocketCall? || events[k].ParseAddr?;
    NoCloseEvents(events);
  }

  /** A failed bind closes the new descriptor exactly once, after binding was
      attempted on it */
  lemma BindFailureClosesOnce(plat: Platform, nonblocking: bool, os: SocketOracle, ctor: Ctor, backlog: int, bindResult: int)
    requires New(plat, nonblocking, os, ctor).result.Ok? && bindResult != 0
    ensures var fd := New(plat, nonblocking, os, ctor).result.value.base.fd;
            var c := NewListener(plat, nonblocking, os, ctor, bindResult, backlog);
            && c.result.Err? && c.result.error.BindFailure?
            && Closes(c.events, fd) == 1
  {
    var base := New(plat, nonblocking, os, ctor);
    var s := base.result.value;
    var c := NewListener(plat, nonblocking, os, ctor, bindResult, backlog);
    SocketNeverCloses(plat, nonblocking, os, ctor);
    assert c.events == base.events + [Bind(s.base.fd, s.ep.port, s.ep.addr), Close(s.base.fd)];
    ClosesAppend(base.events, [Bind(s.base.fd, s.ep.port, s.ep.addr), Close(s.base.fd)], s.base.fd);
    assert [Bind(s.base.fd, s.ep.port, s.ep.addr), Close(s.base.fd)][1..] == [Close(s.base.fd)];
    assert [Close(s.base.fd)][1..] == [];
  }

  /** A listener that was built and later destroyed closes its descriptor exactly once */
  lemma ListenerLifetimeClosesOnce(plat: Platform, nonblocking: bool, os: SocketOracle, ctor: Ctor, backlog: int)
    requires New(plat, nonblocking, os, ctor).result.Ok?
    ensures var c := NewListener(plat, nonblocking, os, ctor, 0, backlog);
            && c.result.Ok?
            && Closes(c.events + Destroy(c.result.value.sock.base), c.result.value.sock.base.fd) == 1
  {
    var base := New(plat, nonblocking, os, ctor);
    var s := base.result.value;
    var c := NewListener(plat, nonblocking, os, ctor, 0, backlog);
    SocketNeverCloses(plat, nonblocking, os, ctor);
    assert c.events + Destroy(s.base) == base.events + [Bind(s.base.fd, s.ep.port, s.ep.addr), Close(s.base.fd)];
    ClosesAppend(base.events, [Bind(s.base.fd, s.ep.port, s.ep.addr), Close(s.base.fd)], s.base.fd);
    assert [Bind(s.base.fd, s.ep.port, s.ep.addr), Close(s.base.fd)][1..] == [Close(s.base.fd)];
    assert [Close(s.base.fd)][1..] == [];
  }

  /** What `accept` returned: -1 with an errno class, or a peer descriptor and
      the peer's `sockaddr_in` fields, in network order */
  datatype AcceptOutcome = AcceptFailed(errno: Errno) | Accepted(fd: nat, port: u16, addr: u32)

  /** One turn of the environment: the quit flag as loaded, what `listen`
      returned, what `accept` returned, and what `transceive` returned */
  datatype Tick = Tick(quit: bool, listenResult: int, accept: AcceptOutcome, handled: bool)

  datatype Halt = Quit | Threw(error: SocketError) | OutOfTicks

  /** A turn that loops again, or one that leaves the loop */
  datatype Turn = Continue(events: seq<Event>) | Stop(halt: Halt, events: seq<Event>)

  /** A failed `accept` on which the loop goes round again instead of throwing.
      The nonblocking loop as written retries on every error except a
      would-block; the corrected one retries on a would-block only. */
  predicate AcceptRetries(mode: Mode, e: Errno)
  {
    match mode
    case Blocking => false
    case Nonblocking => e != WouldBlock
    case NonblockingRetry => e == WouldBlock
  }

  /** The transceiver the loop builds on an accepted descriptor: the adopting
      binary constructor, given the peer's port and address as `accept` stored
      them */
  function PeerSocket(plat: Platform, peer: nat, port: u16, addr: u32): (s: TcpSocket)
    ensures s.base.fd == peer
    ensures Ntohs(plat.littleEndian, s.ep.port) == port && Ntohl(plat.littleEndian, s.ep.addr) == addr
  {
    AdoptBinary(plat, false, peer, port, addr).result.value
  }

  /** One turn of `loop` */
  function Round(plat: Platform, mode: Mode, l: Listener, t: Tick): Turn
  {
    var fd := l.sock.base.fd;
    var ep := l.sock.ep;
    if t.quit then Stop(Quit, [])
    else if t.listenResult != 0 then Stop(Threw(ListenFailure(ep.port, ep.addr)), [ListenCall(fd, l.backlog)])
    else
      var called := [ListenCall(fd, l.backlog), AcceptCall(fd)];
      match t.accept
      case AcceptFailed(e) =>
        if AcceptRetries(mode, e) then Continue(called)
        else Stop(Threw(AcceptFailure(ep.port, ep.addr)), called)
      case Accepted(peer, port, addr) =>
        var s := PeerSocket(plat, peer, port, addr);
        if mode == Blocking then
          var served := called + [Handle(peer, s.ep.port, s.ep.addr), Close(peer)];
          if t.handled then Continue(served) else Stop(Threw(TransceiveFailure), served)
        else
          var dispatched := called + [Dispatch(peer, s.ep.port, s.ep.addr)];
          Continue(dispatched)
  }

  /** What one turn does, case by case */
  lemma RoundCases(plat: Platform, mode: Mode, l: Listener, t: Tick)
    ensures var turn := Round(plat, mode, l, t);
            && (t.quit <==> turn == Stop(Quit, []))
            && (!t.quit ==> |turn.events| >= 1 && turn.events[0] == ListenCall(l.sock.base.fd, l.backlog))
            && (!t.quit && t.listenResult != 0 ==>
                 turn == Stop(Threw(ListenFailure(l.sock.ep.port, l.sock.ep.addr)), [ListenCall(l.sock.base.fd, l.backlog)]))
            && (!t.quit && t.listenResult == 0 ==> |turn.events| >= 2 && turn.events[1] == AcceptCall(l.sock.base.fd))
            && (!t.quit && t.listenResult == 0 && t.accept.AcceptFailed? ==>
                 && |turn.events| == 2
                 && (turn.Continue? <==> AcceptRetries(mode, t.accept.errno))
                 && (turn.Stop? ==> turn.halt == Threw(AcceptFailure(l.sock.ep.port, l.sock.ep.addr))))
            && (!t.quit && t.listenResult == 0 && t.accept.Accepted? ==>
                 var s := PeerSocket(plat, t.accept.fd, t.accept.port, t.accept.addr);
                 if mode == Blocking then
                   && turn.events[2..] == [Handle(t.accept.fd, s.ep.port, s.ep.addr), Close(t.accept.fd)]
                   && (turn.Continue? <==> t.handled)
                   && (turn.Stop? ==> turn.halt == Threw(TransceiveFailure))
                 else
                   && turn.events[2..] == [Dispatch(t.accept.fd, s.ep.port, s.ep.addr)]
                   && turn.Continue?)
  {
    if !t.quit && t.listenResult == 0 && t.accept.Accepted? {
      var s := PeerSocket(plat, t.accept.fd, t.accept.port, t.accept.addr);
      var called := [ListenCall(l.sock.base.fd, l.backlog), AcceptCall(l.sock.base.fd)];
      assert (called + [Handle(t.accept.fd, s.ep.port, s.ep.addr), Close(t.accept.fd)])[2..]
             == [Handle(t.accept.fd, s.ep.port, s.ep.addr), Close(t.accept.fd)];
      assert (called + [Dispatch(t.accept.fd, s.ep.port, s.ep.addr)])[2..]
             == [Dispatch(t.accept.fd, s.ep.port, s.ep.addr)];
    }
  }

  /** A listener built without a backlog argument listens with `INT_MAX` */
  lemma DefaultBacklogListens(plat: Platform, nonblocking: bool, os: SocketOracle, ctor: Ctor, mode: Mode, t: Tick)
    requires NewListener(plat, nonblocking, os, ctor, 0).result.Ok? && !t.quit
    ensures var l := NewListener(plat, nonblocking, os, ctor, 0).result.value;
            && l.backlog == INT_MAX
            && Round(plat, mode, l, t).events[0] == ListenCall(l.sock.base.fd, INT_MAX)
  {
    var l := NewListener(plat, nonblocking, os, ctor, 0).result.value;
    RoundCases(plat, mode, l, t);
  }

  /** How the loop left off, the calls it made, and the turns it completed */
  datatype Served = Served(halt: Halt, events: seq<Event>, rounds: nat)

  /** `loop(flag_quit)`: turns until one leaves the loop */
  function Serve(plat: Platform, mode: Mode, l: Listener, ticks: seq<Tick>): Served
    decreases |ticks|
  {
    if |ticks| == 0 then Served(OutOfTicks, [], 0)
    else
      match Round(plat, mode, l, ticks[0])
      case Stop(h, es) => Served(h, es, 0)
      case Continue(es) =>
        var rest := Serve(plat, mode, l, ticks[1..]);
        Served(rest.halt, es + rest.events, rest.rounds + 1)
  }

  /** The loop completes `rounds` turns, each of which goes round again, and
      leaves on the next one, or runs out of turns */
  lemma {:induction false} ServeStops(plat: Platform, mode: Mode, l: Listener, ticks: seq<Tick>)
    ensures var s := Serve(plat, mode, l, ticks);
            && s.rounds <= |ticks|
            && (s.halt == OutOfTicks <==> s.rounds == |ticks|)
            && (forall j :: 0 <= j < s.rounds ==> Round(plat, mode, l, ticks[j]).Continue?)
            && (s.rounds < |ticks| ==> Round(plat, mode, l, ticks[s.rounds]) == Stop(s.halt, Round(plat, mode, l, ticks[s.rounds]).events))
            && (s.halt == Quit <==> s.rounds < |ticks| && ticks[s.rounds].quit)
    decreases |ticks|
  {
    if |ticks| > 0 && Round(plat, mode, l, ticks[0]).Continue? {
      var rest := Serve(plat, mode, l, ticks[1..]);
      ServeStops(plat, mode, l, ticks[1..]);
      assert forall j :: 0 < j <= rest.rounds ==> ticks[j] == ticks[1..][j - 1];
    }
  }

  /** The loop from turn `i` on: turn `i`, then the loop from turn `i + 1` on */
  lemma ServeFrom(plat: Platform, mode: Mode, l: Listener, ticks: seq<Tick>, i: nat)
    requires i < |ticks|
    ensures var rest := Serve(plat, mode, l, ticks[i..]);
            match Round(plat, mode, l, ticks[i])
            case Stop(h, es) => rest == Served(h, es, 0)
            case Continue(es) =>
              var next := Serve(plat, mode, l, ticks[i + 1..]);
              rest == Served(next.halt, es + next.events, next.rounds + 1)
  {
    assert ticks[i..][1..] == ticks[i + 1..];
  }

  /** The state of `loop` before turn `i`: the calls made so far, and the
      loop from turn `i` on completes `target`, the whole loop */
  predicate Serving(plat: Platform, mode: Mode, l: Listener, ticks: seq<Tick>, i: nat, events: seq<Event>, target: Served)
  {
    && i <= |ticks|
    && var rest := Serve(plat, mode, l, ticks[i..]);
       target == Served(rest.halt, events + rest.events, i + rest.rounds)
  }

  /** One turn of `loop`, in terms of `Serving` */
  lemma ServeStep(plat: Platform, mode: Mode, l: Listener, ticks: seq<Tick>, i: nat, events: seq<Event>, target: Served)
    requires Serving(plat, mode, l, ticks, i, events, target) && i < |ticks|
    ensures match Round(plat, mode, l, ticks[i])
            case Stop(h, es) => target == Served(h, events + es, i)
            case Continue(es) => Serving(plat, mode, l, ticks, i + 1, events + es, target)
  {
    ServeFrom(plat, mode, l, ticks, i);
    match Round(plat, mode, l, ticks[i])
    case Stop(_, _) =>
    case Continue(es) =>
      var next := Serve(plat, mode, l, ticks[i + 1..]);
      assert events + (es + next.events) == (events + es) + next.events;
  }

  /** `loop(flag_quit)` as the `while` loop it is */
  method Loop(plat: Platform, mode: Mode, l: Listener, ticks: seq<Tick>) returns (s: Served)
    ensures s == Serve(plat, mode, l, ticks)
  {
    var i := 0;
    var events: seq<Event> := [];
    ghost var target := Serve(plat, mode, l, ticks);
    assert ticks[0..] == ticks && [] + target.events == target.events;
    while i < |ticks|
      invariant Serving(plat, mode, l, ticks, i, events, target)
    {
      ServeStep(plat, mode, l, ticks, i, events, target);
      var turn := Round(plat, mode, l, ticks[i]);
      match turn
      case Stop(h, es) =>
        return Served(h, events + es, i);
      case Continue(es) =>
        events := events + es;
        i := i + 1;
    }
    assert ticks[i..] == [] && events + [] == events;
    return Served(OutOfTicks, events, i);
  }

  /** A turn on which nothing fails: the flag is clear, `listen` succeeds, a
      peer is accepted and `transceive` succeeds */
  predicate Good(t: Tick)
  {
    !t.quit && t.listenResult == 0 && t.accept.Accepted? && t.handled
  }

  /** After any number of good turns, the loop stops at the first turn that
      finds the flag set, with no further call */
  lemma {:induction false} QuitAfterGoodRounds(plat: Platform, mode: Mode, l: Listener, ticks: seq<Tick>, i: nat)
    requires i < |ticks| && ticks[i].quit
    requires forall j :: 0 <= j < i ==> Good(ticks[j])
    ensures Serve(plat, mode, l, ticks).halt == Quit
    ensures Serve(plat, mode, l, ticks).rounds == i
    ensures Serve(plat, mode, l, ticks).events == Serve(plat, mode, l, ticks[..i]).events
  {
    if i > 0 {
      assert Good(ticks[0]);
      assert ticks[1..][..i - 1] == ticks[..i][1..];
      QuitAfterGoodRounds(plat, mode, l, ticks[1..], i - 1);
    }
  }

  /** Every `Handle` in a trace is immediately followed by the close of that peer */
  predicate ClosedAfterHandle(events: seq<Event>)
  {
    forall k :: 0 <= k < |events| && events[k].Handle? ==> k + 1 < |events| && events[k + 1] == Close(events[k].peerFd)
  }

  lemma ClosedAfterHandleAppend(a: seq<Event>, b: seq<Event>)
    requires ClosedAfterHandle(a) && ClosedAfterHandle(b)
    ensures ClosedAfterHandle(a + b)
  {
    forall k | 0 <= k < |a + b| && (a + b)[k].Handle?
      ensures k + 1 < |a + b| && (a + b)[k + 1] == Close((a + b)[k].peerFd)
    {
      if k >= |a| {
        assert (a + b)[k] == b[k - |a|];
      }
    }
  }

  /** The blocking loop closes each peer it handled right after handling it,
      whether `transceive` succeeded or the failure exception unwinds the
      transceiver */
  lemma {:induction false} BlockingClosesEachPeer(plat: Platform, l: Listener, ticks: seq<Tick>)
    ensures ClosedAfterHandle(Serve(plat, Blocking, l, ticks).events)
    decreases |ticks|
  {
    if |ticks| > 0 {
      var turn := Round(plat, Blocking, l, ticks[0]);
      assert ClosedAfterHandle(turn.events);
      if turn.Continue? {
        BlockingClosesEachPeer(plat, l, ticks[1..]);
        ClosedAfterHandleAppend(turn.events, Serve(plat, Blocking, l, ticks[1..]).events);
      }
    }
  }

  /** The nonblocking loops' own thread never closes anything: each peer
      descriptor goes to a detached thread, whose `tcp_transceiver` closes it
      when the thread's lambda returns (the `Dispatch` event stands for that
      thread, close included), and the listener's own descriptor stays open */
  lemma {:induction false} NonblockingNeverCloses(plat: Platform, mode: Mode, l: Listener, ticks: seq<Tick>)
    requires mode != Blocking
    ensures forall fd :: Closes(Serve(plat, mode, l, ticks).events, fd) == 0
    decreases |ticks|
  {
    if |ticks| > 0 {
      var turn := Round(plat, mode, l, ticks[0]);
      assert forall k :: 0 <= k < |turn.events| ==> !turn.events[k].Close?;
      NoCloseEvents(turn.events);
      if turn.Continue? {
        NonblockingNeverCloses(plat, mode, l, ticks[1..]);
        forall fd {
          ClosesAppend(turn.events, Serve(plat, mode, l, ticks[1..]).events, fd);
        }
      }
    }
  }

  /** Ticks that differ at most in what `transceive` returned */
  predicate SameButHandled(a: seq<Tick>, b: seq<Tick>)
  {
    && |a| == |b|
    && forall j :: 0 <= j < |a| ==>
         a[j].quit == b[j].quit && a[j].listenResult == b[j].listenResult && a[j].accept == b[j].accept
  }

  /** The nonblocking loops never see what `transceive` returns: the thread's
      result does not reach the loop */
  lemma {:induction false} NonblockingIgnoresHandler(plat: Platform, mode: Mode, l: Listener, a: seq<Tick>, b: seq<Tick>)
    requires mode != Blocking && SameButHandled(a, b)
    ensures Serve(plat, mode, l, a) == Serve(plat, mode, l, b)
    decreases |a|
  {
    if |a| > 0 {
      assert Round(plat, mode, l, a[0]) == Round(plat, mode, l, b[0]);
      NonblockingIgnoresHandler(plat, mode, l, a[1..], b[1..]);
    }
  }

  /** The peer's port and address reach the transceiver already in network
      order, and its constructor converts them once more: what it stores is
      the `ntohs`/`ntohl` of the values `accept` produced, so converting the
      stored values back yields the network-order ones again */
  lemma PeerEndpointReconverted(plat: Platform, l: Listener, t: Tick)
    requires !t.quit && t.listenResult == 0 && t.accept.Accepted?
    ensures var turn := Round(plat, Blocking, l, t);
            && turn.events[2].Handle?
            && turn.events[2].port == Htons(plat.littleEndian, t.accept.port)
            && turn.events[2].addr == Htonl(plat.littleEndian, t.accept.addr)
            && Ntohs(plat.littleEndian, turn.events[2].port) == t.accept.port
  {
    var turn := Round(plat, Blocking, l, t);
    assert turn.events[2] == turn.events[2..][0];
  }

  /** As written, the nonblocking loop throws on a would-block from `accept`,
      the answer a nonblocking `accept` gives whenever no peer is waiting ... */
  lemma NonblockingAcceptWouldBlockThrows(plat: Platform, l: Listener, handled: bool)
    ensures var t := Tick(false, 0, AcceptFailed(WouldBlock), handled);
            Serve(plat, Nonblocking, l, [t]) == Served(Threw(AcceptFailure(l.sock.ep.port, l.sock.ep.addr)),
                                                      [ListenCall(l.sock.base.fd, l.backlog), AcceptCall(l.sock.base.fd)], 0)
  {
  }

  /** ... and goes round again on every real error */
  lemma {:induction false} NonblockingAcceptErrorRetries(plat: Platform, l: Listener, ticks: seq<Tick>)
    requires forall j :: 0 <= j < |ticks| ==> ticks[j] == Tick(false, 0, AcceptFailed(OtherError), ticks[j].handled)
    ensures Serve(plat, Nonblocking, l, ticks).halt == OutOfTicks
    decreases |ticks|
  {
    if |ticks| > 0 {
      assert Round(plat, Nonblocking, l, ticks[0]).Continue?;
      NonblockingAcceptErrorRetries(plat, l, ticks[1..]);
    }
  }

  /** A turn the corrected nonblocking loop survives: the flag clear, `listen`
      succeeding, and either a peer or a would-block from `accept` */
  predicate Idle(t: Tick)
  {
    !t.quit && t.listenResult == 0 && (t.accept.Accepted? || t.accept.errno == WouldBlock)
  }

  /** The corrected nonblocking loop outlives would-blocks, and throws on a
      real `accept` error */
  lemma {:induction false} RetryOutlivesWouldBlock(plat: Platform, l: Listener, ticks: seq<Tick>)
    requires forall j :: 0 <= j < |ticks| ==> Idle(ticks[j])
    ensures Serve(plat, NonblockingRetry, l, ticks).halt == OutOfTicks
    ensures Serve(plat, NonblockingRetry, l, ticks).rounds == |ticks|
    decreases |ticks|
  {
    if |ticks| > 0 {
      assert Idle(ticks[0]);
      assert Round(plat, NonblockingRetry, l, ticks[0]).Continue?;
      RetryOutlivesWouldBlock(plat, l, ticks[1..]);
    }
  }

  lemma RetryStopsOnError(plat: Platform, l: Listener, handled: bool)
    ensures var t := Tick(false, 0, AcceptFailed(OtherError), handled);
            Serve(plat, NonblockingRetry, l, [t]).halt == Threw(AcceptFailure(l.sock.ep.port, l.sock.ep.addr))
  {
  }
}
