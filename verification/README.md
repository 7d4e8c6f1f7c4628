# Verified model of the OFCT networking socket layer

This project is a Dafny model of the IPv4 TCP socket wrappers of the OFCT
networking library and of the echo server's `transceive` handler. The modelled
pieces are:

- `socket_base`: the enum-to-constant mappings, the two constructors, `set_nonblocking`, `is_valid` and the destructor.
- `tcp_socket`: the IPv4 endpoint constructors.
- `tcp_transceiver`: the chunked `send`/`recv` framing loops, blocking and nonblocking, with their string/vector overloads.
- `tcp_listener`: the bind-checking constructors and the accept `loop`, blocking and nonblocking.
- `echo_server::transceive`: receive until a 0 byte or a full buffer, then echo.

Every syscall is an oracle: a value supplied to the model that stands for what
the kernel returned. The calls the library makes are recorded as a trace of
`Event`s, so "created before parsed" and "closed exactly once" are statements
about traces. C++ construction is modelled with its unwinding rules:

- A throw from `socket_base`'s own constructor body runs no destructor, so the descriptor leaks.
- A throw from a derived constructor's body destroys the fully built base, which closes the descriptor.

The `size_t` offset of the framing loops is modelled modulo 2^64. Each loop is
a recursive reference function (`Frame`, `Serve`, `Gather`), and a method
with a `while` loop is proved equal to it.

Files and modules:

- `byte_order.dfy` (`ByteOrder`): `htons`/`htonl` as byte swaps.
- `posix.dfy` (`Posix`): `size_t`, platform constants, errors, events.
- `socket_base.dfy` (`SocketBase`)
- `tcp_socket.dfy` (`TcpSocket`)
- `tcp_transceiver.dfy` (`TcpTransceiver`)
- `tcp_listener.dfy` (`TcpListener`)
- `echo_server.dfy` (`EchoServer`)

The transceiver and listener models carry a `Mode`:

- `Blocking` and `Nonblocking` are the two specialisations as written.
- `NonblockingRetry` is the nonblocking code as it is evidently meant to behave (see Findings).

The echo model likewise has a placement: `AtStart` is the code as written and `AtOffset` the corrected one.

## Model

| member | source | states |
|---|---|---|
| ByteOrder.SwapInvolution | include/socket/tcp_socket.hpp:60-61 | reversing the bytes of an n-byte value twice gives the value back |
| ByteOrder.Swap16Bytes | include/socket/tcp_socket.hpp:60 | the 16-bit swap exchanges the low and the high byte |
| ByteOrder.Swap32Bytes | include/socket/tcp_socket.hpp:61 | the 32-bit swap moves byte k to byte 3 - k |
| ByteOrder.Swap32Value | include/socket/tcp_socket.hpp:61 | the 32-bit swap has the closed form `b0 * 2^24 + b1 * 2^16 + b2 * 2^8 + b3` for the bytes b0 (lowest) to b3 of x |
| ByteOrder.HtonsRoundTrip | include/socket/tcp_socket.hpp:60 | `ntohs(htons(x)) == x` on either host byte order |
| ByteOrder.HtonlRoundTrip | include/socket/tcp_socket.hpp:61 | `ntohl(htonl(x)) == x` on either host byte order |
| Posix.AddSize | include/socket/tcp_transceiver.hpp:133 | the `offset += sent` (and the same `+=` at lines 53 and 157) as `size_t` addition: exact when the sum is in range; adding the -1 of a would-block to 0 wraps to 2^64 - 1 |
| SocketBase.SockDomainToAf | include/socket/socket_base.hpp:85-113 | an enumerator without a case maps to -1; each enumerator maps to the platform value of its namesake `AF_*` constant |
| SocketBase.DomainSwitchIsBijection | include/socket/socket_base.hpp:85-112 | the switch has a case for exactly the 24 handled enumerators, and enumerator d yields `AF_*` constant f iff d is f's namesake |
| SocketBase.DomainMinusOneIffUnhandled | include/socket/socket_base.hpp:85-113 | on a platform with non-negative constants, the result is -1 iff the enumerator has no case (NONE, NETROM, BRIDGE, ROSE, SMC, ...) |
| SocketBase.SockTypeToSock | include/socket/socket_base.hpp:151-161 | an unhandled type maps to -1; each of the six handled types maps to its namesake `SOCK_*` value |
| SocketBase.TypeSwitchIsBijection | include/socket/socket_base.hpp:151-161 | the type switch has a case for exactly STREAM, DGRAM, SEQPACKET, RAW, RDM and PACKET, and maps them one-to-one onto the `SOCK_*` names |
| SocketBase.TypeMinusOneIffUnhandled | include/socket/socket_base.hpp:151-161 | on a platform with non-negative constants, the result is -1 iff the type is NONE or a NONBLOCK_/CLOEXEC_ variant |
| SocketBase.SockProtocolToProtocol | include/socket/socket_base.hpp:167-172 | DEFAULT maps to 0 and NONE maps to -1, both directions |
| SocketBase.SetNonblocking | include/socket/socket_base.hpp:226-235 | reads the flags, then writes them back with the `O_NONBLOCK` bits set and every other bit kept; fails iff `F_SETFL` returned -1 |
| SocketBase.UncheckedGetFlags | include/socket/socket_base.hpp:227-228 | a failed `F_GETFL` (-1) is or-ed in unchecked, so every flag bit is written as set |
| SocketBase.NewSocketBase | include/socket/socket_base.hpp:177-195 | `::socket` is called first with the three mapped constants; -1 throws generation-failed with no further call; construction succeeds iff the descriptor is valid and, when nonblocking, `F_SETFL` succeeds; setup-failed is thrown iff nonblocking and `F_SETFL` fails; the nonblocking path's calls are exactly `set_nonblocking`'s `F_GETFL` then `F_SETFL`; when blocking, the trace is the `::socket` call alone; nothing is closed |
| SocketBase.AdoptSocketBase | include/socket/socket_base.hpp:197-212 | an adopted -1 throws generation-failed before any setup; construction succeeds iff the descriptor is valid and, when nonblocking, `F_SETFL` succeeds; setup-failed is thrown iff nonblocking and `F_SETFL` fails; the nonblocking path makes exactly `set_nonblocking`'s two calls, the blocking path none; the adopted descriptor is kept and valid |
| SocketBase.Destroy | include/socket/socket_base.hpp:214-219 | needs a valid socket (`is_valid`, `sockfd != -1`, the destructor's `assert`), and closes its descriptor exactly once and no other |
| SocketBase.LifetimeClosesOnce | include/socket/socket_base.hpp:177-217 | construction followed by destruction closes the descriptor exactly once |
| SocketBase.NonblockingFailureLeaks | include/socket/socket_base.hpp:187-194 | when nonblocking setup fails, the created descriptor is never closed |
| TcpSocket.NewDefault | include/socket/tcp_socket.hpp:52-55 | one `::socket` call for INET/STREAM/0; on success the endpoint is all zero, padding included |
| TcpSocket.NewBinary | include/socket/tcp_socket.hpp:57-63 | family `AF_INET`, zero padding, and the stored port and address convert back (ntohs/ntohl) to the arguments |
| TcpSocket.AdoptBinary | include/socket/tcp_socket.hpp:65-71 | as for NewBinary, on the adopted descriptor, and with no call made |
| TcpSocket.NewText | include/socket/tcp_socket.hpp:73-86 | succeeds iff the descriptor is valid and `inet_addr` did not return `INADDR_NONE`; the socket is created, then the text is parsed; `INADDR_NONE` throws carrying the sentinel and closes the new descriptor; on success the trace is exactly the `::socket` call and the parse, the parsed address is stored unconverted and only the port is converted |
| TcpSocket.AdoptText | include/socket/tcp_socket.hpp:88-101 | succeeds iff the adopted descriptor is valid and `inet_addr` did not return `INADDR_NONE`; otherwise as for NewText, on the adopted descriptor and with no `::socket` call |
| TcpSocket.NeverNonblockingSetup | include/socket/tcp_socket.hpp:46 | no constructor calls `fcntl`, and the `nonblocking` argument changes nothing |
| TcpSocket.TextMatchesBinary | include/socket/tcp_socket.hpp:82-85 | the text path stores what the binary path stores for `ntohl` of the parsed address: `inet_addr` already yields network order |
| TcpSocket.InvalidTextClosesOnce | include/socket/tcp_socket.hpp:73-81 | an unparsable address is detected after the socket was created, and the descriptor is closed exactly once |
| TcpTransceiver.ChunkSize | include/socket/tcp_transceiver.hpp:45 | a raw request is positive, at most 1024 bytes and at most the bytes remaining, and equal to one of the two |
| TcpTransceiver.RawResult | include/socket/tcp_transceiver.hpp:34-40 | a raw call returns -1 exactly when the kernel fails it, and otherwise a count within the request |
| TcpTransceiver.TransferRuns | include/socket/tcp_transceiver.hpp:42-56 | each request is `min(len - offset, 1024)` and positive; calls start at 0 and chain by the raw result; false iff the last call failed fatally; true only at or past `len`; `len == 0` makes no call and returns true |
| TcpTransceiver.FrameEnd | include/socket/tcp_transceiver.hpp:44-54 | from any consistent loop state, how the loop ends: false on a fatal answer, true only once the offset reached `len` |
| TcpTransceiver.Send | include/socket/tcp_transceiver.hpp:42-56 | the `while` loop computes the reference run and the bytes it put on the wire |
| TcpTransceiver.SentFollows | include/socket/tcp_transceiver.hpp:44-54 | along a consistent run of the blocking or retrying loop, the wire holds exactly the buffer's first `offset` bytes |
| TcpTransceiver.SendDelivers | include/socket/tcp_transceiver.hpp:42-56 | the blocking or retrying `send` puts `buf[..offset]` on the wire in order, and `buf[..len]` when it returns true |
| TcpTransceiver.Recv | include/socket/tcp_transceiver.hpp:66-80 | the `while` loop computes the reference run and the buffer each raw receive wrote at its offset |
| TcpTransceiver.FilledFollows | include/socket/tcp_transceiver.hpp:68-78 | along a consistent run, the buffer's first `offset` bytes are the delivered bytes in order, and the rest is untouched |
| TcpTransceiver.RecvDelivers | include/socket/tcp_transceiver.hpp:66-80 | the blocking or retrying `recv` leaves the delivered stream in `buf[..offset]` and the rest of the buffer untouched, with `offset == len` when it returns true |
| TcpTransceiver.TransferCompletes | include/socket/tcp_transceiver.hpp:43-55 | when every raw call moves at least one byte and `len` answers are available, the loop returns true with offset exactly `len` |
| TcpTransceiver.ZeroResultNoProgress | include/socket/tcp_transceiver.hpp:53 | a raw result of 0 leaves the next call at the same offset |
| TcpTransceiver.WouldBlockStepsBack | include/socket/tcp_transceiver.hpp:127-133 | in the nonblocking loop as written, a would-block followed by another call moves the offset back one byte |
| TcpTransceiver.WouldBlockAtStartReturnsTrue | include/socket/tcp_transceiver.hpp:122-136 | a would-block at offset 0 wraps the offset to 2^64 - 1, and the loop returns true after that one call |
| TcpTransceiver.NonblockingSendLosesData | include/socket/tcp_transceiver.hpp:122-136 | counterexample: the nonblocking `send` of one byte returns true with nothing on the wire |
| TcpTransceiver.Resize | include/socket/tcp_transceiver.hpp:83 | `resize(len)` keeps the first `min(len, size)` bytes and zero-pads to `len` |
| TcpTransceiver.SendContainer | include/socket/tcp_transceiver.hpp:58-64 | is `send(data(), size())` on every outcome: the run is the framing loop for `size()` bytes and the wire is exactly the container's bytes those calls sent; when the blocking or retrying send returns true, the wire is the whole container |
| TcpTransceiver.RecvContainer | include/socket/tcp_transceiver.hpp:82-90 | is `resize(len)` then `recv(data(), len)` on every outcome: the container is the resized one with each received chunk written at its offset; on true in blocking or retrying mode it is exactly the delivered bytes |
| TcpListener.NewListener | include/socket/tcp_listener.hpp:23-46 | the backlog defaults to `INT_MAX`; binds right after the socket is built and succeeds iff the socket does and `bind` returns 0; a failed bind throws BindFailure with the stored port and address, then closes the descriptor |
| TcpListener.DefaultBacklogListens | include/socket/tcp_listener.hpp:23 | a listener built without a backlog argument stores `INT_MAX`, and a loop round on it opens with `listen(sockfd, INT_MAX)` |
| TcpListener.SocketNeverCloses | include/socket/tcp_socket.hpp:52-101 | a `tcp_socket` constructor that succeeds closes nothing |
| TcpListener.BindFailureClosesOnce | include/socket/tcp_listener.hpp:23-30 | a failed bind closes the new descriptor exactly once |
| TcpListener.ListenerLifetimeClosesOnce | include/socket/tcp_listener.hpp:23-30 | a bound listener that is later destroyed closes its descriptor exactly once |
| TcpListener.PeerSocket | include/socket/tcp_listener.hpp:66 | the peer transceiver owns the accepted descriptor, and its stored fields convert back to what `accept` produced |
| TcpListener.RoundCases | include/socket/tcp_listener.hpp:48-74 | one iteration: quit returns with no call; otherwise listen, then accept, then the handler; each failure gives its typed error; blocking closes the peer; nonblocking dispatches it |
| TcpListener.ServeStops | include/socket/tcp_listener.hpp:48-74 | the loop completes some number of iterations, all of which continue, and leaves on the next one; it ends normally exactly when that iteration sees the quit flag |
| TcpListener.Loop | include/socket/tcp_listener.hpp:48-74 | the `while` loop computes the reference `Serve` |
| TcpListener.QuitAfterGoodRounds | include/socket/tcp_listener.hpp:49 | after any number of good iterations, the first that sees the flag set stops the loop with no further call |
| TcpListener.BlockingClosesEachPeer | include/socket/tcp_listener.hpp:66-72 | in the blocking loop, every handled peer is closed right after the handler, whether or not the handler failed |
| TcpListener.NonblockingNeverCloses | include/socket/tcp_listener.hpp:151-161 | the nonblocking loop's own thread never closes a descriptor: each peer is closed by its detached thread's `tcp_transceiver`, which the `Dispatch` event stands for |
| TcpListener.NonblockingIgnoresHandler | include/socket/tcp_listener.hpp:152-161 | the handler's results have no effect on the nonblocking loop |
| TcpListener.PeerEndpointReconverted | include/socket/tcp_listener.hpp:66 | the handled peer's port and address are `htons`/`htonl` of the network-order values `accept` produced |
| TcpListener.NonblockingAcceptWouldBlockThrows | include/socket/tcp_listener.hpp:141-148 | as written, a would-block from `accept` throws AcceptFailure |
| TcpListener.NonblockingAcceptErrorRetries | include/socket/tcp_listener.hpp:142 | as written, real `accept` errors make the loop go round again without end |
| TcpListener.RetryOutlivesWouldBlock | include/socket/tcp_listener.hpp:140-149 | the corrected classification survives any run of would-blocks and accepted peers |
| TcpListener.RetryStopsOnError | include/socket/tcp_listener.hpp:140-149 | the corrected classification throws AcceptFailure on a real error |
| EchoServer.Receive | echo_blocking_server.cpp:26-29 | one receive of `1024 - offset` bytes: fails iff `recv` fails; otherwise the offset grows by the bytes received, which is at most the request |
| EchoServer.GatherBounds | echo_blocking_server.cpp:25-31 | the loop leaves with the offset within the buffer, and either the buffer full or the last counted byte 0 |
| EchoServer.GatherStopsAtExit | echo_blocking_server.cpp:25-31 | once the loop has left, through a failed receive, the `break` or the `offset < 1024` guard, no later receive is read: more input changes nothing |
| EchoServer.GatherResumes | echo_blocking_server.cpp:25-31 | while the loop has not left, it waits in a state with room left whose last receive failed the exit test, and further receives continue from exactly that state |
| EchoServer.Transceive | echo_blocking_server.cpp:22-35 | a failed receive returns false without sending; when the loop completes, the reply is made from exactly the buffer and `offset` the loop left, and the first `offset` bytes are handed to the blocking `send`, and all of them reach the wire when it returns true |
| EchoServer.TransceiveLoop | echo_blocking_server.cpp:22-35 | the `while` loop with its `break` computes `Transceive` |
| EchoServer.AtOffsetGathers | echo_blocking_server.cpp:25-31 | the corrected loop, started after a stored prefix, appends each chunk and stops after the chunk that ends in 0 |
| EchoServer.CorrectedGathers | echo_blocking_server.cpp:25-31 | the corrected loop gathers a 0-terminated message that fits, padded with the zeros of the initial buffer |
| EchoServer.CorrectedEchoRoundTrip | echo_blocking_server.cpp:22-35 | the corrected server echoes a 0-terminated message that fits byte for byte, once `send` can move it |
| EchoServer.AsWrittenEchoesOverwritten | echo_blocking_server.cpp:27 | counterexample: as written, the chunks "ab" then "c\0" are echoed as "c\0\0\0", where the corrected loop echoes "abc\0" |
| EchoServer.AsWrittenStopsEarly | echo_blocking_server.cpp:27-30 | counterexample: as written, a chunk may end the loop before any 0 arrives, because the test reads a zero the buffer was initialised with |
| EchoServer.ClosedPeerStarves | echo_blocking_server.cpp:25-31 | receives of 0 bytes (a closed peer) move nothing; while no 0 has been counted the loop never leaves and waits in the state it started from |
| EchoServer.ProgressFinishes | echo_blocking_server.cpp:25-31 | when every receive moves at least one byte, the loop leaves within `1024 - offset` receives, whatever the placement |

## Left out

- `tcp_client` (`connect`) is not part of this model: it is a one-line wrapper over the syscall.
- The exception classes' messages and all debug logging (`fprintf` under `debug_mode`) are not modelled. Errors are the `SocketError` values they carry.
- Real syscalls are left out. `socket`, `fcntl`, `bind`, `listen`, `accept`, `send`, `recv` and `close` are oracle inputs, and `close` is an event.
- The numeric values of the `AF_*`/`SOCK_*` constants are not modelled, nor is `O_NONBLOCK`'s bit or the host byte order. They are fields of a `Platform` value, with no injectivity assumed, since `AF_UNIX == AF_LOCAL` on Linux.
- `inet_addr`'s parsing is not modelled. It is an abstract function of the text.
- Threads, `std::thread::detach`, the `[&]` capture and `std::atomic_bool` memory ordering are not modelled. The quit flag is one input per iteration, and dispatch to a thread is a `Dispatch` event.
- The dangling references the nonblocking listener's `[&]` capture can leave are not modelled. The same goes for `std::terminate` when the transceive-failure exception escapes a detached thread.
- The uninitialised `peer_addrlen` passed to `accept` is not modelled: it is undefined behaviour. The second `accept` overload is unused.
- The IPv6 and Unix-domain `socktype_selector` entries are not modelled: they are declared without an implementation.
- `main` and the `echo_server` constructors are not modelled. The constructors only forward to the listener's, and the echo server is modelled through `transceive`.
- The send/recv failure exception types are not modelled, because no core code throws them.
- TcpTransceiver.Send, TcpTransceiver.Recv, TcpListener.Loop, EchoServer.TransceiveLoop: the oracle is finite, so running out of answers halts the model (`Exhausted`, `OutOfTicks`, `Waiting`). At that point the real loop would block or spin on.
- TcpListener.NewListener: `tcp_listener<…, true>` passes `nonblocking = true` only as a template argument. Its `tcp_socket` base is built blocking, so the listening socket itself is blocking. The model follows this, and `accept` errors are inputs.
- TcpTransceiver.RawResult: a raw call's count is capped at the request, because POSIX never reports more. The model does not represent a kernel that misreports.

## Findings

| source | as written | input that shows it | evidently intended | confidence | as-written member | corrected member |
|---|---|---|---|---|---|---|
| include/socket/tcp_transceiver.hpp:127-133 | the nonblocking `send`/`recv` add the -1 of a would-block to the `size_t` offset | `send` of 1 byte whose first raw call would block: the offset wraps to 2^64 - 1 and the call returns true with nothing sent | a would-block moves nothing and the loop retries | high; not executed | TcpTransceiver.NonblockingSendLosesData | TcpTransceiver.SendDelivers |
| include/socket/tcp_listener.hpp:141-148 | the nonblocking loop continues on real `accept` errors and throws on EAGAIN/EWOULDBLOCK | one iteration whose `accept` would block throws AcceptFailure | retry on a would-block, throw on a real error | high; not executed | TcpListener.NonblockingAcceptWouldBlockThrows | TcpListener.RetryOutlivesWouldBlock |
| echo_blocking_server.cpp:27 | every raw receive writes at the start of the buffer while `offset` counts all chunks | chunks "ab" then "c\0" are echoed as "c\0\0\0" | each chunk stored at `buffer + offset` | high; not executed | EchoServer.AsWrittenEchoesOverwritten | EchoServer.CorrectedEchoRoundTrip |

Further notes on the findings:

- The corrected transceiver loop is `NonblockingRetry`. For it, SendDelivers, RecvDelivers and TransferCompletes are proved.
- For the as-written nonblocking transceiver, WouldBlockStepsBack shows the offset moving back mid-transfer, and WouldBlockAtStartReturnsTrue shows the wrap.
- The corrected accept classification is the `NonblockingRetry` case of `AcceptRetries`. RetryStopsOnError proves its error half.
- The corrected echo loop is `AtOffset`, proved by CorrectedGathers.
