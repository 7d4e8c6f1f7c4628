/** The operating-system side of the socket layer, as seen by the library.

    Every syscall the library makes is replaced by an oracle: a value supplied
    by the caller of the model that stands for what the kernel returned. The
    calls the library makes are recorded as a trace of events, so that
    ordering and resource facts ("created before parsed", "closed exactly
    once") can be stated over the trace.
 */
module Posix {
  import opened ByteOrder

  /** Upper bound of `size_t` plus one: offsets wrap modulo this value */
  const SIZE_LIMIT: int := 0x1_0000_0000_0000_0000
  type size_t = x: int | 0 <= x < SIZE_LIMIT

  /** `size_t` addition: unsigned arithmetic modulo 2^64 */
  function AddSize(a: size_t, b: int): (r: size_t)
    ensures 0 <= a + b < SIZE_LIMIT ==> r == a + b
    ensures a + b == -1 ==> r == SIZE_LIMIT - 1
  {
    (a + b) % SIZE_LIMIT
  }

  /** `INT_MAX` of a 32-bit `int`, the default listen backlog */
  const INT_MAX: int := 0x7FFF_FFFF

  /** `INADDR_NONE`, the sentinel `inet_addr` returns for unparsable text */
  const INADDR_NONE: u32 := 0xFFFF_FFFF

  /** n zero bytes, what a `memset` to 0 or a `{}` initialiser leaves */
  function Zeros(n: nat): (z: seq<byte>)
    ensures |z| == n && forall k :: 0 <= k < n ==> z[k] == 0
  {
    seq(n, _ => 0)
  }

  /** A 32-bit `int` flag word, as the set of positions of its one bits */
  type FlagBits = set<nat>

  /** The flag word -1: all 32 bits set */
  const AllBits: FlagBits := set i: nat | i < 32

  /** The errno classes the library distinguishes */
  datatype Errno = WouldBlock | OtherError

  /** Names of the address-family constants `AF_*` the library refers to */
  datatype AddressFamily =
    | AF_UNIX | AF_LOCAL | AF_INET | AF_AX25 | AF_IPX | AF_APPLETALK
    | AF_X25 | AF_INET6 | AF_DECnet | AF_KEY | AF_NETLINK | AF_PACKET
    | AF_RDS | AF_PPPOX | AF_LLC | AF_IB | AF_MPLS | AF_CAN
    | AF_TIPC | AF_BLUETOOTH | AF_ALG | AF_VSOCK | AF_KCM | AF_XDP

  /** Names of the socket-type constants `SOCK_*` the library refers to */
  datatype SocketKind =
    | SOCK_STREAM | SOCK_DGRAM | SOCK_SEQPACKET | SOCK_RAW | SOCK_RDM | SOCK_PACKET

  /** What the library takes from the platform without defining it: the numeric
      values of the constants (opaque; `AF_UNIX == AF_LOCAL` on Linux, so no
      injectivity is assumed), the `O_NONBLOCK` flag bit(s), the host byte
      order and libc's `inet_addr`. */
  datatype Platform = Platform(
    af: AddressFamily -> int,
    sock: SocketKind -> int,
    oNonblock: FlagBits,
    littleEndian: bool,
    inetAddr: string -> u32)

  /** The library's exception types, with the values they carry */
  datatype SocketError =
    | SocketGenerationFailed
    | NonblockingSetupFailed
    | InappropriateIp(ip: u32)
    | BindFailure(port: u16, addr: u32)
    | ListenFailure(port: u16, addr: u32)
    | AcceptFailure(port: u16, addr: u32)
    | TransceiveFailure

  datatype Result<+T> = Ok(value: T) | Err(error: SocketError)

  /** The calls the library makes, in the order it makes them */
  datatype Event =
    | SocketCall(family: int, kind: int, protocol: int)
    | GetFlags(fd: int)
    | SetFlags(fd: int, flags: FlagBits)
    | ParseAddr(text: string)
    | Close(fd: int)
    | Bind(fd: int, port: u16, addr: u32)
    | ListenCall(fd: int, backlog: int)
    | AcceptCall(fd: int)
    | Handle(peerFd: int, port: u16, addr: u32)
    | Dispatch(peerFd: int, port: u16, addr: u32)

  /** Outcome of a constructor: the object or the exception it threw, and the
      calls it made on the way */
  datatype Construct<+T> = Construct(result: Result<T>, events: seq<Event>)

  /** Number of times `fd` is closed in a trace */
  function Closes(events: seq<Event>, fd: int): (n: nat)
    ensures n <= |events|
  {
    if |events| == 0 then 0
    else (if events[0] == Close(fd) then 1 else 0) + Closes(events[1..], fd)
  }

  lemma {:induction false} ClosesAppend(a: seq<Event>, b: seq<Event>, fd: int)
    ensures Closes(a + b, fd) == Closes(a, fd) + Closes(b, fd)
  {
    if |a| > 0 {
      assert (a + b)[1..] == a[1..] + b;
      ClosesAppend(a[1..], b, fd);
    } else {
      assert a + b == b;
    }
  }

  lemma {:induction false} NoCloseEvents(events: seq<Event>)
    requires forall k :: 0 <= k < |events| ==> !events[k].Close?
    ensures forall fd :: Closes(events, fd) == 0
  {
    if |events| > 0 {
      NoCloseEvents(events[1..]);
    }
  }

  /** A trace with no `fcntl` calls */
  predicate NoFcntl(events: seq<Event>)
  {
    forall k :: 0 <= k < |events| ==> !events[k].GetFlags? && !events[k].SetFlags?
  }
}
