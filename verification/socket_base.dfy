/** The descriptor-owning socket: the enum-to-constant mappings, the two
    constructors (create a descriptor, or adopt one), the nonblocking setup,
    validity and the destructor.
 */
module SocketBase {
  import opened Posix

  datatype Option<+T> = None | Some(value: T)

  /** The library's address-domain enumeration, in declaration order */
  datatype SockDomain =
    | NONE | UNIX | LOCAL | INET | AX25 | IPX | APPLETALK | NETROM | BRIDGE
    | ATMPVC | X25 | INET6 | ROSE | DECNET | NETBEUI | SECURITY | KEY
    | NETLINK | PACKET | ECONET | ATMSVC | RDS | IRDA | PPPOX | WANPIPE
    | LLC | IB | MPLS | CAN | TIPC | BLUETOOTH | IUCV | RXRPC | ISDN
    | PHONET | IEEE802154 | CAIF | ALG | VSOCK | KCM | QIPCRTR | SMC | XDP

  /** The library's socket-type enumeration, in declaration order */
  datatype SockType =
    | NONE | STREAM | DGRAM | SEQPACKET | RAW | RDM | PACKET
    | NONBLOCK_STREAM | NONBLOCK_DGRAM | NONBLOCK_SEQPACKET | NONBLOCK_RAW
    | NONBLOCK_RDM | NONBLOCK_PACKET
    | CLOEXEC_STREAM | CLOEXEC_DGRAM | CLOEXEC_SEQPACKET | CLOEXEC_RAW
    | CLOEXEC_RDM | CLOEXEC_PACKET
    | NONBLOCK_CLOEXEC_STREAM | NONBLOCK_CLOEXEC_DGRAM | NONBLOCK_CLOEXEC_SEQPACKET
    | NONBLOCK_CLOEXEC_RAW | NONBLOCK_CLOEXEC_RDM | NONBLOCK_CLOEXEC_PACKET

  datatype SockProtocol = NONE | DEFAULT

  /** The domains the `switch` of `sock_domain_to_AF` has a case for */
  const HandledDomains: set<SockDomain> := {
    SockDomain.UNIX, LOCAL, INET, AX25, IPX, APPLETALK, X25, INET6, DECNET, KEY,
    NETLINK, SockDomain.PACKET, RDS, PPPOX, LLC, IB, MPLS, CAN, TIPC, BLUETOOTH,
    ALG, VSOCK, KCM, XDP }

  /** The types the `switch` of `sock_type_to_SOCK` has a case for */
  const HandledTypes: set<SockType> := {
    STREAM, DGRAM, SEQPACKET, RAW, RDM, SockType.PACKET }

  /** The `switch` of `sock_domain_to_AF`, naming the constant each case returns */
  function DomainFamily(d: SockDomain): Option<AddressFamily>
  {
    match d
    case UNIX => Some(AF_UNIX)
    case LOCAL => Some(AF_LOCAL)
    case INET => Some(AF_INET)
    case AX25 => Some(AF_AX25)
    case IPX => Some(AF_IPX)
    case APPLETALK => Some(AF_APPLETALK)
    case X25 => Some(AF_X25)
    case INET6 => Some(AF_INET6)
    case DECNET => Some(AF_DECnet)
    case KEY => Some(AF_KEY)
    case NETLINK => Some(AF_NETLINK)
    case PACKET => Some(AF_PACKET)
    case RDS => Some(AF_RDS)
    case PPPOX => Some(AF_PPPOX)
    case LLC => Some(AF_LLC)
    case IB => Some(AF_IB)
    case MPLS => Some(AF_MPLS)
    case CAN => Some(AF_CAN)
    case TIPC => Some(AF_TIPC)
    case BLUETOOTH => Some(AF_BLUETOOTH)
    case ALG => Some(AF_ALG)
    case VSOCK => Some(AF_VSOCK)
    case KCM => Some(AF_KCM)
    case XDP => Some(AF_XDP)
    case _ => None
  }

  /** The enumerator that bears the same name as an `AF_*` constant */
  function NamesakeDomain(f: AddressFamily): SockDomain
  {
    match f
    case AF_UNIX => SockDomain.UNIX
    case AF_LOCAL => LOCAL
    case AF_INET => INET
    case AF_AX25 => AX25
    case AF_IPX => IPX
    case AF_APPLETALK => APPLETALK
    case AF_X25 => X25
    case AF_INET6 => INET6
    case AF_DECnet => DECNET
    case AF_KEY => KEY
    case AF_NETLINK => NETLINK
    case AF_PACKET => SockDomain.PACKET
    case AF_RDS => RDS
    case AF_PPPOX => PPPOX
    case AF_LLC => LLC
    case AF_IB => IB
    case AF_MPLS => MPLS
    case AF_CAN => CAN
    case AF_TIPC => TIPC
    case AF_BLUETOOTH => BLUETOOTH
    case AF_ALG => ALG
    case AF_VSOCK => VSOCK
    case AF_KCM => KCM
    case AF_XDP => XDP
  }

  /** `sock_domain_to_AF`: the matching `AF_*` value, or -1 */
  function SockDomainToAf(plat: Platform, d: SockDomain): (r: int)
    ensures d !in HandledDomains ==> r == -1
    ensures forall f :: NamesakeDomain(f) == d ==> r == plat.af(f)
  {
    match DomainFamily(d)
    case Some(f) => plat.af(f)
    case None => -1
  }

  /** The `switch` of `sock_type_to_SOCK`, naming the constant each case returns */
  function TypeKind(t: SockType): Option<SocketKind>
  {
    match t
    case STREAM => Some(SOCK_STREAM)
    case DGRAM => Some(SOCK_DGRAM)
    case SEQPACKET => Some(SOCK_SEQPACKET)
    case RAW => Some(SOCK_RAW)
    case RDM => Some(SOCK_RDM)
    case PACKET => Some(SOCK_PACKET)
    case _ => None
  }

  function NamesakeType(k: SocketKind): SockType
  {
    match k
    case SOCK_STREAM => STREAM
    case SOCK_DGRAM => DGRAM
    case SOCK_SEQPACKET => SEQPACKET
    case SOCK_RAW => RAW
    case SOCK_RDM => RDM
    case SOCK_PACKET => SockType.PACKET
  }

  /** `sock_type_to_SOCK`: the matching `SOCK_*` value, or -1 */
  function SockTypeToSock(plat: Platform, t: SockType): (r: int)
    ensures t !in HandledTypes ==> r == -1
    ensures forall k :: NamesakeType(k) == t ==> r == plat.sock(k)
  {
    match TypeKind(t)
    case Some(k) => plat.sock(k)
    case None => -1
  }

  /** `sock_protocol_to_PROTOCOL` */
  function SockProtocolToProtocol(p: SockProtocol): (r: int)
    ensures r == 0 <==> p == DEFAULT
    ensures r == -1 <==> p == SockProtocol.NONE
  {
    match p
    case DEFAULT => 0
    case _ => -1
  }

  /** Every `AF_*` constant is the case its namesake enumerator maps to */
  lemma NamesakeDomainMaps(f: AddressFamily)
    ensures DomainFamily(NamesakeDomain(f)) == Some(f)
  {
  }

  /** Every case the switch maps is the namesake of the constant it maps to */
  lemma DomainFamilyNamesake(d: SockDomain)
    ensures DomainFamily(d).Some? ==> NamesakeDomain(DomainFamily(d).value) == d
  {
  }

  /** The switch maps exactly the handled enumerators */
  lemma DomainFamilyHandled(d: SockDomain)
    ensures DomainFamily(d).Some? <==> d in HandledDomains
  {
  }

  /** The domain switch covers exactly the 24 handled enumerators, and maps them
      one-to-one onto the `AF_*` names: each constant is returned by the case of
      its namesake and by no other. */
  lemma DomainSwitchIsBijection(d: SockDomain, f: AddressFamily)
    ensures DomainFamily(d).Some? <==> d in HandledDomains
    ensures DomainFamily(d) == Some(f) <==> NamesakeDomain(f) == d
  {
    NamesakeDomainMaps(f);
    DomainFamilyNamesake(d);
    DomainFamilyHandled(d);
  }

  lemma TypeSwitchIsBijection(t: SockType, k: SocketKind)
    ensures TypeKind(t).Some? <==> t in HandledTypes
    ensures TypeKind(t) == Some(k) <==> NamesakeType(k) == t
  {
  }

  /** On a platform whose constants are non-negative, -1 from the domain
      mapping means exactly "no case for this enumerator" */
  lemma DomainMinusOneIffUnhandled(plat: Platform, d: SockDomain)
    requires forall f :: plat.af(f) >= 0
    ensures SockDomainToAf(plat, d) == -1 <==> d !in HandledDomains
  {
    DomainSwitchIsBijection(d, AF_UNIX);
    if d in HandledDomains {
      DomainSwitchIsBijection(d, DomainFamily(d).value);
    }
  }

  lemma TypeMinusOneIffUnhandled(plat: Platform, t: SockType)
    requires forall k :: plat.sock(k) >= 0
    ensures SockTypeToSock(plat, t) == -1 <==> t !in HandledTypes
  {
    TypeSwitchIsBijection(t, SOCK_STREAM);
  }

  /** A socket that owns descriptor `fd` */
  datatype SocketBase = SocketBase(fd: int)

  /** `is_valid` */
  predicate IsValid(s: SocketBase)
  {
    s.fd != -1
  }

  /** The two `fcntl` results `set_nonblocking` sees: the flag word `F_GETFL`
      returned, as the set of its one bits (all 32 bits when it returned -1),
      and what `F_SETFL` returned */
  datatype FcntlOracle = FcntlOracle(getFlags: FlagBits, setResult: int)

  /** What `::socket` returned, and the `fcntl` results that follow it */
  datatype SocketOracle = SocketOracle(socketFd: int, fcntl: FcntlOracle)

  datatype Setup = Setup(ok: bool, events: seq<Event>)

  /** `written` is `before` with the bits of `mask` set and every other bit kept */
  predicate SetsOnly(before: FlagBits, written: FlagBits, mask: FlagBits)
  {
    mask <= written && written - mask == before - mask
  }

  /** `set_nonblocking`: read the flags, write them back with `O_NONBLOCK` or-ed
      in; false exactly when `F_SETFL` fails */
  function SetNonblocking(plat: Platform, fd: int, os: FcntlOracle): (r: Setup)
    ensures |r.events| == 2 && r.events[0] == GetFlags(fd)
    ensures r.events[1].SetFlags? && r.events[1].fd == fd
    ensures SetsOnly(os.getFlags, r.events[1].flags, plat.oNonblock)
    ensures r.ok <==> os.setResult != -1
  {
    Setup(os.setResult != -1, [GetFlags(fd), SetFlags(fd, os.getFlags + plat.oNonblock)])
  }

  /** A failed `F_GETFL` is not checked: its -1 is or-ed in, so every flag bit
      gets written as set */
  lemma UncheckedGetFlags(plat: Platform, fd: int, setResult: int)
    requires plat.oNonblock <= AllBits
    ensures SetNonblocking(plat, fd, FcntlOracle(AllBits, setResult)).events[1].flags == AllBits
  {
  }

  /** The constructor body shared by both constructors, run once `sockfd` is known */
  function Initialise(plat: Platform, fd: int, nonblocking: bool, os: FcntlOracle): Construct<SocketBase>
  {
    if fd == -1 then Construct(Err(SocketGenerationFailed), [])
    else if !nonblocking then Construct(Ok(SocketBase(fd)), [])
    else
      var s := SetNonblocking(plat, fd, os);
      if s.ok then Construct(Ok(SocketBase(fd)), s.events)
      else Construct(Err(NonblockingSetupFailed), s.events)
  }

  /** `socket_base()`: create a descriptor, then optionally make it nonblocking */
  function NewSocketBase(plat: Platform, domain: SockDomain, stype: SockType, protocol: SockProtocol,
                         nonblocking: bool, os: SocketOracle): (c: Construct<SocketBase>)
    ensures |c.events| >= 1
    ensures c.events[0] == SocketCall(SockDomainToAf(plat, domain), SockTypeToSock(plat, stype),
                                      SockProtocolToProtocol(protocol))
    ensures c.result == Err(SocketGenerationFailed) <==> os.socketFd == -1
    ensures os.socketFd == -1 ==> |c.events| == 1
    ensures c.result.Ok? <==> os.socketFd != -1 && (!nonblocking || os.fcntl.setResult != -1)
    ensures nonblocking && os.socketFd != -1 ==> c.events[1..] == SetNonblocking(plat, os.socketFd, os.fcntl).events
    ensures c.result == Err(NonblockingSetupFailed) <==>
              nonblocking && os.socketFd != -1 && os.fcntl.setResult == -1
    ensures c.result.Ok? ==> c.result.value.fd == os.socketFd && IsValid(c.result.value)
    ensures !nonblocking ==> NoFcntl(c.events) && c.events == [c.events[0]]
    ensures forall fd :: Closes(c.events, fd) == 0
  {
    var call := SocketCall(SockDomainToAf(plat, domain), SockTypeToSock(plat, stype),
                           SockProtocolToProtocol(protocol));
    var init := Initialise(plat, os.socketFd, nonblocking, os.fcntl);
    ClosesNeverInInit(plat, os.socketFd, nonblocking, os.fcntl, call);
    assert ([call] + init.events)[1..] == init.events;
    Construct(init.result, [call] + init.events)
  }

  /** `socket_base(int sockfd)`: adopt a descriptor, then optionally make it nonblocking */
  function AdoptSocketBase(plat: Platform, fd: int, nonblocking: bool, os: FcntlOracle): (c: Construct<SocketBase>)
    ensures c.result == Err(SocketGenerationFailed) <==> fd == -1
    ensures fd == -1 ==> c.events == []
    ensures c.result.Ok? <==> fd != -1 && (!nonblocking || os.setResult != -1)
    ensures nonblocking && fd != -1 ==> c.events == SetNonblocking(plat, fd, os).events
    ensures c.result == Err(NonblockingSetupFailed) <==> nonblocking && fd != -1 && os.setResult == -1
    ensures c.result.Ok? ==> c.result.value.fd == fd && IsValid(c.result.value)
    ensures !nonblocking ==> c.events == []
    ensures forall d :: Closes(c.events, d) == 0
  {
    ClosesNeverInInit(plat, fd, nonblocking, os, SocketCall(0, 0, 0));
    Initialise(plat, fd, nonblocking, os)
  }

  lemma ClosesNeverInInit(plat: Platform, fd: int, nonblocking: bool, os: FcntlOracle, first: Event)
    requires !first.Close?
    ensures forall d :: Closes(Initialise(plat, fd, nonblocking, os).events, d) == 0
    ensures forall d :: Closes([first] + Initialise(plat, fd, nonblocking, os).events, d) == 0
  {
    var es := Initialise(plat, fd, nonblocking, os).events;
    NoCloseEvents(es);
    NoCloseEvents([first] + es);
  }

  /** `~socket_base()`: asserts validity and closes the descriptor */
  function Destroy(s: SocketBase): (events: seq<Event>)
    requires IsValid(s)
    ensures Closes(events, s.fd) == 1
    ensures forall d :: d != s.fd ==> Closes(events, d) == 0
  {
    assert [Close(s.fd)][1..] == [];
    [Close(s.fd)]
  }

  /** A socket that was constructed and later destroyed has its descriptor
      closed exactly once over its whole lifetime. */
  lemma LifetimeClosesOnce(plat: Platform, domain: SockDomain, stype: SockType, protocol: SockProtocol,
                           nonblocking: bool, os: SocketOracle)
    requires NewSocketBase(plat, domain, stype, protocol, nonblocking, os).result.Ok?
    ensures var c := NewSocketBase(plat, domain, stype, protocol, nonblocking, os);
            Closes(c.events + Destroy(c.result.value), os.socketFd) == 1
  {
    var c := NewSocketBase(plat, domain, stype, protocol, nonblocking, os);
    ClosesAppend(c.events, Destroy(c.result.value), os.socketFd);
  }

  /** When the nonblocking setup fails, the descriptor `::socket` returned is
      never closed: the constructor body throws, so no destructor runs. */
  lemma NonblockingFailureLeaks(plat: Platform, domain: SockDomain, stype: SockType, protocol: SockProtocol,
                                os: SocketOracle)
    requires os.socketFd != -1 && os.fcntl.setResult == -1
    ensures var c := NewSocketBase(plat, domain, stype, protocol, true, os);
            && c.result == Err(NonblockingSetupFailed)
            && c.events[1] == GetFlags(os.socketFd)
            && Closes(c.events, os.socketFd) == 0
  {
  }
}
