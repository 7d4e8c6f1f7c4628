/** The IPv4 address-bound socket: a `socket_base` of domain INET, type STREAM
    and the default protocol, plus a `sockaddr_in` endpoint. Every constructor
    instantiates the base with `nonblocking = false`, whatever the class's own
    `nonblocking` template argument says.
 */
module TcpSocket {
  import opened ByteOrder
  import opened Posix
  import opened SocketBase

  /** `sockaddr_in`: family, port and address as stored, and the `sin_zero` padding */
  datatype Endpoint = Endpoint(family: int, port: u16, addr: u32, zero: seq<byte>)

  /** `sizeof(sin_zero)` */
  const SIN_ZERO: nat := 8

  /** The endpoint a `memset` of the whole structure to 0 leaves */
  const ZeroEndpoint: Endpoint := Endpoint(0, 0, 0, Zeros(SIN_ZERO))

  datatype TcpSocket = TcpSocket(base: SocketBase, ep: Endpoint)

  /** The base-class arguments every IPv4 `tcp_socket` passes */
  const BaseDomain: SockDomain := INET
  const BaseType: SockType := STREAM
  const BaseProtocol: SockProtocol := DEFAULT
  const BaseNonblocking: bool := false

  /** The `fcntl` results the adopting constructors never consult */
  const NoFcntlOracle: FcntlOracle := FcntlOracle({}, 0)

  /** `family`: `sock_domain_to_AF(domain_inet)` */
  function Family(plat: Platform): int
  {
    SockDomainToAf(plat, BaseDomain)
  }

  /** The endpoint the binary constructors store: both values in network order */
  function BinaryEndpoint(plat: Platform, port: u16, ip: u32): Endpoint
  {
    Endpoint(Family(plat), Htons(plat.littleEndian, port), Htonl(plat.littleEndian, ip), Zeros(SIN_ZERO))
  }

  /** The endpoint the text constructors store: the port converted, the parsed
      address as `inet_addr` returned it */
  function TextEndpoint(plat: Platform, port: u16, parsed: u32): Endpoint
  {
    Endpoint(Family(plat), Htons(plat.littleEndian, port), parsed, Zeros(SIN_ZERO))
  }

  /** A constructed base with a fixed endpoint attached */
  function Attach(base: Construct<SocketBase>, ep: Endpoint): Construct<TcpSocket>
  {
    match base.result
    case Ok(b) => Construct(Ok(TcpSocket(b, ep)), base.events)
    case Err(e) => Construct(Err(e), base.events)
  }

  /** The body of the text constructors, run on a fully constructed base: parse
      the text, and throw on `INADDR_NONE`, which unwinds the base (its
      destructor closes the descriptor). */
  function ParseAndAttach(plat: Platform, base: Construct<SocketBase>, port: u16, text: string): Construct<TcpSocket>
  {
    match base.result
    case Err(e) => Construct(Err(e), base.events)
    case Ok(b) =>
      var ip := plat.inetAddr(text);
      var parsed := base.events + [ParseAddr(text)];
      if ip == INADDR_NONE then Construct(Err(InappropriateIp(ip)), parsed + [Close(b.fd)])
      else Construct(Ok(TcpSocket(b, TextEndpoint(plat, port, ip))), parsed)
  }

  function NewBase(plat: Platform, os: SocketOracle): Construct<SocketBase>
  {
    NewSocketBase(plat, BaseDomain, BaseType, BaseProtocol, BaseNonblocking, os)
  }

  /** `tcp_socket()`: a new descriptor and an all-zero endpoint */
  function NewDefault(plat: Platform, nonblocking: bool, os: SocketOracle): (c: Construct<TcpSocket>)
    ensures c.events == [SocketCall(Family(plat), SockTypeToSock(plat, STREAM), 0)]
    ensures c.result.Ok? <==> os.socketFd != -1
    ensures c.result.Err? ==> c.result.error == SocketGenerationFailed
    ensures c.result.Ok? ==> c.result.value == TcpSocket(SocketBase(os.socketFd), ZeroEndpoint)
  {
    Attach(NewBase(plat, os), ZeroEndpoint)
  }

  /** `tcp_socket(port, ip)`: a new descriptor, port and address in network order */
  function NewBinary(plat: Platform, nonblocking: bool, os: SocketOracle, port: u16, ip: u32): (c: Construct<TcpSocket>)
    ensures c.events == [SocketCall(Family(plat), SockTypeToSock(plat, STREAM), 0)]
    ensures c.result.Ok? <==> os.socketFd != -1
    ensures c.result.Err? ==> c.result.error == SocketGenerationFailed
    ensures c.result.Ok? ==> c.result.value.base.fd == os.socketFd
    ensures c.result.Ok? ==> var ep := c.result.value.ep;
              && ep.family == Family(plat) && ep.zero == Zeros(SIN_ZERO)
              && Ntohs(plat.littleEndian, ep.port) == port
              && Ntohl(plat.littleEndian, ep.addr) == ip
  {
    HtonsRoundTrip(plat.littleEndian, port);
    HtonlRoundTrip(plat.littleEndian, ip);
    Attach(NewBase(plat, os), BinaryEndpoint(plat, port, ip))
  }

  /** `tcp_socket(sockfd, port, ip)`: an adopted descriptor, port and address in network order */
  function AdoptBinary(plat: Platform, nonblocking: bool, fd: int, port: u16, ip: u32): (c: Construct<TcpSocket>)
    ensures c.events == []
    ensures c.result.Ok? <==> fd != -1
    ensures c.result.Err? ==> c.result.error == SocketGenerationFailed
    ensures c.result.Ok? ==> c.result.value.base.fd == fd
    ensures c.result.Ok? ==> var ep := c.result.value.ep;
              && ep.family == Family(plat) && ep.zero == Zeros(SIN_ZERO)
              && Ntohs(plat.littleEndian, ep.port) == port
              && Ntohl(plat.littleEndian, ep.addr) == ip
  {
    HtonsRoundTrip(plat.littleEndian, port);
    HtonlRoundTrip(plat.littleEndian, ip);
    Attach(AdoptSocketBase(plat, fd, BaseNonblocking, NoFcntlOracle), BinaryEndpoint(plat, port, ip))
  }

  /** `tcp_socket(port, ip_str)`: a new descriptor, then the text is parsed */
  function NewText(plat: Platform, nonblocking: bool, os: SocketOracle, port: u16, text: string): (c: Construct<TcpSocket>)
    ensures |c.events| >= 1 && c.events[0] == SocketCall(Family(plat), SockTypeToSock(plat, STREAM), 0)
    ensures c.result.Ok? <==> os.socketFd != -1 && plat.inetAddr(text) != INADDR_NONE
    ensures os.socketFd == -1 ==> c.result == Err(SocketGenerationFailed) && |c.events| == 1
    ensures os.socketFd != -1 ==> |c.events| >= 2 && c.events[1] == ParseAddr(text)
    ensures os.socketFd != -1 && plat.inetAddr(text) == INADDR_NONE ==>
              && c.result == Err(InappropriateIp(INADDR_NONE))
              && c.events == [c.events[0], ParseAddr(text), Close(os.socketFd)]
    ensures c.result.Ok? ==> var ep := c.result.value.ep;
              && c.events == [c.events[0], ParseAddr(text)]
              && c.result.value.base.fd == os.socketFd
              && plat.inetAddr(text) != INADDR_NONE
              && ep.family == Family(plat) && ep.zero == Zeros(SIN_ZERO)
              && Ntohs(plat.littleEndian, ep.port) == port
              && ep.addr == plat.inetAddr(text)
  {
    HtonsRoundTrip(plat.littleEndian, port);
    ParseAndAttach(plat, NewBase(plat, os), port, text)
  }

  /** `tcp_socket(sockfd, port, ip_str)`: an adopted descriptor, then the text is parsed */
  function AdoptText(plat: Platform, nonblocking: bool, fd: int, port: u16, text: string): (c: Construct<TcpSocket>)
    ensures c.result.Ok? <==> fd != -1 && plat.inetAddr(text) != INADDR_NONE
    ensures fd == -1 ==> c.result == Err(SocketGenerationFailed) && c.events == []
    ensures fd != -1 && plat.inetAddr(text) == INADDR_NONE ==>
              && c.result == Err(InappropriateIp(INADDR_NONE))
              && c.events == [ParseAddr(text), Close(fd)]
    ensures c.result.Ok? ==> var ep := c.result.value.ep;
              && c.events == [ParseAddr(text)]
              && c.result.value.base.fd == fd
              && plat.inetAddr(text) != INADDR_NONE
              && ep.family == Family(plat) && ep.zero == Zeros(SIN_ZERO)
              && Ntohs(plat.littleEndian, ep.port) == port
              && ep.addr == plat.inetAddr(text)
  {
    HtonsRoundTrip(plat.littleEndian, port);
    ParseAndAttach(plat, AdoptSocketBase(plat, fd, BaseNonblocking, NoFcntlOracle), port, text)
  }

  /** The constructor forms of the IPv4 `tcp_socket`, as its subclasses pass them on */
  datatype Ctor =
    | Default
    | Binary(port: u16, ip: u32)
    | Text(port: u16, text: string)

  /** The constructors that create their own descriptor */
  function New(plat: Platform, nonblocking: bool, os: SocketOracle, ctor: Ctor): Construct<TcpSocket>
  {
    match ctor
    case Default => NewDefault(plat, nonblocking, os)
    case Binary(port, ip) => NewBinary(plat, nonblocking, os, port, ip)
    case Text(port, text) => NewText(plat, nonblocking, os, port, text)
  }

  /** Whatever the `nonblocking` argument, no constructor ever calls `fcntl`:
      the base is always instantiated blocking. */
  lemma NeverNonblockingSetup(plat: Platform, nonblocking: bool, os: SocketOracle, ctor: Ctor)
    ensures NoFcntl(New(plat, nonblocking, os, ctor).events)
    ensures New(plat, nonblocking, os, ctor) == New(plat, false, os, ctor)
  {
  }

  /** The text path stores what the binary path stores for the host-order value
      of the parsed address: `inet_addr` already yields network order, which is
      why the text path applies no `htonl`. */
  lemma TextMatchesBinary(plat: Platform, nonblocking: bool, os: SocketOracle, port: u16, text: string)
    requires NewText(plat, nonblocking, os, port, text).result.Ok?
    ensures var ip := Ntohl(plat.littleEndian, plat.inetAddr(text));
            NewText(plat, nonblocking, os, port, text).result
              == NewBinary(plat, nonblocking, os, port, ip).result
  {
    var parsed := plat.inetAddr(text);
    HtonlRoundTrip(plat.littleEndian, parsed);
  }

  /** An unparsable address is detected only after the descriptor exists; the
      fully constructed base is then unwound, closing the descriptor exactly once. */
  lemma InvalidTextClosesOnce(plat: Platform, nonblocking: bool, os: SocketOracle, port: u16, text: string)
    requires os.socketFd != -1 && plat.inetAddr(text) == INADDR_NONE
    ensures var c := NewText(plat, nonblocking, os, port, text);
            && c.result == Err(InappropriateIp(INADDR_NONE))
            && c.events[0].SocketCall? && c.events[1] == ParseAddr(text)
            && Closes(c.events, os.socketFd) == 1
  {
    var c := NewText(plat, nonblocking, os, port, text);
    assert c.events[1..] == [ParseAddr(text), Close(os.socketFd)];
    assert c.events[1..][1..] == [Close(os.socketFd)];
    assert c.events[1..][1..][1..] == [];
    assert Closes(c.events[1..][1..], os.socketFd) == 1;
    assert Closes(c.events[1..], os.socketFd) == 1;
  }
}
