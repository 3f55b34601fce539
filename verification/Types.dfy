/** The data a PROXY header carries and the ways reading one can fail. */
module Types {
  import opened Octets
  import opened Utf8

  datatype Option<+T> = None | Some(value: T)

  datatype Result<+T, +E> = Ok(value: T) | Err(error: E)

  type u16 = x: int | 0 <= x <= 65535

  type Octets4 = s: bytes | |s| == 4 witness [0, 0, 0, 0]
  type Octets16 = s: bytes | |s| == 16 witness [0, 0, 0, 0, 0, 0, 0, 0, 0, 0, 0, 0, 0, 0, 0, 0]

  datatype IpAddr = V4(v4: Octets4) | V6(v6: Octets16)

  /** Flow info and scope id of an IPv6 socket address are not on the wire and not modelled. */
  datatype SocketAddr = SocketAddr(ip: IpAddr, port: u16)

  datatype ProxyAddress = InetAddress(addr: SocketAddr) | UnixPath(path: bytes)

  datatype Version = Version1 | Version2

  datatype Command = Local | Proxy

  datatype AddressFamily = Inet | Inet6 | Unix

  datatype TransportProtocol = Stream | Datagram

  datatype Transport = Transport(family: AddressFamily, protocol: TransportProtocol)

  /** One type-length-value entry, without its length field. */
  datatype RawTlv = RawTlv(kind: byte, value: bytes)

  datatype SslInfo = SslInfo(
    clientFlags: byte,
    verified: bool,
    version: Option<utf8>,
    cn: Option<utf8>,
    cipher: Option<utf8>,
    sigAlg: Option<utf8>,
    keyAlg: Option<utf8>,
    group: Option<utf8>,
    sigScheme: Option<utf8>,
    clientCert: Option<bytes>)

  datatype Tlvs = Tlvs(
    alpn: Option<bytes>,
    authority: Option<utf8>,
    crc32c: Option<bv32>,
    uniqueId: Option<bytes>,
    ssl: Option<SslInfo>,
    netns: Option<utf8>,
    raw: seq<RawTlv>)

  const NO_TLVS: Tlvs := Tlvs(None, None, None, None, None, None, [])

  datatype ProxyInfo = ProxyInfo(
    version: Version,
    command: Command,
    transport: Option<Transport>,
    source: Option<ProxyAddress>,
    destination: Option<ProxyAddress>,
    tlvs: Tlvs)
  {
    /** The source address, when it is an IPv4 or IPv6 one. */
    function SourceInet(): Option<SocketAddr>
    {
      if source.Some? && source.value.InetAddress? then Some(source.value.addr) else None
    }
  }

  datatype InvalidReason =
    | UnsupportedVersion(nibble: nat)
    | UnknownCommand(nibble: nat)
    | UnknownFamily(nibble: nat)
    | UnknownProtocol(nibble: nat)
    | V1TooLong
    | V1NotUtf8
    | V1InvalidFormat
    | V1UnknownTransport(text: bytes)
    | InvalidIp(text: bytes)
    | InvalidPort(text: bytes)
    | UnspecWithProxy
    | PayloadOverflow(len: nat, available: nat)
    | MalformedTlv(offset: nat)

  datatype ParseError =
    | NotProxyProtocol
    | Incomplete
    | Invalid(reason: InvalidReason)
    | CrcMismatch(expected: bv32, actual: bv32)

  /** A parsed header and the number of bytes it took. */
  datatype Parsed = Parsed(info: ProxyInfo, consumed: nat)

  type ParseResult = Result<Parsed, ParseError>
}
