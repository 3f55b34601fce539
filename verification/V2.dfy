/** The binary header (src/parse/v2.rs): a 16-byte fixed part, addresses, then type-length-value entries. */
module V2 {
  import opened Octets
  import opened Types
  import opened Tlv
  import Crc32c

  const SIGNATURE: bytes := [0x0D, 0x0A, 0x0D, 0x0A, 0x00, 0x0D, 0x0A, 0x51, 0x55, 0x49, 0x54, 0x0A]

  const HEADER_LEN: nat := 16

  /** The longest header the 16-bit length field allows. */
  const MAX_LEN: nat := HEADER_LEN + U16_MAX

  // Addresses

  /** The bytes before the first NUL. */
  function UntilNul(field: bytes): (path: bytes)
    ensures path <= field && 0 !in path
    ensures |path| < |field| ==> field[|path|] == 0
  {
    if field == [] || field[0] == 0 then [] else [field[0]] + UntilNul(field[1..])
  }

  /** What the address block says, and where in the payload the entries start. */
  datatype Addressing = Addressing(
    transport: Option<Transport>,
    source: Option<ProxyAddress>,
    destination: Option<ProxyAddress>,
    tlvOffset: nat)

  function AddressLen(family: AddressFamily): nat
  {
    match family
    case Inet => 12
    case Inet6 => 36
    case Unix => 216
  }

  function DecodeAddresses(t: Transport, payload: bytes): Addressing
    requires |payload| >= AddressLen(t.family)
  {
    match t.family
    case Inet =>
      Addressing(Some(t),
                 Some(InetAddress(SocketAddr(V4(payload[0..4]), U16(payload[8], payload[9])))),
                 Some(InetAddress(SocketAddr(V4(payload[4..8]), U16(payload[10], payload[11])))),
                 12)
    case Inet6 =>
      Addressing(Some(t),
                 Some(InetAddress(SocketAddr(V6(payload[0..16]), U16(payload[32], payload[33])))),
                 Some(InetAddress(SocketAddr(V6(payload[16..32]), U16(payload[34], payload[35])))),
                 36)
    case Unix =>
      Addressing(Some(t), Some(UnixPath(UntilNul(payload[0..108]))), Some(UnixPath(UntilNul(payload[108..216]))), 216)
  }

  /** `parse_v2_addresses` */
  function ParseAddresses(family: nat, protocol: nat, payload: bytes): Result<Addressing, ParseError>
  {
    if family != 1 && family != 2 && family != 3 then Err(Invalid(UnknownFamily(family)))
    else if protocol != 1 && protocol != 2 then Err(Invalid(UnknownProtocol(protocol)))
    else
      var f := if family == 1 then Inet else if family == 2 then Inet6 else Unix;
      var t := Transport(f, if protocol == 1 then Stream else Datagram);
      if |payload| < AddressLen(f) then Err(Invalid(PayloadOverflow(AddressLen(f), |payload|)))
      else Ok(DecodeAddresses(t, payload))
  }

  // Checksum

  /** The offset of the value of the first checksum entry, for entries that start at offset `at`. */
  function CrcField(data: bytes, at: nat): (p: Option<nat>)
    ensures p.Some? ==> at + 3 <= p.value && p.value + 4 <= at + |data|
    decreases |data|
  {
    if Stuck(data) then None
    else if Head(data).kind == 0x03 && |Head(data).value| == 4 then Some(at + 3)
    else CrcField(Tail(data), at + 3 + |Head(data).value|)
  }

  /** A copy of the header with the four bytes at `p` zeroed. */
  function Zeroed(header: bytes, p: nat): bytes
    requires p + 4 <= |header|
  {
    header[..p] + [0, 0, 0, 0] + header[p + 4..]
  }

  /** The checksum a header should carry: that of the header with its first checksum value zeroed. */
  function HeaderCrc(header: bytes, tlvStart: nat): bv32
    requires tlvStart <= |header|
  {
    match CrcField(header[tlvStart..], tlvStart)
    case Some(p) => Crc32c.Checksum(Zeroed(header, p))
    case None => Crc32c.Checksum(header)
  }

  lemma EntryAt(header: bytes, pos: nat, tlvLen: nat)
    requires pos + 3 + tlvLen <= |header| && tlvLen == U16(header[pos + 1], header[pos + 2])
    ensures var data := header[pos..];
            && !Stuck(data) && Head(data).kind == header[pos] && |Head(data).value| == tlvLen
            && Tail(data) == header[pos + 3 + tlvLen..]
  {
    var data := header[pos..];
    assert data[0] == header[pos] && data[1] == header[pos + 1] && data[2] == header[pos + 2];
  }

  /** One entry of the walk that looks for the checksum. */
  lemma CrcFieldStep(header: bytes, pos: nat, tlvLen: nat)
    requires pos + 3 + tlvLen <= |header| && tlvLen == U16(header[pos + 1], header[pos + 2])
    ensures CrcField(header[pos..], pos)
         == if header[pos] == 0x03 && tlvLen == 4 then Some(pos + 3)
            else CrcField(header[pos + 3 + tlvLen..], pos + 3 + tlvLen)
  {
    EntryAt(header, pos, tlvLen);
  }

  /** The checksum of the header with four bytes taken as zero, hashed in three pieces without copying the header. */
  method SplitCrc(header: bytes, valueStart: nat) returns (crc: bv32)
    requires valueStart + 4 <= |header|
    ensures crc == Crc32c.Checksum(Zeroed(header, valueStart))
  {
    crc := Crc32c.Checksum(header[..valueStart]);
    crc := Crc32c.Append(crc, [0, 0, 0, 0]);
    crc := Crc32c.Append(crc, header[valueStart + 4..]);
    Crc32c.ThreePieces(header[..valueStart], [0, 0, 0, 0], header[valueStart + 4..]);
  }

  /** The walk of `compute_crc32c` over the entries, up to the first checksum. */
  method FindCrcField(header: bytes, tlvStart: nat) returns (p: Option<nat>)
    requires tlvStart <= |header|
    ensures p == CrcField(header[tlvStart..], tlvStart)
  {
    var pos := tlvStart;
    while pos + 3 <= |header|
      invariant tlvStart <= pos <= |header|
      invariant CrcField(header[pos..], pos) == CrcField(header[tlvStart..], tlvStart)
    {
      var tlvType := header[pos];
      var tlvLen := U16(header[pos + 1], header[pos + 2]);
      if pos + 3 + tlvLen > |header| {
        break;
      }
      CrcFieldStep(header, pos, tlvLen);
      if tlvType == 0x03 && tlvLen == 4 {
        return Some(pos + 3);
      }
      pos := pos + 3 + tlvLen;
    }
    return None;
  }

  /** `compute_crc32c` */
  method ComputeCrc32c(buf: bytes, totalLen: nat, tlvStart: nat) returns (crc: bv32)
    requires tlvStart <= totalLen <= |buf|
    ensures crc == HeaderCrc(buf[..totalLen], tlvStart)
  {
    var header := buf[..totalLen];
    var field := FindCrcField(header, tlvStart);
    if field.Some? {
      crc := SplitCrc(header, field.value);
    } else {
      crc := Crc32c.Checksum(header);
    }
  }

  // Parsing

  /** The entries after the addresses. A LOCAL header may carry anything there; what is not entries counts as none. */
  function ReadTlvs(command: Command, data: bytes): Result<Tlvs, ParseError>
  {
    if data == [] then Ok(NO_TLVS)
    else match command
      case Local => (match ParseTlvs(data) case Ok(t) => Ok(t) case Err(_) => Ok(NO_TLVS))
      case Proxy => ParseTlvs(data)
  }

  function CheckCrc(header: bytes, command: Command, a: Addressing, tlvs: Tlvs): ParseResult
    requires HEADER_LEN + a.tlvOffset <= |header|
  {
    var info := ProxyInfo(Version2, command, a.transport, a.source, a.destination, tlvs);
    if tlvs.crc32c.None? then Ok(Parsed(info, |header|))
    else
      var actual := HeaderCrc(header, HEADER_LEN + a.tlvOffset);
      if actual == tlvs.crc32c.value then Ok(Parsed(info, |header|))
      else Err(CrcMismatch(tlvs.crc32c.value, actual))
  }

  function ReadAddresses(command: Command, famProto: byte, payload: bytes): (a: Result<Addressing, ParseError>)
    ensures a.Ok? ==> a.value.tlvOffset <= |payload|
  {
    match command
    case Local => Ok(Addressing(None, None, None, 0))
    case Proxy =>
      if famProto / 16 == 0 || famProto % 16 == 0 then Err(Invalid(UnspecWithProxy))
      else ParseAddresses(famProto / 16, famProto % 16, payload)
  }

  /** A header that has arrived in full. */
  type Header = h: bytes | |h| >= HEADER_LEN witness [0, 0, 0, 0, 0, 0, 0, 0, 0, 0, 0, 0, 0, 0, 0, 0]

  function ParseComplete(command: Command, header: Header): (r: ParseResult)
    ensures r != Err(Incomplete)
    ensures r.Ok? ==> r.value.consumed == |header|
  {
    match ReadAddresses(command, header[13], header[HEADER_LEN..])
    case Err(e) => Err(e)
    case Ok(a) =>
      match ReadTlvs(command, header[HEADER_LEN + a.tlvOffset..])
      case Err(e) => Err(e)
      case Ok(tlvs) => CheckCrc(header, command, a, tlvs)
  }

  /** The length the fixed part announces for the whole header. */
  function TotalLen(buf: bytes): (n: nat)
    requires |buf| >= HEADER_LEN
    ensures HEADER_LEN <= n <= MAX_LEN
  {
    HEADER_LEN + U16(buf[14], buf[15])
  }

  function CommandOf(verCmd: byte): Command
  {
    if verCmd % 16 == 0 then Local else Proxy
  }

  /** `parse_v2`, with the reader of complete headers left open. */
  function OnHeader(read: (Command, Header) -> ParseResult, buf: bytes): ParseResult
  {
    if |buf| < HEADER_LEN then Err(Incomplete)
    else if buf[12] / 16 != 2 then Err(Invalid(UnsupportedVersion(buf[12] / 16)))
    else if buf[12] % 16 != 0 && buf[12] % 16 != 1 then Err(Invalid(UnknownCommand(buf[12] % 16)))
    else if |buf| < TotalLen(buf) then Err(Incomplete)
    else read(CommandOf(buf[12]), buf[..TotalLen(buf)])
  }

  // How much of the buffer is looked at

  /** A reader that is satisfied with a complete header and takes all of it. */
  ghost predicate TakesAll(read: (Command, Header) -> ParseResult)
  {
    forall c, h :: read(c, h) != Err(Incomplete) && (read(c, h).Ok? ==> read(c, h).value.consumed == |h|)
  }

  lemma OnHeaderStable(read: (Command, Header) -> ParseResult, buf: bytes, more: bytes)
    requires OnHeader(read, buf) != Err(Incomplete)
    ensures OnHeader(read, buf + more) == OnHeader(read, buf)
  {
    if |buf| >= TotalLen(buf) {
      assert (buf + more)[..TotalLen(buf)] == buf[..TotalLen(buf)];
    }
  }

  lemma OnHeaderMinimal(read: (Command, Header) -> ParseResult, buf: bytes, n: nat)
    requires TakesAll(read) && OnHeader(read, buf).Ok? && n == OnHeader(read, buf).value.consumed
    ensures HEADER_LEN <= n <= |buf| && n <= MAX_LEN && OnHeader(read, buf[..n]) == OnHeader(read, buf)
    ensures forall k :: 0 <= k < n ==> OnHeader(read, buf[..k]) == Err(Incomplete)
  {
    assert n == TotalLen(buf);
    assert buf[..n][..n] == buf[..n];
  }
}
