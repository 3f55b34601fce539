/** `HeaderBuilder` (src/builder.rs): what is to be sent, and the bytes it is sent as.

    Rust's `assert!` panics are modelled as the result `None`. */
module Builder {
  import opened Octets
  import opened Types
  import opened Tlv
  import Crc32c
  import V1
  import V2

  /** What a builder holds. */
  datatype Plan = Plan(
    version: Version,
    command: Command,
    transport: Option<Transport>,
    source: Option<ProxyAddress>,
    destination: Option<ProxyAddress>,
    entries: seq<RawTlv>,
    addCrc32c: bool)

  predicate OfFamily(family: AddressFamily, a: ProxyAddress)
  {
    match family
    case Inet => a.InetAddress? && a.addr.ip.V4?
    case Inet6 => a.InetAddress? && a.addr.ip.V6?
    case Unix => a.UnixPath?
  }

  /** What every constructor establishes and every `with_` method keeps. */
  predicate Consistent(p: Plan)
  {
    && (p.command == Local ==> p.version == Version2 && p.transport.None?)
    && (p.version == Version2 && p.command == Proxy ==> p.transport.Some?)
    && (p.version == Version1 && p.transport.Some? ==> p.transport.value.family != Unix)
    && (p.transport.None? ==> p.source.None? && p.destination.None?)
    && (p.transport.Some? ==>
          && p.source.Some? && OfFamily(p.transport.value.family, p.source.value)
          && p.destination.Some? && OfFamily(p.transport.value.family, p.destination.value))
  }

  // The text header

  /** The line that `build_v1` writes, without its end. */
  function V1Line(p: Plan): bytes
    requires Consistent(p) && p.version == Version1
  {
    if p.transport.None? then V1.PROXY + [V1.SPACE] + V1.UNKNOWN
    else V1.Joined(V1.LineFields(p.transport.value.family, p.source.value.addr, p.destination.value.addr))
  }

  /** `build_v1` */
  function BuildV1(p: Plan): bytes
    requires Consistent(p) && p.version == Version1
  {
    V1Line(p) + V1.CRLF
  }

  // SSL entries

  /** An optional sub-entry. */
  function Optional(kind: byte, value: Option<bytes>): seq<RawTlv>
  {
    if value.None? then [] else [RawTlv(kind, value.value)]
  }

  datatype SubField = SubField(kind: byte, value: Option<bytes>)

  function SubEntries(fields: seq<SubField>): seq<RawTlv>
  {
    if fields == [] then []
    else SubEntries(fields[..|fields| - 1]) + Optional(fields[|fields| - 1].kind, fields[|fields| - 1].value)
  }

  function SslFields(ssl: SslInfo): seq<SubField>
  {
    [SubField(0x21, ssl.version), SubField(0x22, ssl.cn), SubField(0x23, ssl.cipher), SubField(0x24, ssl.sigAlg),
     SubField(0x25, ssl.keyAlg), SubField(0x26, ssl.group), SubField(0x27, ssl.sigScheme),
     SubField(0x28, ssl.clientCert)]
  }

  /** The four bytes of the verification result: zero stands for verified. */
  function VerifyBytes(verified: bool): bytes
  {
    if verified then [0, 0, 0, 0] else [0, 0, 0, 1]
  }

  /** `encode_ssl_tlv_value` */
  function EncodeSsl(ssl: SslInfo): Option<bytes>
  {
    var subs := SubEntries(SslFields(ssl));
    if AllFit(subs) then Some([ssl.clientFlags] + VerifyBytes(ssl.verified) + EncodeAll(subs)) else None
  }

  // The binary header

  function ZeroBytes(n: nat): (z: bytes)
    ensures |z| == n && forall i :: 0 <= i < n ==> z[i] == 0
  {
    seq(n, i => 0)
  }

  const UNIX_FIELD: nat := 108

  /** A path cut or padded with zeros to the size of its field. */
  function PathField(path: bytes): (field: bytes)
    ensures |field| == UNIX_FIELD
  {
    if |path| >= UNIX_FIELD then path[..UNIX_FIELD] else path + ZeroBytes(UNIX_FIELD - |path|)
  }

  /** `encode_addresses` */
  function EncodeAddresses(source: Option<ProxyAddress>, destination: Option<ProxyAddress>): bytes
  {
    match (source, destination)
    case (Some(InetAddress(SocketAddr(V4(s), sp))),
          Some(InetAddress(SocketAddr(V4(d), dp)))) => s + d + Be16(sp) + Be16(dp)
    case (Some(InetAddress(SocketAddr(V6(s), sp))),
          Some(InetAddress(SocketAddr(V6(d), dp)))) => s + d + Be16(sp) + Be16(dp)
    case (Some(UnixPath(s)), Some(UnixPath(d))) => PathField(s) + PathField(d)
    case _ => []
  }

  function VerCmd(command: Command): byte
  {
    match command
    case Local => 0x20
    case Proxy => 0x21
  }

  function FamProto(transport: Option<Transport>): byte
  {
    match transport
    case None => 0
    case Some(t) =>
      (match t.family case Inet => 0x10 case Inet6 => 0x20 case Unix => 0x30)
      + (match t.protocol case Stream => 1 case Datagram => 2)
  }

  /** A fixed part that announces the payload, and the payload. */
  function Assemble(verCmd: byte, famProto: byte, payload: bytes): (h: V2.Header)
    requires |payload| <= U16_MAX
    ensures |h| == V2.HEADER_LEN + |payload|
  {
    V2.SIGNATURE + [verCmd, famProto] + Be16(|payload|) + payload
  }

  const CRC_PLACEHOLDER: RawTlv := RawTlv(0x03, [0, 0, 0, 0])

  function PlannedEntries(p: Plan): seq<RawTlv>
  {
    p.entries + if p.addCrc32c then [CRC_PLACEHOLDER] else []
  }

  function AddressBlock(p: Plan): bytes
  {
    match p.command
    case Local => []
    case Proxy => EncodeAddresses(p.source, p.destination)
  }

  /** Within the limits of the 16-bit length fields. */
  predicate Buildable(p: Plan)
  {
    AllFit(PlannedEntries(p)) && |AddressBlock(p)| + |EncodeAll(PlannedEntries(p))| <= U16_MAX
  }

  /** The header with its checksum, if any, still zero. */
  function Unsealed(p: Plan): V2.Header
    requires Buildable(p)
  {
    Assemble(VerCmd(p.command), FamProto(p.transport), AddressBlock(p) + EncodeAll(PlannedEntries(p)))
  }

  /** Fills in the checksum in the last four bytes. */
  function Seal(h: bytes): (s: bytes)
    requires |h| >= 4
    ensures |s| == |h|
  {
    h[..|h| - 4] + Be32(Crc32c.Checksum(h))
  }

  /** What `build_v2` returns. */
  function BuildV2(p: Plan): Option<bytes>
  {
    if !Buildable(p) then None
    else if p.addCrc32c then Some(Seal(Unsealed(p)))
    else Some(Unsealed(p))
  }

  // The methods that append to a growing buffer

  /** `encode_sub_tlv` */
  method EncodeSubTlv(buf: bytes, kind: byte, value: bytes) returns (r: Option<bytes>)
    ensures r == if Fits(RawTlv(kind, value)) then Some(buf + Encode(RawTlv(kind, value))) else None
  {
    if |value| > U16_MAX {
      return None;
    }
    var out := buf;
    out := out + [kind];
    out := out + Be16(|value|);
    out := out + value;
    assert out == buf + Encode(RawTlv(kind, value));
    return Some(out);
  }

  /** One optional field added to what has been written, unless writing has already panicked. */
  function Added(buf: Option<bytes>, f: SubField): Option<bytes>
  {
    if buf.None? || f.value.None? then buf
    else if Fits(RawTlv(f.kind, f.value.value)) then Some(buf.value + Encode(RawTlv(f.kind, f.value.value)))
    else None
  }

  method EncodeOptional(buf: Option<bytes>, kind: byte, value: Option<bytes>) returns (r: Option<bytes>)
    ensures r == Added(buf, SubField(kind, value))
  {
    if buf.None? || value.None? {
      r := buf;
    } else {
      r := EncodeSubTlv(buf.value, kind, value.value);
    }
  }

  ghost function AddedAll(buf: bytes, fields: seq<SubField>): Option<bytes>
  {
    if fields == [] then Some(buf) else Added(AddedAll(buf, fields[..|fields| - 1]), fields[|fields| - 1])
  }

  /** Adding optional fields one by one writes the entries of those that are there. */
  lemma {:induction false} AddedAllIs(buf: bytes, fields: seq<SubField>)
    ensures AddedAll(buf, fields)
         == if AllFit(SubEntries(fields)) then Some(buf + EncodeAll(SubEntries(fields))) else None
  {
    if fields == [] {
      assert buf + [] == buf;
    } else {
      var n := |fields| - 1;
      AddedAllIs(buf, fields[..n]);
      AddedOne(buf, SubEntries(fields[..n]), fields[n]);
    }
  }

  lemma AddedOne(buf: bytes, before: seq<RawTlv>, f: SubField)
    ensures var all := before + Optional(f.kind, f.value);
            Added(if AllFit(before) then Some(buf + EncodeAll(before)) else None, f)
            == if AllFit(all) then Some(buf + EncodeAll(all)) else None
  {
    if f.value.None? {
      assert before + [] == before;
    } else {
      var e := RawTlv(f.kind, f.value.value);
      AllFitSnoc(before, e);
      if AllFit(before) && Fits(e) {
        EncodeSnoc(before, e);
        Regroup(buf, EncodeAll(before), Encode(e));
      }
    }
  }

  lemma AddedNext(buf: bytes, fields: seq<SubField>, k: nat)
    requires k < |fields|
    ensures AddedAll(buf, fields[..k + 1]) == Added(AddedAll(buf, fields[..k]), fields[k])
  {
    assert fields[..k + 1][..k] == fields[..k];
  }

  lemma AllFitSnoc(es: seq<RawTlv>, e: RawTlv)
    ensures AllFit(es + [e]) <==> AllFit(es) && Fits(e)
  {
    if AllFit(es + [e]) {
      assert (es + [e])[|es|] == e;
      assert forall i :: 0 <= i < |es| ==> es[i] == (es + [e])[i];
    }
  }

  lemma EncodeSnoc(es: seq<RawTlv>, e: RawTlv)
    requires AllFit(es) && Fits(e)
    ensures AllFit(es + [e]) && EncodeAll(es + [e]) == EncodeAll(es) + Encode(e)
  {
    EncodeAllConcat(es, [e]);
    assert EncodeAll([e]) == Encode(e) + EncodeAll([]);
  }

  lemma AddedEight(buf: bytes, f: seq<SubField>)
    requires |f| == 8
    ensures AddedAll(buf, f)
         == Added(Added(Added(Added(Added(Added(Added(Added(Some(buf), f[0]), f[1]), f[2]), f[3]), f[4]), f[5]), f[6]),
                  f[7])
  {
    assert f[..0] == [] && f[..8] == f;
    AddedNext(buf, f, 0);
    AddedNext(buf, f, 1);
    AddedNext(buf, f, 2);
    AddedNext(buf, f, 3);
    AddedNext(buf, f, 4);
    AddedNext(buf, f, 5);
    AddedNext(buf, f, 6);
    AddedNext(buf, f, 7);
  }

  /** `encode_ssl_tlv_value` */
  method EncodeSslTlvValue(ssl: SslInfo) returns (r: Option<bytes>)
    ensures r == EncodeSsl(ssl)
  {
    r := Some([ssl.clientFlags] + VerifyBytes(ssl.verified));
    r := EncodeOptional(r, 0x21, ssl.version);
    r := EncodeOptional(r, 0x22, ssl.cn);
    r := EncodeOptional(r, 0x23, ssl.cipher);
    r := EncodeOptional(r, 0x24, ssl.sigAlg);
    r := EncodeOptional(r, 0x25, ssl.keyAlg);
    r := EncodeOptional(r, 0x26, ssl.group);
    r := EncodeOptional(r, 0x27, ssl.sigScheme);
    r := EncodeOptional(r, 0x28, ssl.clientCert);
    AddedEight([ssl.clientFlags] + VerifyBytes(ssl.verified), SslFields(ssl));
    AddedAllIs([ssl.clientFlags] + VerifyBytes(ssl.verified), SslFields(ssl));
  }

  /** A zeroed 108-byte array with as much of the path as fits copied in. */
  method FillPathField(path: bytes) returns (field: bytes)
    ensures field == PathField(path)
  {
    var a := new byte[UNIX_FIELD](i => 0);
    var n := if |path| < UNIX_FIELD then |path| else UNIX_FIELD;
    forall i | 0 <= i < n {
      a[i] := path[i];
    }
    field := a[..];
  }

  // Back-patching

  /** The fixed part with the length still zero. */
  function Start(verCmd: byte, famProto: byte): (b: bytes)
    ensures |b| == V2.HEADER_LEN
  {
    V2.SIGNATURE + [verCmd, famProto] + [0, 0]
  }

  lemma PatchLength(verCmd: byte, famProto: byte, payload: bytes)
    requires |payload| <= U16_MAX
    ensures var buf := Start(verCmd, famProto) + payload;
            buf[..14] + Be16(|payload|) + buf[16..] == Assemble(verCmd, famProto, payload)
  {
    var buf := Start(verCmd, famProto) + payload;
    assert buf[..14] == V2.SIGNATURE + [verCmd, famProto];
    assert buf[16..] == payload;
  }

  lemma PatchCrc(h: bytes)
    requires |h| >= 4
    ensures h[..|h| - 4] + Be32(Crc32c.Checksum(h)) + h[|h| - 4 + 4..] == Seal(h)
  {
    assert h[|h|..] == [];
  }

  lemma PlannedSplit(p: Plan)
    ensures AllFit(PlannedEntries(p)) <==> AllFit(p.entries)
    ensures AllFit(p.entries) ==> EncodeAll(PlannedEntries(p))
                                  == EncodeAll(p.entries) + if p.addCrc32c then Encode(CRC_PLACEHOLDER) else []
  {
    if p.addCrc32c {
      AllFitSnoc(p.entries, CRC_PLACEHOLDER);
      if AllFit(p.entries) {
        EncodeSnoc(p.entries, CRC_PLACEHOLDER);
      }
    } else {
      assert p.entries + [] == p.entries;
      if AllFit(p.entries) {
        assert EncodeAll(p.entries) + [] == EncodeAll(p.entries);
      }
    }
  }

  lemma Appended(start: bytes, p: Plan)
    requires AllFit(p.entries) && AllFit(PlannedEntries(p))
    ensures var written := (start + AddressBlock(p)) + EncodeAll(p.entries);
            start + (AddressBlock(p) + EncodeAll(PlannedEntries(p)))
            == if p.addCrc32c then written + Encode(CRC_PLACEHOLDER) else written
  {
    var a, e, c := AddressBlock(p), EncodeAll(p.entries), if p.addCrc32c then Encode(CRC_PLACEHOLDER) else [];
    PlannedSplit(p);
    Regroup(start, a, e);
    Regroup(start, a + e, c);
    Regroup(a, e, c);
    assert e + [] == e;
  }

  class HeaderBuilder {
    var version: Version
    var command: Command
    var transport: Option<Transport>
    var source: Option<ProxyAddress>
    var destination: Option<ProxyAddress>
    var tlvEntries: seq<RawTlv>
    var addCrc32c: bool

    function View(): Plan
      reads this
    {
      Plan(version, command, transport, source, destination, tlvEntries, addCrc32c)
    }

    ghost predicate Valid()
      reads this
    {
      Consistent(View())
    }

    /** Panics, in Rust, if the addresses are of different families. */
    constructor V2Proxy(src: SocketAddr, dst: SocketAddr)
      requires src.ip.V4? == dst.ip.V4?
      ensures Valid()
      ensures View() == Plan(Version2, Proxy, Some(Transport(if src.ip.V4? then Inet else Inet6, Stream)),
                             Some(InetAddress(src)), Some(InetAddress(dst)), [], false)
    {
      version := Version2;
      command := Proxy;
      transport := Some(Transport(if src.ip.V4? then Inet else Inet6, Stream));
      source := Some(InetAddress(src));
      destination := Some(InetAddress(dst));
      tlvEntries := [];
      addCrc32c := false;
    }

    constructor V2Local()
      ensures Valid()
      ensures View() == Plan(Version2, Local, None, None, None, [], false)
    {
      version := Version2;
      command := Local;
      transport := None;
      source := None;
      destination := None;
      tlvEntries := [];
      addCrc32c := false;
    }

    /** Panics, in Rust, if the addresses are of different families. */
    constructor V1Proxy(src: SocketAddr, dst: SocketAddr)
      requires src.ip.V4? == dst.ip.V4?
      ensures Valid()
      ensures View() == Plan(Version1, Proxy, Some(Transport(if src.ip.V4? then Inet else Inet6, Stream)),
                             Some(InetAddress(src)), Some(InetAddress(dst)), [], false)
    {
      version := Version1;
      command := Proxy;
      transport := Some(Transport(if src.ip.V4? then Inet else Inet6, Stream));
      source := Some(InetAddress(src));
      destination := Some(InetAddress(dst));
      tlvEntries := [];
      addCrc32c := false;
    }

    constructor V1Unknown()
      ensures Valid()
      ensures View() == Plan(Version1, Proxy, None, None, None, [], false)
    {
      version := Version1;
      command := Proxy;
      transport := None;
      source := None;
      destination := None;
      tlvEntries := [];
      addCrc32c := false;
    }

    constructor V2Unix(src: bytes, dst: bytes, protocol: TransportProtocol)
      ensures Valid()
      ensures View() == Plan(Version2, Proxy, Some(Transport(Unix, protocol)), Some(UnixPath(src)),
                             Some(UnixPath(dst)), [], false)
    {
      version := Version2;
      command := Proxy;
      transport := Some(Transport(Unix, protocol));
      source := Some(UnixPath(src));
      destination := Some(UnixPath(dst));
      tlvEntries := [];
      addCrc32c := false;
    }

    method WithTransportProtocol(protocol: TransportProtocol)
      requires Valid()
      modifies this
      ensures Valid()
      ensures View() == if old(transport).None? then old(View())
                        else old(View()).(transport := Some(Transport(old(transport).value.family, protocol)))
    {
      if transport.Some? {
        transport := Some(Transport(transport.value.family, protocol));
      }
    }

    /** `with_raw_tlv`; `with_alpn`, `with_authority` and `with_netns` are this with types 0x01, 0x02 and 0x30. */
    method WithRawTlv(kind: byte, value: bytes)
      requires Valid()
      modifies this
      ensures Valid()
      ensures View() == old(View()).(entries := old(tlvEntries) + [RawTlv(kind, value)])
    {
      tlvEntries := tlvEntries + [RawTlv(kind, value)];
    }

    /** Panics, in Rust, if the identifier is longer than 128 bytes. */
    method WithUniqueId(id: bytes)
      requires Valid() && |id| <= 128
      modifies this
      ensures Valid()
      ensures View() == old(View()).(entries := old(tlvEntries) + [RawTlv(0x05, id)])
      ensures Faultless(Fault, old(tlvEntries)) ==> Faultless(Fault, tlvEntries)
    {
      tlvEntries := tlvEntries + [RawTlv(0x05, id)];
    }

    /** Panics, in Rust, if a field of `ssl` is longer than 65535 bytes; then nothing is added here. */
    method WithSsl(ssl: SslInfo) returns (ok: bool)
      requires Valid()
      modifies this
      ensures Valid() && ok == EncodeSsl(ssl).Some?
      ensures View() == if ok then old(View()).(entries := old(tlvEntries) + [RawTlv(0x20, EncodeSsl(ssl).value)])
              else old(View())
    {
      var value := EncodeSslTlvValue(ssl);
      ok := value.Some?;
      if ok {
        tlvEntries := tlvEntries + [RawTlv(0x20, value.value)];
      }
    }

    method WithPadding(len: u16)
      requires Valid()
      modifies this
      ensures Valid()
      ensures View() == old(View()).(entries := old(tlvEntries) + [RawTlv(0x04, ZeroBytes(len))])
    {
      tlvEntries := tlvEntries + [RawTlv(0x04, ZeroBytes(len))];
    }

    method WithCrc32c()
      requires Valid()
      modifies this
      ensures Valid()
      ensures View() == old(View()).(addCrc32c := true)
    {
      addCrc32c := true;
    }

    /** `encode_addresses` */
    method AppendAddresses(buf: bytes) returns (out: bytes)
      ensures out == buf + EncodeAddresses(source, destination)
    {
      out := buf;
      match (source, destination) {
        case (Some(InetAddress(SocketAddr(V4(s), sp))), Some(InetAddress(SocketAddr(V4(d), dp)))) =>
          out := out + s;
          out := out + d;
          out := out + Be16(sp);
          out := out + Be16(dp);
          assert out == buf + (s + d + Be16(sp) + Be16(dp));
        case (Some(InetAddress(SocketAddr(V6(s), sp))), Some(InetAddress(SocketAddr(V6(d), dp)))) =>
          out := out + s;
          out := out + d;
          out := out + Be16(sp);
          out := out + Be16(dp);
          assert out == buf + (s + d + Be16(sp) + Be16(dp));
        case (Some(UnixPath(s)), Some(UnixPath(d))) =>
          var field := FillPathField(s);
          out := out + field;
          field := FillPathField(d);
          out := out + field;
          assert out == buf + (PathField(s) + PathField(d));
        case _ =>
          assert out == buf + [];
      }
    }

    /** The loop of `build_v2` over the entries, each checked against the 16-bit length field. */
    method AppendEntries(buf: bytes) returns (r: Option<bytes>)
      ensures r == if AllFit(tlvEntries) then Some(buf + EncodeAll(tlvEntries)) else None
    {
      var out := buf;
      var i := 0;
      while i < |tlvEntries|
        invariant 0 <= i <= |tlvEntries|
        invariant AllFit(tlvEntries[..i]) && out == buf + EncodeAll(tlvEntries[..i])
      {
        var e := tlvEntries[i];
        assert tlvEntries[..i + 1] == tlvEntries[..i] + [e];
        if |e.value| > U16_MAX {
          return None;
        }
        EncodeSnoc(tlvEntries[..i], e);
        Regroup(buf, EncodeAll(tlvEntries[..i]), Encode(e));
        out := out + Encode(e);
        i := i + 1;
      }
      assert tlvEntries[..|tlvEntries|] == tlvEntries;
      return Some(out);
    }

    /** The first 16 bytes, with a placeholder for the length. */
    method StartBytes() returns (buf: bytes)
      ensures buf == Start(VerCmd(command), FamProto(transport))
    {
      buf := V2.SIGNATURE;
      buf := buf + [0x20 + match command { case Local => 0x00 case Proxy => 0x01 }];
      var famProto := 0;
      if transport.Some? {
        var fam := match transport.value.family { case Inet => 1 case Inet6 => 2 case Unix => 3 };
        var proto := match transport.value.protocol { case Stream => 1 case Datagram => 2 };
        famProto := 16 * fam + proto;
      }
      buf := buf + [famProto];
      buf := buf + [0, 0];
    }

    /** The fixed part, addresses and entries, with the length and the checksum still zero. */
    method AppendAll() returns (r: Option<bytes>)
      requires Valid()
      ensures var p := View();
              r == if AllFit(PlannedEntries(p))
                   then Some(Start(VerCmd(command), FamProto(transport))
                             + (AddressBlock(p) + EncodeAll(PlannedEntries(p))))
                   else None
    {
      var buf := StartBytes();
      ghost var start := buf;
      if command == Proxy {
        buf := AppendAddresses(buf);
      }
      assert buf == start + AddressBlock(View());
      PlannedSplit(View());
      r := AppendEntries(buf);
      if r.Some? {
        Appended(start, View());
      }
      if r.Some? && addCrc32c {
        r := Some(r.value + Encode(RawTlv(0x03, [0, 0, 0, 0])));
      }
    }

    /** `build_v2`: appends everything, then patches the length in, then the checksum over the result. */
    method BuildV2Bytes() returns (r: Option<bytes>)
      requires Valid()
      ensures r == BuildV2(View())
    {
      var lenPos := 14;
      r := AppendAll();
      if r.None? {
        return None;
      }
      var buf := r.value;
      var payloadLen := |buf| - 16;
      if payloadLen > U16_MAX {
        return None;
      }
      PatchLength(VerCmd(command), FamProto(transport), AddressBlock(View()) + EncodeAll(PlannedEntries(View())));
      buf := buf[..lenPos] + Be16(payloadLen) + buf[lenPos + 2..];
      if addCrc32c {
        var crc := Crc32c.Checksum(buf);
        var crcPos := |buf| - 4;
        PatchCrc(buf);
        buf := buf[..crcPos] + Be32(crc) + buf[crcPos + 4..];
      }
      return Some(buf);
    }

    /** `build` */
    method Build() returns (r: Option<bytes>)
      requires Valid()
      ensures r == match version
                   case Version1 => Some(BuildV1(View()))
                   case Version2 => BuildV2(View())
    {
      match version {
        case Version1 => r := Some(BuildV1(View()));
        case Version2 => r := BuildV2Bytes();
      }
    }
  }
}
