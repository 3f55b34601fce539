/** The parser reads back what the builder writes, and the builder writes again what the parser has read. */
module RoundTrip {
  import opened Octets
  import opened Types
  import opened Tlv
  import opened Builder
  import Crc32c
  import IpText
  import Parser
  import Utf8
  import V1
  import V2

  // Text headers

  /** Printable ASCII: no line end, and valid UTF-8. */
  predicate Printable(s: bytes)
  {
    forall i :: 0 <= i < |s| ==> 0x20 <= s[i] < 0x80
  }

  lemma {:induction false} JoinedPrintable(fields: seq<bytes>)
    requires fields != [] && forall i :: 0 <= i < |fields| ==> Printable(fields[i])
    ensures Printable(V1.Joined(fields))
  {
    if |fields| > 1 {
      JoinedPrintable(fields[1..]);
    }
  }

  lemma JoinedLength(fields: seq<bytes>)
    requires |fields| == 6
    ensures |V1.Joined(fields)| == |fields[0]| + |fields[1]| + |fields[2]| + |fields[3]| + |fields[4]| + |fields[5]| + 5
  {
    assert V1.Joined(fields[5..]) == fields[5];
    assert |V1.Joined(fields[4..])| == |fields[4]| + 1 + |V1.Joined(fields[5..])| by {
      assert fields[4..][1..] == fields[5..];
    }
    assert |V1.Joined(fields[3..])| == |fields[3]| + 1 + |V1.Joined(fields[4..])| by {
      assert fields[3..][1..] == fields[4..];
    }
    assert |V1.Joined(fields[2..])| == |fields[2]| + 1 + |V1.Joined(fields[3..])| by {
      assert fields[2..][1..] == fields[3..];
    }
    assert |V1.Joined(fields[1..])| == |fields[1]| + 1 + |V1.Joined(fields[2..])| by {
      assert fields[1..][1..] == fields[2..];
    }
  }

  lemma PlainPrintable(s: bytes)
    requires IpText.Plain(s)
    ensures Printable(s)
  {
  }

  lemma LinePrintable(family: AddressFamily, src: SocketAddr, dst: SocketAddr)
    requires V1.OfFamily(family, src.ip) && V1.OfFamily(family, dst.ip)
    ensures Printable(V1.Joined(V1.LineFields(family, src, dst)))
    ensures |V1.Joined(V1.LineFields(family, src, dst))| <= 102
  {
    var fields := V1.LineFields(family, src, dst);
    IpText.PrintPlain(src.ip);
    IpText.PrintPlain(dst.ip);
    IpText.DigitsPlain(src.port, 10);
    IpText.DigitsPlain(dst.port, 10);
    IpText.DecimalLength(src.port);
    IpText.DecimalLength(dst.port);
    PlainPrintable(IpText.Print(src.ip));
    PlainPrintable(IpText.Print(dst.ip));
    PlainPrintable(IpText.Digits(src.port, 10));
    PlainPrintable(IpText.Digits(dst.port, 10));
    JoinedPrintable(fields);
    JoinedLength(fields);
  }

  /** A printable line is found and read, whatever follows it. */
  lemma OnPrintedLine(read: Parser.LineReader, line: bytes, rest: bytes)
    requires Printable(line) && |line| + 2 <= V1.MAX_LEN
    ensures V1.OnLine(read, line + V1.CRLF + rest)
         == match read(line)
            case Err(e) => Err(e)
            case Ok(info) => Ok(Parsed(info, |line| + 2))
  {
    var buf := line + V1.CRLF + rest;
    var w := V1.Window(buf);
    assert w[|line|] == V1.CR && w[|line| + 1] == V1.LF;
    assert forall i :: 0 <= i < |line| ==> w[i] == line[i];
    V1.FindCrlfIs(w, |line|);
    assert buf[..|line|] == line;
  }

  function V1Info(p: Plan): ProxyInfo
    requires Consistent(p) && p.version == Version1
  {
    if p.transport.None? then V1.Unknown()
    else V1.Known(p.transport.value.family, p.source.value.addr, p.destination.value.addr)
  }

  /** A line that is found, and that `read` reads as `info`. */
  predicate Reads(read: Parser.LineReader, line: bytes, info: ProxyInfo)
  {
    Printable(line) && |line| <= 102 && Parser.V1_START <= line && read(line) == Ok(info)
  }

  /** `parse` makes of a printed line, whatever follows it, what `read` makes of it. */
  ghost predicate Follows(read: Parser.LineReader, parse: bytes -> ParseResult)
  {
    forall line, rest | Printable(line) && |line| + 2 <= V1.MAX_LEN && Parser.V1_START <= line ::
      parse(line + V1.CRLF + rest)
      == match read(line)
         case Err(e) => Err(e)
         case Ok(info) => Ok(Parsed(info, |line| + 2))
  }

  lemma KnownLineReads(f: AddressFamily, src: SocketAddr, dst: SocketAddr)
    requires V1.OfFamily(f, src.ip) && V1.OfFamily(f, dst.ip)
    ensures Reads(V1.ReadLine, V1.Joined(V1.LineFields(f, src, dst)), V1.Known(f, src, dst))
  {
    var line := V1.Joined(V1.LineFields(f, src, dst));
    LinePrintable(f, src, dst);
    Utf8.AsciiIsValid(line);
    V1.ParseLineJoined(f, src, dst);
    assert line == V1.PROXY + ([V1.SPACE] + V1.Joined(V1.LineFields(f, src, dst)[1..]));
  }

  lemma UnknownLineReads()
    ensures Reads(V1.ReadLine, V1.PROXY + [V1.SPACE] + V1.UNKNOWN, V1.Unknown())
  {
    Utf8.AsciiIsValid(V1.PROXY + [V1.SPACE] + V1.UNKNOWN);
  }

  lemma V1LineReads(p: Plan)
    requires Consistent(p) && p.version == Version1
    ensures Reads(V1.ReadLine, V1Line(p), V1Info(p))
  {
    if p.transport.Some? {
      KnownLineReads(p.transport.value.family, p.source.value.addr, p.destination.value.addr);
    } else {
      UnknownLineReads();
    }
  }

  lemma DispatchPrintedLine(readLine: Parser.LineReader, readHeader: Parser.HeaderReader,
                            line: bytes, rest: bytes)
    requires Printable(line) && |line| + 2 <= V1.MAX_LEN && Parser.V1_START <= line
    ensures Parser.Dispatch(readLine, readHeader, line + V1.CRLF + rest)
         == match readLine(line)
            case Err(e) => Err(e)
            case Ok(info) => Ok(Parsed(info, |line| + 2))
  {
    assert Parser.V1_START <= line + V1.CRLF + rest;
    OnPrintedLine(readLine, line, rest);
  }

  lemma ParseFollows()
    ensures Follows(V1.ReadLine, Parser.Parse)
  {
    forall line, rest | Printable(line) && |line| + 2 <= V1.MAX_LEN && Parser.V1_START <= line
      ensures Parser.Parse(line + V1.CRLF + rest)
           == match V1.ReadLine(line)
              case Err(e) => Err(e)
              case Ok(info) => Ok(Parsed(info, |line| + 2))
    {
      DispatchPrintedLine(V1.ReadLine, V2.ParseComplete, line, rest);
    }
  }

  /** What there is to say of a line `b` with its end that is read as `info`. */
  predicate TextHeader(parse: bytes -> ParseResult, b: bytes, info: ProxyInfo, rest: bytes)
  {
    && 2 <= |b| <= 104 <= V1.MAX_LEN
    && (forall i :: 0 <= i < |b| - 2 ==> b[i] != V1.CR) && b[|b| - 2..] == V1.CRLF
    && parse(b + rest) == Ok(Parsed(info, |b|))
  }

  lemma LineIsTextHeader(read: Parser.LineReader, parse: bytes -> ParseResult, line: bytes, info: ProxyInfo,
                         rest: bytes)
    requires Reads(read, line, info) && Follows(read, parse)
    ensures TextHeader(parse, line + V1.CRLF, info, rest)
  {
    LineShape(line);
  }

  /** For every text header the builder writes: it is at most 104 bytes long, its only CR is the one at its end, and
      parsing it, followed by anything, gives back the addresses and ports and takes exactly its bytes. */
  lemma V1RoundTrip(p: Plan, rest: bytes)
    requires Consistent(p) && p.version == Version1
    ensures |BuildV1(p)| <= 104 <= V1.MAX_LEN
    ensures forall i :: 0 <= i < |BuildV1(p)| - 2 ==> BuildV1(p)[i] != V1.CR
    ensures BuildV1(p)[|BuildV1(p)| - 2..] == V1.CRLF
    ensures Parser.Parse(BuildV1(p) + rest) == Ok(Parsed(V1Info(p), |BuildV1(p)|))
  {
    V1LineReads(p);
    ParseFollows();
    LineIsTextHeader(V1.ReadLine, Parser.Parse, V1Line(p), V1Info(p), rest);
  }

  const FULL: SocketAddr := SocketAddr(V6([255, 255, 255, 255, 255, 255, 255, 255, 255, 255, 255, 255, 255, 255, 255,
                                           255]), 65535)

  const LONGEST: Plan := Plan(Version1, Proxy, Some(Transport(Inet6, Stream)), Some(InetAddress(FULL)),
                              Some(InetAddress(FULL)), [], false)

  /** The bound is attained: the line of the text header with the longest addresses and ports. */
  lemma LongestLine()
    ensures Consistent(LONGEST) && |BuildV1(LONGEST)| == 104
  {
    IpText.PrintFull(FULL.ip);
    IpText.FullPort();
    JoinedLength(V1.LineFields(Inet6, FULL, FULL));
  }

  lemma LineShape(line: bytes)
    requires Printable(line)
    ensures var b := line + V1.CRLF;
            (forall i :: 0 <= i < |b| - 2 ==> b[i] != V1.CR) && b[|b| - 2..] == V1.CRLF
  {
  }

  // SSL entries

  predicate DistinctKinds(fields: seq<SubField>)
  {
    forall i, j :: 0 <= i < j < |fields| ==> fields[i].kind != fields[j].kind
  }

  lemma {:induction false} NoneOfKind(fields: seq<SubField>, kind: byte)
    requires forall i :: 0 <= i < |fields| ==> fields[i].kind != kind
    ensures LastValue(SubEntries(fields), kind) == None
  {
    if fields != [] {
      var last := fields[|fields| - 1];
      var before := SubEntries(fields[..|fields| - 1]);
      NoneOfKind(fields[..|fields| - 1], kind);
      AppendOptional(before, last, kind);
    }
  }

  lemma AppendOptional(before: seq<RawTlv>, field: SubField, kind: byte)
    ensures LastValue(before + Optional(field.kind, field.value), kind)
         == if field.kind == kind && field.value.Some? then field.value else LastValue(before, kind)
  {
    if field.value.Some? {
      LastValueAppend(before, RawTlv(field.kind, field.value.value), kind);
    } else {
      assert before + [] == before;
    }
  }

  /** Any subset of the optional fields can be told apart again. */
  lemma {:induction false} FieldFound(fields: seq<SubField>, i: nat)
    requires i < |fields| && DistinctKinds(fields)
    ensures LastValue(SubEntries(fields), fields[i].kind) == fields[i].value
  {
    var n := |fields| - 1;
    AppendOptional(SubEntries(fields[..n]), fields[n], fields[i].kind);
    if i == n {
      NoneOfKind(fields[..n], fields[n].kind);
    } else {
      FieldFound(fields[..n], i);
    }
  }

  /** The text of a field that is a string is that string. */
  lemma TextBack(v: Option<Utf8.utf8>)
    ensures Text(v) == v
  {
  }

  /** A record from the last values of its fields. */
  lemma SslFromValues(ssl: SslInfo, verify: bytes, subs: seq<RawTlv>)
    requires (verify == [0, 0, 0, 0]) == ssl.verified
    requires LastValue(subs, 0x21) == ssl.version && LastValue(subs, 0x22) == ssl.cn
             && LastValue(subs, 0x23) == ssl.cipher
    requires LastValue(subs, 0x24) == ssl.sigAlg && LastValue(subs, 0x25) == ssl.keyAlg
             && LastValue(subs, 0x26) == ssl.group
    requires LastValue(subs, 0x27) == ssl.sigScheme && LastValue(subs, 0x28) == ssl.clientCert
    ensures SslFrom(ssl.clientFlags, verify, subs) == ssl.(clientFlags := ssl.clientFlags % 8)
  {
    TextBack(ssl.version);
    TextBack(ssl.cn);
    TextBack(ssl.cipher);
    TextBack(ssl.sigAlg);
    TextBack(ssl.keyAlg);
    TextBack(ssl.group);
    TextBack(ssl.sigScheme);
  }

  lemma EightFields(ssl: SslInfo, verify: bytes, fields: seq<SubField>)
    requires |fields| == 8 && DistinctKinds(fields) && (verify == [0, 0, 0, 0]) == ssl.verified
    requires fields[0] == SubField(0x21, ssl.version) && fields[1] == SubField(0x22, ssl.cn)
    requires fields[2] == SubField(0x23, ssl.cipher) && fields[3] == SubField(0x24, ssl.sigAlg)
    requires fields[4] == SubField(0x25, ssl.keyAlg) && fields[5] == SubField(0x26, ssl.group)
    requires fields[6] == SubField(0x27, ssl.sigScheme) && fields[7] == SubField(0x28, ssl.clientCert)
    ensures SslFrom(ssl.clientFlags, verify, SubEntries(fields)) == ssl.(clientFlags := ssl.clientFlags % 8)
  {
    FieldFound(fields, 0);
    FieldFound(fields, 1);
    FieldFound(fields, 2);
    FieldFound(fields, 3);
    FieldFound(fields, 4);
    FieldFound(fields, 5);
    FieldFound(fields, 6);
    FieldFound(fields, 7);
    SslFromValues(ssl, verify, SubEntries(fields));
  }

  lemma SslFromFields(ssl: SslInfo)
    ensures SslFrom(ssl.clientFlags, VerifyBytes(ssl.verified), SubEntries(SslFields(ssl)))
         == ssl.(clientFlags := ssl.clientFlags % 8)
  {
    EightFields(ssl, VerifyBytes(ssl.verified), SslFields(ssl));
  }

  lemma CompleteSubsRead(subs: seq<RawTlv>, at: nat)
    requires AllFit(subs)
    ensures FirstBad(SubFault, EncodeAll(subs), at) == None && Unframe(EncodeAll(subs)).entries == subs
  {
    assert EncodeAll(subs) + [] == EncodeAll(subs);
    FirstBadAfter(SubFault, subs, [], at);
    UnframeEncoded(subs, []);
  }

  lemma SslValueParts(ssl: SslInfo)
    requires EncodeSsl(ssl).Some?
    ensures var v := EncodeSsl(ssl).value;
            && |v| >= 5 && v[0] == ssl.clientFlags && v[1..5] == VerifyBytes(ssl.verified)
            && AllFit(SubEntries(SslFields(ssl))) && v[5..] == EncodeAll(SubEntries(SslFields(ssl)))
  {
  }

  lemma ParseSslOf(v: bytes, client: byte, verify: bytes, subs: seq<RawTlv>, offset: nat)
    requires |v| >= 5 && v[0] == client && v[1..5] == verify && AllFit(subs) && v[5..] == EncodeAll(subs)
    ensures ParseSsl(v, offset) == Ok(SslFrom(client, verify, subs))
    ensures Fault(RawTlv(0x20, v)).None?
  {
    CompleteSubsRead(subs, offset + 5);
    CompleteSubsRead(subs, 8);
  }

  /** Every SSL record whose fields fit their length fields is read back as it was written, but for flag bits that have
      no meaning, which are dropped; and the entry that carries it has no fault. */
  lemma SslRoundTrip(ssl: SslInfo, offset: nat)
    requires EncodeSsl(ssl).Some?
    ensures |EncodeSsl(ssl).value| >= 5
    ensures ParseSsl(EncodeSsl(ssl).value, offset) == Ok(ssl.(clientFlags := ssl.clientFlags % 8))
    ensures ParseSsl(EncodeSsl(ssl).value, offset) == Ok(ssl) <==> ssl.clientFlags < 8
    ensures Fault(RawTlv(0x20, EncodeSsl(ssl).value)).None?
  {
    var v := EncodeSsl(ssl).value;
    SslValueParts(ssl);
    ParseSslOf(v, ssl.clientFlags, VerifyBytes(ssl.verified), SubEntries(SslFields(ssl)), offset);
    var read := ssl.(clientFlags := ssl.clientFlags % 8);
    assert ParseSsl(v, offset) == Ok(read) by { SslFromFields(ssl); }
    assert read == ssl <==> ssl.clientFlags % 8 == ssl.clientFlags;
  }

  // Binary headers

  /** An assembled header is recognised and handed over whole, whatever follows it. */
  lemma DispatchAssembled(readLine: Parser.LineReader, readHeader: Parser.HeaderReader,
                          command: Command, famProto: byte, payload: bytes, rest: bytes)
    requires |payload| <= U16_MAX
    ensures var h := Assemble(VerCmd(command), famProto, payload);
            Parser.Dispatch(readLine, readHeader, h + rest) == readHeader(command, h)
  {
    var h := Assemble(VerCmd(command), famProto, payload);
    var buf := h + rest;
    assert V2.SIGNATURE <= buf;
    assert buf[12] == VerCmd(command) && buf[14] == Be16(|payload|)[0] && buf[15] == Be16(|payload|)[1];
    assert buf[..|h|] == h;
  }

  lemma AssembledParts(verCmd: byte, famProto: byte, payload: bytes)
    requires |payload| <= U16_MAX
    ensures var h := Assemble(verCmd, famProto, payload); h[13] == famProto && h[V2.HEADER_LEN..] == payload
  {
  }

  /** What the parser makes of an address the builder was given. */
  function Cut(a: Option<ProxyAddress>): Option<ProxyAddress>
  {
    if a.Some? && a.value.UnixPath? then
      var path := a.value.path;
      Some(UnixPath(V2.UntilNul(if |path| > UNIX_FIELD then path[..UNIX_FIELD] else path)))
    else a
  }

  lemma {:induction false} UntilNulPadded(s: bytes, zeros: bytes)
    requires forall i :: 0 <= i < |zeros| ==> zeros[i] == 0
    ensures V2.UntilNul(s + zeros) == V2.UntilNul(s)
  {
    if s == [] {
      assert s + zeros == zeros;
    } else {
      assert (s + zeros)[1..] == s[1..] + zeros;
      UntilNulPadded(s[1..], zeros);
    }
  }

  lemma PathCut(path: bytes)
    ensures Cut(Some(UnixPath(path))) == Some(UnixPath(V2.UntilNul(PathField(path))))
  {
    if |path| < UNIX_FIELD {
      UntilNulPadded(path, ZeroBytes(UNIX_FIELD - |path|));
    } else if |path| == UNIX_FIELD {
      assert path[..UNIX_FIELD] == path;
    }
  }

  lemma DecodeInet(t: Transport, src: SocketAddr, dst: SocketAddr, tail: bytes)
    requires (t.family == Inet && src.ip.V4? && dst.ip.V4?) || (t.family == Inet6 && src.ip.V6? && dst.ip.V6?)
    ensures var a := EncodeAddresses(Some(InetAddress(src)), Some(InetAddress(dst)));
            && |a| == V2.AddressLen(t.family)
            && V2.DecodeAddresses(t, a + tail)
              == V2.Addressing(Some(t), Some(InetAddress(src)), Some(InetAddress(dst)), |a|)
  {
    var payload := EncodeAddresses(Some(InetAddress(src)), Some(InetAddress(dst))) + tail;
    var n := if t.family == Inet then 4 else 16;
    assert payload[0..n] == if t.family == Inet then src.ip.v4 else src.ip.v6;
    assert payload[n..2 * n] == if t.family == Inet then dst.ip.v4 else dst.ip.v6;
    assert payload[2 * n..2 * n + 2] == Be16(src.port);
    assert payload[2 * n] == Be16(src.port)[0] && payload[2 * n + 1] == Be16(src.port)[1];
    assert payload[2 * n + 2] == Be16(dst.port)[0] && payload[2 * n + 3] == Be16(dst.port)[1];
  }

  lemma DecodeUnix(t: Transport, src: bytes, dst: bytes, tail: bytes)
    requires t.family == Unix
    ensures var a := EncodeAddresses(Some(UnixPath(src)), Some(UnixPath(dst)));
            && |a| == V2.AddressLen(Unix)
            && V2.DecodeAddresses(t, a + tail)
               == V2.Addressing(Some(t), Cut(Some(UnixPath(src))), Cut(Some(UnixPath(dst))), |a|)
  {
    var payload := EncodeAddresses(Some(UnixPath(src)), Some(UnixPath(dst))) + tail;
    PathCut(src);
    PathCut(dst);
    assert payload[0..108] == PathField(src);
    assert payload[108..216] == PathField(dst);
  }

  /** The two nibbles the builder writes for a transport are the ones the parser knows it by. */
  lemma NibblesReadBack(t: Transport, payload: bytes)
    requires |payload| >= V2.AddressLen(t.family)
    ensures V2.ReadAddresses(Proxy, FamProto(Some(t)), payload) == Ok(V2.DecodeAddresses(t, payload))
  {
  }

  lemma AddressesReadBack(p: Plan, tail: bytes)
    requires Consistent(p) && p.version == Version2
    ensures V2.ReadAddresses(p.command, FamProto(p.transport), AddressBlock(p) + tail)
         == Ok(V2.Addressing(p.transport, Cut(p.source), Cut(p.destination), |AddressBlock(p)|))
  {
    if p.command == Proxy {
      ProxyAddressesReadBack(p.transport.value, p.source.value, p.destination.value, tail);
    }
  }

  lemma ProxyAddressesReadBack(t: Transport, src: ProxyAddress, dst: ProxyAddress, tail: bytes)
    requires OfFamily(t.family, src) && OfFamily(t.family, dst)
    ensures var a := EncodeAddresses(Some(src), Some(dst));
            V2.ReadAddresses(Proxy, FamProto(Some(t)), a + tail)
            == Ok(V2.Addressing(Some(t), Cut(Some(src)), Cut(Some(dst)), |a|))
  {
    if t.family == Unix {
      DecodeUnix(t, src.path, dst.path, tail);
    } else {
      DecodeInet(t, src.addr, dst.addr, tail);
    }
    NibblesReadBack(t, EncodeAddresses(Some(src), Some(dst)) + tail);
  }

  /** No checksum entry was added by hand. */
  predicate NoCrc(es: seq<RawTlv>)
  {
    forall i :: 0 <= i < |es| ==> es[i].kind != 0x03
  }

  predicate NotCrc(e: RawTlv)
  {
    e.kind != 0x03
  }

  lemma CrcFieldSkipsOne(e: RawTlv, later: bytes, at: nat)
    requires Fits(e) && NotCrc(e)
    ensures V2.CrcField(Encode(e) + later, at) == V2.CrcField(later, at + |Encode(e)|)
  {
    HeadTailOf(e, later);
  }

  lemma CrcFieldSkips()
    ensures Skips(V2.CrcField, NotCrc)
  {
    forall e, later: bytes, at: nat | Fits(e) && NotCrc(e)
      ensures V2.CrcField(Encode(e) + later, at) == V2.CrcField(later, at + |Encode(e)|)
    {
      CrcFieldSkipsOne(e, later, at);
    }
  }

  lemma CrcFieldAfter(es: seq<RawTlv>, tail: bytes, at: nat)
    requires AllFit(es) && NoCrc(es)
    ensures V2.CrcField(EncodeAll(es) + tail, at) == V2.CrcField(tail, at + |EncodeAll(es)|)
  {
    CrcFieldSkips();
    SearchAfter(V2.CrcField, NotCrc, es, tail, at);
  }

  lemma {:induction false} NoCrcNoValue(es: seq<RawTlv>)
    requires NoCrc(es)
    ensures LastValue(es, 0x03) == None
  {
    if es != [] {
      NoCrcNoValue(es[..|es| - 1]);
    }
  }

  function CrcEntry(p: Plan): RawTlv
    requires Buildable(p)
  {
    RawTlv(0x03, Be32(Crc32c.Checksum(Unsealed(p))))
  }

  /** The entries as they are sent, the checksum filled in. */
  function FinalEntries(p: Plan): seq<RawTlv>
    requires Buildable(p)
  {
    p.entries + if p.addCrc32c then [CrcEntry(p)] else []
  }

  lemma FinalFit(p: Plan)
    requires Buildable(p)
    ensures AllFit(p.entries) && AllFit(FinalEntries(p))
    ensures EncodeAll(FinalEntries(p)) == EncodeAll(p.entries) + if p.addCrc32c then Encode(CrcEntry(p)) else []
    ensures |EncodeAll(FinalEntries(p))| == |EncodeAll(PlannedEntries(p))|
  {
    PlannedSplit(p);
    if p.addCrc32c {
      EncodeSnoc(p.entries, CrcEntry(p));
    } else {
      assert p.entries + [] == p.entries;
      assert EncodeAll(p.entries) + [] == EncodeAll(p.entries);
    }
  }

  /** Filling in the checksum is the same as having known it from the start. */
  lemma BuiltIsAssembled(p: Plan)
    requires Buildable(p)
    ensures AllFit(FinalEntries(p)) && |AddressBlock(p) + EncodeAll(FinalEntries(p))| <= U16_MAX
    ensures BuildV2(p) == Some(Assemble(VerCmd(p.command), FamProto(p.transport),
                                        AddressBlock(p) + EncodeAll(FinalEntries(p))))
  {
    FinalFit(p);
    if p.addCrc32c {
      BuiltIsSealed(p);
      SealedTail(VerCmd(p.command), FamProto(p.transport), AddressBlock(p), EncodeAll(p.entries), CrcEntry(p).value);
    } else {
      PlannedSplit(p);
    }
  }

  lemma UnsealedIs(p: Plan)
    requires Buildable(p) && p.addCrc32c
    ensures AllFit(p.entries) && |AddressBlock(p)| + |EncodeAll(p.entries)| + 7 <= U16_MAX
    ensures Unsealed(p) == Assemble(VerCmd(p.command), FamProto(p.transport),
                                    AddressBlock(p) + (EncodeAll(p.entries) + Encode(CRC_PLACEHOLDER)))
  {
    PlannedSplit(p);
  }

  lemma BuiltIsSealed(p: Plan)
    requires Buildable(p) && p.addCrc32c
    ensures AllFit(p.entries) && |AddressBlock(p)| + |EncodeAll(p.entries)| + 7 <= U16_MAX
    ensures var u := Assemble(VerCmd(p.command), FamProto(p.transport),
                              AddressBlock(p) + (EncodeAll(p.entries) + Encode(CRC_PLACEHOLDER)));
            BuildV2(p) == Some(u[..|u| - 4] + CrcEntry(p).value)
  {
    UnsealedIs(p);
  }

  /** Replacing the last four bytes of an assembled header whose last entry is the placeholder. */
  lemma SealedTail(verCmd: byte, famProto: byte, addresses: bytes, entries: bytes, crc: bytes)
    requires |crc| == 4 && |addresses| + |entries| + 7 <= U16_MAX
    ensures var h := Assemble(verCmd, famProto, addresses + (entries + Encode(CRC_PLACEHOLDER)));
            h[..|h| - 4] + crc == Assemble(verCmd, famProto, addresses + (entries + Encode(RawTlv(0x03, crc))))
  {
    var front := V2.SIGNATURE + [verCmd, famProto] + Be16(|addresses| + |entries| + 7) + addresses + entries + [0x03,
                                                                                                                0, 4];
    var h := Assemble(verCmd, famProto, addresses + (entries + Encode(CRC_PLACEHOLDER)));
    assert h == front + [0, 0, 0, 0];
    assert h[..|h| - 4] == front;
    assert Assemble(verCmd, famProto, addresses + (entries + Encode(RawTlv(0x03, crc)))) == front + crc;
  }

  /** What parsing a built header gives, apart from the length. */
  function V2Info(p: Plan): ProxyInfo
    requires Buildable(p)
  {
    ProxyInfo(Version2, p.command, p.transport, Cut(p.source), Cut(p.destination), Typed(FinalEntries(p)))
  }

  lemma FinalFaultless(p: Plan)
    requires Buildable(p)
    ensures Faultless(Fault, FinalEntries(p)) <==> Faultless(Fault, p.entries)
  {
    var final := FinalEntries(p);
    if p.addCrc32c {
      assert final[|p.entries|] == CrcEntry(p) && Fault(CrcEntry(p)).None?;
    }
    assert forall i :: 0 <= i < |p.entries| ==> final[i] == p.entries[i];
  }

  /** The entries of a built header are accepted, and kept, exactly when none of them has a fault. */
  lemma FinalTlvs(p: Plan)
    requires Buildable(p) && AllFit(FinalEntries(p))
    ensures Faultless(Fault, p.entries) ==> ParseTlvs(EncodeAll(FinalEntries(p))) == Ok(Typed(FinalEntries(p)))
    ensures !Faultless(Fault, p.entries) ==> ParseTlvs(EncodeAll(FinalEntries(p))).Err?
  {
    var final := FinalEntries(p);
    var parsed := ParseTlvs(EncodeAll(final));
    FinalFaultless(p);
    AcceptedIff(EncodeAll(final), Typed(final));
    if parsed.Ok? {
      AcceptedIff(EncodeAll(final), parsed.value);
      EncodeInjective(parsed.value.raw, final);
    }
  }

  lemma EncodeInjective(es: seq<RawTlv>, fs: seq<RawTlv>)
    requires AllFit(es) && AllFit(fs) && EncodeAll(es) == EncodeAll(fs)
    ensures es == fs
  {
    UnframeEncoded(es, []);
    UnframeEncoded(fs, []);
  }

  lemma FinalCrc(p: Plan)
    requires Buildable(p) && NoCrc(p.entries)
    ensures Typed(FinalEntries(p)).crc32c == if p.addCrc32c then Some(Crc32c.Checksum(Unsealed(p))) else None
  {
    NoCrcNoValue(p.entries);
    if p.addCrc32c {
      LastValueAppend(p.entries, CrcEntry(p), 0x03);
      U32OfBe32(Crc32c.Checksum(Unsealed(p)));
    } else {
      assert p.entries + [] == p.entries;
    }
  }

  lemma AfterAddresses(verCmd: byte, famProto: byte, addresses: bytes, entries: bytes)
    requires |addresses + entries| <= U16_MAX
    ensures Assemble(verCmd, famProto, addresses + entries)[V2.HEADER_LEN + |addresses|..] == entries
  {
  }

  lemma CrcFieldOfEntry(crc: bytes, at: nat)
    requires |crc| == 4
    ensures V2.CrcField(Encode(RawTlv(0x03, crc)), at) == Some(at + 3)
  {
    assert Encode(RawTlv(0x03, crc)) + [] == Encode(RawTlv(0x03, crc));
    HeadTailOf(RawTlv(0x03, crc), []);
  }

  /** After entries without checksum, the value of a checksum entry is the first checksum value there is. */
  lemma CrcFieldAtEnd(es: seq<RawTlv>, crc: bytes, at: nat)
    requires AllFit(es) && NoCrc(es) && |crc| == 4
    ensures V2.CrcField(EncodeAll(es) + Encode(RawTlv(0x03, crc)), at) == Some(at + |EncodeAll(es)| + 3)
  {
    CrcFieldOfEntry(crc, at + |EncodeAll(es)|);
    CrcFieldAfter(es, Encode(RawTlv(0x03, crc)), at);
  }

  lemma ZeroedTail(verCmd: byte, famProto: byte, addresses: bytes, entries: bytes, crc: bytes)
    requires |crc| == 4 && |addresses| + |entries| + 7 <= U16_MAX
    ensures var h := Assemble(verCmd, famProto, addresses + (entries + Encode(RawTlv(0x03, crc))));
            V2.Zeroed(h, |h| - 4) == Assemble(verCmd, famProto, addresses + (entries + Encode(CRC_PLACEHOLDER)))
  {
    var front := V2.SIGNATURE + [verCmd, famProto] + Be16(|addresses| + |entries| + 7) + addresses + entries + [0x03,
                                                                                                                0, 4];
    var h := Assemble(verCmd, famProto, addresses + (entries + Encode(RawTlv(0x03, crc))));
    assert h == front + crc;
    assert Assemble(verCmd, famProto, addresses + (entries + Encode(CRC_PLACEHOLDER))) == front + [0, 0, 0, 0];
    assert h[..|h| - 4] == front && h[|h|..] == [];
  }

  /** The first checksum value is the last thing in `h`, and `h` without it is `unsealed`. */
  predicate SealOf(h: bytes, start: nat, unsealed: bytes)
  {
    start + 7 <= |h| && V2.CrcField(h[start..], start) == Some(|h| - 4) && V2.Zeroed(h, |h| - 4) == unsealed
  }

  lemma SealFrom(h: bytes, start: nat, es: seq<RawTlv>, crc: bytes, unsealed: bytes)
    requires AllFit(es) && NoCrc(es) && |crc| == 4 && start <= |h|
    requires h[start..] == EncodeAll(es) + Encode(RawTlv(0x03, crc))
    requires |h| >= 4 && V2.Zeroed(h, |h| - 4) == unsealed
    ensures SealOf(h, start, unsealed)
  {
    CrcFieldAtEnd(es, crc, start);
    assert |h| - start == |EncodeAll(es)| + 7;
  }

  lemma SealedParts(v: byte, f: byte, a: bytes, es: seq<RawTlv>, crc: bytes)
    requires AllFit(es) && NoCrc(es) && |crc| == 4 && |a| + |EncodeAll(es)| + 7 <= U16_MAX
    ensures SealOf(Assemble(v, f, a + (EncodeAll(es) + Encode(RawTlv(0x03, crc)))), V2.HEADER_LEN + |a|,
                   Assemble(v, f, a + (EncodeAll(es) + Encode(CRC_PLACEHOLDER))))
  {
    ZeroedTail(v, f, a, EncodeAll(es), crc);
    AfterAddresses(v, f, a, EncodeAll(es) + Encode(RawTlv(0x03, crc)));
    SealFrom(Assemble(v, f, a + (EncodeAll(es) + Encode(RawTlv(0x03, crc)))), V2.HEADER_LEN + |a|, es, crc,
             Assemble(v, f, a + (EncodeAll(es) + Encode(CRC_PLACEHOLDER))));
  }

  /** The parser leaves out of its checksum exactly the four bytes that the builder filled in, whatever they are. */
  lemma SealedCrcField(p: Plan, crc: bytes)
    requires Buildable(p) && NoCrc(p.entries) && p.addCrc32c && |crc| == 4
    ensures AllFit(p.entries) && |AddressBlock(p)| + |EncodeAll(p.entries)| + 7 <= U16_MAX
    ensures SealOf(Assemble(VerCmd(p.command), FamProto(p.transport),
                            AddressBlock(p) + (EncodeAll(p.entries) + Encode(RawTlv(0x03, crc)))),
                   V2.HEADER_LEN + |AddressBlock(p)|, Unsealed(p))
  {
    UnsealedIs(p);
    SealedParts(VerCmd(p.command), FamProto(p.transport), AddressBlock(p), p.entries, crc);
  }

  lemma BuiltSealed(p: Plan, h: bytes)
    requires Buildable(p) && p.addCrc32c && BuildV2(p) == Some(h)
    ensures AllFit(p.entries) && |AddressBlock(p)| + |EncodeAll(p.entries)| + 7 <= U16_MAX
    ensures h == Assemble(VerCmd(p.command), FamProto(p.transport),
                          AddressBlock(p) + (EncodeAll(p.entries) + Encode(CrcEntry(p))))
  {
    FinalFit(p);
    BuiltIsAssembled(p);
    UnsealedIs(p);
  }

  lemma BuiltHeaderCrc(p: Plan, h: bytes)
    requires Buildable(p) && NoCrc(p.entries) && p.addCrc32c && BuildV2(p) == Some(h)
    ensures SealOf(h, V2.HEADER_LEN + |AddressBlock(p)|, Unsealed(p))
  {
    BuiltSealed(p, h);
    SealedCrcField(p, CrcEntry(p).value);
  }

  lemma SealedHeaderCrc(h: bytes, start: nat, unsealed: bytes)
    requires SealOf(h, start, unsealed)
    ensures V2.HeaderCrc(h, start) == Crc32c.Checksum(unsealed)
  {
  }

  /** The parts a complete header is read in, put together. */
  lemma CompleteFromParts(command: Command, h: V2.Header, a: V2.Addressing, tlvs: Tlvs)
    requires V2.ReadAddresses(command, h[13], h[V2.HEADER_LEN..]) == Ok(a)
    requires V2.ReadTlvs(command, h[V2.HEADER_LEN + a.tlvOffset..]) == Ok(tlvs)
    requires tlvs.crc32c.Some? ==> V2.HeaderCrc(h, V2.HEADER_LEN + a.tlvOffset) == tlvs.crc32c.value
    ensures V2.ParseComplete(command, h)
         == Ok(Parsed(ProxyInfo(Version2, command, a.transport, a.source, a.destination, tlvs), |h|))
  {
  }

  lemma BuiltTlvs(p: Plan)
    requires Buildable(p) && AllFit(FinalEntries(p)) && Faultless(Fault, p.entries)
    ensures V2.ReadTlvs(p.command, EncodeAll(FinalEntries(p))) == Ok(Typed(FinalEntries(p)))
  {
    FinalTlvs(p);
  }

  /** The checksum in a built header, if there is one, is the one the parser computes. */
  lemma BuiltCrc(p: Plan, h: V2.Header)
    requires Buildable(p) && NoCrc(p.entries) && BuildV2(p) == Some(h)
    ensures V2.HEADER_LEN + |AddressBlock(p)| <= |h|
    ensures var crc := Typed(FinalEntries(p)).crc32c;
            crc.Some? ==> V2.HeaderCrc(h, V2.HEADER_LEN + |AddressBlock(p)|) == crc.value
  {
    FinalCrc(p);
    BuiltIsAssembled(p);
    if p.addCrc32c {
      BuiltHeaderCrc(p, h);
      SealedHeaderCrc(h, V2.HEADER_LEN + |AddressBlock(p)|, Unsealed(p));
    }
  }

  lemma BuiltComplete(p: Plan, h: V2.Header)
    requires Consistent(p) && p.version == Version2 && BuildV2(p) == Some(h)
    requires NoCrc(p.entries) && Faultless(Fault, p.entries)
    ensures V2.ParseComplete(p.command, h) == Ok(Parsed(V2Info(p), |h|))
  {
    var a := V2.Addressing(p.transport, Cut(p.source), Cut(p.destination), |AddressBlock(p)|);
    BuiltParts(p, h);
    BuiltTlvs(p);
    BuiltCrc(p, h);
    CompleteFromParts(p.command, h, a, Typed(FinalEntries(p)));
  }

  lemma BuiltParts(p: Plan, h: V2.Header)
    requires Consistent(p) && p.version == Version2 && BuildV2(p) == Some(h)
    ensures AllFit(FinalEntries(p))
    ensures V2.ReadAddresses(p.command, h[13], h[V2.HEADER_LEN..])
         == Ok(V2.Addressing(p.transport, Cut(p.source), Cut(p.destination), |AddressBlock(p)|))
    ensures h[V2.HEADER_LEN + |AddressBlock(p)|..] == EncodeAll(FinalEntries(p))
  {
    BuiltIsAssembled(p);
    var tail := EncodeAll(FinalEntries(p));
    AssembledParts(VerCmd(p.command), FamProto(p.transport), AddressBlock(p) + tail);
    AfterAddresses(VerCmd(p.command), FamProto(p.transport), AddressBlock(p), tail);
    AddressesReadBack(p, tail);
  }

  /** For every binary header the builder can write, with no checksum entry added by hand: if no entry has a fault,
      parsing it, followed by anything, takes exactly its bytes and gives back the command, the transport, the addresses
      (Unix paths cut to their field and at the first NUL) and all entries, the checksum included. */
  lemma V2RoundTrip(p: Plan, rest: bytes)
    requires Consistent(p) && p.version == Version2 && BuildV2(p).Some? && NoCrc(p.entries)
             && Faultless(Fault, p.entries)
    ensures Parser.Parse(BuildV2(p).value + rest) == Ok(Parsed(V2Info(p), |BuildV2(p).value|))
  {
    var h := BuildV2(p).value;
    BuiltIsAssembled(p);
    BuiltComplete(p, h);
    DispatchAssembled(V1.ReadLine, V2.ParseComplete, p.command, FamProto(p.transport),
                      AddressBlock(p) + EncodeAll(FinalEntries(p)), rest);
  }

  /** With a fault it is accepted exactly if the command is LOCAL; without faults, and without checksum entries added by
      hand, it is accepted. */
  lemma V2AcceptedIff(p: Plan, rest: bytes)
    requires Consistent(p) && p.version == Version2 && BuildV2(p).Some?
             && (NoCrc(p.entries) || !Faultless(Fault, p.entries))
    ensures Parser.Parse(BuildV2(p).value + rest).Ok? <==> p.command == Local || Faultless(Fault, p.entries)
  {
    var h := BuildV2(p).value;
    if Faultless(Fault, p.entries) {
      V2RoundTrip(p, rest);
    } else {
      BuiltIsAssembled(p);
      BuiltParts(p, h);
      FinalTlvs(p);
      DispatchAssembled(V1.ReadLine, V2.ParseComplete, p.command, FamProto(p.transport),
                        AddressBlock(p) + EncodeAll(FinalEntries(p)), rest);
      FaultyComplete(p.command, h, V2.Addressing(p.transport, Cut(p.source), Cut(p.destination), |AddressBlock(p)|));
    }
  }

  lemma FaultyComplete(command: Command, h: V2.Header, a: V2.Addressing)
    requires V2.ReadAddresses(command, h[13], h[V2.HEADER_LEN..]) == Ok(a)
    requires ParseTlvs(h[V2.HEADER_LEN + a.tlvOffset..]).Err?
    ensures V2.ParseComplete(command, h).Ok? <==> command == Local
  {
  }
}
