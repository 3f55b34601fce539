/** `parse` (src/parse/mod.rs): recognises the version by its first bytes and hands over. */
module Parser {
  import opened Octets
  import opened Types
  import Tlv
  import V1
  import V2

  /** `PROXY `, which a text header starts with. */
  const V1_START: bytes := [0x50, 0x52, 0x4F, 0x58, 0x59, 0x20]

  type LineReader = bytes -> Result<ProxyInfo, ParseError>

  type HeaderReader = (Command, V2.Header) -> ParseResult

  /** The dispatch, for any reader of lines and any reader of complete binary headers. */
  function Dispatch(readLine: LineReader, readHeader: HeaderReader, buf: bytes): ParseResult
  {
    if buf == [] then Err(Incomplete)
    else if buf[0] == 0x0D then
      if |buf| < 12 then Err(Incomplete)
      else if V2.SIGNATURE <= buf then V2.OnHeader(readHeader, buf)
      else Err(NotProxyProtocol)
    else if buf[0] == 0x50 then
      if |buf| < 6 then Err(Incomplete)
      else if V1_START <= buf then V1.OnLine(readLine, buf)
      else Err(NotProxyProtocol)
    else Err(NotProxyProtocol)
  }

  /** `parse` */
  function Parse(buf: bytes): ParseResult
  {
    Dispatch(V1.ReadLine, V2.ParseComplete, buf)
  }

  // What makes a parser usable on a stream

  /** Once the parser has an answer, more bytes do not change it. */
  ghost predicate Stable(parse: bytes -> ParseResult)
  {
    forall buf, more :: parse(buf) != Err(Incomplete) ==> parse(buf + more) == parse(buf)
  }

  /** An accepted header lies within the buffer and is not empty. */
  ghost predicate Bounded(parse: bytes -> ParseResult)
  {
    && parse([]) == Err(Incomplete)
    && forall buf :: parse(buf).Ok? ==> 0 < parse(buf).value.consumed <= |buf|
  }

  /** An accepted header is enough by itself, and no proper prefix of it is. */
  ghost predicate Minimal(parse: bytes -> ParseResult)
  {
    forall buf :: parse(buf).Ok? ==>
      && parse(buf).value.consumed <= |buf|
      && parse(buf[..parse(buf).value.consumed]) == parse(buf)
      && forall k :: 0 <= k < parse(buf).value.consumed ==> parse(buf[..k]) == Err(Incomplete)
  }

  lemma DispatchStable(readLine: LineReader, readHeader: HeaderReader, buf: bytes, more: bytes)
    requires Dispatch(readLine, readHeader, buf) != Err(Incomplete)
    ensures Dispatch(readLine, readHeader, buf + more) == Dispatch(readLine, readHeader, buf)
  {
    if buf[0] == 0x0D && V2.SIGNATURE <= buf {
      V2.OnHeaderStable(readHeader, buf, more);
    } else if buf[0] == 0x50 && V1_START <= buf {
      V1.OnLineStable(readLine, buf, more);
    }
  }

  lemma DispatchMinimal(readLine: LineReader, readHeader: HeaderReader, buf: bytes, n: nat)
    requires V2.TakesAll(readHeader)
    requires Dispatch(readLine, readHeader, buf).Ok? && n == Dispatch(readLine, readHeader, buf).value.consumed
    ensures 0 < n <= |buf| && n <= V2.MAX_LEN
            && Dispatch(readLine, readHeader, buf[..n]) == Dispatch(readLine, readHeader, buf)
    ensures forall k :: 0 <= k < n ==> Dispatch(readLine, readHeader, buf[..k]) == Err(Incomplete)
  {
    if buf[0] == 0x0D {
      V2.OnHeaderMinimal(readHeader, buf, n);
    } else {
      V1.OnLineMinimal(readLine, buf, n);
      assert V1_START <= buf[..n] by {
        assert n >= 6 by {
          ShortLine(readLine, buf, n);
        }
      }
    }
  }

  /** A line that starts with `PROXY ` cannot end before that. */
  lemma ShortLine(readLine: LineReader, buf: bytes, n: nat)
    requires V1_START <= buf && V1.OnLine(readLine, buf).Ok? && n == V1.OnLine(readLine, buf).value.consumed
    ensures n >= 8
  {
    var end := V1.FindCrlf(V1.Window(buf)).value;
    assert V1.Window(buf)[end] == V1.CR;
    assert forall i :: 0 <= i < 6 ==> buf[i] == V1_START[i];
  }

  lemma CompleteTakesAll()
    ensures V2.TakesAll(V2.ParseComplete)
  {
    forall c, h: V2.Header
      ensures V2.ParseComplete(c, h) != Err(Incomplete)
              && (V2.ParseComplete(c, h).Ok? ==> V2.ParseComplete(c, h).value.consumed == |h|)
    {
    }
  }

  /** Once `parse` has an answer, more bytes do not change it. */
  lemma ParseStable()
    ensures Stable(Parse)
  {
    forall buf, more | Parse(buf) != Err(Incomplete) ensures Parse(buf + more) == Parse(buf) {
      DispatchStable(V1.ReadLine, V2.ParseComplete, buf, more);
    }
  }

  /** An accepted header lies within the buffer, is enough by itself, and no proper prefix of it is. */
  lemma ParseMinimal()
    ensures Minimal(Parse) && Bounded(Parse)
  {
    CompleteTakesAll();
    forall buf | Parse(buf).Ok?
      ensures var n := Parse(buf).value.consumed;
              && 0 < n <= |buf| && Parse(buf[..n]) == Parse(buf)
              && forall k :: 0 <= k < n ==> Parse(buf[..k]) == Err(Incomplete)
    {
      DispatchMinimal(V1.ReadLine, V2.ParseComplete, buf, Parse(buf).value.consumed);
    }
  }

  /** Headers form a prefix-free code: none is a proper prefix of another, for any stable and minimal parser. */
  lemma PrefixFree(parse: bytes -> ParseResult, a: bytes, b: bytes)
    requires Minimal(parse)
    requires parse(a).Ok? && parse(a).value.consumed == |a|
    requires parse(b).Ok? && parse(b).value.consumed == |b|
    requires a <= b
    ensures a == b
  {
    assert b[..|a|] == a;
  }

  lemma HeadersPrefixFree(a: bytes, b: bytes)
    requires Parse(a).Ok? && Parse(a).value.consumed == |a|
    requires Parse(b).Ok? && Parse(b).value.consumed == |b|
    requires a <= b
    ensures a == b
  {
    ParseMinimal();
    PrefixFree(Parse, a, b);
  }

  lemma DispatchDecides(readLine: LineReader, readHeader: HeaderReader, buf: bytes)
    requires V2.TakesAll(readHeader) && |buf| >= V2.MAX_LEN && (forall line :: readLine(line) != Err(Incomplete))
    ensures Dispatch(readLine, readHeader, buf) != Err(Incomplete)
  {
  }

  /** No buffer that could hold the longest header is ever incomplete. */
  lemma ParseDecides(buf: bytes)
    requires |buf| >= 65551
    ensures Parse(buf) != Err(Incomplete)
  {
    CompleteTakesAll();
    forall line ensures V1.ReadLine(line) != Err(Incomplete) {
    }
    DispatchDecides(V1.ReadLine, V2.ParseComplete, buf);
  }

  // What accepted headers look like

  predicate AddressOf(family: AddressFamily, a: ProxyAddress)
  {
    match family
    case Inet => a.InetAddress? && a.addr.ip.V4?
    case Inet6 => a.InetAddress? && a.addr.ip.V6?
    case Unix => a.UnixPath? && |a.path| <= 108 && 0 !in a.path
  }

  predicate WellAddressed(info: ProxyInfo)
  {
    || (info.transport.None? && info.source.None? && info.destination.None?)
    || (&& info.transport.Some? && info.source.Some? && info.destination.Some?
        && AddressOf(info.transport.value.family, info.source.value)
        && AddressOf(info.transport.value.family, info.destination.value))
  }

  predicate WellFormed(info: ProxyInfo)
  {
    && WellAddressed(info)
    && (info.version == Version1 ==>
          && info.command == Proxy && info.tlvs == NO_TLVS
          && (info.transport.Some? ==> info.transport.value.protocol == Stream && info.transport.value.family != Unix))
    && (info.command == Local ==> info.transport.None?)
    && (info.version == Version2 && info.command == Proxy ==> info.transport.Some?)
    && info.tlvs == Tlv.Typed(info.tlvs.raw)
    && Tlv.Faultless(Tlv.Fault, info.tlvs.raw)
    && (info.tlvs.uniqueId.Some? ==> |info.tlvs.uniqueId.value| <= 128)
  }

  lemma LineWellFormed(line: bytes)
    requires V1.ReadLine(line).Ok?
    ensures WellFormed(V1.ReadLine(line).value)
  {
    var parts := V1.SplitN(line, V1.FIELDS);
    var info := V1.ReadLine(line).value;
    if !V1.IsUnknown(line) {
      var family := if parts[1] == V1.TCP4 then Inet else Inet6;
      FieldsWellFormed(family, parts[2], parts[3], parts[4], parts[5]);
    }
  }

  lemma FieldsWellFormed(family: AddressFamily, a: bytes, b: bytes, c: bytes, d: bytes)
    requires family != Unix && V1.ParseFields(family, a, b, c, d).Ok?
    ensures WellFormed(V1.ParseFields(family, a, b, c, d).value)
  {
  }

  lemma AddressesWellFormed(command: Command, famProto: byte, payload: bytes, tlvs: Tlvs)
    requires V2.ReadAddresses(command, famProto, payload).Ok?
    ensures var a := V2.ReadAddresses(command, famProto, payload).value;
            && WellAddressed(ProxyInfo(Version2, command, a.transport, a.source, a.destination, tlvs))
            && (command == Local <==> a.transport.None?)
  {
  }

  lemma TlvsWellFormed(command: Command, data: bytes)
    requires V2.ReadTlvs(command, data).Ok?
    ensures var t := V2.ReadTlvs(command, data).value;
            && t == Tlv.Typed(t.raw) && Tlv.Faultless(Tlv.Fault, t.raw)
            && (t.uniqueId.Some? ==> |t.uniqueId.value| <= 128)
  {
    var t := V2.ReadTlvs(command, data).value;
    if t != NO_TLVS {
      Tlv.AcceptedIff(data, t);
    }
    Tlv.LastValueIsLast(t.raw, 0x05);
  }

  lemma HeaderWellFormed(command: Command, header: V2.Header)
    requires V2.ParseComplete(command, header).Ok?
    ensures WellFormed(V2.ParseComplete(command, header).value.info)
  {
    var a := V2.ReadAddresses(command, header[13], header[V2.HEADER_LEN..]).value;
    var data := header[V2.HEADER_LEN + a.tlvOffset..];
    AddressesWellFormed(command, header[13], header[V2.HEADER_LEN..], V2.ReadTlvs(command, data).value);
    TlvsWellFormed(command, data);
  }

  /** Every accepted header is well-formed. */
  lemma ParseWellFormed(buf: bytes)
    requires Parse(buf).Ok?
    ensures WellFormed(Parse(buf).value.info)
  {
    if buf[0] == 0x0D {
      HeaderWellFormed(V2.CommandOf(buf[12]), buf[..V2.TotalLen(buf)]);
    } else {
      LineWellFormed(buf[..V1.FindCrlf(V1.Window(buf)).value]);
    }
  }
}
