/** The text header (src/parse/v1.rs): one line of at most 107 bytes, its end included. */
module V1 {
  import opened Octets
  import opened Types
  import Utf8
  import IpText

  const MAX_LEN: nat := 107

  const CR: byte := 0x0D
  const LF: byte := 0x0A
  const SPACE: byte := 0x20

  /** `PROXY` */
  const PROXY: bytes := [0x50, 0x52, 0x4F, 0x58, 0x59]
  /** `UNKNOWN` */
  const UNKNOWN: bytes := [0x55, 0x4E, 0x4B, 0x4E, 0x4F, 0x57, 0x4E]
  /** `TCP4` */
  const TCP4: bytes := [0x54, 0x43, 0x50, 0x34]
  /** `TCP6` */
  const TCP6: bytes := [0x54, 0x43, 0x50, 0x36]

  const CRLF: bytes := [CR, LF]

  /** The position of the first CR LF. */
  function FindCrlf(s: bytes): (p: Option<nat>)
    ensures p.Some? ==> p.value + 2 <= |s| && s[p.value] == CR && s[p.value + 1] == LF
    ensures p.Some? ==> forall i :: 0 <= i < p.value ==> !(s[i] == CR && s[i + 1] == LF)
    ensures p.None? ==> forall i :: 0 <= i < |s| - 1 ==> !(s[i] == CR && s[i + 1] == LF)
  {
    if |s| < 2 then None
    else if s[0] == CR && s[1] == LF then Some(0)
    else match FindCrlf(s[1..])
      case None =>
        assert forall i :: 1 <= i < |s| - 1 ==> s[i] == s[1..][i - 1] && s[i + 1] == s[1..][i];
        None
      case Some(p) =>
        assert forall i :: 1 <= i < p + 1 ==> s[i] == s[1..][i - 1] && s[i + 1] == s[1..][i];
        Some(p + 1)
  }

  /** The bytes before the first space, or all of them. */
  function Field(s: bytes): (f: bytes)
    ensures f <= s && SPACE !in f
    ensures |f| < |s| ==> s[|f|] == SPACE
  {
    if s == [] || s[0] == SPACE then [] else [s[0]] + Field(s[1..])
  }

  /** `line.splitn(n, ' ')` */
  function SplitN(s: bytes, n: nat): (parts: seq<bytes>)
    requires n > 0
    ensures 1 <= |parts| <= n
    decreases n
  {
    var f := Field(s);
    if n == 1 || |f| == |s| then [s] else [f] + SplitN(s[|f| + 1..], n - 1)
  }

  /** One more than the fields of a complete line. */
  const FIELDS: nat := 7

  function Unknown(): ProxyInfo
  {
    ProxyInfo(Version1, Proxy, None, None, None, NO_TLVS)
  }

  function Known(family: AddressFamily, source: SocketAddr, destination: SocketAddr): ProxyInfo
  {
    ProxyInfo(Version1, Proxy, Some(Transport(family, Stream)), Some(InetAddress(source)),
              Some(InetAddress(destination)), NO_TLVS)
  }

  predicate OfFamily(family: AddressFamily, ip: IpAddr)
  {
    (family == Inet && ip.V4?) || (family == Inet6 && ip.V6?)
  }

  function ParseFields(family: AddressFamily, srcIp: bytes, dstIp: bytes, srcPort: bytes,
                       dstPort: bytes): (r: Result<ProxyInfo, ParseError>)
    ensures r.Err? ==> r.error.Invalid? && r.error.reason != V1TooLong
    ensures r.Ok? ==> r.value.version == Version1
  {
    var src := IpText.Parse(srcIp);
    var dst := IpText.Parse(dstIp);
    if src.None? then Err(Invalid(InvalidIp(srcIp)))
    else if dst.None? then Err(Invalid(InvalidIp(dstIp)))
    else if !OfFamily(family, src.value) then Err(Invalid(InvalidIp(srcIp)))
    else if !OfFamily(family, dst.value) then Err(Invalid(InvalidIp(dstIp)))
    else
      var sp := IpText.ParsePort(srcPort);
      var dp := IpText.ParsePort(dstPort);
      if sp.None? then Err(Invalid(InvalidPort(srcPort)))
      else if dp.None? then Err(Invalid(InvalidPort(dstPort)))
      else Ok(Known(family, SocketAddr(src.value, sp.value), SocketAddr(dst.value, dp.value)))
  }

  predicate IsUnknown(line: bytes)
  {
    var prefix := PROXY + [SPACE] + UNKNOWN;
    prefix <= line && (|line| == |prefix| || line[|prefix|] == SPACE)
  }

  /** A line without its end. */
  function ParseLine(line: bytes): (r: Result<ProxyInfo, ParseError>)
    ensures r.Err? ==> r.error.Invalid? && r.error.reason != V1TooLong
    ensures r.Ok? ==> r.value.version == Version1
  {
    if IsUnknown(line) then Ok(Unknown())
    else
      var parts := SplitN(line, FIELDS);
      if |parts| != 6 then Err(Invalid(V1InvalidFormat))
      else if parts[1] == TCP4 then ParseFields(Inet, parts[2], parts[3], parts[4], parts[5])
      else if parts[1] == TCP6 then ParseFields(Inet6, parts[2], parts[3], parts[4], parts[5])
      else Err(Invalid(V1UnknownTransport(parts[1])))
  }

  /** The part of the buffer in which the end of the line is looked for. */
  function Window(buf: bytes): (w: bytes)
    ensures w <= buf && |w| <= MAX_LEN
    ensures |buf| >= MAX_LEN ==> |w| == MAX_LEN
    ensures |buf| < MAX_LEN ==> w == buf
  {
    if |buf| < MAX_LEN then buf else buf[..MAX_LEN]
  }

  /** `parse_v1`, with the reader of lines left open. */
  function OnLine(read: bytes -> Result<ProxyInfo, ParseError>, buf: bytes): ParseResult
  {
    match FindCrlf(Window(buf))
    case None => Err(if |buf| < MAX_LEN then Incomplete else Invalid(V1TooLong))
    case Some(end) =>
      match read(buf[..end])
      case Err(e) => Err(e)
      case Ok(info) => Ok(Parsed(info, end + 2))
  }

  function ReadLine(line: bytes): (r: Result<ProxyInfo, ParseError>)
    ensures r.Err? ==> r.error.Invalid? && r.error.reason != V1TooLong
    ensures r.Ok? ==> r.value.version == Version1
  {
    if !Utf8.Valid(line) then Err(Invalid(V1NotUtf8)) else ParseLine(line)
  }

  // Where the line ends

  /** The first CR LF is where it is, however much follows. */
  lemma FindCrlfIs(s: bytes, p: nat)
    requires p + 2 <= |s| && s[p] == CR && s[p + 1] == LF
    requires forall i :: 0 <= i < p ==> !(s[i] == CR && s[i + 1] == LF)
    ensures FindCrlf(s) == Some(p)
  {
    var q := FindCrlf(s);
    assert q.Some?;
    assert !(q.value < p) && !(p < q.value);
  }

  lemma FindCrlfExtends(s: bytes, t: bytes)
    requires FindCrlf(s).Some? && s <= t
    ensures FindCrlf(t) == FindCrlf(s)
  {
    FindCrlfIs(t, FindCrlf(s).value);
  }

  /** Once there is an answer, more bytes do not change it. */
  lemma OnLineStable(read: bytes -> Result<ProxyInfo, ParseError>, buf: bytes, more: bytes)
    requires OnLine(read, buf) != Err(Incomplete)
    ensures OnLine(read, buf + more) == OnLine(read, buf)
  {
    var w, w' := Window(buf), Window(buf + more);
    assert w <= w';
    if FindCrlf(w).Some? {
      FindCrlfExtends(w, w');
      var end := FindCrlf(w).value;
      assert (buf + more)[..end] == buf[..end];
    } else {
      assert |w| == MAX_LEN && w' == w;
    }
  }

  /** No prefix of the buffer that stops before the end of the line is enough. */
  lemma OnLineWaits(read: bytes -> Result<ProxyInfo, ParseError>, buf: bytes, k: nat)
    requires FindCrlf(Window(buf)).Some? && k < FindCrlf(Window(buf)).value + 2
    ensures OnLine(read, buf[..k]) == Err(Incomplete)
  {
    var s := buf[..k];
    assert FindCrlf(s).None? by {
      if FindCrlf(s).Some? {
        FindCrlfExtends(s, Window(buf));
      }
    }
  }

  lemma FindCrlfCut(t: bytes, s: bytes)
    requires FindCrlf(t).Some? && s <= t && |s| >= FindCrlf(t).value + 2
    ensures FindCrlf(s) == FindCrlf(t)
  {
    FindCrlfIs(s, FindCrlf(t).value);
  }

  /** The line and its end are enough. */
  lemma OnLineEnough(read: bytes -> Result<ProxyInfo, ParseError>, buf: bytes, n: nat)
    requires FindCrlf(Window(buf)).Some? && n == FindCrlf(Window(buf)).value + 2
    ensures OnLine(read, buf[..n]) == OnLine(read, buf)
  {
    var s := buf[..n];
    var end := FindCrlf(Window(buf)).value;
    assert Window(s) == s;
    FindCrlfCut(Window(buf), s);
    assert s[..end] == buf[..end];
  }

  /** A line ends within the buffer, is enough to be read, and no shorter prefix is. */
  lemma OnLineMinimal(read: bytes -> Result<ProxyInfo, ParseError>, buf: bytes, n: nat)
    requires OnLine(read, buf).Ok? && n == OnLine(read, buf).value.consumed
    ensures 0 < n <= |buf| && n <= MAX_LEN && OnLine(read, buf[..n]) == OnLine(read, buf)
    ensures forall k :: 0 <= k < n ==> OnLine(read, buf[..k]) == Err(Incomplete)
  {
    OnLineEnough(read, buf, n);
    forall k | 0 <= k < n ensures OnLine(read, buf[..k]) == Err(Incomplete) {
      OnLineWaits(read, buf, k);
    }
  }

  // Reading back a printed line

  predicate NoSpace(s: bytes)
  {
    forall i :: 0 <= i < |s| ==> s[i] != SPACE
  }

  /** Fields with single spaces between them. */
  function Joined(fields: seq<bytes>): bytes
    requires fields != []
  {
    if |fields| == 1 then fields[0] else fields[0] + ([SPACE] + Joined(fields[1..]))
  }

  lemma {:induction false} FieldAlone(f: bytes)
    requires NoSpace(f)
    ensures Field(f) == f
  {
    if f != [] {
      FieldAlone(f[1..]);
    }
  }

  lemma {:induction false} FieldFirst(f: bytes, rest: bytes)
    requires NoSpace(f)
    ensures Field(f + ([SPACE] + rest)) == f
  {
    if f == [] {
      assert f + ([SPACE] + rest) == [SPACE] + rest;
    } else {
      assert (f + ([SPACE] + rest))[1..] == f[1..] + ([SPACE] + rest);
      FieldFirst(f[1..], rest);
    }
  }

  lemma SplitFirst(f: bytes, rest: bytes, n: nat)
    requires NoSpace(f) && n > 1
    ensures SplitN(f + ([SPACE] + rest), n) == [f] + SplitN(rest, n - 1)
  {
    FieldFirst(f, rest);
    assert (f + ([SPACE] + rest))[|f| + 1..] == rest;
  }

  lemma SplitAlone(f: bytes, n: nat)
    requires NoSpace(f) && n > 0
    ensures SplitN(f, n) == [f]
  {
    FieldAlone(f);
  }

  predicate NoSpaces(fields: seq<bytes>)
  {
    forall i :: 0 <= i < |fields| ==> NoSpace(fields[i])
  }

  /** Splitting undoes joining. */
  lemma {:induction false} SplitJoined(fields: seq<bytes>, n: nat)
    requires 1 <= |fields| <= n && NoSpaces(fields)
    ensures SplitN(Joined(fields), n) == fields
    decreases n
  {
    if |fields| == 1 {
      SplitAlone(fields[0], n);
    } else {
      var first, later := fields[0], fields[1..];
      assert NoSpaces(later);
      SplitJoined(later, n - 1);
      SplitFirst(first, Joined(later), n);
      assert [first] + later == fields;
    }
  }

  function Proto(family: AddressFamily): bytes
  {
    if family == Inet then TCP4 else TCP6
  }

  function LineFields(family: AddressFamily, src: SocketAddr, dst: SocketAddr): seq<bytes>
  {
    [PROXY, Proto(family), IpText.Print(src.ip), IpText.Print(dst.ip), IpText.Digits(src.port, 10),
     IpText.Digits(dst.port, 10)]
  }

  lemma PlainNoSpace(s: bytes)
    requires IpText.Plain(s)
    ensures NoSpace(s)
  {
  }

  lemma LineFieldsNoSpace(family: AddressFamily, src: SocketAddr, dst: SocketAddr)
    ensures NoSpaces(LineFields(family, src, dst))
  {
    IpText.PrintPlain(src.ip);
    IpText.PrintPlain(dst.ip);
    IpText.DigitsPlain(src.port, 10);
    IpText.DigitsPlain(dst.port, 10);
    PlainNoSpace(IpText.Print(src.ip));
    PlainNoSpace(IpText.Print(dst.ip));
    PlainNoSpace(IpText.Digits(src.port, 10));
    PlainNoSpace(IpText.Digits(dst.port, 10));
  }

  lemma ParseFieldsPrinted(family: AddressFamily, src: SocketAddr, dst: SocketAddr)
    requires OfFamily(family, src.ip) && OfFamily(family, dst.ip)
    ensures ParseFields(family, IpText.Print(src.ip), IpText.Print(dst.ip), IpText.Digits(src.port, 10),
                        IpText.Digits(dst.port, 10))
         == Ok(Known(family, src, dst))
  {
    IpText.ParsePrinted(src.ip);
    IpText.ParsePrinted(dst.ip);
    IpText.PortPrinted(src.port);
    IpText.PortPrinted(dst.port);
  }

  lemma SplitLine(family: AddressFamily, src: SocketAddr, dst: SocketAddr)
    ensures SplitN(Joined(LineFields(family, src, dst)), FIELDS) == LineFields(family, src, dst)
  {
    LineFieldsNoSpace(family, src, dst);
    SplitJoined(LineFields(family, src, dst), FIELDS);
  }

  lemma ParseLineJoined(family: AddressFamily, src: SocketAddr, dst: SocketAddr)
    requires OfFamily(family, src.ip) && OfFamily(family, dst.ip)
    ensures ParseLine(Joined(LineFields(family, src, dst))) == Ok(Known(family, src, dst))
  {
    SplitLine(family, src, dst);
    NotUnknown(LineFields(family, src, dst));
    ParseFieldsPrinted(family, src, dst);
  }

  lemma NotUnknown(fields: seq<bytes>)
    requires |fields| == 6 && fields[0] == PROXY && |fields[1]| == 4 && fields[1][0] == 0x54
    ensures !IsUnknown(Joined(fields))
  {
    var line := Joined(fields);
    var prefix := PROXY + [SPACE] + UNKNOWN;
    assert line[6] == fields[1][0] by {
      assert line == PROXY + ([SPACE] + Joined(fields[1..]));
      assert Joined(fields[1..])[0] == fields[1][0];
    }
    assert prefix[6] == 0x55;
  }
}
