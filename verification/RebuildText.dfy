/** Building a text header again from what the parser returned: when that gives the line that was parsed. */
module RebuildText {
  import opened Octets
  import opened Types
  import opened IpText
  import opened CanonicalIp
  import Builder
  import Parser
  import RoundTrip
  import Utf8
  import V1
  import V2

  // Ports

  /** A port without a sign and without leading zeros. */
  predicate PlainPort(s: bytes)
  {
    s != [] && s[0] != PLUS && (|s| == 1 || s[0] != ZERO)
  }

  lemma PortRebuiltIff(s: bytes)
    requires ParsePort(s).Some?
    ensures Digits(ParsePort(s).value, 10) == s <==> PlainPort(s)
  {
    if PlainPort(s) {
      DigitsOfValue(s, 10);
    }
    var n := ParsePort(s).value;
    DigitsAreDigits(n, 10);
    assert DigitValue(Digits(n, 10)[0], 10).Some?;
    if n > 0 {
      NoLeadingZero(n, 10);
    }
  }

  // Lines

  lemma {:induction false} JoinOfSplit(s: bytes, n: nat)
    requires n > 0
    ensures V1.Joined(V1.SplitN(s, n)) == s
    decreases n
  {
    var f := V1.Field(s);
    if n > 1 && |f| < |s| {
      var rest := s[|f| + 1..];
      JoinOfSplit(rest, n - 1);
      assert s == f + ([V1.SPACE] + rest);
      assert V1.SplitN(s, n)[1..] == V1.SplitN(rest, n - 1);
    }
  }

  /** The text is read as an IPv6 address and follows section 4 of RFC 5952. */
  ghost predicate Recommended(s: bytes)
  {
    Read6(s).Some? && Rfc5952(s)
  }

  /** A line that says nothing but what the parser returns: an unknown line carries no more than that word, ports are
      plain and IPv6 addresses are written as section 4 of RFC 5952 recommends. IPv4 addresses have one text only. */
  ghost predicate CanonicalLine(line: bytes)
  {
    if V1.IsUnknown(line) then line == V1.PROXY + [V1.SPACE] + V1.UNKNOWN
    else
      var parts := V1.SplitN(line, V1.FIELDS);
      && |parts| == 6 && PlainPort(parts[4]) && PlainPort(parts[5])
      && (parts[1] == V1.TCP6 ==> Recommended(parts[2]) && Recommended(parts[3]))
  }

  function Replan(info: ProxyInfo): Builder.Plan
  {
    Builder.Plan(Version1, info.command, info.transport, info.source, info.destination, [], false)
  }

  /** What the fields of an accepted line were read as. */
  lemma FieldsMean(family: AddressFamily, a: bytes, b: bytes, c: bytes, d: bytes, src: SocketAddr, dst: SocketAddr)
    requires V1.ParseFields(family, a, b, c, d) == Ok(V1.Known(family, src, dst))
    ensures Parse(a) == Some(src.ip) && Parse(b) == Some(dst.ip) && V1.OfFamily(family, src.ip)
            && V1.OfFamily(family, dst.ip)
    ensures ParsePort(c) == Some(src.port) && ParsePort(d) == Some(dst.port)
  {
  }

  lemma IpRebuiltIff(family: AddressFamily, s: bytes, ip: IpAddr)
    requires Parse(s) == Some(ip) && V1.OfFamily(family, ip)
    ensures Print(ip) == s <==> (family == Inet6 ==> Recommended(s))
  {
    if family == Inet {
      OneText(s);
    } else {
      Rfc5952Iff(s);
    }
  }

  lemma SixFields(parts: seq<bytes>, a: bytes, b: bytes, c: bytes, d: bytes, e: bytes, f: bytes)
    requires |parts| == 6
    ensures [a, b, c, d, e, f] == parts
            <==> a == parts[0] && b == parts[1] && c == parts[2] && d == parts[3] && e == parts[4] && f == parts[5]
  {
  }

  /** The fields of a line, against those that would be written. */
  lemma FieldsRebuiltIff(family: AddressFamily, parts: seq<bytes>, src: SocketAddr, dst: SocketAddr)
    requires family != Unix && |parts| == 6 && parts[0] == V1.PROXY && parts[1] == V1.Proto(family)
    requires V1.ParseFields(family, parts[2], parts[3], parts[4], parts[5]) == Ok(V1.Known(family, src, dst))
    ensures V1.LineFields(family, src, dst) == parts
            <==> (&& PlainPort(parts[4]) && PlainPort(parts[5])
                  && (family == Inet6 ==> Recommended(parts[2]) && Recommended(parts[3])))
  {
    FieldsMean(family, parts[2], parts[3], parts[4], parts[5], src, dst);
    IpRebuiltIff(family, parts[2], src.ip);
    IpRebuiltIff(family, parts[3], dst.ip);
    PortRebuiltIff(parts[4]);
    PortRebuiltIff(parts[5]);
    SixFields(parts, V1.PROXY, V1.Proto(family), Print(src.ip), Print(dst.ip), Digits(src.port, 10),
              Digits(dst.port, 10));
  }

  lemma FirstField(line: bytes)
    requires Parser.V1_START <= line
    ensures V1.SplitN(line, V1.FIELDS)[0] == V1.PROXY
  {
    assert line == V1.PROXY + ([V1.SPACE] + line[6..]);
    V1.FieldFirst(V1.PROXY, line[6..]);
  }

  lemma FieldsGive(family: AddressFamily, a: bytes, b: bytes, c: bytes, d: bytes)
    returns (src: SocketAddr, dst: SocketAddr)
    requires V1.ParseFields(family, a, b, c, d).Ok?
    ensures V1.ParseFields(family, a, b, c, d) == Ok(V1.Known(family, src, dst))
  {
    src := SocketAddr(Parse(a).value, ParsePort(c).value);
    dst := SocketAddr(Parse(b).value, ParsePort(d).value);
  }

  lemma KnownFamily(line: bytes, info: ProxyInfo, parts: seq<bytes>) returns (family: AddressFamily)
    requires V1.ParseLine(line) == Ok(info) && !V1.IsUnknown(line) && parts == V1.SplitN(line, V1.FIELDS)
    ensures family != Unix && |parts| == 6 && parts[1] == V1.Proto(family)
    ensures V1.ParseFields(family, parts[2], parts[3], parts[4], parts[5]) == Ok(info)
  {
    family := if parts[1] == V1.TCP4 then Inet else Inet6;
  }

  /** What an accepted line with addresses is made of. */
  lemma KnownParts(line: bytes, info: ProxyInfo, parts: seq<bytes>)
    returns (family: AddressFamily, src: SocketAddr, dst: SocketAddr)
    requires V1.ParseLine(line) == Ok(info) && !V1.IsUnknown(line) && parts == V1.SplitN(line, V1.FIELDS)
    ensures family != Unix && |parts| == 6 && parts[1] == V1.Proto(family) && info == V1.Known(family, src, dst)
    ensures V1.ParseFields(family, parts[2], parts[3], parts[4], parts[5]) == Ok(V1.Known(family, src, dst))
  {
    family := KnownFamily(line, info, parts);
    src, dst := FieldsGive(family, parts[2], parts[3], parts[4], parts[5]);
  }

  lemma KnownConsistent(family: AddressFamily, src: SocketAddr, dst: SocketAddr)
    requires family != Unix && V1.OfFamily(family, src.ip) && V1.OfFamily(family, dst.ip)
    ensures var p := Replan(V1.Known(family, src, dst));
            && Builder.Consistent(p) && Builder.V1Line(p) == V1.Joined(V1.LineFields(family, src, dst))
            && Builder.BuildV1(p) == V1.Joined(V1.LineFields(family, src, dst)) + V1.CRLF
  {
  }

  /** Lines are equal exactly when their fields are. */
  lemma SameFields(line: bytes, parts: seq<bytes>, family: AddressFamily, src: SocketAddr, dst: SocketAddr)
    requires parts == V1.SplitN(line, V1.FIELDS)
    ensures V1.Joined(V1.LineFields(family, src, dst)) == line <==> V1.LineFields(family, src, dst) == parts
  {
    V1.SplitLine(family, src, dst);
    JoinOfSplit(line, V1.FIELDS);
  }

  lemma KnownLineRebuiltIff(line: bytes, info: ProxyInfo)
    requires Parser.V1_START <= line && V1.ParseLine(line) == Ok(info) && !V1.IsUnknown(line)
    ensures Builder.Consistent(Replan(info)) && (Builder.V1Line(Replan(info)) == line <==> CanonicalLine(line))
  {
    var parts := V1.SplitN(line, V1.FIELDS);
    var family, src, dst := KnownParts(line, info, parts);
    FirstField(line);
    FieldsMean(family, parts[2], parts[3], parts[4], parts[5], src, dst);
    KnownConsistent(family, src, dst);
    SameFields(line, parts, family, src, dst);
    FieldsRebuiltIff(family, parts, src, dst);
  }

  lemma LineRebuiltIff(line: bytes, info: ProxyInfo)
    requires Parser.V1_START <= line && V1.ReadLine(line) == Ok(info)
    ensures Builder.Consistent(Replan(info)) && (Builder.V1Line(Replan(info)) == line <==> CanonicalLine(line))
  {
    if !V1.IsUnknown(line) {
      KnownLineRebuiltIff(line, info);
    }
  }

  lemma DispatchedLine(readLine: Parser.LineReader, readHeader: Parser.HeaderReader,
                       buf: bytes, info: ProxyInfo, n: nat)
    requires Parser.Dispatch(readLine, readHeader, buf) == Ok(Parsed(info, n)) && buf[0] == 0x50
    ensures 8 <= n <= |buf| && buf[..n] == buf[..n - 2] + V1.CRLF
    ensures Parser.V1_START <= buf[..n - 2] && readLine(buf[..n - 2]) == Ok(info)
  {
    Parser.ShortLine(readLine, buf, n);
    var end := V1.FindCrlf(V1.Window(buf)).value;
    assert n == end + 2 && V1.Window(buf)[end] == buf[end] && V1.Window(buf)[end + 1] == buf[end + 1];
    assert buf[..n] == buf[..end] + [buf[end], buf[end + 1]];
  }

  /** An accepted text header is a line and its end. */
  lemma AcceptedLine(buf: bytes, info: ProxyInfo, n: nat)
    requires Parser.Parse(buf) == Ok(Parsed(info, n)) && info.version == Version1
    ensures 8 <= n <= |buf| && buf[..n] == buf[..n - 2] + V1.CRLF
    ensures Parser.V1_START <= buf[..n - 2] && V1.ReadLine(buf[..n - 2]) == Ok(info)
  {
    assert buf[0] == 0x50;
    DispatchedLine(V1.ReadLine, V2.ParseComplete, buf, info, n);
  }

  lemma EndsDiffer(line: bytes, other: bytes)
    ensures line + V1.CRLF == other + V1.CRLF <==> line == other
  {
    if line + V1.CRLF == other + V1.CRLF {
      assert line == (line + V1.CRLF)[..|line|] && other == (other + V1.CRLF)[..|other|];
    }
  }

  /** Whenever `parse` accepts a text header, building again from what it returned gives back exactly the bytes it
      took if and only if the line is canonical. */
  lemma LineRebuildIff(buf: bytes, info: ProxyInfo, n: nat)
    requires Parser.Parse(buf) == Ok(Parsed(info, n)) && info.version == Version1
    ensures 2 <= n <= |buf| && Builder.Consistent(Replan(info))
    ensures Builder.BuildV1(Replan(info)) == buf[..n] <==> CanonicalLine(buf[..n - 2])
  {
    AcceptedLine(buf, info, n);
    LineRebuiltIff(buf[..n - 2], info);
    EndsDiffer(Builder.V1Line(Replan(info)), buf[..n - 2]);
  }

  // Lines that are accepted and not canonical

  /** `header` is accepted as `info` whatever follows, but `built`, which is built from that, is another. */
  predicate NotRebuilt(parse: bytes -> ParseResult, header: bytes, info: ProxyInfo, rest: bytes, built: bytes)
  {
    parse(header + rest) == Ok(Parsed(info, |header|)) && built != header
  }

  lemma LineNotRebuilt(read: Parser.LineReader, parse: bytes -> ParseResult, line: bytes, info: ProxyInfo, rest: bytes,
                       other: bytes)
    requires RoundTrip.Follows(read, parse) && read(line) == Ok(info) && other != line
    requires RoundTrip.Printable(line) && |line| + 2 <= V1.MAX_LEN && Parser.V1_START <= line
    ensures NotRebuilt(parse, line + V1.CRLF, info, rest, other + V1.CRLF)
  {
    EndsDiffer(line, other);
  }

  predicate Visible(s: bytes)
  {
    forall i :: 0 <= i < |s| ==> 0x20 < s[i] < 0x80
  }

  predicate AllVisible(fields: seq<bytes>)
  {
    forall i :: 0 <= i < |fields| ==> Visible(fields[i])
  }

  lemma VisibleLine(fields: seq<bytes>)
    requires |fields| == 6 && AllVisible(fields) && fields[0] == V1.PROXY
    ensures V1.NoSpaces(fields) && RoundTrip.Printable(V1.Joined(fields)) && Utf8.Valid(V1.Joined(fields))
    ensures Parser.V1_START <= V1.Joined(fields)
  {
    forall i | 0 <= i < 6 ensures RoundTrip.Printable(fields[i]) && V1.NoSpace(fields[i]) {
      assert Visible(fields[i]);
    }
    RoundTrip.JoinedPrintable(fields);
    Utf8.AsciiIsValid(V1.Joined(fields));
    assert V1.Joined(fields) == V1.PROXY + ([V1.SPACE] + V1.Joined(fields[1..]));
  }

  lemma PartsRead(line: bytes, parts: seq<bytes>, family: AddressFamily)
    requires Utf8.Valid(line) && !V1.IsUnknown(line) && V1.SplitN(line, V1.FIELDS) == parts
    requires |parts| == 6 && parts[1] == V1.Proto(family) && family != Unix
    ensures V1.ReadLine(line) == V1.ParseFields(family, parts[2], parts[3], parts[4], parts[5])
  {
  }

  lemma FieldsReadLine(fields: seq<bytes>, family: AddressFamily, src: SocketAddr, dst: SocketAddr)
    requires |fields| == 6 && AllVisible(fields) && fields[0] == V1.PROXY && fields[1] == V1.Proto(family)
             && family != Unix
    requires V1.ParseFields(family, fields[2], fields[3], fields[4], fields[5]) == Ok(V1.Known(family, src, dst))
    ensures V1.ReadLine(V1.Joined(fields)) == Ok(V1.Known(family, src, dst))
  {
    VisibleLine(fields);
    V1.SplitJoined(fields, V1.FIELDS);
    V1.NotUnknown(fields);
    PartsRead(V1.Joined(fields), fields, family);
  }

  /** `fields` make a line that is accepted for these addresses. */
  predicate Acceptable(fields: seq<bytes>, family: AddressFamily, src: SocketAddr, dst: SocketAddr)
  {
    && |fields| == 6 && AllVisible(fields) && fields[0] == V1.PROXY && fields[1] == V1.Proto(family) && family != Unix
    && V1.ParseFields(family, fields[2], fields[3], fields[4], fields[5]) == Ok(V1.Known(family, src, dst))
    && |V1.Joined(fields)| + 2 <= V1.MAX_LEN
  }

  lemma FieldsNotRebuilt(fields: seq<bytes>, family: AddressFamily, src: SocketAddr, dst: SocketAddr, rest: bytes)
    requires Acceptable(fields, family, src, dst) && V1.Joined(V1.LineFields(family, src, dst)) != V1.Joined(fields)
    ensures var info := V1.Known(family, src, dst);
            && Builder.Consistent(Replan(info))
            && NotRebuilt(Parser.Parse, V1.Joined(fields) + V1.CRLF, info, rest, Builder.BuildV1(Replan(info)))
  {
    VisibleLine(fields);
    FieldsReadLine(fields, family, src, dst);
    FieldsMean(family, fields[2], fields[3], fields[4], fields[5], src, dst);
    KnownConsistent(family, src, dst);
    RoundTrip.ParseFollows();
    LineNotRebuilt(V1.ReadLine, Parser.Parse, V1.Joined(fields), V1.Known(family, src, dst), rest,
                   V1.Joined(V1.LineFields(family, src, dst)));
  }

  /** The fields of a line, the first port with a sign. */
  function SignedFields(family: AddressFamily, src: SocketAddr, dst: SocketAddr): seq<bytes>
  {
    V1.LineFields(family, src, dst)[4 := [PLUS] + Digits(src.port, 10)]
  }

  lemma SignedPort(n: u16)
    ensures ParsePort([PLUS] + Digits(n, 10)) == Some(n)
  {
    DigitsAreDigits(n, 10);
    assert ([PLUS] + Digits(n, 10))[1..] == Digits(n, 10);
  }

  lemma SignedVisible(family: AddressFamily, src: SocketAddr, dst: SocketAddr)
    ensures AllVisible(SignedFields(family, src, dst))
  {
    PrintPlain(src.ip);
    PrintPlain(dst.ip);
    DigitsPlain(src.port, 10);
    DigitsPlain(dst.port, 10);
  }

  lemma SignedReads(family: AddressFamily, src: SocketAddr, dst: SocketAddr)
    requires V1.OfFamily(family, src.ip) && V1.OfFamily(family, dst.ip)
    ensures var f := SignedFields(family, src, dst);
            V1.ParseFields(family, f[2], f[3], f[4], f[5]) == Ok(V1.Known(family, src, dst))
  {
    ParsePrinted(src.ip);
    ParsePrinted(dst.ip);
    SignedPort(src.port);
    PortPrinted(dst.port);
  }

  lemma SignedLength(family: AddressFamily, src: SocketAddr, dst: SocketAddr)
    requires V1.OfFamily(family, src.ip) && V1.OfFamily(family, dst.ip)
    ensures |V1.Joined(SignedFields(family, src, dst))| == |V1.Joined(V1.LineFields(family, src, dst))| + 1 <= 103
  {
    RoundTrip.LinePrintable(family, src, dst);
    RoundTrip.JoinedLength(V1.LineFields(family, src, dst));
    RoundTrip.JoinedLength(SignedFields(family, src, dst));
  }

  /** For every text header with addresses there is another that is read alike, and so not built again: the one with a
      sign before the port. */
  lemma SignedLineNotRebuilt(family: AddressFamily, src: SocketAddr, dst: SocketAddr, rest: bytes)
    requires V1.OfFamily(family, src.ip) && V1.OfFamily(family, dst.ip) && family != Unix
    ensures var info := V1.Known(family, src, dst);
            var b := V1.Joined(SignedFields(family, src, dst)) + V1.CRLF;
            Builder.Consistent(Replan(info)) && NotRebuilt(Parser.Parse, b, info, rest, Builder.BuildV1(Replan(info)))
  {
    SignedLength(family, src, dst);
    SignedVisible(family, src, dst);
    SignedReads(family, src, dst);
    FieldsNotRebuilt(SignedFields(family, src, dst), family, src, dst, rest);
  }

  /** The fields of a line, the first address in another text. */
  function RewordedFields(text: bytes, src: SocketAddr, dst: SocketAddr): seq<bytes>
  {
    V1.LineFields(Inet6, src, dst)[2 := text]
  }

  lemma RewordedReads(text: bytes, src: SocketAddr, dst: SocketAddr)
    requires Parse(text) == Some(src.ip) && src.ip.V6? && dst.ip.V6?
    ensures var f := RewordedFields(text, src, dst);
            V1.ParseFields(Inet6, f[2], f[3], f[4], f[5]) == Ok(V1.Known(Inet6, src, dst))
  {
    ParsePrinted(dst.ip);
    PortPrinted(src.port);
    PortPrinted(dst.port);
  }

  lemma RewordedVisible(text: bytes, src: SocketAddr, dst: SocketAddr)
    requires Visible(text) && |text| <= 42 && dst.ip.V6?
    ensures AllVisible(RewordedFields(text, src, dst)) && |V1.Joined(RewordedFields(text, src, dst))| + 2 <= V1.MAX_LEN
  {
    PrintPlain(dst.ip);
    DigitsPlain(src.port, 10);
    DigitsPlain(dst.port, 10);
    DecimalLength(src.port);
    DecimalLength(dst.port);
    RoundTrip.JoinedLength(RewordedFields(text, src, dst));
  }

  lemma RewordedDiffers(text: bytes, src: SocketAddr, dst: SocketAddr)
    requires Parse(text) == Some(src.ip) && src.ip.V6? && dst.ip.V6? && !Recommended(text)
    requires AllVisible(RewordedFields(text, src, dst))
    ensures V1.Joined(V1.LineFields(Inet6, src, dst)) != V1.Joined(RewordedFields(text, src, dst))
  {
    var fields := RewordedFields(text, src, dst);
    VisibleLine(fields);
    V1.SplitJoined(fields, V1.FIELDS);
    SameFields(V1.Joined(fields), fields, Inet6, src, dst);
    IpRebuiltIff(Inet6, text, src.ip);
    assert fields[2] == text && V1.LineFields(Inet6, src, dst)[2] == Print(src.ip);
  }

  /** For every text of an IPv6 address that is not the recommended one, the line with it is read, and not built
      again. */
  lemma RewordedLineNotRebuilt(text: bytes, src: SocketAddr, dst: SocketAddr, rest: bytes)
    requires Parse(text) == Some(src.ip) && src.ip.V6? && dst.ip.V6? && !Recommended(text) && Visible(text)
             && |text| <= 42
    ensures var info := V1.Known(Inet6, src, dst);
            var b := V1.Joined(RewordedFields(text, src, dst)) + V1.CRLF;
            Builder.Consistent(Replan(info)) && NotRebuilt(Parser.Parse, b, info, rest, Builder.BuildV1(Replan(info)))
  {
    RewordedVisible(text, src, dst);
    RewordedReads(text, src, dst);
    RewordedDiffers(text, src, dst);
    FieldsNotRebuilt(RewordedFields(text, src, dst), Inet6, src, dst, rest);
  }

  /** `::A` */
  const UPPER: bytes := [COLON, COLON] + [0x41]

  lemma UpperDigit()
    ensures Run([0x41], 10) == [] && Run([0x41], 16) == [0x41] && Value([0x41], 16) == 10
  {
    assert [0x41][1..] == [] && [0x41][..0] == [];
  }

  lemma UpperGroup(limit: nat)
    requires limit > 1
    ensures ReadGroups([0x41], 0, limit) == Groups([10], false, [])
  {
    UpperDigit();
    NoGroupsThere([], 1, limit);
    assert [0x41][1..] == [] && [10] + [] == [10];
  }

  lemma UpperReads(text: bytes)
    requires text == UPPER
    ensures Parse(text) == Some(V6(OctetsOf(Expanded([], [10]))))
  {
    UpperGroup(GROUPS - 1);
    Read6AfterColons([0x41], [10], false);
    Read4NotColon(text);
    ParseFrom6(text, Expanded([], [10]));
  }

  lemma UpperIsNotRecommended(text: bytes)
    requires text == UPPER
    ensures !Recommended(text) && Visible(text) && |text| == 3
  {
    assert UpperHex(text[2]);
  }

  /** Such a text: an address in upper case. */
  lemma UpperCaseNotRebuilt(port: u16, dst: SocketAddr, rest: bytes)
    requires dst.ip.V6?
    ensures var src := SocketAddr(V6(OctetsOf(Expanded([], [10]))), port);
            var info := V1.Known(Inet6, src, dst);
            var b := V1.Joined(RewordedFields(UPPER, src, dst)) + V1.CRLF;
            Builder.Consistent(Replan(info)) && NotRebuilt(Parser.Parse, b, info, rest, Builder.BuildV1(Replan(info)))
  {
    UpperReads(UPPER);
    UpperIsNotRecommended(UPPER);
    RewordedLineNotRebuilt(UPPER, SocketAddr(V6(OctetsOf(Expanded([], [10]))), port), dst, rest);
  }
}
