/** The text header, its bytes and numbers written out: which texts are addresses and ports, what `parse` makes of each
    kind of line, and which lines `build` writes. */
module WireText {
  import opened Octets
  import opened Types
  import opened Wire
  import Builder
  import CanonicalIp
  import IpText
  import Parser
  import Utf8
  import V1
  import V2

  // Numbers

  /** Up to five digits without leading zeros; 0x30 is the digit zero. */
  function Decimal(n: nat): bytes
    requires n < 100000
  {
    if n < 10 then [0x30 + n]
    else if n < 100 then [0x30 + n / 10, 0x30 + n % 10]
    else if n < 1000 then [0x30 + n / 100, 0x30 + n / 10 % 10, 0x30 + n % 10]
    else if n < 10000 then [0x30 + n / 1000, 0x30 + n / 100 % 10, 0x30 + n / 10 % 10, 0x30 + n % 10]
    else [0x30 + n / 10000, 0x30 + n / 1000 % 10, 0x30 + n / 100 % 10, 0x30 + n / 10 % 10, 0x30 + n % 10]
  }

  lemma DigitsStep(n: nat)
    ensures IpText.Digits(n, 10) == (if n < 10 then [] else IpText.Digits(n / 10, 10)) + [0x30 + n % 10]
  {
  }

  lemma DecimalSteps(n: nat)
    requires 10 <= n < 100000
    ensures Decimal(n) == Decimal(n / 10) + [0x30 + n % 10]
  {
  }

  lemma {:induction false} DecimalIs(n: nat)
    requires n < 100000
    ensures IpText.Digits(n, 10) == Decimal(n)
    decreases n
  {
    DigitsStep(n);
    if n >= 10 {
      DecimalIs(n / 10);
      DecimalSteps(n);
    }
  }

  // Ports

  function ZeroDigits(k: nat): (s: bytes)
    ensures |s| == k && forall i :: 0 <= i < k ==> s[i] == 0x30
  {
    seq(k, i => 0x30)
  }

  lemma {:induction false} LeadingZeroValue(t: bytes)
    requires IpText.AllDigits(t, 10)
    ensures IpText.AllDigits([0x30] + t, 10) && IpText.Value([0x30] + t, 10) == IpText.Value(t, 10)
    decreases |t|
  {
    var s := [0x30] + t;
    forall i | 0 <= i < |s| ensures IpText.DigitValue(s[i], 10).Some? {
      assert i > 0 ==> s[i] == t[i - 1];
    }
    if t == [] {
      assert s[..0] == [];
    } else {
      LeadingZeroValue(t[..|t| - 1]);
      assert s[..|s| - 1] == [0x30] + t[..|t| - 1];
    }
  }

  lemma {:induction false} ZerosBefore(k: nat, t: bytes)
    requires IpText.AllDigits(t, 10)
    ensures IpText.AllDigits(ZeroDigits(k) + t, 10)
            && IpText.Value(ZeroDigits(k) + t, 10) == IpText.Value(t, 10)
    decreases k
  {
    if k == 0 {
      assert ZeroDigits(0) + t == t;
    } else {
      ZerosBefore(k - 1, t);
      LeadingZeroValue(ZeroDigits(k - 1) + t);
      assert [0x30] + (ZeroDigits(k - 1) + t) == ZeroDigits(k) + t;
    }
  }

  /** Digits are zeros and then the number without leading zeros. */
  lemma {:induction false} WithoutZeros(t: bytes) returns (k: nat)
    requires t != [] && IpText.AllDigits(t, 10)
    ensures t == ZeroDigits(k) + IpText.Digits(IpText.Value(t, 10), 10)
    decreases |t|
  {
    if |t| == 1 || t[0] != 0x30 {
      k := 0;
      CanonicalIp.DigitsOfValue(t, 10);
    } else {
      assert t == [0x30] + t[1..];
      LeadingZeroValue(t[1..]);
      k := WithoutZeros(t[1..]);
      k := k + 1;
    }
  }

  /** The port in decimal, after any number of zeros, after a plus sign or none. */
  ghost predicate PortText(text: bytes, n: u16)
  {
    exists k: nat :: text == ZeroDigits(k) + Decimal(n) || text == [0x2B] + (ZeroDigits(k) + Decimal(n))
  }

  lemma UnsignedPortIff(t: bytes, n: u16)
    ensures t != [] && IpText.AllDigits(t, 10) && IpText.Value(t, 10) == n
            <==> exists k: nat :: t == ZeroDigits(k) + Decimal(n)
  {
    DecimalIs(n);
    if t != [] && IpText.AllDigits(t, 10) && IpText.Value(t, 10) == n {
      var k := WithoutZeros(t);
    }
    forall k: nat | t == ZeroDigits(k) + Decimal(n)
      ensures t != [] && IpText.AllDigits(t, 10) && IpText.Value(t, 10) == n {
      IpText.DigitsAreDigits(n, 10);
      ZerosBefore(k, Decimal(n));
    }
  }

  /** A text is read as a port exactly if it is one. */
  lemma PortIff(text: bytes, n: u16)
    ensures IpText.ParsePort(text) == Some(n) <==> PortText(text, n)
  {
    UnsignedPortIff(text, n);
    if text != [] {
      UnsignedPortIff(text[1..], n);
    }
  }

  // Addresses

  /** Four decimal numbers with dots between them. */
  function Dotted(v: Octets4): bytes
  {
    Decimal(v[0]) + [0x2E] + Decimal(v[1]) + [0x2E] + Decimal(v[2]) + [0x2E] + Decimal(v[3])
  }

  /** `text` is how octets are printed. */
  ghost predicate PrintsOctets(text: byte -> bytes)
  {
    forall b: byte :: text(b) == IpText.Digits(b, 10)
  }

  lemma OctetsStep(text: byte -> bytes, v: Octets4, k: nat)
    requires PrintsOctets(text) && k < 4
    ensures IpText.PrintOctets(v[k..], k)
         == (if k == 0 then [] else [0x2E]) + (text(v[k]) + IpText.PrintOctets(v[k + 1..], k + 1))
  {
    assert v[k..][0] == v[k] && v[k..][1..] == v[k + 1..];
  }

  lemma FourWithDots(a: bytes, b: bytes, c: bytes, d: bytes)
    ensures [] + (a + ([0x2E] + (b + ([0x2E] + (c + ([0x2E] + (d + [])))))))
         == a + [0x2E] + b + [0x2E] + c + [0x2E] + d
  {
  }

  lemma OctetsAre(text: byte -> bytes, v: Octets4)
    requires PrintsOctets(text)
    ensures IpText.PrintOctets(v, 0)
         == text(v[0]) + [0x2E] + text(v[1]) + [0x2E] + text(v[2]) + [0x2E] + text(v[3])
  {
    OctetsStep(text, v, 0);
    OctetsStep(text, v, 1);
    OctetsStep(text, v, 2);
    OctetsStep(text, v, 3);
    assert v[0..] == v && v[4..] == [];
    FourWithDots(text(v[0]), text(v[1]), text(v[2]), text(v[3]));
  }

  lemma DottedIs(v: Octets4)
    ensures IpText.Print4(v) == Dotted(v)
  {
    var text := (b: byte) => Decimal(b);
    forall b: byte ensures text(b) == IpText.Digits(b, 10) {
      DecimalIs(b);
    }
    OctetsAre(text, v);
  }

  /** A text is read as an IPv4 address exactly if it is the four numbers with dots between them. */
  lemma DottedIff(text: bytes, v: Octets4)
    ensures IpText.Parse(text) == Some(V4(v)) <==> text == Dotted(v)
  {
    DottedIs(v);
    IpText.ParsePrinted(V4(v));
    if IpText.Parse(text) == Some(V4(v)) {
      CanonicalIp.OneText(text);
    }
  }

  // Lines

  /** The start of a line and no end, short enough to be followed by one. */
  predicate Line(line: bytes)
  {
    StartsText(line) && |line| <= 105 && NoLineEnd(line, |line|)
  }

  /** What is read of a line that takes `n` bytes. */
  function Counted(r: Result<ProxyInfo, ParseError>, n: nat): ParseResult
  {
    match r
    case Err(e) => Err(e)
    case Ok(info) => Ok(Parsed(info, n))
  }

  lemma LineEnds(read: Parser.LineReader, line: bytes, rest: bytes)
    requires Line(line)
    ensures V1.OnLine(read, line + [0x0D, 0x0A] + rest)
         == Counted(read(line), |line| + 2)
  {
    var buf := line + [0x0D, 0x0A] + rest;
    var w := V1.Window(buf);
    assert w[|line|] == 0x0D && w[|line| + 1] == 0x0A;
    assert forall i :: 0 <= i < |line| ==> w[i] == line[i];
    V1.FindCrlfIs(w, |line|);
    assert buf[..|line|] == line;
  }

  lemma LineDispatched(readLine: Parser.LineReader, readHeader: Parser.HeaderReader, line: bytes, rest: bytes)
    requires Line(line)
    ensures Parser.Dispatch(readLine, readHeader, line + [0x0D, 0x0A] + rest)
         == Counted(readLine(line), |line| + 2)
  {
    var buf := line + [0x0D, 0x0A] + rest;
    assert buf[0] == 0x50 && Parser.V1_START <= buf;
    LineEnds(readLine, line, rest);
  }

  /** A line is read up to its end, whatever follows. */
  lemma LineRead(line: bytes, rest: bytes)
    requires Line(line)
    ensures Parser.Parse(line + [0x0D, 0x0A] + rest)
         == Counted(V1.ReadLine(line), |line| + 2)
  {
    LineDispatched(V1.ReadLine, V2.ParseComplete, line, rest);
  }

  lemma NotUtf8(line: bytes, rest: bytes)
    requires Line(line) && !Utf8.Valid(line)
    ensures Parser.Parse(line + [0x0D, 0x0A] + rest) == Err(Invalid(V1NotUtf8))
  {
    LineRead(line, rest);
  }

  /** `PROXY UNKNOWN`, alone or before a space and anything. */
  predicate SaysUnknown(line: bytes)
  {
    && |line| >= 13
    && line[..13] == [0x50, 0x52, 0x4F, 0x58, 0x59, 0x20, 0x55, 0x4E, 0x4B, 0x4E, 0x4F, 0x57, 0x4E]
    && (|line| == 13 || line[13] == 0x20)
  }

  lemma UnknownIff(line: bytes)
    ensures V1.IsUnknown(line) <==> SaysUnknown(line)
  {
    var prefix := V1.PROXY + [V1.SPACE] + V1.UNKNOWN;
    assert prefix == [0x50, 0x52, 0x4F, 0x58, 0x59, 0x20, 0x55, 0x4E, 0x4B, 0x4E, 0x4F, 0x57, 0x4E];
  }

  /** An unknown line is a header without addresses. */
  lemma UnknownLine(line: bytes, rest: bytes)
    requires Line(line) && SaysUnknown(line) && Utf8.Valid(line)
    ensures Parser.Parse(line + [0x0D, 0x0A] + rest)
         == Ok(Parsed(ProxyInfo(Version1, Proxy, None, None, None, Tlvs(None, None, None, None, None, None, [])),
                      |line| + 2))
  {
    LineRead(line, rest);
    UnknownIff(line);
  }

  /** How many spaces there are. */
  function Spaces(s: bytes): nat
  {
    if s == [] then 0 else (if s[0] == 0x20 then 1 else 0) + Spaces(s[1..])
  }

  lemma {:induction false} SpacesAfterField(s: bytes)
    ensures var f := V1.Field(s);
            if |f| == |s| then Spaces(s) == 0 else Spaces(s) == 1 + Spaces(s[|f| + 1..])
    decreases |s|
  {
    if s != [] && s[0] != 0x20 {
      SpacesAfterField(s[1..]);
    }
  }

  lemma {:induction false} PartsCounted(s: bytes, n: nat)
    requires n > 0
    ensures |V1.SplitN(s, n)| == if Spaces(s) < n then Spaces(s) + 1 else n
    decreases n
  {
    SpacesAfterField(s);
    var f := V1.Field(s);
    if n > 1 && |f| < |s| {
      PartsCounted(s[|f| + 1..], n - 1);
    }
  }

  /** Any other line has six fields, which is to say five spaces. */
  lemma WrongCount(line: bytes, rest: bytes)
    requires Line(line) && !SaysUnknown(line) && Utf8.Valid(line) && Spaces(line) != 5
    ensures Parser.Parse(line + [0x0D, 0x0A] + rest) == Err(Invalid(V1InvalidFormat))
  {
    LineRead(line, rest);
    UnknownIff(line);
    PartsCounted(line, V1.FIELDS);
  }

  /** `PROXY` and five fields, with single spaces between them. */
  function SixFields(proto: bytes, src: bytes, dst: bytes, srcPort: bytes, dstPort: bytes): bytes
  {
    [0x50, 0x52, 0x4F, 0x58, 0x59, 0x20] + proto + [0x20] + src + [0x20] + dst + [0x20] + srcPort + [0x20] + dstPort
  }

  lemma SixFieldsJoined(proto: bytes, src: bytes, dst: bytes, srcPort: bytes, dstPort: bytes)
    ensures SixFields(proto, src, dst, srcPort, dstPort)
         == V1.Joined([V1.PROXY, proto, src, dst, srcPort, dstPort])
  {
    JoinedSix([V1.PROXY, proto, src, dst, srcPort, dstPort]);
  }

  lemma JoinedSix(f: seq<bytes>)
    requires |f| == 6
    ensures V1.Joined(f)
         == f[0] + ([0x20] + (f[1] + ([0x20] + (f[2] + ([0x20] + (f[3] + ([0x20] + (f[4] + ([0x20] + f[5])))))))))
  {
    assert f[1..][1..] == f[2..] && f[2..][1..] == f[3..] && f[3..][1..] == f[4..] && f[4..][1..] == f[5..];
    assert V1.Joined(f[5..]) == f[5];
    assert V1.Joined(f[4..]) == f[4] + ([0x20] + V1.Joined(f[5..]));
    assert V1.Joined(f[3..]) == f[3] + ([0x20] + V1.Joined(f[4..]));
    assert V1.Joined(f[2..]) == f[2] + ([0x20] + V1.Joined(f[3..]));
    assert V1.Joined(f[1..]) == f[1] + ([0x20] + V1.Joined(f[2..]));
  }

  predicate NoSpaces(proto: bytes, src: bytes, dst: bytes, srcPort: bytes, dstPort: bytes)
  {
    0x20 !in proto && 0x20 !in src && 0x20 !in dst && 0x20 !in srcPort && 0x20 !in dstPort
  }

  lemma FieldsRead(proto: bytes, src: bytes, dst: bytes, srcPort: bytes, dstPort: bytes)
    requires NoSpaces(proto, src, dst, srcPort, dstPort)
    ensures V1.SplitN(SixFields(proto, src, dst, srcPort, dstPort), V1.FIELDS)
         == [V1.PROXY, proto, src, dst, srcPort, dstPort]
  {
    var fields := [V1.PROXY, proto, src, dst, srcPort, dstPort];
    SixFieldsJoined(proto, src, dst, srcPort, dstPort);
    forall i | 0 <= i < 6 ensures V1.NoSpace(fields[i]) {
    }
    V1.SplitJoined(fields, V1.FIELDS);
  }

  /** Does the word after `PROXY ` decide: what says unknown, and what does not. */
  lemma SaysUnknownIff(proto: bytes, src: bytes, dst: bytes, srcPort: bytes, dstPort: bytes)
    requires NoSpaces(proto, src, dst, srcPort, dstPort)
    ensures SaysUnknown(SixFields(proto, src, dst, srcPort, dstPort))
            <==> proto == [0x55, 0x4E, 0x4B, 0x4E, 0x4F, 0x57, 0x4E]
  {
    var tail := [0x20] + src + [0x20] + dst + [0x20] + srcPort + [0x20] + dstPort;
    var line := SixFields(proto, src, dst, srcPort, dstPort);
    assert line == [0x50, 0x52, 0x4F, 0x58, 0x59, 0x20] + (proto + tail);
    WordThen(line, proto, tail);
  }

  lemma WordThen(line: bytes, word: bytes, tail: bytes)
    requires 0x20 !in word && tail != [] && tail[0] == 0x20
    requires line == [0x50, 0x52, 0x4F, 0x58, 0x59, 0x20] + (word + tail)
    ensures SaysUnknown(line) <==> word == [0x55, 0x4E, 0x4B, 0x4E, 0x4F, 0x57, 0x4E]
  {
    var start := [0x50, 0x52, 0x4F, 0x58, 0x59, 0x20];
    if SaysUnknown(line) {
      assert line[6 + |word|] == 0x20;
      assert forall i :: 0 <= i < |word| ==> line[6 + i] == word[i];
      assert |word| == 7;
      assert line[..13][6..] == word;
    }
    if word == [0x55, 0x4E, 0x4B, 0x4E, 0x4F, 0x57, 0x4E] {
      assert line[..13] == start + word && line[13] == 0x20;
    }
  }

  /** What is made of the four fields after the word for the family. */
  predicate Outcome(r: ParseResult, family: AddressFamily, src: bytes, dst: bytes, srcPort: bytes, dstPort: bytes,
                    n: nat)
  {
    var s, d := IpText.Parse(src), IpText.Parse(dst);
    var sp, dp := IpText.ParsePort(srcPort), IpText.ParsePort(dstPort);
    var sOk := s.Some? && (family == Inet <==> s.value.V4?);
    var dOk := d.Some? && (family == Inet <==> d.value.V4?);
    if sOk && dOk && sp.Some? && dp.Some? then
      r == Ok(Parsed(ProxyInfo(Version1, Proxy, Some(Transport(family, Stream)),
                               Some(InetAddress(SocketAddr(s.value, sp.value))),
                               Some(InetAddress(SocketAddr(d.value, dp.value))),
                               Tlvs(None, None, None, None, None, None, [])), n))
    else if sOk && dOk then r == Err(Invalid(InvalidPort(if sp.None? then srcPort else dstPort)))
    else r == Err(Invalid(InvalidIp(if s.None? || (d.Some? && !sOk) then src else dst)))
  }

  lemma FieldsOutcome(family: AddressFamily, src: bytes, dst: bytes, srcPort: bytes, dstPort: bytes, n: nat)
    requires family != Unix
    ensures Outcome(Counted(V1.ParseFields(family, src, dst, srcPort, dstPort), n), family, src, dst, srcPort, dstPort,
                    n)
  {
  }

  predicate LineOutcome(r: ParseResult, proto: bytes, src: bytes, dst: bytes, srcPort: bytes, dstPort: bytes, n: nat)
  {
    if proto == [0x54, 0x43, 0x50, 0x34] then Outcome(r, Inet, src, dst, srcPort, dstPort, n)
    else if proto == [0x54, 0x43, 0x50, 0x36] then Outcome(r, Inet6, src, dst, srcPort, dstPort, n)
    else r == Err(Invalid(V1UnknownTransport(proto)))
  }

  /** What is read of the fields, by the word for the family. */
  function ReadAs(proto: bytes, src: bytes, dst: bytes, srcPort: bytes, dstPort: bytes): Result<ProxyInfo, ParseError>
  {
    if proto == [0x54, 0x43, 0x50, 0x34] then V1.ParseFields(Inet, src, dst, srcPort, dstPort)
    else if proto == [0x54, 0x43, 0x50, 0x36] then V1.ParseFields(Inet6, src, dst, srcPort, dstPort)
    else Err(Invalid(V1UnknownTransport(proto)))
  }

  lemma SixFieldsRead(line: bytes, proto: bytes, src: bytes, dst: bytes, srcPort: bytes, dstPort: bytes)
    requires Utf8.Valid(line) && !V1.IsUnknown(line)
    requires V1.SplitN(line, V1.FIELDS) == [V1.PROXY, proto, src, dst, srcPort, dstPort]
    ensures V1.ReadLine(line) == ReadAs(proto, src, dst, srcPort, dstPort)
  {
    PartsRead(line, [V1.PROXY, proto, src, dst, srcPort, dstPort]);
  }

  lemma PartsRead(line: bytes, parts: seq<bytes>)
    requires Utf8.Valid(line) && !V1.IsUnknown(line) && V1.SplitN(line, V1.FIELDS) == parts && |parts| == 6
    ensures V1.ReadLine(line) == ReadAs(parts[1], parts[2], parts[3], parts[4], parts[5])
  {
  }

  lemma ReadAsOutcome(proto: bytes, src: bytes, dst: bytes, srcPort: bytes, dstPort: bytes, n: nat)
    ensures LineOutcome(Counted(ReadAs(proto, src, dst, srcPort, dstPort), n), proto, src, dst, srcPort, dstPort, n)
  {
    FieldsOutcome(Inet, src, dst, srcPort, dstPort, n);
    FieldsOutcome(Inet6, src, dst, srcPort, dstPort, n);
  }

  lemma SixFieldsAnswer(line: bytes, proto: bytes, src: bytes, dst: bytes, srcPort: bytes, dstPort: bytes, n: nat)
    requires NoSpaces(proto, src, dst, srcPort, dstPort) && line == SixFields(proto, src, dst, srcPort, dstPort)
    requires Utf8.Valid(line) && proto != [0x55, 0x4E, 0x4B, 0x4E, 0x4F, 0x57, 0x4E]
    ensures LineOutcome(Counted(V1.ReadLine(line), n), proto, src, dst, srcPort, dstPort, n)
  {
    UnknownIff(line);
    SaysUnknownIff(proto, src, dst, srcPort, dstPort);
    FieldsRead(proto, src, dst, srcPort, dstPort);
    SixFieldsRead(line, proto, src, dst, srcPort, dstPort);
    ReadAsOutcome(proto, src, dst, srcPort, dstPort, n);
  }

  /** A line of six fields: the word after `PROXY`, which is `TCP4` or `TCP6`, says which addresses follow, first both
      addresses, then both ports, the source first; it is accepted exactly if all four are what they should be. */
  lemma SixFieldLine(line: bytes, proto: bytes, src: bytes, dst: bytes, srcPort: bytes, dstPort: bytes, rest: bytes)
    requires NoSpaces(proto, src, dst, srcPort, dstPort) && line == SixFields(proto, src, dst, srcPort, dstPort)
    requires Line(line) && Utf8.Valid(line) && proto != [0x55, 0x4E, 0x4B, 0x4E, 0x4F, 0x57, 0x4E]
    ensures LineOutcome(Parser.Parse(line + [0x0D, 0x0A] + rest), proto, src, dst, srcPort, dstPort, |line| + 2)
  {
    LineRead(line, rest);
    SixFieldsAnswer(line, proto, src, dst, srcPort, dstPort, |line| + 2);
  }

  // What is built

  /** `build` of a text header with IPv4 addresses, byte by byte. */
  lemma Built4(p: Builder.Plan, s: Octets4, sp: u16, d: Octets4, dp: u16)
    requires Builder.Consistent(p) && p.version == Version1 && p.transport.Some?
    requires p.source == Some(InetAddress(SocketAddr(V4(s), sp)))
             && p.destination == Some(InetAddress(SocketAddr(V4(d), dp)))
    ensures Builder.BuildV1(p)
         == SixFields([0x54, 0x43, 0x50, 0x34], Dotted(s), Dotted(d), Decimal(sp), Decimal(dp)) + [0x0D, 0x0A]
  {
    DottedIs(s);
    DottedIs(d);
    DecimalIs(sp);
    DecimalIs(dp);
    SixFieldsJoined([0x54, 0x43, 0x50, 0x34], Dotted(s), Dotted(d), Decimal(sp), Decimal(dp));
  }

  /** With IPv6 addresses, whose texts `CanonicalIp.Rfc5952Iff` is about. */
  lemma Built6(p: Builder.Plan, s: Octets16, sp: u16, d: Octets16, dp: u16)
    requires Builder.Consistent(p) && p.version == Version1 && p.transport.Some?
    requires p.source == Some(InetAddress(SocketAddr(V6(s), sp)))
             && p.destination == Some(InetAddress(SocketAddr(V6(d), dp)))
    ensures Builder.BuildV1(p)
         == SixFields([0x54, 0x43, 0x50, 0x36], IpText.Print6(s), IpText.Print6(d), Decimal(sp), Decimal(dp))
            + [0x0D, 0x0A]
  {
    DecimalIs(sp);
    DecimalIs(dp);
    SixFieldsJoined([0x54, 0x43, 0x50, 0x36], IpText.Print6(s), IpText.Print6(d), Decimal(sp), Decimal(dp));
  }

  /** Without addresses. */
  lemma BuiltUnknown(p: Builder.Plan)
    requires Builder.Consistent(p) && p.version == Version1 && p.transport.None?
    ensures Builder.BuildV1(p)
         == [0x50, 0x52, 0x4F, 0x58, 0x59, 0x20, 0x55, 0x4E, 0x4B, 0x4E, 0x4F, 0x57, 0x4E, 0x0D, 0x0A]
  {
  }
}
