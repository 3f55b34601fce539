/** The wire format, its bytes and numbers written out: which data `parse_tlvs` accepts and what each typed field then
    holds, what `parse` makes of each kind of binary header, and which bytes `build` writes. */
module Wire {
  import opened Octets
  import opened Types
  import opened Utf8
  import Builder
  import Crc32c
  import Integrity
  import Parser
  import RoundTrip
  import Tlv
  import V1
  import V2

  // Entries

  /** `data` is the entries one after the other, each a type byte, two bytes for the length and the value. */
  predicate Spells(data: bytes, es: seq<RawTlv>)
    decreases |es|
  {
    if es == [] then data == []
    else
      var n := |es[0].value|;
      && |data| >= 3 + n && data[0] == es[0].kind && 256 * (data[1] as int) + data[2] as int == n
      && data[3..3 + n] == es[0].value && Spells(data[3 + n..], es[1..])
  }

  ghost predicate Spellable(data: bytes)
  {
    exists es :: Spells(data, es)
  }

  lemma SpellsHead(data: bytes, e: RawTlv, later: bytes)
    ensures var n := |e.value|;
            (&& |data| >= 3 + n && data[0] == e.kind && 256 * (data[1] as int) + data[2] as int == n
             && data[3..3 + n] == e.value && data[3 + n..] == later)
            <==> Tlv.Fits(e) && data == Tlv.Encode(e) + later
  {
    var n := |e.value|;
    if |data| >= 3 + n && data[0] == e.kind && 256 * (data[1] as int) + data[2] as int == n
       && data[3..3 + n] == e.value && data[3 + n..] == later {
      Tlv.EncodeHead(data);
    }
    if Tlv.Fits(e) && data == Tlv.Encode(e) + later {
      Tlv.HeadTailOf(e, later);
    }
  }

  lemma {:induction false} SpellsIff(data: bytes, es: seq<RawTlv>)
    ensures Spells(data, es) <==> Tlv.AllFit(es) && Tlv.EncodeAll(es) == data
    decreases |es|
  {
    if es != [] {
      var n := |es[0].value|;
      assert [es[0]] + es[1..] == es;
      if Spells(data, es) {
        SpellsIff(data[3 + n..], es[1..]);
        SpellsHead(data, es[0], data[3 + n..]);
      }
      if Tlv.AllFit(es) && Tlv.EncodeAll(es) == data {
        var later := Tlv.EncodeAll(es[1..]);
        SpellsHead(data, es[0], later);
        SpellsIff(later, es[1..]);
      }
    }
  }

  /** `i` is where the last entry of the type is. */
  predicate LastOf(es: seq<RawTlv>, kind: byte, i: int)
  {
    0 <= i < |es| && es[i].kind == kind && forall j :: i < j < |es| ==> es[j].kind != kind
  }

  /** The field is what the value of the last entry of the type means, and absent if there is none. */
  ghost predicate Holds<T>(es: seq<RawTlv>, kind: byte, means: (bytes, T) -> bool, field: Option<T>)
  {
    match field
    case None => forall i :: 0 <= i < |es| ==> es[i].kind != kind
    case Some(x) => exists i :: LastOf(es, kind, i) && means(es[i].value, x)
  }

  /** What the values of entries of the type mean is read off them by `read`. */
  ghost predicate ReadBy<T(!new)>(es: seq<RawTlv>, kind: byte, means: (bytes, T) -> bool, read: bytes -> Option<T>)
  {
    forall i :: 0 <= i < |es| && es[i].kind == kind ==>
      && read(es[i].value).Some?
      && forall x :: means(es[i].value, x) <==> read(es[i].value) == Some(x)
  }

  function ReadLast<T>(es: seq<RawTlv>, kind: byte, read: bytes -> Option<T>): Option<T>
  {
    match Tlv.LastValue(es, kind)
    case None => None
    case Some(v) => read(v)
  }

  lemma HoldsIff<T(!new)>(es: seq<RawTlv>, kind: byte, means: (bytes, T) -> bool, read: bytes -> Option<T>,
                          field: Option<T>)
    requires ReadBy(es, kind, means, read)
    ensures Holds(es, kind, means, field) <==> field == ReadLast(es, kind, read)
  {
    if Tlv.LastValue(es, kind).None? {
      Tlv.LastValueNone(es, kind);
    } else {
      var i := Tlv.LastValueAt(es, kind);
      assert LastOf(es, kind, i) && read(es[i].value).Some?;
      forall j | LastOf(es, kind, j) ensures j == i {
      }
    }
  }

  // What values mean

  predicate Same(v: bytes, x: bytes)
  {
    v == x
  }

  /** The value as text. */
  predicate Shown(v: bytes, x: utf8)
  {
    x == Lossy(v)
  }

  /** Four bytes and the number they spell, the first the most significant. */
  predicate Spelled(v: bytes, x: bv32)
  {
    |v| == 4 && x as int == BigEndian(v)
  }

  /** The fields of an SSL record hold what the sub-entries say. */
  ghost predicate SubFields(subs: seq<RawTlv>, x: SslInfo)
  {
    && Holds(subs, 0x21, Shown, x.version)
    && Holds(subs, 0x22, Shown, x.cn)
    && Holds(subs, 0x23, Shown, x.cipher)
    && Holds(subs, 0x24, Shown, x.sigAlg)
    && Holds(subs, 0x25, Shown, x.keyAlg)
    && Holds(subs, 0x26, Shown, x.group)
    && Holds(subs, 0x27, Shown, x.sigScheme)
    && Holds(subs, 0x28, Same, x.clientCert)
  }

  /** A flag byte of which three bits count, four bytes that are zero for a verified client, and sub-entries. */
  ghost predicate Describes(v: bytes, x: SslInfo)
  {
    && |v| >= 5
    && x.clientFlags == v[0] % 8
    && (x.verified <==> v[1] == 0 && v[2] == 0 && v[3] == 0 && v[4] == 0)
    && exists subs :: Spells(v[5..], subs) && SubFields(subs, x)
  }

  /** An entry of a length, and for an SSL record with sub-entries, that its type allows. */
  ghost predicate Sound(e: RawTlv)
  {
    && (e.kind == 0x03 ==> |e.value| == 4)
    && (e.kind == 0x05 ==> |e.value| <= 128)
    && (e.kind == 0x20 ==> |e.value| >= 5 && Spellable(e.value[5..]))
  }

  ghost predicate AllSound(es: seq<RawTlv>)
  {
    forall i :: 0 <= i < |es| ==> Sound(es[i])
  }

  /** The typed fields hold what the entries say: ALPN, authority, checksum, unique id, SSL record, namespace. */
  ghost predicate Fields(t: Tlvs)
  {
    && Holds(t.raw, 0x01, Same, t.alpn)
    && Holds(t.raw, 0x02, Shown, t.authority)
    && Holds(t.raw, 0x03, Spelled, t.crc32c)
    && Holds(t.raw, 0x05, Same, t.uniqueId)
    && Holds(t.raw, 0x20, Describes, t.ssl)
    && Holds(t.raw, 0x30, Shown, t.netns)
  }

  // The typed view meets this

  lemma SubsIff(data: bytes, at: nat)
    ensures Tlv.FirstBad(Tlv.SubFault, data, at).None? <==> Spellable(data)
  {
    Tlv.FirstBadNone(Tlv.SubFault, data, at);
    var f := Tlv.Unframe(data);
    if f.rest == [] {
      Tlv.UnframeLossless(data);
      assert Tlv.EncodeAll(f.entries) + [] == Tlv.EncodeAll(f.entries);
      SpellsIff(data, f.entries);
    }
    forall subs | Spells(data, subs) ensures f.rest == [] {
      SpelledSubs(data, subs);
    }
  }

  /** Data spells only one sequence of entries. */
  lemma SpelledSubs(data: bytes, subs: seq<RawTlv>)
    requires Spells(data, subs)
    ensures Tlv.Unframe(data) == Tlv.Framed(subs, [])
  {
    SpellsIff(data, subs);
    Tlv.UnframeEncoded(subs, []);
    assert Tlv.EncodeAll(subs) + [] == data;
  }

  lemma SoundIff(e: RawTlv)
    ensures Sound(e) <==> Tlv.Fault(e).None?
  {
    if e.kind == 0x20 && |e.value| >= 5 {
      SubsIff(e.value[5..], 8);
    }
  }

  function ReadSame(v: bytes): Option<bytes>
  {
    Some(v)
  }

  function ReadText(v: bytes): Option<utf8>
  {
    Some(Lossy(v))
  }

  lemma SameIff(es: seq<RawTlv>, kind: byte, field: Option<bytes>)
    ensures Holds(es, kind, Same, field) <==> field == Tlv.LastValue(es, kind)
  {
    HoldsIff(es, kind, Same, ReadSame, field);
  }

  lemma ShownIff(es: seq<RawTlv>, kind: byte, field: Option<utf8>)
    ensures Holds(es, kind, Shown, field) <==> field == Tlv.Text(Tlv.LastValue(es, kind))
  {
    HoldsIff(es, kind, Shown, ReadText, field);
  }

  lemma SubFieldsIff(client: byte, verify: bytes, subs: seq<RawTlv>, x: SslInfo)
    ensures x == Tlv.SslFrom(client, verify, subs)
            <==> x.clientFlags == client % 8 && x.verified == (verify == [0, 0, 0, 0]) && SubFields(subs, x)
  {
    ShownIff(subs, 0x21, x.version);
    ShownIff(subs, 0x22, x.cn);
    ShownIff(subs, 0x23, x.cipher);
    ShownIff(subs, 0x24, x.sigAlg);
    ShownIff(subs, 0x25, x.keyAlg);
    ShownIff(subs, 0x26, x.group);
    ShownIff(subs, 0x27, x.sigScheme);
    SameIff(subs, 0x28, x.clientCert);
  }

  lemma DescribesIff(v: bytes, x: SslInfo)
    requires |v| >= 5 && Spellable(v[5..])
    ensures Describes(v, x) <==> Tlv.SslOf(Some(v)) == Some(x)
  {
    var subs :| Spells(v[5..], subs);
    SpelledSubs(v[5..], subs);
    forall other | Spells(v[5..], other) ensures other == subs {
      SpelledSubs(v[5..], other);
    }
    SubFieldsIff(v[0], v[1..5], subs, x);
    assert v[1..5] == [v[1], v[2], v[3], v[4]];
  }

  function ReadSsl(v: bytes): Option<SslInfo>
  {
    Tlv.SslOf(Some(v))
  }

  lemma SslReadBy(es: seq<RawTlv>)
    requires AllSound(es)
    ensures ReadBy(es, 0x20, Describes, ReadSsl)
  {
    forall i | 0 <= i < |es| && es[i].kind == 0x20
      ensures ReadSsl(es[i].value).Some?
      ensures forall x :: Describes(es[i].value, x) <==> ReadSsl(es[i].value) == Some(x)
    {
      assert Sound(es[i]);
      forall x ensures Describes(es[i].value, x) <==> ReadSsl(es[i].value) == Some(x) {
        DescribesIff(es[i].value, x);
      }
    }
  }

  lemma SslHoldsIff(es: seq<RawTlv>, field: Option<SslInfo>)
    requires AllSound(es)
    ensures Holds(es, 0x20, Describes, field) <==> field == Tlv.SslOf(Tlv.LastValue(es, 0x20))
  {
    SslReadBy(es);
    HoldsIff(es, 0x20, Describes, ReadSsl, field);
  }

  lemma SpelledIff(v: bytes, x: bv32)
    requires |v| == 4
    ensures Spelled(v, x) <==> x == U32(v)
  {
    U32Value(v);
    if x as int == U32(v) as int {
      SameWord(x, U32(v));
    }
  }

  lemma CrcHoldsIff(es: seq<RawTlv>, field: Option<bv32>)
    requires AllSound(es)
    ensures Holds(es, 0x03, Spelled, field) <==> field == Tlv.CrcOf(Tlv.LastValue(es, 0x03))
  {
    var read := (v: bytes) => Tlv.CrcOf(Some(v));
    forall i | 0 <= i < |es| && es[i].kind == 0x03
      ensures read(es[i].value).Some? && forall x :: Spelled(es[i].value, x) <==> read(es[i].value) == Some(x)
    {
      assert Sound(es[i]);
      forall x ensures Spelled(es[i].value, x) <==> read(es[i].value) == Some(x) {
        SpelledIff(es[i].value, x);
      }
    }
    HoldsIff(es, 0x03, Spelled, read, field);
  }

  lemma FieldsIff(t: Tlvs)
    requires AllSound(t.raw)
    ensures Fields(t) <==> t == Tlv.Typed(t.raw)
  {
    SameIff(t.raw, 0x01, t.alpn);
    ShownIff(t.raw, 0x02, t.authority);
    CrcHoldsIff(t.raw, t.crc32c);
    SameIff(t.raw, 0x05, t.uniqueId);
    SslHoldsIff(t.raw, t.ssl);
    ShownIff(t.raw, 0x30, t.netns);
  }

  /** `parse_tlvs` accepts exactly the data that spells sound entries, and returns these entries and, in each typed
      field, what the last entry of its type says. */
  lemma EntriesIff(data: bytes, t: Tlvs)
    ensures Tlv.ParseTlvs(data) == Ok(t) <==> Spells(data, t.raw) && AllSound(t.raw) && Fields(t)
  {
    Tlv.AcceptedIff(data, t);
    SpellsIff(data, t.raw);
    forall e ensures Sound(e) <==> Tlv.Fault(e).None? {
      SoundIff(e);
    }
    if AllSound(t.raw) {
      FieldsIff(t);
    }
  }

  // Binary headers

  /** The signature, version and command, family and protocol, and the two bytes of the length. */
  function Start(verCmd: byte, famProto: byte, h: byte, l: byte): (s: V2.Header)
    ensures |s| == 16
  {
    [0x0D, 0x0A, 0x0D, 0x0A, 0x00, 0x0D, 0x0A, 0x51, 0x55, 0x49, 0x54, 0x0A, verCmd, famProto, h, l]
  }

  /** The payload is as long as the two bytes say. */
  predicate Announces(h: byte, l: byte, payload: bytes)
  {
    256 * (h as int) + l as int == |payload|
  }

  lemma StartParts(verCmd: byte, famProto: byte, h: byte, l: byte, rest: bytes)
    ensures var buf := Start(verCmd, famProto, h, l) + rest;
            && V2.SIGNATURE <= buf && buf[0] == 0x0D && buf[12] == verCmd && buf[13] == famProto
            && buf[14] == h && buf[15] == l && buf[16..] == rest
  {
  }

  /** A header that is there in full goes to the reader of complete headers. */
  lemma Dispatched(readLine: Parser.LineReader, readHeader: Parser.HeaderReader, verCmd: byte, famProto: byte, h: byte,
                   l: byte, payload: bytes, rest: bytes)
    requires Announces(h, l, payload) && (verCmd == 0x20 || verCmd == 0x21)
    ensures Parser.Dispatch(readLine, readHeader, Start(verCmd, famProto, h, l) + payload + rest)
         == readHeader(if verCmd == 0x20 then Local else Proxy, Start(verCmd, famProto, h, l) + payload)
  {
    var header := Start(verCmd, famProto, h, l) + payload;
    assert header + rest == Start(verCmd, famProto, h, l) + (payload + rest);
    StartParts(verCmd, famProto, h, l, payload + rest);
    assert (header + rest)[..|header|] == header;
  }

  /** The header is read with these addresses and its entries; without a checksum among these, whatever it holds is
      accepted that `parse_tlvs` accepts. */
  predicate ReadWith(r: ParseResult, transport: Transport, source: ProxyAddress, destination: ProxyAddress,
                     entries: bytes, n: nat)
  {
    match Tlv.ParseTlvs(entries)
    case Err(e) => r == Err(e)
    case Ok(t) =>
      t.crc32c.None? ==>
        r == Ok(Parsed(ProxyInfo(Version2, Proxy, Some(transport), Some(source), Some(destination), t), n))
  }

  lemma NoEntries()
    ensures Tlv.ParseTlvs([]) == Ok(Tlvs(None, None, None, None, None, None, []))
  {
  }

  lemma CompleteRead(header: V2.Header, a: V2.Addressing, entries: bytes)
    requires V2.ReadAddresses(Proxy, header[13], header[16..]) == Ok(a)
    requires a.transport.Some? && a.source.Some? && a.destination.Some? && header[16 + a.tlvOffset..] == entries
    ensures ReadWith(V2.ParseComplete(Proxy, header), a.transport.value, a.source.value, a.destination.value, entries,
                     |header|)
  {
    NoEntries();
  }

  /** A PROXY header whose addresses are read. */
  lemma ProxyRead(famProto: byte, payload: bytes, a: V2.Addressing, entries: bytes, h: byte, l: byte, rest: bytes)
    requires Announces(h, l, payload) && V2.ReadAddresses(Proxy, famProto, payload) == Ok(a)
    requires a.transport.Some? && a.source.Some? && a.destination.Some? && payload[a.tlvOffset..] == entries
    ensures ReadWith(Parser.Parse(Start(0x21, famProto, h, l) + payload + rest), a.transport.value, a.source.value,
                     a.destination.value, entries, 16 + |payload|)
  {
    var header: V2.Header := Start(0x21, famProto, h, l) + payload;
    Dispatched(V1.ReadLine, V2.ParseComplete, 0x21, famProto, h, l, payload, rest);
    StartParts(0x21, famProto, h, l, payload);
    assert header[16 + a.tlvOffset..] == entries;
    CompleteRead(header, a, entries);
  }

  function ProtocolOf(protocol: byte): TransportProtocol
  {
    if protocol == 1 then Stream else Datagram
  }

  /** PROXY, IPv4: addresses and ports are where they are, the source first, the high byte of a port first. */
  lemma Inet4Header(protocol: byte, s: Octets4, d: Octets4, a: byte, b: byte, c: byte, e: byte, entries: bytes, h: byte,
                    l: byte, rest: bytes)
    requires (protocol == 1 || protocol == 2) && Announces(h, l, s + d + [a, b, c, e] + entries)
    ensures ReadWith(Parser.Parse(Start(0x21, 0x10 + protocol, h, l) + (s + d + [a, b, c, e] + entries) + rest),
                     Transport(Inet, ProtocolOf(protocol)),
                     InetAddress(SocketAddr(V4(s), 256 * (a as int) + b as int)),
                     InetAddress(SocketAddr(V4(d), 256 * (c as int) + e as int)), entries, 28 + |entries|)
  {
    var payload := s + d + [a, b, c, e] + entries;
    Inet4Payload(protocol, s, d, a, b, c, e, entries);
    var r := V2.ReadAddresses(Proxy, 0x10 + protocol, payload).value;
    assert payload[r.tlvOffset..] == entries;
    ProxyRead(0x10 + protocol, payload, r, entries, h, l, rest);
  }

  lemma Inet4Payload(protocol: byte, s: Octets4, d: Octets4, a: byte, b: byte, c: byte, e: byte, entries: bytes)
    requires protocol == 1 || protocol == 2
    ensures V2.ReadAddresses(Proxy, 0x10 + protocol, s + d + [a, b, c, e] + entries)
         == Ok(V2.Addressing(Some(Transport(Inet, ProtocolOf(protocol))),
                             Some(InetAddress(SocketAddr(V4(s), 256 * (a as int) + b as int))),
                             Some(InetAddress(SocketAddr(V4(d), 256 * (c as int) + e as int))), 12))
  {
    var payload := s + d + [a, b, c, e] + entries;
    assert payload[0..4] == s && payload[4..8] == d;
    assert payload[8] == a && payload[9] == b && payload[10] == c && payload[11] == e;
  }

  /** PROXY, IPv6. */
  lemma Inet6Header(protocol: byte, s: Octets16, d: Octets16, a: byte, b: byte, c: byte, e: byte, entries: bytes,
                    h: byte, l: byte, rest: bytes)
    requires (protocol == 1 || protocol == 2) && Announces(h, l, s + d + [a, b, c, e] + entries)
    ensures ReadWith(Parser.Parse(Start(0x21, 0x20 + protocol, h, l) + (s + d + [a, b, c, e] + entries) + rest),
                     Transport(Inet6, ProtocolOf(protocol)),
                     InetAddress(SocketAddr(V6(s), 256 * (a as int) + b as int)),
                     InetAddress(SocketAddr(V6(d), 256 * (c as int) + e as int)), entries, 52 + |entries|)
  {
    var payload := s + d + [a, b, c, e] + entries;
    Inet6Payload(protocol, s, d, a, b, c, e, entries);
    var r := V2.ReadAddresses(Proxy, 0x20 + protocol, payload).value;
    assert payload[r.tlvOffset..] == entries;
    ProxyRead(0x20 + protocol, payload, r, entries, h, l, rest);
  }

  lemma Inet6Payload(protocol: byte, s: Octets16, d: Octets16, a: byte, b: byte, c: byte, e: byte, entries: bytes)
    requires protocol == 1 || protocol == 2
    ensures V2.ReadAddresses(Proxy, 0x20 + protocol, s + d + [a, b, c, e] + entries)
         == Ok(V2.Addressing(Some(Transport(Inet6, ProtocolOf(protocol))),
                             Some(InetAddress(SocketAddr(V6(s), 256 * (a as int) + b as int))),
                             Some(InetAddress(SocketAddr(V6(d), 256 * (c as int) + e as int))), 36))
  {
    var payload := s + d + [a, b, c, e] + entries;
    assert payload[0..16] == s && payload[16..32] == d;
    assert payload[32] == a && payload[33] == b && payload[34] == c && payload[35] == e;
  }

  /** The field of 108 bytes holds the path: all of it, or ended by a NUL. */
  predicate HoldsPath(field: bytes, path: bytes)
  {
    |field| == 108 && path <= field && 0 !in path && (|path| == 108 || field[|path|] == 0)
  }

  lemma PathHeld(field: bytes, path: bytes)
    requires path <= field && 0 !in path && (|path| == |field| || field[|path|] == 0)
    ensures V2.UntilNul(field) == path
  {
    assert |V2.UntilNul(field)| == |path|;
  }

  /** PROXY, Unix: two fields of 108 bytes. */
  lemma UnixHeader(protocol: byte, s: bytes, d: bytes, sf: bytes, df: bytes, entries: bytes, h: byte, l: byte,
                   rest: bytes)
    requires (protocol == 1 || protocol == 2) && HoldsPath(sf, s) && HoldsPath(df, d)
             && Announces(h, l, sf + df + entries)
    ensures ReadWith(Parser.Parse(Start(0x21, 0x30 + protocol, h, l) + (sf + df + entries) + rest),
                     Transport(Unix, ProtocolOf(protocol)), UnixPath(s), UnixPath(d), entries, 232 + |entries|)
  {
    var payload := sf + df + entries;
    UnixPayload(protocol, s, d, sf, df, entries);
    var a := V2.ReadAddresses(Proxy, 0x30 + protocol, payload).value;
    assert payload[a.tlvOffset..] == entries;
    ProxyRead(0x30 + protocol, payload, a, entries, h, l, rest);
  }

  lemma UnixPayload(protocol: byte, s: bytes, d: bytes, sf: bytes, df: bytes, entries: bytes)
    requires (protocol == 1 || protocol == 2) && HoldsPath(sf, s) && HoldsPath(df, d)
    ensures V2.ReadAddresses(Proxy, 0x30 + protocol, sf + df + entries)
         == Ok(V2.Addressing(Some(Transport(Unix, ProtocolOf(protocol))), Some(UnixPath(s)), Some(UnixPath(d)), 216))
  {
    var payload := sf + df + entries;
    PathHeld(sf, s);
    PathHeld(df, d);
    assert payload[0..108] == sf && payload[108..216] == df;
  }

  /** LOCAL: no addresses, whatever family it names; all of the payload is entries, or counts as none. */
  lemma LocalHeader(famProto: byte, payload: bytes, h: byte, l: byte, rest: bytes)
    requires Announces(h, l, payload)
    ensures var r := Parser.Parse(Start(0x20, famProto, h, l) + payload + rest);
            var t := match Tlv.ParseTlvs(payload)
                     case Ok(t) => t
                     case Err(_) => Tlvs(None, None, None, None, None, None, []);
            t.crc32c.None? ==> r == Ok(Parsed(ProxyInfo(Version2, Local, None, None, None, t), 16 + |payload|))
  {
    var header: V2.Header := Start(0x20, famProto, h, l) + payload;
    Dispatched(V1.ReadLine, V2.ParseComplete, 0x20, famProto, h, l, payload, rest);
    StartParts(0x20, famProto, h, l, payload);
    NoEntries();
  }

  // Headers that are refused, and headers that are not there yet

  /** The version and the command are looked at as soon as the first 16 bytes are there, and then the length. */
  lemma FixedPart(readLine: Parser.LineReader, readHeader: Parser.HeaderReader, verCmd: byte, famProto: byte, h: byte,
                  l: byte, rest: bytes)
    ensures var r := Parser.Dispatch(readLine, readHeader, Start(verCmd, famProto, h, l) + rest);
            && (!(0x20 <= verCmd <= 0x2F) ==> r == Err(Invalid(UnsupportedVersion(verCmd / 16))))
            && (0x22 <= verCmd <= 0x2F ==> r == Err(Invalid(UnknownCommand(verCmd - 0x20))))
            && (0x20 <= verCmd <= 0x21 && |rest| < 256 * (h as int) + l as int ==> r == Err(Incomplete))
  {
    StartParts(verCmd, famProto, h, l, rest);
  }

  lemma FixedPartRefused(verCmd: byte, famProto: byte, h: byte, l: byte, rest: bytes)
    ensures var r := Parser.Parse(Start(verCmd, famProto, h, l) + rest);
            && (!(0x20 <= verCmd <= 0x2F) ==> r == Err(Invalid(UnsupportedVersion(verCmd / 16))))
            && (0x22 <= verCmd <= 0x2F ==> r == Err(Invalid(UnknownCommand(verCmd - 0x20))))
            && (0x20 <= verCmd <= 0x21 && |rest| < 256 * (h as int) + l as int ==> r == Err(Incomplete))
  {
    FixedPart(V1.ReadLine, V2.ParseComplete, verCmd, famProto, h, l, rest);
  }

  /** How many bytes the addresses of a family and protocol take. */
  predicate BlockOf(famProto: byte, n: nat)
  {
    || (0x11 <= famProto <= 0x12 && n == 12)
    || (0x21 <= famProto <= 0x22 && n == 36)
    || (0x31 <= famProto <= 0x32 && n == 216)
  }

  /** A PROXY header must name a family and a protocol that are defined, and hold both addresses. */
  lemma AddressesRefused(famProto: byte, payload: bytes, h: byte, l: byte, rest: bytes)
    requires Announces(h, l, payload)
    ensures var r := Parser.Parse(Start(0x21, famProto, h, l) + payload + rest);
            && (famProto < 0x10 || famProto % 16 == 0 ==> r == Err(Invalid(UnspecWithProxy)))
            && (famProto >= 0x40 && famProto % 16 != 0 ==> r == Err(Invalid(UnknownFamily(famProto / 16))))
            && (0x10 <= famProto < 0x40 && famProto % 16 >= 3 ==>
                  r == Err(Invalid(UnknownProtocol(famProto % 16))))
            && forall n: nat | BlockOf(famProto, n) && |payload| < n ::
              r == Err(Invalid(PayloadOverflow(n, |payload|)))
  {
    Dispatched(V1.ReadLine, V2.ParseComplete, 0x21, famProto, h, l, payload, rest);
    StartParts(0x21, famProto, h, l, payload);
  }

  // The checksum

  lemma NoChecksum(data: bytes, t: Tlvs)
    requires Tlv.ParseTlvs(data) == Ok(t) && t.crc32c.None?
    ensures Tlv.AllFit(t.raw) && Tlv.EncodeAll(t.raw) == data && Tlv.Faultless(Tlv.Fault, t.raw)
            && RoundTrip.NoCrc(t.raw)
  {
    Tlv.AcceptedIff(data, t);
    forall i | 0 <= i < |t.raw| ensures t.raw[i].kind != 0x03 {
      if t.raw[i].kind == 0x03 {
        Integrity.SomeCrc(t.raw, i);
      }
    }
  }

  lemma FaultlessAround(front: seq<RawTlv>, e: RawTlv, back: seq<RawTlv>)
    requires Tlv.Faultless(Tlv.Fault, front) && Tlv.Faultless(Tlv.Fault, back) && Tlv.Fault(e).None?
    ensures Tlv.Faultless(Tlv.Fault, front + ([e] + back))
  {
  }

  lemma EncodedAround(front: seq<RawTlv>, c: Octets4, back: seq<RawTlv>)
    requires Tlv.AllFit(front) && Tlv.AllFit(back)
    ensures var es := front + ([RawTlv(0x03, c)] + back);
            Tlv.AllFit(es) && Tlv.EncodeAll(es) == Tlv.EncodeAll(front) + ([0x03, 0, 4] + c + Tlv.EncodeAll(back))
  {
    var e := RawTlv(0x03, c);
    Tlv.EncodeCons(e, back);
    Tlv.EncodeAllConcat(front, [e] + back);
    assert Tlv.Encode(e) == [0x03, 0, 4] + c;
  }

  /** Accepted entries around a checksum are accepted with it. */
  lemma ReadAround(front: seq<RawTlv>, e: RawTlv, back: seq<RawTlv>, data: bytes)
    requires Tlv.Faultless(Tlv.Fault, front) && Tlv.Faultless(Tlv.Fault, back) && Tlv.Fault(e).None?
    requires var es := front + ([e] + back); Tlv.AllFit(es) && Tlv.EncodeAll(es) == data
    ensures Tlv.ParseTlvs(data) == Ok(Tlv.Typed(front + ([e] + back)))
  {
    FaultlessAround(front, e, back);
    Tlv.AcceptedIff(data, Tlv.Typed(front + ([e] + back)));
  }

  lemma OnlyChecksum(front: seq<RawTlv>, c: Octets4, back: seq<RawTlv>)
    requires RoundTrip.NoCrc(back)
    ensures Tlv.Typed(front + ([RawTlv(0x03, c)] + back)).crc32c == Some(U32(c))
  {
    var es := front + ([RawTlv(0x03, c)] + back);
    assert es[|front|] == RawTlv(0x03, c) && es[|front| + 1..] == back;
    Integrity.OnlyCrc(es, |front|);
  }

  lemma FoundAround(front: seq<RawTlv>, c: Octets4, back: bytes, at: nat)
    requires Tlv.AllFit(front) && RoundTrip.NoCrc(front)
    ensures V2.CrcField(Tlv.EncodeAll(front) + ([0x03, 0, 4] + c + back), at)
         == Some(at + |Tlv.EncodeAll(front)| + 3)
  {
    var e := RawTlv(0x03, c);
    assert Tlv.Encode(e) + back == [0x03, 0, 4] + c + back;
    Integrity.CrcFieldFound(front, e, back, at);
  }

  /** Entries around a checksum: what is read, and where the scan finds the checksum. */
  lemma AroundChecksum(front: bytes, t: Tlvs, c: Octets4, back: bytes, u: Tlvs, at: nat)
    requires Tlv.ParseTlvs(front) == Ok(t) && t.crc32c.None? && Tlv.ParseTlvs(back) == Ok(u) && u.crc32c.None?
    ensures var data := front + ([0x03, 0, 4] + c + back);
            var tlvs := Tlv.Typed(t.raw + ([RawTlv(0x03, c)] + u.raw));
            && Tlv.ParseTlvs(data) == Ok(tlvs) && tlvs.crc32c == Some(U32(c))
            && V2.CrcField(data, at) == Some(at + |front| + 3)
  {
    NoChecksum(front, t);
    NoChecksum(back, u);
    EncodedAround(t.raw, c, u.raw);
    ReadAround(t.raw, RawTlv(0x03, c), u.raw, front + ([0x03, 0, 4] + c + back));
    OnlyChecksum(t.raw, c, u.raw);
    FoundAround(t.raw, c, back, at);
  }

  /** The verdict on a checksum: accepted exactly if it is the right one, else refused with both. */
  predicate Verified(r: ParseResult, c: Octets4, right: bv32, entries: seq<RawTlv>, n: nat)
  {
    if right as int == BigEndian(c) then r.Ok? && r.value.consumed == n && r.value.info.tlvs.raw == entries
    else r.Err? && r.error.CrcMismatch? && r.error.expected as int == BigEndian(c) && r.error.actual == right
  }

  lemma CompleteVerified(command: Command, header: V2.Header, a: V2.Addressing, tlvs: Tlvs, c: Octets4, right: bv32)
    requires V2.ReadAddresses(command, header[13], header[16..]) == Ok(a)
    requires V2.ReadTlvs(command, header[16 + a.tlvOffset..]) == Ok(tlvs) && tlvs.crc32c == Some(U32(c))
    requires V2.HeaderCrc(header, 16 + a.tlvOffset) == right
    ensures Verified(V2.ParseComplete(command, header), c, right, tlvs.raw, |header|)
  {
    Integrity.CompleteIs(command, header, a, tlvs, right);
    VerdictOn(c, right);
  }

  lemma VerdictOn(c: Octets4, right: bv32)
    ensures U32(c) as int == BigEndian(c) && (right == U32(c) <==> right as int == BigEndian(c))
  {
    U32Value(c);
    if U32(c) as int == right as int {
      SameWord(U32(c), right);
    }
  }

  /** The entries `front`, a checksum entry with the value `c`, and the entries `back`. */
  function Around(front: bytes, c: Octets4, back: bytes): bytes
  {
    front + ([0x03, 0, 4] + c + back)
  }

  lemma BlankIsZeroed(start: bytes, front: bytes, c: Octets4, back: bytes)
    ensures V2.Zeroed(start + Around(front, c, back), |start| + |front| + 3)
         == start + Around(front, [0, 0, 0, 0], back)
  {
    var header := start + Around(front, c, back);
    var p := |start| + |front| + 3;
    assert header[..p] == start + (front + [0x03, 0, 4]);
    assert header[p + 4..] == back;
  }

  /** What is read of the entries, and the checksum the header should have. */
  lemma EntriesWithChecksum(command: Command, start: bytes, front: bytes, t: Tlvs, c: Octets4, back: bytes, u: Tlvs)
    requires Tlv.ParseTlvs(front) == Ok(t) && t.crc32c.None? && Tlv.ParseTlvs(back) == Ok(u) && u.crc32c.None?
    ensures var tlvs := Tlv.Typed(t.raw + ([RawTlv(0x03, c)] + u.raw));
            && tlvs.crc32c == Some(U32(c)) && V2.ReadTlvs(command, Around(front, c, back)) == Ok(tlvs)
            && V2.HeaderCrc(start + Around(front, c, back), |start|)
               == Crc32c.Checksum(start + Around(front, [0, 0, 0, 0], back))
  {
    AroundChecksum(front, t, c, back, u, |start|);
    assert (start + Around(front, c, back))[|start|..] == Around(front, c, back);
    Integrity.FieldInHeader(start + Around(front, c, back), |start|, Around(front, c, back), |start| + |front| + 3);
    BlankIsZeroed(start, front, c, back);
  }

  lemma Verifies(verCmd: byte, famProto: byte, block: bytes, data: bytes, tlvs: Tlvs, c: Octets4, h: byte, l: byte,
                 rest: bytes, right: bv32)
    requires (verCmd == 0x20 && block == []) || (verCmd == 0x21 && BlockOf(famProto, |block|))
    requires Announces(h, l, block + data)
    requires V2.ReadTlvs(if verCmd == 0x20 then Local else Proxy, data) == Ok(tlvs) && tlvs.crc32c == Some(U32(c))
    requires V2.HeaderCrc(Start(verCmd, famProto, h, l) + block + data, 16 + |block|) == right
    ensures Verified(Parser.Parse(Start(verCmd, famProto, h, l) + (block + data) + rest), c, right, tlvs.raw,
                     16 + |block| + |data|)
  {
    var header: V2.Header := Start(verCmd, famProto, h, l) + (block + data);
    Regroup(Start(verCmd, famProto, h, l), block, data);
    Dispatched(V1.ReadLine, V2.ParseComplete, verCmd, famProto, h, l, block + data, rest);
    StartParts(verCmd, famProto, h, l, block + data);
    var a := BlockRead(verCmd, famProto, block, data);
    assert header[16 + |block|..] == data;
    CompleteVerified(if verCmd == 0x20 then Local else Proxy, header, a, tlvs, c, right);
  }

  /** A header with one checksum entry, between any others, is accepted exactly if the checksum spells, most
      significant byte first, the CRC-32C of the header with those four bytes zero. */
  lemma ChecksumHeader(verCmd: byte, famProto: byte, block: bytes, front: bytes, t: Tlvs, c: Octets4, back: bytes,
                       u: Tlvs, h: byte, l: byte, rest: bytes)
    requires (verCmd == 0x20 && block == []) || (verCmd == 0x21 && BlockOf(famProto, |block|))
    requires Tlv.ParseTlvs(front) == Ok(t) && t.crc32c.None? && Tlv.ParseTlvs(back) == Ok(u) && u.crc32c.None?
    requires Announces(h, l, block + Around(front, c, back))
    ensures var start := Start(verCmd, famProto, h, l) + block;
            Verified(Parser.Parse(Start(verCmd, famProto, h, l) + (block + Around(front, c, back)) + rest), c,
                     Crc32c.Checksum(start + Around(front, [0, 0, 0, 0], back)), t.raw + ([RawTlv(0x03, c)] + u.raw),
                     16 + |block| + |Around(front, c, back)|)
  {
    var command := if verCmd == 0x20 then Local else Proxy;
    var start := Start(verCmd, famProto, h, l) + block;
    EntriesWithChecksum(command, start, front, t, c, back, u);
    Verifies(verCmd, famProto, block, Around(front, c, back), Tlv.Typed(t.raw + ([RawTlv(0x03, c)] + u.raw)), c, h, l,
             rest, Crc32c.Checksum(start + Around(front, [0, 0, 0, 0], back)));
  }

  /** The entries start after the address block. */
  lemma BlockRead(verCmd: byte, famProto: byte, block: bytes, data: bytes) returns (a: V2.Addressing)
    requires (verCmd == 0x20 && block == []) || (verCmd == 0x21 && BlockOf(famProto, |block|))
    ensures V2.ReadAddresses(if verCmd == 0x20 then Local else Proxy, famProto, block + data) == Ok(a)
            && a.tlvOffset == |block|
  {
    a := V2.ReadAddresses(if verCmd == 0x20 then Local else Proxy, famProto, block + data).value;
  }

  // What is built

  predicate Padded(field: bytes, path: bytes)
  {
    |field| == 108 && forall i :: 0 <= i < 108 ==> field[i] == if i < |path| then path[i] else 0
  }

  /** The bytes of the addresses: none in a LOCAL header, else the source, the destination and, for IP addresses, both
      ports, the high byte first. */
  predicate BlockFor(p: Builder.Plan, block: bytes)
  {
    if p.command == Local then block == []
    else match (p.source, p.destination)
      case (Some(InetAddress(SocketAddr(V4(s), sp))), Some(InetAddress(SocketAddr(V4(d), dp)))) =>
        block == s + d + [sp / 256, sp % 256, dp / 256, dp % 256]
      case (Some(InetAddress(SocketAddr(V6(s), sp))), Some(InetAddress(SocketAddr(V6(d), dp)))) =>
        block == s + d + [sp / 256, sp % 256, dp / 256, dp % 256]
      case (Some(UnixPath(s)), Some(UnixPath(d))) =>
        |block| == 216 && Padded(block[..108], s) && Padded(block[108..], d)
      case _ => false
  }

  predicate NamesTransport(famProto: byte, transport: Option<Transport>)
  {
    match transport
    case None => famProto == 0x00
    case Some(Transport(Inet, Stream)) => famProto == 0x11
    case Some(Transport(Inet, Datagram)) => famProto == 0x12
    case Some(Transport(Inet6, Stream)) => famProto == 0x21
    case Some(Transport(Inet6, Datagram)) => famProto == 0x22
    case Some(Transport(Unix, Stream)) => famProto == 0x31
    case Some(Transport(Unix, Datagram)) => famProto == 0x32
  }

  lemma PaddedIs(field: bytes, path: bytes)
    requires Padded(field, path)
    ensures Builder.PathField(path) == field
  {
    var f := Builder.PathField(path);
    forall i | 0 <= i < 108 ensures f[i] == field[i] {
    }
  }

  lemma BlockIs(p: Builder.Plan, block: bytes)
    requires Builder.Consistent(p) && p.version == Version2 && BlockFor(p, block)
    ensures Builder.AddressBlock(p) == block
  {
    match (p.source, p.destination)
    case (Some(UnixPath(s)), Some(UnixPath(d))) =>
      PaddedIs(block[..108], s);
      PaddedIs(block[108..], d);
      assert block == block[..108] + block[108..];
    case _ =>
  }

  lemma AssembledIs(verCmd: byte, famProto: byte, payload: bytes, h: byte, l: byte)
    requires Announces(h, l, payload)
    ensures |payload| <= 65535 && Builder.Assemble(verCmd, famProto, payload) == Start(verCmd, famProto, h, l) + payload
  {
    Be16OfU16(h, l);
  }

  lemma PlannedIs(p: Builder.Plan, data: bytes)
    requires Spells(data, p.entries)
    ensures Tlv.AllFit(p.entries) && Tlv.AllFit(Builder.PlannedEntries(p))
    ensures Tlv.EncodeAll(Builder.PlannedEntries(p))
         == if p.addCrc32c then Around(data, [0, 0, 0, 0], []) else data
  {
    SpellsIff(data, p.entries);
    Builder.PlannedSplit(p);
    assert Tlv.Encode(Builder.CRC_PLACEHOLDER) == [0x03, 0, 4] + [0, 0, 0, 0] + [];
    assert data + [] == data;
  }

  /** The header before its checksum is filled in. */
  lemma UnsealedIs(p: Builder.Plan, famProto: byte, block: bytes, data: bytes, h: byte, l: byte)
    requires Builder.Consistent(p) && p.version == Version2 && NamesTransport(famProto, p.transport)
    requires BlockFor(p, block) && Spells(data, p.entries)
    requires Announces(h, l, block + if p.addCrc32c then Around(data, [0, 0, 0, 0], []) else data)
    ensures Builder.Buildable(p)
    ensures Builder.Unsealed(p)
         == Start(if p.command == Local then 0x20 else 0x21, famProto, h, l)
            + (block + if p.addCrc32c then Around(data, [0, 0, 0, 0], []) else data)
  {
    BlockIs(p, block);
    PlannedIs(p, data);
    AssembledIs(if p.command == Local then 0x20 else 0x21, famProto,
                block + if p.addCrc32c then Around(data, [0, 0, 0, 0], []) else data, h, l);
  }

  /** `build` of a binary header, byte by byte. */
  lemma BuiltPlain(p: Builder.Plan, famProto: byte, block: bytes, data: bytes, h: byte, l: byte)
    requires Builder.Consistent(p) && p.version == Version2 && NamesTransport(famProto, p.transport)
    requires BlockFor(p, block) && Spells(data, p.entries) && !p.addCrc32c && Announces(h, l, block + data)
    ensures Builder.BuildV2(p)
         == Some(Start(if p.command == Local then 0x20 else 0x21, famProto, h, l) + (block + data))
  {
    UnsealedIs(p, famProto, block, data, h, l);
  }

  lemma SealedIs(start: bytes, data: bytes)
    ensures Builder.Seal(start + Around(data, [0, 0, 0, 0], []))
         == start + Around(data, Be32(Crc32c.Checksum(start + Around(data, [0, 0, 0, 0], []))), [])
  {
  }

  /** With a checksum, which comes last and spells the CRC-32C of the header in which it is zero. */
  lemma BuiltChecksum(p: Builder.Plan, famProto: byte, block: bytes, data: bytes, h: byte, l: byte)
    returns (c: Octets4)
    requires Builder.Consistent(p) && p.version == Version2 && NamesTransport(famProto, p.transport)
    requires BlockFor(p, block) && Spells(data, p.entries) && p.addCrc32c
    requires Announces(h, l, block + Around(data, [0, 0, 0, 0], []))
    ensures var start := Start(if p.command == Local then 0x20 else 0x21, famProto, h, l) + block;
            && Builder.BuildV2(p) == Some(start + Around(data, c, []))
            && Crc32c.Checksum(start + Around(data, [0, 0, 0, 0], [])) as int == BigEndian(c)
  {
    var fixed := Start(if p.command == Local then 0x20 else 0x21, famProto, h, l);
    UnsealedIs(p, famProto, block, data, h, l);
    Regroup(fixed, block, Around(data, [0, 0, 0, 0], []));
    var right := Crc32c.Checksum(fixed + block + Around(data, [0, 0, 0, 0], []));
    c := Be32(right);
    SealedIs(fixed + block, data);
    U32OfBe32(right);
    U32Value(c);
  }

  /** Nothing is built exactly if an entry or the whole payload exceeds 65535 bytes. */
  lemma BuiltIff(p: Builder.Plan, block: bytes)
    requires Builder.Consistent(p) && p.version == Version2 && BlockFor(p, block)
    ensures Builder.BuildV2(p).Some?
            <==> exists data :: && Spells(data, p.entries)
                                && |block| + |data| + (if p.addCrc32c then 7 else 0) <= 65535
  {
    BlockIs(p, block);
    if Builder.BuildV2(p).Some? {
      Builder.PlannedSplit(p);
      SpellsIff(Tlv.EncodeAll(p.entries), p.entries);
      PlannedIs(p, Tlv.EncodeAll(p.entries));
    }
    forall data | Spells(data, p.entries) && |block| + |data| + (if p.addCrc32c then 7 else 0) <= 65535
      ensures Builder.BuildV2(p).Some? {
      PlannedIs(p, data);
    }
  }

  // SSL records

  function If(kind: byte, value: Option<bytes>): seq<RawTlv>
  {
    if value.Some? then [RawTlv(kind, value.value)] else []
  }

  /** The sub-entries of the fields that are there, in the order of their types. */
  function Present(ssl: SslInfo): seq<RawTlv>
  {
    If(0x21, ssl.version) + If(0x22, ssl.cn) + If(0x23, ssl.cipher) + If(0x24, ssl.sigAlg) + If(0x25, ssl.keyAlg)
    + If(0x26, ssl.group) + If(0x27, ssl.sigScheme) + If(0x28, ssl.clientCert)
  }

  function One(f: Builder.SubField): seq<RawTlv>
  {
    If(f.kind, f.value)
  }

  lemma SubsTake(one: Builder.SubField -> seq<RawTlv>, f: seq<Builder.SubField>, k: nat)
    requires k < |f| && one(f[k]) == One(f[k])
    ensures Builder.SubEntries(f[..k + 1]) == Builder.SubEntries(f[..k]) + one(f[k])
  {
    assert f[..k + 1][..k] == f[..k];
  }

  lemma EightSubs(one: Builder.SubField -> seq<RawTlv>, f: seq<Builder.SubField>)
    requires |f| == 8 && forall i :: 0 <= i < 8 ==> one(f[i]) == One(f[i])
    ensures Builder.SubEntries(f)
         == one(f[0]) + one(f[1]) + one(f[2]) + one(f[3]) + one(f[4]) + one(f[5]) + one(f[6]) + one(f[7])
  {
    assert f[..0] == [] && f[..8] == f;
    SubsTake(one, f, 0);
    assert [] + one(f[0]) == one(f[0]);
    SubsTake(one, f, 1);
    SubsTake(one, f, 2);
    SubsTake(one, f, 3);
    SubsTake(one, f, 4);
    SubsTake(one, f, 5);
    SubsTake(one, f, 6);
    SubsTake(one, f, 7);
  }

  /** `encode_ssl_tlv_value`, byte by byte: flags, four bytes of which the last is one for a client that is not
      verified, and the sub-entries; it fails exactly if one of these is too long. */
  lemma BuiltSsl(ssl: SslInfo, v: bytes)
    ensures Builder.EncodeSsl(ssl) == Some(v)
            <==> && |v| >= 5 && v[0] == ssl.clientFlags && v[1] == 0 && v[2] == 0 && v[3] == 0
                 && v[4] == (if ssl.verified then 0 else 1) && Spells(v[5..], Present(ssl))
  {
    EightSubs(One, Builder.SslFields(ssl));
    if |v| >= 5 {
      SpellsIff(v[5..], Present(ssl));
      assert v == [v[0]] + [v[1], v[2], v[3], v[4]] + v[5..];
    }
  }

  // What the first bytes decide

  predicate StartsBinary(buf: bytes)
  {
    |buf| >= 12 && buf[..12] == [0x0D, 0x0A, 0x0D, 0x0A, 0x00, 0x0D, 0x0A, 0x51, 0x55, 0x49, 0x54, 0x0A]
  }

  /** Starts with `PROXY` and a space. */
  predicate StartsText(buf: bytes)
  {
    |buf| >= 6 && buf[..6] == [0x50, 0x52, 0x4F, 0x58, 0x59, 0x20]
  }

  /** Nowhere in the first `n` bytes does a CR stand before a LF. */
  predicate NoLineEnd(buf: bytes, n: nat)
    requires n <= |buf|
  {
    forall i :: 0 <= i < n - 1 ==> !(buf[i] == 0x0D && buf[i + 1] == 0x0A)
  }

  /** The readers answer for themselves. */
  ghost predicate Answers(readLine: Parser.LineReader, readHeader: Parser.HeaderReader)
  {
    && (forall line :: readLine(line) != Err(Incomplete) && readLine(line) != Err(NotProxyProtocol))
    && (forall c, h :: readHeader(c, h) != Err(Incomplete) && readHeader(c, h) != Err(NotProxyProtocol))
  }

  lemma ReadersAnswer()
    ensures Answers(V1.ReadLine, V2.ParseComplete)
  {
    forall c, h: V2.Header ensures V2.ParseComplete(c, h) != Err(NotProxyProtocol) {
      HeaderAnswers(c, h);
    }
  }

  lemma HeaderAnswers(c: Command, h: V2.Header)
    ensures V2.ParseComplete(c, h).Err? ==>
              V2.ParseComplete(c, h).error.Invalid? || V2.ParseComplete(c, h).error.CrcMismatch?
  {
  }

  lemma DispatchForeignIff(readLine: Parser.LineReader, readHeader: Parser.HeaderReader, buf: bytes)
    requires Answers(readLine, readHeader)
    ensures Parser.Dispatch(readLine, readHeader, buf) == Err(NotProxyProtocol)
            <==> && buf != []
                 && (buf[0] == 0x0D ==> |buf| >= 12 && !StartsBinary(buf))
                 && (buf[0] == 0x50 ==> |buf| >= 6 && !StartsText(buf))
  {
  }

  /** A stream is foreign exactly if it starts with neither CR nor `P`, or goes on differently from the signature or
      from `PROXY` and a space. */
  lemma ForeignIff(buf: bytes)
    ensures Parser.Parse(buf) == Err(NotProxyProtocol)
            <==> && buf != []
                 && (buf[0] == 0x0D ==> |buf| >= 12 && !StartsBinary(buf))
                 && (buf[0] == 0x50 ==> |buf| >= 6 && !StartsText(buf))
  {
    ReadersAnswer();
    DispatchForeignIff(V1.ReadLine, V2.ParseComplete, buf);
  }

  /** More bytes are needed. */
  predicate Waits(buf: bytes)
  {
    || buf == []
    || (&& buf[0] == 0x0D
        && (|| |buf| < 12
            || (StartsBinary(buf) && |buf| < 16)
            || (&& StartsBinary(buf) && 0x20 <= buf[12] <= 0x21
                && |buf| < 16 + 256 * (buf[14] as int) + buf[15] as int)))
    || (buf[0] == 0x50 && (|buf| < 6 || (StartsText(buf) && |buf| < 107 && NoLineEnd(buf, |buf|))))
  }

  lemma DispatchIncompleteIff(readLine: Parser.LineReader, readHeader: Parser.HeaderReader, buf: bytes)
    requires Answers(readLine, readHeader)
    ensures Parser.Dispatch(readLine, readHeader, buf) == Err(Incomplete) <==> Waits(buf)
  {
    if buf != [] && buf[0] == 0x0D && |buf| >= 16 && StartsBinary(buf) {
      assert V2.SIGNATURE <= buf;
    }
  }

  /** `parse` asks for more bytes exactly if a signature, a fixed part, the payload that it announces or the end of a
      line of less than 107 bytes is missing. */
  lemma IncompleteIff(buf: bytes)
    ensures Parser.Parse(buf) == Err(Incomplete) <==> Waits(buf)
  {
    ReadersAnswer();
    DispatchIncompleteIff(V1.ReadLine, V2.ParseComplete, buf);
  }

  /** The readers find no line too long. */
  ghost predicate FindNoneTooLong(readLine: Parser.LineReader, readHeader: Parser.HeaderReader)
  {
    && (forall line :: readLine(line) != Err(Invalid(V1TooLong)))
    && (forall c, h :: readHeader(c, h) != Err(Invalid(V1TooLong)))
  }

  lemma ReadersFindNoneTooLong()
    ensures FindNoneTooLong(V1.ReadLine, V2.ParseComplete)
  {
    forall c, h: V2.Header ensures V2.ParseComplete(c, h) != Err(Invalid(V1TooLong)) {
      HeaderNotTooLong(c, h);
    }
  }

  lemma HeaderNotTooLong(c: Command, h: V2.Header)
    ensures V2.ParseComplete(c, h) != Err(Invalid(V1TooLong))
  {
  }

  lemma DispatchTooLongIff(readLine: Parser.LineReader, readHeader: Parser.HeaderReader, buf: bytes)
    requires FindNoneTooLong(readLine, readHeader)
    ensures Parser.Dispatch(readLine, readHeader, buf) == Err(Invalid(V1TooLong))
            <==> StartsText(buf) && |buf| >= 107 && NoLineEnd(buf, 107)
  {
    if |buf| >= 107 {
      assert V1.Window(buf) == buf[..107];
    }
    if StartsText(buf) {
      assert buf[0] == 0x50 && Parser.V1_START <= buf;
    }
  }

  /** A line of which 107 bytes have come without an end is too long, and no other is. */
  lemma TooLongIff(buf: bytes)
    ensures Parser.Parse(buf) == Err(Invalid(V1TooLong)) <==> StartsText(buf) && |buf| >= 107 && NoLineEnd(buf, 107)
  {
    ReadersFindNoneTooLong();
    DispatchTooLongIff(V1.ReadLine, V2.ParseComplete, buf);
  }
}
