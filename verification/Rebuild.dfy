/** Building again from what the parser returned: when that gives the bytes that were parsed. */
module Rebuild {
  import opened Octets
  import opened Types
  import opened Tlv
  import opened Builder
  import Parser
  import RoundTrip
  import V1
  import V2

  /** The builder one gets from the returned addresses, transport and `raw` entries, without a fresh checksum. */
  function Replan(info: ProxyInfo): Plan
  {
    Plan(Version2, info.command, info.transport, info.source, info.destination, info.tlvs.raw, false)
  }

  /** A path field with nothing but zeros after the first NUL. */
  predicate ZeroPadded(field: bytes)
  {
    forall i :: |V2.UntilNul(field)| <= i < |field| ==> field[i] == 0
  }

  /** A header that says nothing the parser does not return: Unix path fields are zero-padded, and a LOCAL header has
      no family and carries entries, or nothing. */
  predicate Canonical(h: V2.Header)
  {
    var payload := h[V2.HEADER_LEN..];
    if h[12] == 0x20 then h[13] == 0 && ParseTlvs(payload).Ok?
    else if h[13] / 16 == 3 then |payload| >= 216 && ZeroPadded(payload[0..108]) && ZeroPadded(payload[108..216])
    else true
  }

  lemma HeaderIsAssembled(h: V2.Header)
    requires V2.SIGNATURE <= h && |h| == V2.TotalLen(h)
    ensures h == Assemble(h[12], h[13], h[V2.HEADER_LEN..])
  {
    Be16OfU16(h[14], h[15]);
    assert h == h[..12] + [h[12], h[13]] + [h[14], h[15]] + h[V2.HEADER_LEN..];
  }

  lemma AssembleInjective(v: byte, f: byte, a: bytes, v': byte, f': byte, a': bytes)
    requires |a| <= U16_MAX && |a'| <= U16_MAX && Assemble(v, f, a) == Assemble(v', f', a')
    ensures v == v' && f == f' && a == a'
  {
    var h := Assemble(v, f, a);
    assert h[12] == v && h[13] == f && h[V2.HEADER_LEN..] == a;
    var h' := Assemble(v', f', a');
    assert h'[12] == v' && h'[13] == f' && h'[V2.HEADER_LEN..] == a';
  }

  // Addresses

  lemma InetEncodedAgain(t: Transport, payload: bytes)
    requires t.family != Unix && |payload| >= V2.AddressLen(t.family)
    ensures var a := V2.DecodeAddresses(t, payload); EncodeAddresses(a.source, a.destination) == payload[..a.tlvOffset]
  {
    var n := if t.family == Inet then 4 else 16;
    Be16OfU16(payload[2 * n], payload[2 * n + 1]);
    Be16OfU16(payload[2 * n + 2], payload[2 * n + 3]);
    assert payload[..2 * n + 4] == payload[0..n] + payload[n..2 * n] + [payload[2 * n], payload[2 * n + 1]]
                                   + [payload[2 * n + 2], payload[2 * n + 3]];
  }

  lemma PathEncodedAgain(field: bytes)
    requires |field| == UNIX_FIELD
    ensures PathField(V2.UntilNul(field)) == field <==> ZeroPadded(field)
  {
    var path := V2.UntilNul(field);
    var again := PathField(path);
    assert forall i :: 0 <= i < |path| ==> again[i] == field[i];
    assert forall i :: |path| <= i < |field| ==> again[i] == 0;
  }

  lemma UnixEncodedAgain(t: Transport, payload: bytes)
    requires t.family == Unix && |payload| >= 216
    ensures var a := V2.DecodeAddresses(t, payload);
            EncodeAddresses(a.source, a.destination) == payload[..216]
            <==> ZeroPadded(payload[0..108]) && ZeroPadded(payload[108..216])
  {
    var f, g := payload[0..108], payload[108..216];
    PathEncodedAgain(f);
    PathEncodedAgain(g);
    TwoFields(PathField(V2.UntilNul(f)), PathField(V2.UntilNul(g)), payload);
  }

  lemma TwoFields(a: bytes, b: bytes, payload: bytes)
    requires |a| == 108 && |b| == 108 && |payload| >= 216
    ensures a + b == payload[..216] <==> a == payload[0..108] && b == payload[108..216]
  {
    assert payload[..216][..108] == payload[0..108] && payload[..216][108..] == payload[108..216];
    assert (a + b)[..108] == a && (a + b)[108..] == b;
    assert payload[0..108] + payload[108..216] == payload[..216];
  }

  /** The family and protocol byte is written again as it was read. */
  lemma NibblesWrittenAgain(famProto: byte, payload: bytes)
    requires V2.ReadAddresses(Proxy, famProto, payload).Ok?
    ensures var a := V2.ReadAddresses(Proxy, famProto, payload).value;
            && a.transport.Some? && FamProto(a.transport) == famProto
            && |payload| >= V2.AddressLen(a.transport.value.family)
            && a == V2.DecodeAddresses(a.transport.value, payload)
            && (a.transport.value.family == Unix <==> famProto / 16 == 3)
  {
    var f, p := famProto / 16, famProto % 16;
    assert famProto == 16 * f + p;
  }

  lemma AddressesWrittenAgain(famProto: byte, payload: bytes)
    requires V2.ReadAddresses(Proxy, famProto, payload).Ok?
    ensures var a := V2.ReadAddresses(Proxy, famProto, payload).value;
            && |EncodeAddresses(a.source, a.destination)| == a.tlvOffset
            && (EncodeAddresses(a.source, a.destination) == payload[..a.tlvOffset]
                <==> (famProto / 16 == 3 ==>
                        |payload| >= 216 && ZeroPadded(payload[0..108]) && ZeroPadded(payload[108..216])))
  {
    NibblesWrittenAgain(famProto, payload);
    var a := V2.ReadAddresses(Proxy, famProto, payload).value;
    var t := a.transport.value;
    if t.family == Unix {
      UnixEncodedAgain(t, payload);
    } else {
      InetEncodedAgain(t, payload);
    }
  }

  // Entries

  lemma EntriesWrittenAgain(command: Command, data: bytes)
    requires V2.ReadTlvs(command, data).Ok?
    ensures var raw := V2.ReadTlvs(command, data).value.raw;
            && AllFit(raw) && |EncodeAll(raw)| <= |data|
            && (EncodeAll(raw) == data <==> ParseTlvs(data).Ok?)
            && (command == Proxy ==> ParseTlvs(data).Ok?)
  {
    if ParseTlvs(data).Ok? {
      AcceptedIff(data, ParseTlvs(data).value);
    }
  }

  // The whole header

  lemma RebuiltHeader(p: Plan, h: V2.Header)
    requires !p.addCrc32c && AllFit(p.entries) && |AddressBlock(p)| + |EncodeAll(p.entries)| <= U16_MAX
    requires V2.SIGNATURE <= h && |h| == V2.TotalLen(h) && h[12] == VerCmd(p.command)
    ensures BuildV2(p) == Some(h)
            <==> FamProto(p.transport) == h[13] && AddressBlock(p) + EncodeAll(p.entries) == h[V2.HEADER_LEN..]
  {
    assert p.entries + [] == p.entries;
    HeaderIsAssembled(h);
    if BuildV2(p) == Some(h) {
      AssembleInjective(VerCmd(p.command), FamProto(p.transport), AddressBlock(p) + EncodeAll(p.entries),
                        h[12], h[13], h[V2.HEADER_LEN..]);
    }
  }

  lemma FrontMatters(a: bytes, e: bytes, payload: bytes, n: nat)
    requires |a| == n <= |payload| && e == payload[n..]
    ensures a + e == payload <==> a == payload[..n]
  {
    assert payload[..n] + payload[n..] == payload;
    if a + e == payload {
      assert a == payload[..n];
    }
  }

  lemma LocalRebuilt(h: V2.Header, info: ProxyInfo)
    requires V2.SIGNATURE <= h && |h| == V2.TotalLen(h) && h[12] == VerCmd(Local)
    requires V2.ParseComplete(Local, h) == Ok(Parsed(info, |h|))
    ensures BuildV2(Replan(info)) == Some(h) <==> Canonical(h)
  {
    var payload := h[V2.HEADER_LEN..];
    EntriesWrittenAgain(Local, payload);
    RebuiltHeader(Replan(info), h);
    assert [] + EncodeAll(info.tlvs.raw) == EncodeAll(info.tlvs.raw);
  }

  lemma ProxyRebuilt(h: V2.Header, info: ProxyInfo)
    requires V2.SIGNATURE <= h && |h| == V2.TotalLen(h) && h[12] == VerCmd(Proxy)
    requires V2.ParseComplete(Proxy, h) == Ok(Parsed(info, |h|))
    ensures BuildV2(Replan(info)) == Some(h) <==> Canonical(h)
  {
    var payload := h[V2.HEADER_LEN..];
    var a := V2.ReadAddresses(Proxy, h[13], payload).value;
    var data := h[V2.HEADER_LEN + a.tlvOffset..];
    assert data == payload[a.tlvOffset..];
    NibblesWrittenAgain(h[13], payload);
    AddressesWrittenAgain(h[13], payload);
    EntriesWrittenAgain(Proxy, data);
    RebuiltHeader(Replan(info), h);
    FrontMatters(EncodeAddresses(a.source, a.destination), data, payload, a.tlvOffset);
  }

  /** An accepted binary header is what one gets by parsing its complete bytes. */
  lemma AcceptedComplete(buf: bytes, info: ProxyInfo, n: nat)
    requires Parser.Parse(buf) == Ok(Parsed(info, n)) && info.version == Version2
    ensures V2.HEADER_LEN <= n <= |buf| && V2.SIGNATURE <= buf[..n] && n == V2.TotalLen(buf[..n])
    ensures (info.command == Local && buf[12] == 0x20) || (info.command == Proxy && buf[12] == 0x21)
    ensures V2.ParseComplete(info.command, buf[..n]) == Ok(Parsed(info, n))
  {
    Parser.ParseWellFormed(buf);
  }

  lemma CompleteRebuilt(h: V2.Header, info: ProxyInfo)
    requires V2.SIGNATURE <= h && |h| == V2.TotalLen(h) && h[12] == VerCmd(info.command)
    requires V2.ParseComplete(info.command, h) == Ok(Parsed(info, |h|))
    ensures BuildV2(Replan(info)) == Some(h) <==> Canonical(h)
  {
    if info.command == Local {
      LocalRebuilt(h, info);
    } else {
      ProxyRebuilt(h, info);
    }
  }

  lemma InetCanonical(h: V2.Header, info: ProxyInfo)
    requires h[12] == VerCmd(info.command) && V2.ParseComplete(info.command, h) == Ok(Parsed(info, |h|))
    requires info.transport.Some? && info.transport.value.family != Unix
    ensures Canonical(h)
  {
    if info.command == Proxy {
      NibblesWrittenAgain(h[13], h[V2.HEADER_LEN..]);
    }
  }

  lemma HeaderRebuilt(h: V2.Header, info: ProxyInfo)
    requires V2.SIGNATURE <= h && |h| == V2.TotalLen(h) && h[12] == VerCmd(info.command)
    requires V2.ParseComplete(info.command, h) == Ok(Parsed(info, |h|))
    ensures BuildV2(Replan(info)) == Some(h) <==> Canonical(h)
    ensures info.transport.Some? && info.transport.value.family != Unix ==> Canonical(h)
  {
    CompleteRebuilt(h, info);
    if info.transport.Some? && info.transport.value.family != Unix {
      InetCanonical(h, info);
    }
  }

  /** Whenever `parse` accepts a binary header, building again from what it returned gives back exactly the bytes it
      took if and only if the header is canonical; every PROXY header for IPv4 or IPv6 is. */
  lemma RebuildIff(buf: bytes, info: ProxyInfo, n: nat)
    requires Parser.Parse(buf) == Ok(Parsed(info, n)) && info.version == Version2
    ensures V2.HEADER_LEN <= n <= |buf|
    ensures BuildV2(Replan(info)) == Some(buf[..n]) <==> Canonical(buf[..n])
    ensures info.transport.Some? && info.transport.value.family != Unix ==> Canonical(buf[..n])
  {
    AcceptedComplete(buf, info, n);
    HeaderRebuilt(buf[..n], info);
  }

  const NO_INFO: ProxyInfo := ProxyInfo(Version2, Local, None, None, None, NO_TLVS)

  lemma AssembledHead(verCmd: byte, famProto: byte, payload: bytes)
    requires |payload| <= U16_MAX
    ensures var h := Assemble(verCmd, famProto, payload);
            V2.SIGNATURE <= h && h[12] == verCmd && h[13] == famProto && V2.TotalLen(h) == |h|
  {
    var h := Assemble(verCmd, famProto, payload);
    assert h[14] == Be16(|payload|)[0] && h[15] == Be16(|payload|)[1];
  }

  lemma EmptyLocal(famProto: byte, h: V2.Header)
    requires |h| == V2.HEADER_LEN && h[12] == VerCmd(Local) && h[13] == famProto
    ensures V2.ParseComplete(Local, h) == Ok(Parsed(NO_INFO, |h|)) && (Canonical(h) ==> famProto == 0)
  {
    RoundTrip.CompleteFromParts(Local, h, V2.Addressing(None, None, None, 0), NO_TLVS);
  }

  /** A LOCAL header with nothing in it that names a family: it is read as one that names none, and so not built
      again. */
  lemma LocalFamilyNotRebuilt(famProto: byte, rest: bytes)
    requires famProto != 0
    ensures var h := Assemble(VerCmd(Local), famProto, []);
            Parser.Parse(h + rest) == Ok(Parsed(NO_INFO, |h|)) && BuildV2(Replan(NO_INFO)) != Some(h)
  {
    var h := Assemble(VerCmd(Local), famProto, []);
    AssembledHead(VerCmd(Local), famProto, []);
    EmptyLocal(famProto, h);
    CompleteRebuilt(h, NO_INFO);
    RoundTrip.DispatchAssembled(V1.ReadLine, V2.ParseComplete, Local, famProto, [], rest);
  }
}
