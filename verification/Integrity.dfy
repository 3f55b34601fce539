/** What the checksum entry protects against. */
module Integrity {
  import opened Octets
  import opened Types
  import opened Tlv
  import opened Builder
  import opened RoundTrip
  import Crc32c
  import Parser
  import V1
  import V2

  // The checksum scan

  /** After entries without one, the scan stops at a checksum entry, whatever follows. */
  lemma CrcFieldFound(front: seq<RawTlv>, e: RawTlv, back: bytes, at: nat)
    requires AllFit(front) && NoCrc(front) && e.kind == 0x03 && |e.value| == 4
    ensures V2.CrcField(EncodeAll(front) + (Encode(e) + back), at) == Some(at + |EncodeAll(front)| + 3)
  {
    CrcFieldAfter(front, Encode(e) + back, at);
    HeadTailOf(e, back);
  }

  /** The scan for the checksum value stops at the first checksum entry of an accepted sequence, and only runs through
      if there is none. */
  lemma CrcFieldIsFirst(es: seq<RawTlv>, i: nat, at: nat)
    requires AllFit(es) && i < |es| && NoCrc(es[..i]) && es[i].kind == 0x03 && |es[i].value| == 4
    ensures var p := at + |EncodeAll(es[..i])| + 3;
            && V2.CrcField(EncodeAll(es), at) == Some(p)
            && p - at + 4 <= |EncodeAll(es)| && EncodeAll(es)[p - at..p - at + 4] == es[i].value
  {
    EncodeAround(es, i);
    CrcFieldFound(es[..i], es[i], EncodeAll(es[i + 1..]), at);
    ValueInside(EncodeAll(es[..i]), es[i], EncodeAll(es[i + 1..]));
  }

  lemma {:induction false} EncodeAround(es: seq<RawTlv>, i: nat)
    requires AllFit(es) && i < |es|
    ensures EncodeAll(es) == EncodeAll(es[..i]) + (Encode(es[i]) + EncodeAll(es[i + 1..]))
  {
    if i == 0 {
      assert es[..0] == [];
    } else {
      EncodeAround(es[1..], i - 1);
      assert es[1..][i..] == es[i + 1..];
      TakeCons(es, i);
      Regroup(Encode(es[0]), EncodeAll(es[1..][..i - 1]), Encode(es[i]) + EncodeAll(es[i + 1..]));
    }
  }

  lemma TakeCons(es: seq<RawTlv>, i: nat)
    requires AllFit(es) && 0 < i <= |es|
    ensures EncodeAll(es[..i]) == Encode(es[0]) + EncodeAll(es[1..][..i - 1])
  {
    assert es[..i][1..] == es[1..][..i - 1];
  }

  lemma ValueInside(front: bytes, e: RawTlv, back: bytes)
    requires Fits(e)
    ensures var all := front + (Encode(e) + back);
            var v := |front| + 3;
            v + |e.value| <= |all| && all[v..v + |e.value|] == e.value
  {
  }

  /** The index of the first checksum entry, if there is one. */
  lemma {:induction false} FirstCrc(es: seq<RawTlv>) returns (i: nat)
    ensures i <= |es| && NoCrc(es[..i]) && (i < |es| ==> es[i].kind == 0x03)
  {
    if es == [] || es[0].kind == 0x03 {
      i := 0;
    } else {
      i := FirstCrc(es[1..]);
      assert es[..i + 1] == [es[0]] + es[1..][..i];
      i := i + 1;
    }
  }

  /** Whenever `parse_tlvs` accepts: it sets the checksum field exactly if the scan finds a checksum value, so the scan
      of a header whose checksum is verified never runs through to the end. */
  lemma ScanAgrees(data: bytes, t: Tlvs, at: nat)
    requires ParseTlvs(data) == Ok(t)
    ensures t.crc32c.Some? <==> V2.CrcField(data, at).Some?
  {
    AcceptedIff(data, t);
    var i := FirstCrc(t.raw);
    if i < |t.raw| {
      assert Fault(t.raw[i]).None?;
      CrcFieldIsFirst(t.raw, i, at);
      SomeCrc(t.raw, i);
    } else {
      assert t.raw[..i] == t.raw;
      NoCrcNoValue(t.raw);
      CrcFieldAfter(t.raw, [], at);
      assert EncodeAll(t.raw) + [] == EncodeAll(t.raw);
    }
  }

  lemma SomeCrc(es: seq<RawTlv>, i: nat)
    requires Faultless(Fault, es) && i < |es| && es[i].kind == 0x03
    ensures Typed(es).crc32c.Some?
  {
    LastValueIsLast(es, 0x03);
  }

  /** With a single checksum entry, the value the scan leaves out is the one that is verified. */
  lemma ScanFindsOwnField(data: bytes, t: Tlvs, i: nat, at: nat)
    requires ParseTlvs(data) == Ok(t)
    requires i < |t.raw| && t.raw[i].kind == 0x03 && NoCrc(t.raw[..i]) && NoCrc(t.raw[i + 1..])
    ensures |t.raw[i].value| == 4 && t.crc32c == Some(U32(t.raw[i].value))
    ensures V2.CrcField(data, at).Some?
    ensures var p := V2.CrcField(data, at).value - at; data[p..p + 4] == t.raw[i].value
  {
    AcceptedIff(data, t);
    assert Fault(t.raw[i]).None?;
    CrcFieldIsFirst(t.raw, i, at);
    OnlyCrc(t.raw, i);
  }

  lemma OnlyCrc(es: seq<RawTlv>, i: nat)
    requires i < |es| && es[i].kind == 0x03 && NoCrc(es[i + 1..])
    ensures LastValue(es, 0x03) == Some(es[i].value)
  {
    LastValueIsLast(es, 0x03);
    assert forall k :: i < k < |es| ==> es[k].kind != 0x03 by {
      assert forall k :: i < k < |es| ==> es[k] == es[i + 1..][k - i - 1];
    }
    var j := LastValueAt(es, 0x03);
    assert j == i;
  }

  // Changes within 32 consecutive bits

  /** All but `n` consecutive bits from the `k`-th on agree. */
  predicate SameOutside(u: seq<bool>, v: seq<bool>, k: nat, n: nat)
  {
    |u| == |v| && k + n <= |u| && forall j :: 0 <= j < |u| && !(k <= j < k + n) ==> u[j] == v[j]
  }

  /** `x` and `y` agree but for up to 32 consecutive bits, in the order they are fed to the register: byte by byte, the
      lowest bit of a byte first. */
  predicate Burst(x: bytes, y: bytes, k: nat, n: nat)
  {
    |x| == |y| && n <= 32 && SameOutside(BitsOf(x), BitsOf(y), k, n)
  }

  lemma AroundBurst(u: seq<bool>, v: seq<bool>, k: nat, n: nat)
    requires SameOutside(u, v, k, n)
    ensures u == u[..k] + u[k..k + n] + u[k + n..] && v == u[..k] + v[k..k + n] + u[k + n..]
  {
  }

  lemma BurstAt(x: bytes, y: bytes, k: nat, n: nat)
    requires Burst(x, y, k, n) && x != y
    ensures Crc32c.Checksum(x) != Crc32c.Checksum(y)
  {
    var u, v := BitsOf(x), BitsOf(y);
    AroundBurst(u, v, k, n);
    assert u[k..k + n] != v[k..k + n] by {
      if u == v {
        BitsOfInjective(x, y);
      }
    }
    Crc32c.BitBurstDetected(x, y, u[..k], u[k..k + n], v[k..k + n], u[k + n..]);
  }

  lemma ByteOutside(x: bytes, y: bytes, k: nat, n: nat, i: nat)
    requires Burst(x, y, k, n) && i < |x| && (8 * i + 8 <= k || k + n <= 8 * i)
    ensures x[i] == y[i]
  {
    SameByte(x, y, i);
  }

  /** Bytes that the burst does not reach are unchanged. */
  lemma SlicesOutside(x: bytes, y: bytes, k: nat, n: nat, lo: nat, hi: nat)
    requires Burst(x, y, k, n) && 8 * lo <= k && k + n <= 8 * hi && lo <= hi <= |x|
    ensures x[..lo] == y[..lo] && x[hi..] == y[hi..]
  {
    forall i | 0 <= i < |x| && (i < lo || hi <= i) ensures x[i] == y[i] {
      ByteOutside(x, y, k, n, i);
    }
  }

  lemma ZeroedByte(x: bytes, p: nat, i: nat)
    requires p + 4 <= |x| && i < |x|
    ensures V2.Zeroed(x, p)[i] == if p <= i < p + 4 then 0 else x[i]
  {
  }

  /** Two bytes at the same place share a bit, or are both zeroed. */
  lemma ZeroedBit(x: bytes, y: bytes, zx: bytes, zy: bytes, p: nat, i: nat, j: nat)
    requires |x| == |y| && p + 4 <= |x| && zx == V2.Zeroed(x, p) && zy == V2.Zeroed(y, p) && i < |x| && j < 8
    requires BitsOf(x)[8 * i + j] == BitsOf(y)[8 * i + j]
    ensures BitsOf(zx)[8 * i + j] == BitsOf(zy)[8 * i + j]
  {
    BitsOfAt(x, i, j);
    BitsOfAt(y, i, j);
    BitsOfAt(zx, i, j);
    BitsOfAt(zy, i, j);
    assert zx[i] == zy[i] || (zx[i] == x[i] && zy[i] == y[i]) by {
      ZeroedByte(x, p, i);
      ZeroedByte(y, p, i);
    }
  }

  lemma ZeroedBurst(x: bytes, y: bytes, k: nat, n: nat, p: nat)
    requires Burst(x, y, k, n) && p + 4 <= |x|
    ensures Burst(V2.Zeroed(x, p), V2.Zeroed(y, p), k, n)
  {
    var zx, zy := V2.Zeroed(x, p), V2.Zeroed(y, p);
    forall j | 0 <= j < 8 * |x| && !(k <= j < k + n) ensures BitsOf(zx)[j] == BitsOf(zy)[j] {
      ZeroedBit(x, y, zx, zy, p, j / 8, j % 8);
    }
  }

  lemma SameInside(pre: seq<bool>, u: seq<bool>, v: seq<bool>, post: seq<bool>, k: nat, n: nat)
    requires SameOutside(u, v, k, n)
    ensures SameOutside(pre + u + post, pre + v + post, |pre| + k, n)
  {
    var x, y := pre + u + post, pre + v + post;
    forall j | 0 <= j < |x| && !(|pre| + k <= j < |pre| + k + n) ensures x[j] == y[j] {
      if |pre| <= j < |pre| + |u| {
        assert x[j] == u[j - |pre|] && y[j] == v[j - |pre|];
      }
    }
  }

  lemma BitsOfThree(a: bytes, b: bytes, c: bytes)
    ensures BitsOf(a + b + c) == BitsOf(a) + BitsOf(b) + BitsOf(c)
  {
    BitsOfConcat(a + b, c);
    BitsOfConcat(a, b);
  }

  /** A burst within a part is one within the whole. */
  lemma BurstInside(pre: bytes, v: bytes, w: bytes, post: bytes, k: nat, n: nat)
    requires Burst(v, w, k, n)
    ensures Burst(pre + v + post, pre + w + post, 8 * |pre| + k, n)
  {
    BitsOfThree(pre, v, post);
    BitsOfThree(pre, w, post);
    SameInside(BitsOf(pre), BitsOf(v), BitsOf(w), BitsOf(post), k, n);
  }

  lemma AnyFourBytes(v: bytes, w: bytes)
    requires |v| == 4 && |w| == 4
    ensures Burst(v, w, 0, 32)
  {
  }

  /** Two accepted headers with the same checksum, at the same place, that agree but for 32 consecutive bits, agree
      everywhere outside the checksum value: within such a distance of an accepted header there is no other. */
  lemma NoOtherWithinBurst(x: V2.Header, y: V2.Header, tlvStart: nat, p: nat, k: nat, n: nat)
    requires Burst(x, y, k, n) && tlvStart <= |x|
    requires V2.CrcField(x[tlvStart..], tlvStart) == Some(p) && V2.CrcField(y[tlvStart..], tlvStart) == Some(p)
    requires V2.HeaderCrc(x, tlvStart) == V2.HeaderCrc(y, tlvStart)
    ensures V2.Zeroed(x, p) == V2.Zeroed(y, p)
    ensures x[p..p + 4] == y[p..p + 4] ==> x == y
  {
    ZeroedBurst(x, y, k, n, p);
    if V2.Zeroed(x, p) != V2.Zeroed(y, p) {
      BurstAt(V2.Zeroed(x, p), V2.Zeroed(y, p), k, n);
    }
    ZeroedDetermines(x, y, p);
  }

  lemma ZeroedDetermines(x: bytes, y: bytes, p: nat)
    requires |x| == |y| && p + 4 <= |x| && V2.Zeroed(x, p) == V2.Zeroed(y, p)
    ensures x[p..p + 4] == y[p..p + 4] ==> x == y
  {
    assert V2.Zeroed(x, p)[..p] == x[..p] && V2.Zeroed(y, p)[..p] == y[..p];
    assert V2.Zeroed(x, p)[p + 4..] == x[p + 4..] && V2.Zeroed(y, p)[p + 4..] == y[p + 4..];
    assert x == x[..p] + x[p..p + 4] + x[p + 4..];
    assert y == y[..p] + y[p..p + 4] + y[p + 4..];
  }

  // Changes to a header the builder wrote

  /** A header the builder protects with a checksum. */
  predicate Protected(p: Plan)
  {
    && Consistent(p) && p.version == Version2 && p.addCrc32c
    && BuildV2(p).Some? && NoCrc(p.entries) && Faultless(Fault, p.entries)
  }

  /** The parts a complete header is read in, when its checksum does not agree. */
  lemma MismatchFromParts(command: Command, h: V2.Header, a: V2.Addressing, tlvs: Tlvs)
    requires V2.ReadAddresses(command, h[13], h[V2.HEADER_LEN..]) == Ok(a)
    requires V2.ReadTlvs(command, h[V2.HEADER_LEN + a.tlvOffset..]) == Ok(tlvs)
    requires tlvs.crc32c.Some? && V2.HeaderCrc(h, V2.HEADER_LEN + a.tlvOffset) != tlvs.crc32c.value
    ensures V2.ParseComplete(command, h)
         == Err(CrcMismatch(tlvs.crc32c.value, V2.HeaderCrc(h, V2.HEADER_LEN + a.tlvOffset)))
  {
  }

  /** Other address bytes of the same length are read as other addresses of the same kind. */
  lemma SameShape(famProto: byte, payload: bytes, payload': bytes)
    requires |payload| == |payload'| && V2.ReadAddresses(Proxy, famProto, payload).Ok?
    ensures V2.ReadAddresses(Proxy, famProto, payload').Ok?
    ensures V2.ReadAddresses(Proxy, famProto, payload').value.tlvOffset
         == V2.ReadAddresses(Proxy, famProto, payload).value.tlvOffset
  {
  }

  /** A header with the same fixed part is handed over whole. */
  lemma DispatchTampered(readLine: Parser.LineReader, readHeader: Parser.HeaderReader,
                         command: Command, famProto: byte, payload: bytes, h': V2.Header, rest: bytes)
    requires |payload| <= U16_MAX && |h'| == V2.HEADER_LEN + |payload|
    requires h'[..V2.HEADER_LEN] == Assemble(VerCmd(command), famProto, payload)[..V2.HEADER_LEN]
    ensures Parser.Dispatch(readLine, readHeader, h' + rest) == readHeader(command, h')
  {
    var h := Assemble(VerCmd(command), famProto, payload);
    var payload' := h'[V2.HEADER_LEN..];
    assert h' == h'[..V2.HEADER_LEN] + payload';
    assert h[..V2.HEADER_LEN] == V2.SIGNATURE + [VerCmd(command), famProto] + Be16(|payload|);
    assert h' == Assemble(VerCmd(command), famProto, payload');
    DispatchAssembled(readLine, readHeader, command, famProto, payload', rest);
  }

  /** The outcome of parsing a header whose checksum does not agree with the one it should carry. */
  predicate Mismatch(r: ParseResult, expected: bv32)
  {
    r.Err? && r.error.CrcMismatch? && r.error.expected == expected && r.error.actual != expected
  }

  /** How a protected header is read. */
  lemma ProtectedParts(p: Plan, h: V2.Header) returns (a: V2.Addressing, tlvs: Tlvs)
    requires Protected(p) && BuildV2(p) == Some(h)
    ensures V2.ReadAddresses(p.command, h[13], h[V2.HEADER_LEN..]) == Ok(a) && a.tlvOffset == |AddressBlock(p)|
    ensures V2.ReadTlvs(p.command, h[V2.HEADER_LEN + a.tlvOffset..]) == Ok(tlvs)
    ensures tlvs.crc32c == Some(Crc32c.Checksum(Unsealed(p)))
    ensures SealOf(h, V2.HEADER_LEN + a.tlvOffset, Unsealed(p))
  {
    a := V2.Addressing(p.transport, Cut(p.source), Cut(p.destination), |AddressBlock(p)|);
    BuiltParts(p, h);
    tlvs := Typed(FinalEntries(p));
    BuiltTlvs(p);
    FinalCrc(p);
    BuiltHeaderCrc(p, h);
  }

  /** A change to the address block leaves everything after it, and the place of the checksum, as it was. */
  lemma TamperedComplete(h: V2.Header, h': V2.Header, k: nat, n: nat, a: V2.Addressing, tlvs: Tlvs, unsealed: bytes)
    requires V2.ReadAddresses(Proxy, h[13], h[V2.HEADER_LEN..]) == Ok(a)
    requires V2.ReadTlvs(Proxy, h[V2.HEADER_LEN + a.tlvOffset..]) == Ok(tlvs)
    requires SealOf(h, V2.HEADER_LEN + a.tlvOffset, unsealed) && tlvs.crc32c == Some(Crc32c.Checksum(unsealed))
    requires Burst(h, h', k, n) && h' != h && h'[13] == h[13]
    requires h'[V2.HEADER_LEN + a.tlvOffset..] == h[V2.HEADER_LEN + a.tlvOffset..]
    ensures Mismatch(V2.ParseComplete(Proxy, h'), tlvs.crc32c.value)
  {
    SameShape(h[13], h[V2.HEADER_LEN..], h'[V2.HEADER_LEN..]);
    TamperedCrc(h, h', k, n, V2.HEADER_LEN + a.tlvOffset, unsealed);
    MismatchFromParts(Proxy, h', V2.ReadAddresses(Proxy, h'[13], h'[V2.HEADER_LEN..]).value, tlvs);
  }

  lemma LastFourAgree(h: bytes, h': bytes, start: nat)
    requires |h| == |h'| && start + 7 <= |h| && h'[start..] == h[start..]
    ensures h[|h| - 4..|h|] == h'[|h| - 4..|h|]
  {
    var q := |h| - 4;
    assert h[q..|h|] == h[start..][q - start..] && h'[q..|h|] == h'[start..][q - start..];
  }

  /** A change outside the checksum value is a change of what the checksum is computed from. */
  lemma ZeroedDiffer(h: bytes, h': bytes, k: nat, n: nat, q: nat)
    requires Burst(h, h', k, n) && h' != h && q + 4 <= |h| && h[q..q + 4] == h'[q..q + 4]
    ensures Crc32c.Checksum(V2.Zeroed(h', q)) != Crc32c.Checksum(V2.Zeroed(h, q))
  {
    ZeroedBurst(h, h', k, n, q);
    assert V2.Zeroed(h, q) != V2.Zeroed(h', q) by {
      if V2.Zeroed(h, q) == V2.Zeroed(h', q) {
        ZeroedDetermines(h, h', q);
      }
    }
    BurstAt(V2.Zeroed(h, q), V2.Zeroed(h', q), k, n);
  }

  lemma TamperedCrc(h: bytes, h': bytes, k: nat, n: nat, start: nat, unsealed: bytes)
    requires Burst(h, h', k, n) && h' != h && SealOf(h, start, unsealed) && h'[start..] == h[start..]
    ensures V2.HeaderCrc(h', start) != Crc32c.Checksum(unsealed)
  {
    LastFourAgree(h, h', start);
    ZeroedDiffer(h, h', k, n, |h| - 4);
  }

  lemma FixedPartAgrees(h: bytes, h': bytes)
    requires |h| == |h'| >= V2.HEADER_LEN && h[..V2.HEADER_LEN] == h'[..V2.HEADER_LEN]
    ensures h[13] == h'[13]
  {
    assert h[13] == h[..V2.HEADER_LEN][13] && h'[13] == h'[..V2.HEADER_LEN][13];
  }

  /** In a PROXY header built with a checksum, any change confined to 32 consecutive bits of the address block makes
      `parse` report a checksum mismatch, whatever follows the header. */
  lemma AddressChangeDetected(p: Plan, h': V2.Header, k: nat, n: nat, rest: bytes)
    requires Protected(p) && p.command == Proxy
    requires Burst(BuildV2(p).value, h', k, n) && h' != BuildV2(p).value
    requires 8 * V2.HEADER_LEN <= k && k + n <= 8 * (V2.HEADER_LEN + |AddressBlock(p)|)
    ensures Mismatch(Parser.Parse(h' + rest), Crc32c.Checksum(Unsealed(p)))
  {
    var h := BuildV2(p).value;
    BuiltIsAssembled(p);
    SlicesOutside(h, h', k, n, V2.HEADER_LEN, V2.HEADER_LEN + |AddressBlock(p)|);
    FixedPartAgrees(h, h');
    var a, tlvs := ProtectedParts(p, h);
    TamperedComplete(h, h', k, n, a, tlvs, Unsealed(p));
    DispatchTampered(V1.ReadLine, V2.ParseComplete, Proxy, FamProto(p.transport),
                     AddressBlock(p) + EncodeAll(FinalEntries(p)), h', rest);
  }

  // Changes to the checksum value

  /** The header with `crc` in the place of its checksum. */
  function WithCrc(p: Plan, crc: bytes): V2.Header
    requires Protected(p) && |crc| == 4
  {
    BuildV2(p).value[..|BuildV2(p).value| - 4] + crc
  }

  /** Another value in the place of the seal. */
  lemma Resealed(h: bytes, u: bytes, v: byte, f: byte, addresses: bytes, entries: bytes, crc: bytes)
    requires |crc| == 4 && |addresses| + |entries| + 7 <= U16_MAX
    requires u == Assemble(v, f, addresses + (entries + Encode(CRC_PLACEHOLDER))) && |u| >= 4 && h == Seal(u)
    ensures h[..|h| - 4] + crc == Assemble(v, f, addresses + (entries + Encode(RawTlv(0x03, crc))))
  {
    assert h[..|h| - 4] == u[..|u| - 4];
    SealedTail(v, f, addresses, entries, crc);
  }

  lemma WithCrcAssembled(p: Plan, crc: bytes)
    requires Protected(p) && |crc| == 4
    ensures AllFit(p.entries) && |AddressBlock(p)| + |EncodeAll(p.entries)| + 7 <= U16_MAX
    ensures WithCrc(p, crc) == Assemble(VerCmd(p.command), FamProto(p.transport),
                                        AddressBlock(p) + (EncodeAll(p.entries) + Encode(RawTlv(0x03, crc))))
  {
    BuiltSeal(p);
    UnsealedIs(p);
    Resealed(BuildV2(p).value, Unsealed(p), VerCmd(p.command), FamProto(p.transport), AddressBlock(p),
             EncodeAll(p.entries), crc);
  }

  lemma EntriesWithCrc(es: seq<RawTlv>, crc: bytes)
    requires AllFit(es) && NoCrc(es) && Faultless(Fault, es) && |crc| == 4
    ensures var all := es + [RawTlv(0x03, crc)];
            && AllFit(all) && EncodeAll(all) == EncodeAll(es) + Encode(RawTlv(0x03, crc))
            && ParseTlvs(EncodeAll(all)) == Ok(Typed(all)) && Typed(all).crc32c == Some(U32(crc))
  {
    var e := RawTlv(0x03, crc);
    var all := es + [e];
    EncodeSnoc(es, e);
    assert Faultless(Fault, all) by {
      assert forall i :: 0 <= i < |es| ==> all[i] == es[i];
      assert all[|es|] == e;
    }
    AcceptedIff(EncodeAll(all), Typed(all));
    LastValueAppend(es, e, 0x03);
  }

  lemma WithCrcComplete(p: Plan, crc: bytes)
    requires Protected(p) && |crc| == 4 && U32(crc) != Crc32c.Checksum(Unsealed(p))
    ensures V2.ParseComplete(p.command, WithCrc(p, crc)) == Err(CrcMismatch(U32(crc), Crc32c.Checksum(Unsealed(p))))
  {
    var h := WithCrc(p, crc);
    var start := V2.HEADER_LEN + |AddressBlock(p)|;
    WithCrcAssembled(p, crc);
    EntriesWithCrc(p.entries, crc);
    var all := p.entries + [RawTlv(0x03, crc)];
    assert h == Assemble(VerCmd(p.command), FamProto(p.transport), AddressBlock(p) + EncodeAll(all));
    assert V2.HeaderCrc(h, start) == Crc32c.Checksum(Unsealed(p)) by {
      SealedCrcField(p, crc);
      SealedHeaderCrc(h, start, Unsealed(p));
    }
    AssembledReads(p, h, all);
    MismatchFromParts(p.command, h, V2.Addressing(p.transport, Cut(p.source), Cut(p.destination), |AddressBlock(p)|),
                      Typed(all));
  }

  /** How a header with the addresses of `p` and faultless entries is read. */
  lemma AssembledReads(p: Plan, h: V2.Header, es: seq<RawTlv>)
    requires Consistent(p) && p.version == Version2 && AllFit(es) && |AddressBlock(p) + EncodeAll(es)| <= U16_MAX
    requires h == Assemble(VerCmd(p.command), FamProto(p.transport), AddressBlock(p) + EncodeAll(es))
    requires ParseTlvs(EncodeAll(es)) == Ok(Typed(es))
    ensures V2.ReadAddresses(p.command, h[13], h[V2.HEADER_LEN..])
         == Ok(V2.Addressing(p.transport, Cut(p.source), Cut(p.destination), |AddressBlock(p)|))
    ensures V2.ReadTlvs(p.command, h[V2.HEADER_LEN + |AddressBlock(p)|..]) == Ok(Typed(es))
  {
    AssembledParts(VerCmd(p.command), FamProto(p.transport), AddressBlock(p) + EncodeAll(es));
    AfterAddresses(VerCmd(p.command), FamProto(p.transport), AddressBlock(p), EncodeAll(es));
    AddressesReadBack(p, EncodeAll(es));
  }

  lemma RightCrc(p: Plan)
    requires Protected(p)
    ensures WithCrc(p, Be32(Crc32c.Checksum(Unsealed(p)))) == BuildV2(p).value
  {
    var u := Unsealed(p);
    assert Seal(u)[..|u| - 4] == u[..|u| - 4];
  }

  lemma WrongCrc(crc: bytes, right: bv32)
    requires |crc| == 4 && crc != Be32(right)
    ensures U32(crc) != right
  {
    Be32OfU32(crc);
  }

  /** In any header built with a checksum, any change to the checksum value makes `parse` report a mismatch, with the
      value found as the expected one and the right one as the actual one. */
  lemma CrcChangeDetected(p: Plan, crc: bytes, rest: bytes)
    requires Protected(p) && |crc| == 4 && WithCrc(p, crc) != BuildV2(p).value
    ensures Parser.Parse(WithCrc(p, crc) + rest) == Err(CrcMismatch(U32(crc), Crc32c.Checksum(Unsealed(p))))
  {
    RightCrc(p);
    WrongCrc(crc, Crc32c.Checksum(Unsealed(p)));
    WithCrcComplete(p, crc);
    WithCrcAssembled(p, crc);
    DispatchAssembled(V1.ReadLine, V2.ParseComplete, p.command, FamProto(p.transport),
                      AddressBlock(p) + (EncodeAll(p.entries) + Encode(RawTlv(0x03, crc))), rest);
  }

  // Checksum entries added by hand

  lemma AllFitPrefix(es: seq<RawTlv>, i: nat)
    requires AllFit(es) && i <= |es|
    ensures AllFit(es[..i])
  {
  }

  /** Where the value of the `i`-th entry starts. */
  function ValueAt(p: Plan, i: nat): nat
    requires AllFit(p.entries) && i < |p.entries|
  {
    AllFitPrefix(p.entries, i);
    V2.HEADER_LEN + |AddressBlock(p)| + |EncodeAll(p.entries[..i])| + 3
  }

  /** The last checksum among the entries as they are sent. */
  function LastCrc(p: Plan): Option<bv32>
    requires Buildable(p)
  {
    Typed(FinalEntries(p)).crc32c
  }

  /** What becomes of a header with a checksum. */
  lemma CompleteIs(command: Command, h: V2.Header, a: V2.Addressing, tlvs: Tlvs, actual: bv32)
    requires V2.ReadAddresses(command, h[13], h[V2.HEADER_LEN..]) == Ok(a)
    requires V2.ReadTlvs(command, h[V2.HEADER_LEN + a.tlvOffset..]) == Ok(tlvs) && tlvs.crc32c.Some?
    requires actual == V2.HeaderCrc(h, V2.HEADER_LEN + a.tlvOffset)
    ensures V2.ParseComplete(command, h)
         == if actual == tlvs.crc32c.value
            then Ok(Parsed(ProxyInfo(Version2, command, a.transport, a.source, a.destination, tlvs), |h|))
            else Err(CrcMismatch(tlvs.crc32c.value, actual))
  {
  }

  lemma FieldInHeader(h: bytes, start: nat, data: bytes, p: nat)
    requires start <= |h| && h[start..] == data && V2.CrcField(data, start) == Some(p)
    ensures p + 4 <= |h| && h[p..p + 4] == data[p - start..p - start + 4]
    ensures V2.HeaderCrc(h, start) == Crc32c.Checksum(V2.Zeroed(h, p))
  {
    SliceOfTail(h, start, p);
  }

  /** The scan stops at the first checksum entry, whose value it leaves out. */
  lemma FieldOfEntry(h: bytes, start: nat, es: seq<RawTlv>, i: nat, at: nat)
    requires AllFit(es) && i < |es| && AllFit(es[..i]) && start <= |h| && h[start..] == EncodeAll(es)
    requires es[i].kind == 0x03 && |es[i].value| == 4 && NoCrc(es[..i]) && at == start + |EncodeAll(es[..i])| + 3
    ensures at + 4 <= |h| && h[at..at + 4] == es[i].value
    ensures V2.HeaderCrc(h, start) == Crc32c.Checksum(V2.Zeroed(h, at))
  {
    CrcFieldIsFirst(es, i, start);
    FieldInHeader(h, start, EncodeAll(es), at);
  }

  /** The checksum entry added by hand is the first of all entries sent. */
  lemma HandMadeFirst(p: Plan, i: nat)
    requires Buildable(p) && Faultless(Fault, p.entries)
    requires i < |p.entries| && p.entries[i].kind == 0x03 && NoCrc(p.entries[..i])
    ensures var final := FinalEntries(p);
            i < |final| && final[i] == p.entries[i] && |final[i].value| == 4 && final[..i] == p.entries[..i]
              && LastCrc(p).Some?
  {
    var final := FinalEntries(p);
    FinalFaultless(p);
    assert final[i] == p.entries[i] && final[..i] == p.entries[..i];
    assert Fault(final[i]).None?;
    SomeCrc(final, i);
  }

  lemma HandMadeField(p: Plan, h: bytes, i: nat, at: nat)
    requires Consistent(p) && p.version == Version2 && BuildV2(p) == Some(h) && Faultless(Fault, p.entries)
             && AllFit(p.entries)
    requires i < |p.entries| && p.entries[i].kind == 0x03 && NoCrc(p.entries[..i]) && at == ValueAt(p, i)
    ensures at + 4 <= |h| && h[at..at + 4] == p.entries[i].value
    ensures V2.HeaderCrc(h, V2.HEADER_LEN + |AddressBlock(p)|) == Crc32c.Checksum(V2.Zeroed(h, at))
  {
    HandMadeFirst(p, i);
    AllFitPrefix(p.entries, i);
    FinalFit(p);
    assert h[V2.HEADER_LEN + |AddressBlock(p)|..] == EncodeAll(FinalEntries(p)) by {
      BuiltParts(p, h);
    }
    FieldOfEntry(h, V2.HEADER_LEN + |AddressBlock(p)|, FinalEntries(p), i, at);
  }

  lemma SliceOfTail(h: bytes, start: nat, at: nat)
    requires start <= at && at + 4 <= |h|
    ensures h[start..][at - start..at - start + 4] == h[at..at + 4]
  {
  }

  /** The outcome for a header whose last checksum is `last`, when it should be `actual`. */
  function Verdict(p: Plan, h: bytes, last: bv32, actual: bv32): ParseResult
    requires Buildable(p)
  {
    if last == actual then Ok(Parsed(V2Info(p), |h|)) else Err(CrcMismatch(last, actual))
  }

  lemma BuiltReads(p: Plan, h: V2.Header) returns (a: V2.Addressing)
    requires Consistent(p) && p.version == Version2 && BuildV2(p) == Some(h) && Faultless(Fault, p.entries)
    ensures a == V2.Addressing(p.transport, Cut(p.source), Cut(p.destination), |AddressBlock(p)|)
    ensures V2.ReadAddresses(p.command, h[13], h[V2.HEADER_LEN..]) == Ok(a)
    ensures V2.ReadTlvs(p.command, h[V2.HEADER_LEN + a.tlvOffset..]) == Ok(Typed(FinalEntries(p)))
  {
    a := V2.Addressing(p.transport, Cut(p.source), Cut(p.destination), |AddressBlock(p)|);
    BuiltParts(p, h);
    BuiltTlvs(p);
  }

  lemma HandMadeComplete(p: Plan, h: V2.Header, i: nat, at: nat)
    requires Consistent(p) && p.version == Version2 && BuildV2(p) == Some(h) && Faultless(Fault, p.entries)
             && AllFit(p.entries)
    requires i < |p.entries| && p.entries[i].kind == 0x03 && NoCrc(p.entries[..i]) && at == ValueAt(p, i)
    ensures at + 4 <= |h| && LastCrc(p).Some?
    ensures V2.ParseComplete(p.command, h) == Verdict(p, h, LastCrc(p).value, Crc32c.Checksum(V2.Zeroed(h, at)))
  {
    HandMadeFirst(p, i);
    HandMadeField(p, h, i, at);
    var a := BuiltReads(p, h);
    CompleteIs(p.command, h, a, Typed(FinalEntries(p)), Crc32c.Checksum(V2.Zeroed(h, at)));
  }

  /** What `parse` makes of a built header is what the reader of complete headers does. */
  lemma BuiltDispatched(p: Plan, rest: bytes)
    requires Buildable(p)
    ensures BuildV2(p).Some? && |BuildV2(p).value| >= V2.HEADER_LEN && AllFit(p.entries)
    ensures Parser.Parse(BuildV2(p).value + rest) == V2.ParseComplete(p.command, BuildV2(p).value)
  {
    FinalFit(p);
    BuiltIsAssembled(p);
    DispatchAssembled(V1.ReadLine, V2.ParseComplete, p.command, FamProto(p.transport),
                      AddressBlock(p) + EncodeAll(FinalEntries(p)), rest);
  }

  /** A built header without faults whose `i`-th entry is the first checksum entry added by hand: if the last
      checksum in it, added by hand or not, is the checksum of the header with that first one zeroed, it is read
      back, and otherwise that mismatch is reported. */
  lemma HandMadeAcceptedIff(p: Plan, i: nat, rest: bytes)
    requires Consistent(p) && p.version == Version2 && BuildV2(p).Some? && Faultless(Fault, p.entries)
    requires i < |p.entries| && p.entries[i].kind == 0x03 && NoCrc(p.entries[..i])
    ensures var h := BuildV2(p).value;
            && AllFit(p.entries) && ValueAt(p, i) + 4 <= |h| && LastCrc(p).Some?
            && Parser.Parse(h + rest) == Verdict(p, h, LastCrc(p).value, Crc32c.Checksum(V2.Zeroed(h, ValueAt(p, i))))
  {
    BuiltDispatched(p, rest);
    HandMadeComplete(p, BuildV2(p).value, i, ValueAt(p, i));
  }

  lemma SealedLast(p: Plan)
    requires Buildable(p) && p.addCrc32c
    ensures LastCrc(p) == Some(Crc32c.Checksum(Unsealed(p)))
  {
    LastValueAppend(p.entries, CrcEntry(p), 0x03);
    U32OfBe32(Crc32c.Checksum(Unsealed(p)));
  }

  lemma PlaceholderLast(verCmd: byte, famProto: byte, addresses: bytes, entries: bytes)
    requires |addresses| + |entries| + 7 <= U16_MAX
    ensures var u := Assemble(verCmd, famProto, addresses + (entries + Encode(CRC_PLACEHOLDER)));
            u[|u| - 4..] == [0, 0, 0, 0]
  {
  }

  lemma BuiltSeal(p: Plan)
    requires Buildable(p) && p.addCrc32c
    ensures |Unsealed(p)| >= 4 && Unsealed(p)[|Unsealed(p)| - 4..] == [0, 0, 0, 0]
            && BuildV2(p) == Some(Seal(Unsealed(p)))
  {
    UnsealedIs(p);
    PlaceholderLast(VerCmd(p.command), FamProto(p.transport), AddressBlock(p), EncodeAll(p.entries));
  }

  lemma SealedAgreesIff(p: Plan)
    requires Buildable(p) && p.addCrc32c
    ensures Crc32c.Checksum(BuildV2(p).value) == Crc32c.Checksum(Unsealed(p)) <==> Crc32c.Checksum(Unsealed(p)) == 0
  {
    BuiltSeal(p);
    SealDiffers(Unsealed(p));
  }

  lemma ZeroByHandMeans(p: Plan, h: bytes, i: nat, at: nat, rest: bytes)
    requires Consistent(p) && p.version == Version2 && BuildV2(p) == Some(h) && Faultless(Fault, p.entries)
    requires AllFit(p.entries) && i < |p.entries| && at == ValueAt(p, i)
    requires p.entries[i] == RawTlv(0x03, [0, 0, 0, 0]) && NoCrc(p.entries[..i])
    ensures Parser.Parse(h + rest).Ok? <==> LastCrc(p) == Some(Crc32c.Checksum(h))
  {
    HandMadeAcceptedIff(p, i, rest);
    HandMadeField(p, h, i, at);
    ZeroedAlready(h, at);
  }

  /** Asking for a checksum after adding a zero one by hand: the header is accepted exactly if its checksum is zero
      too. */
  lemma ZeroByHandAcceptedIff(p: Plan, i: nat, rest: bytes)
    requires Consistent(p) && p.version == Version2 && BuildV2(p).Some? && Faultless(Fault, p.entries) && p.addCrc32c
    requires i < |p.entries| && p.entries[i] == RawTlv(0x03, [0, 0, 0, 0]) && NoCrc(p.entries[..i])
    ensures Parser.Parse(BuildV2(p).value + rest).Ok? <==> Crc32c.Checksum(Unsealed(p)) == 0
  {
    FinalFit(p);
    ZeroByHandMeans(p, BuildV2(p).value, i, ValueAt(p, i), rest);
    SealedLast(p);
    SealedAgreesIff(p);
  }

  lemma ZeroedAlready(h: bytes, at: nat)
    requires at + 4 <= |h| && h[at..at + 4] == [0, 0, 0, 0]
    ensures V2.Zeroed(h, at) == h
  {
    assert h == h[..at] + h[at..at + 4] + h[at + 4..];
  }

  lemma SealBurst(u: bytes, front: bytes)
    requires u == front + [0, 0, 0, 0]
    ensures Burst(Seal(u), u, 8 * |front|, 32)
  {
    var crc := Be32(Crc32c.Checksum(u));
    assert u == front + [0, 0, 0, 0] + [] && Seal(u) == front + crc + [];
    AnyFourBytes(crc, [0, 0, 0, 0]);
    BurstInside(front, crc, [0, 0, 0, 0], [], 0, 32);
  }

  lemma SealZero(u: bytes, front: bytes)
    requires u == front + [0, 0, 0, 0]
    ensures Seal(u) == u <==> Crc32c.Checksum(u) == 0
  {
    var crc := Be32(Crc32c.Checksum(u));
    assert Seal(u) == front + crc && Seal(u)[|front|..] == crc && u[|front|..] == [0, 0, 0, 0];
    U32OfBe32(Crc32c.Checksum(u));
    ZeroWord();
  }

  /** A header and its sealed form have the same checksum only if that is zero. */
  lemma SealDiffers(u: bytes)
    requires |u| >= 4 && u[|u| - 4..] == [0, 0, 0, 0]
    ensures Crc32c.Checksum(Seal(u)) == Crc32c.Checksum(u) <==> Crc32c.Checksum(u) == 0
  {
    var front := u[..|u| - 4];
    assert u == front + [0, 0, 0, 0];
    SealBurst(u, front);
    SealZero(u, front);
    if Seal(u) != u {
      BurstAt(Seal(u), u, 8 * |front|, 32);
    }
  }

  lemma ZeroWord()
    ensures Be32(0) == [0, 0, 0, 0] && U32([0, 0, 0, 0]) == 0
  {
    IntOfBits(0);
    U32OfBe32(0);
  }

  // Changes to other entries

  /** The bytes with others, as many, in their place. */
  function Spliced(h: bytes, at: nat, value: bytes): bytes
    requires at + |value| <= |h|
  {
    h[..at] + value + h[at + |value|..]
  }

  /** The plan that would have had that value. */
  function Replanned(p: Plan, i: nat, value: bytes): Plan
    requires i < |p.entries|
  {
    p.(entries := p.entries[i := RawTlv(p.entries[i].kind, value)])
  }

  lemma {:induction false} ReplacedLength(es: seq<RawTlv>, i: nat, e: RawTlv)
    requires AllFit(es) && i < |es| && |e.value| == |es[i].value|
    ensures AllFit(es[i := e]) && |EncodeAll(es[i := e])| == |EncodeAll(es)|
  {
    var es' := es[i := e];
    assert forall j :: 0 <= j < |es| ==> Fits(es'[j]);
    EncodeAround(es, i);
    EncodeAround(es', i);
    assert es'[..i] == es[..i] && es'[i + 1..] == es[i + 1..];
  }

  lemma ReplaceValue(pre: bytes, e: RawTlv, value: bytes, post: bytes)
    requires Fits(e) && |value| == |e.value|
    ensures var h := pre + (Encode(e) + post);
            Spliced(h, |pre| + 3, value) == pre + (Encode(RawTlv(e.kind, value)) + post)
  {
    var h := pre + (Encode(e) + post);
    var head := [e.kind] + Be16(|e.value|);
    assert Encode(e) == head + e.value && Encode(RawTlv(e.kind, value)) == head + value;
    assert h[..|pre| + 3] == pre + head && h[|pre| + 3 + |e.value|..] == post;
  }

  /** The encoding of entries, with another value in the place of the `i`-th. */
  lemma ReplaceEntry(front: bytes, es: seq<RawTlv>, i: nat, value: bytes, back: bytes)
    requires AllFit(es) && i < |es| && |value| == |es[i].value| && AllFit(es[..i])
    ensures var e := RawTlv(es[i].kind, value);
            var at := |front| + |EncodeAll(es[..i])| + 3;
            var h := front + (EncodeAll(es) + back);
            && AllFit(es[i := e]) && at + |value| <= |h|
            && Spliced(h, at, value) == front + (EncodeAll(es[i := e]) + back)
  {
    var e := RawTlv(es[i].kind, value);
    var f, b := EncodeAll(es[..i]), EncodeAll(es[i + 1..]);
    ReplacedLength(es, i, e);
    EncodeAround(es, i);
    EncodeAround(es[i := e], i);
    assert es[i := e][..i] == es[..i] && es[i := e][i + 1..] == es[i + 1..];
    Nested(front, f, Encode(es[i]), b, back);
    Nested(front, f, Encode(e), b, back);
    ReplaceValue(front + f, es[i], value, b + back);
  }

  lemma Nested(a: bytes, b: bytes, c: bytes, d: bytes, e: bytes)
    ensures a + ((b + (c + d)) + e) == (a + b) + (c + (d + e))
  {
  }

  /** A header with these addresses and entries, and with this checksum at its end. */
  function Ending(p: Plan, es: seq<RawTlv>, crc: bytes): bytes
    requires AllFit(es) && |crc| == 4 && |AddressBlock(p)| + |EncodeAll(es)| + 7 <= U16_MAX
  {
    Assemble(VerCmd(p.command), FamProto(p.transport), AddressBlock(p) + (EncodeAll(es) + Encode(RawTlv(0x03, crc))))
  }

  lemma AssembledPieces(v: byte, f: byte, size: nat, a: bytes, e: bytes, back: bytes)
    requires size == |a| + |e| + |back| <= U16_MAX
    ensures Assemble(v, f, a + (e + back)) == ((V2.SIGNATURE + [v, f] + Be16(size)) + a) + (e + back)
  {
    Regroup(V2.SIGNATURE + [v, f] + Be16(size), a, e + back);
  }

  lemma AssembledReplaced(v: byte, f: byte, a: bytes, es: seq<RawTlv>, i: nat, value: bytes, back: bytes, at: nat)
    requires AllFit(es) && i < |es| && AllFit(es[..i]) && |value| == |es[i].value|
    requires |a| + |EncodeAll(es)| + |back| <= U16_MAX && at == V2.HEADER_LEN + |a| + |EncodeAll(es[..i])| + 3
    ensures var es' := es[i := RawTlv(es[i].kind, value)];
            && AllFit(es') && |EncodeAll(es')| == |EncodeAll(es)|
            && at + |value| <= |Assemble(v, f, a + (EncodeAll(es) + back))|
            && Spliced(Assemble(v, f, a + (EncodeAll(es) + back)), at, value)
              == Assemble(v, f, a + (EncodeAll(es') + back))
  {
    var es' := es[i := RawTlv(es[i].kind, value)];
    var size := |a| + |EncodeAll(es)| + |back|;
    ReplacedLength(es, i, RawTlv(es[i].kind, value));
    AssembledPieces(v, f, size, a, EncodeAll(es), back);
    AssembledPieces(v, f, size, a, EncodeAll(es'), back);
    ReplaceEntry((V2.SIGNATURE + [v, f] + Be16(size)) + a, es, i, value, back);
  }

  /** Another value in the place of that of the `i`-th entry, whatever the checksum. */
  lemma EndingReplaced(p: Plan, i: nat, value: bytes, crc: bytes, at: nat)
    requires AllFit(p.entries) && i < |p.entries| && |value| == |p.entries[i].value| && |crc| == 4
             && at == ValueAt(p, i)
    requires |AddressBlock(p)| + |EncodeAll(p.entries)| + 7 <= U16_MAX
    ensures var es := Replanned(p, i, value).entries;
            var h := Ending(p, p.entries, crc);
            && AllFit(es) && |EncodeAll(es)| == |EncodeAll(p.entries)| && at + |value| <= |h|
            && Ending(p, es, crc) == Spliced(h, at, value)
  {
    AllFitPrefix(p.entries, i);
    AssembledReplaced(VerCmd(p.command), FamProto(p.transport), AddressBlock(p), p.entries, i, value,
                      Encode(RawTlv(0x03, crc)), at);
  }

  lemma BuiltEnding(p: Plan)
    requires Protected(p)
    ensures AllFit(p.entries) && |AddressBlock(p)| + |EncodeAll(p.entries)| + 7 <= U16_MAX
    ensures BuildV2(p).value == Ending(p, p.entries, CrcEntry(p).value)
  {
    BuiltSealed(p, BuildV2(p).value);
  }

  lemma TamperedIs(p: Plan, i: nat, value: bytes)
    requires Protected(p) && AllFit(p.entries) && i < |p.entries| && |value| == |p.entries[i].value|
    ensures ValueAt(p, i) + |value| <= |BuildV2(p).value|
    ensures var es := Replanned(p, i, value).entries;
            && AllFit(es) && |AddressBlock(p)| + |EncodeAll(es)| + 7 <= U16_MAX
            && Spliced(BuildV2(p).value, ValueAt(p, i), value) == Ending(p, es, CrcEntry(p).value)
  {
    BuiltEnding(p);
    EndingReplaced(p, i, value, CrcEntry(p).value, ValueAt(p, i));
  }

  lemma ReplannedBuildable(p: Plan, i: nat, value: bytes)
    requires Protected(p) && AllFit(p.entries) && i < |p.entries| && |value| == |p.entries[i].value|
    ensures var p' := Replanned(p, i, value);
            && Consistent(p') && Buildable(p') && NoCrc(p'.entries)
            && (Faultless(Fault, p'.entries) ==> Protected(p'))
  {
    ReplacedLength(p.entries, i, RawTlv(p.entries[i].kind, value));
    PlannedSplit(p);
    PlannedSplit(Replanned(p, i, value));
  }

  /** A burst in the value is one in what the checksum is computed from. */
  lemma UnsealedDiffer(p: Plan, i: nat, value: bytes, k: nat, n: nat)
    requires Protected(p) && AllFit(p.entries) && i < |p.entries| && Buildable(Replanned(p, i, value))
    requires Burst(p.entries[i].value, value, k, n) && value != p.entries[i].value
    ensures Crc32c.Checksum(Unsealed(Replanned(p, i, value))) != Crc32c.Checksum(Unsealed(p))
  {
    var at, was := ValueAt(p, i), p.entries[i].value;
    UnsealedIs(p);
    UnsealedIs(Replanned(p, i, value));
    EndingReplaced(p, i, value, [0, 0, 0, 0], at);
    EndingReplaced(p, i, was, [0, 0, 0, 0], at);
    assert Replanned(p, i, was) == p by {
      assert p.entries[i := RawTlv(p.entries[i].kind, was)] == p.entries;
    }
    var u := Unsealed(p);
    PartsDiffer(u[..at], was, value, u[at + |value|..], k, n);
  }

  lemma PartsDiffer(pre: bytes, v: bytes, w: bytes, post: bytes, k: nat, n: nat)
    requires Burst(v, w, k, n) && v != w
    ensures Crc32c.Checksum(pre + w + post) != Crc32c.Checksum(pre + v + post)
  {
    BurstInside(pre, v, w, post, k, n);
    assert (pre + v + post)[|pre|..|pre| + |v|] == v && (pre + w + post)[|pre|..|pre| + |v|] == w;
    BurstAt(pre + v + post, pre + w + post, 8 * |pre| + k, n);
  }

  /** If the changed entry has no fault, the checksum does not agree. */
  lemma ChangeMismatch(p: Plan, crc: bytes, rest: bytes)
    requires Protected(p) && |crc| == 4 && U32(crc) != Crc32c.Checksum(Unsealed(p))
    ensures AllFit(p.entries) && |AddressBlock(p)| + |EncodeAll(p.entries)| + 7 <= U16_MAX
    ensures Parser.Parse(Ending(p, p.entries, crc) + rest) == Err(CrcMismatch(U32(crc), Crc32c.Checksum(Unsealed(p))))
  {
    WithCrcComplete(p, crc);
    WithCrcAssembled(p, crc);
    DispatchAssembled(V1.ReadLine, V2.ParseComplete, p.command, FamProto(p.transport),
                      AddressBlock(p) + (EncodeAll(p.entries) + Encode(RawTlv(0x03, crc))), rest);
  }

  /** The plan with the checksum as one more entry. */
  function Spelled(p: Plan, crc: bytes): Plan
  {
    p.(entries := p.entries + [RawTlv(0x03, crc)], addCrc32c := false)
  }

  lemma SpelledIs(p: Plan, crc: bytes)
    requires AllFit(p.entries) && |crc| == 4 && |AddressBlock(p)| + |EncodeAll(p.entries)| + 7 <= U16_MAX
    ensures BuildV2(Spelled(p, crc)) == Some(Ending(p, p.entries, crc))
  {
    var q := Spelled(p, crc);
    EncodeSnoc(p.entries, RawTlv(0x03, crc));
    assert PlannedEntries(q) == q.entries && AddressBlock(q) == AddressBlock(p);
    assert EncodeAll(q.entries) == EncodeAll(p.entries) + Encode(RawTlv(0x03, crc));
  }

  lemma FaultStays(es: seq<RawTlv>, e: RawTlv)
    requires !Faultless(Fault, es)
    ensures !Faultless(Fault, es + [e])
  {
    var i :| 0 <= i < |es| && Fault(es[i]).Some?;
    assert (es + [e])[i] == es[i];
  }

  /** If it has one, that is what the parser finds, and tolerates in a LOCAL header only. */
  lemma ChangeFault(p: Plan, crc: bytes, rest: bytes)
    requires Consistent(p) && p.version == Version2 && !Faultless(Fault, p.entries)
    requires AllFit(p.entries) && |crc| == 4 && |AddressBlock(p)| + |EncodeAll(p.entries)| + 7 <= U16_MAX
    ensures Parser.Parse(Ending(p, p.entries, crc) + rest).Ok? <==> p.command == Local
  {
    SpelledIs(p, crc);
    FaultStays(p.entries, RawTlv(0x03, crc));
    V2AcceptedIff(Spelled(p, crc), rest);
  }

  /** In any header built with a checksum, a change confined to 32 consecutive bits of the value of an entry is accepted
      exactly if it leaves the entry with a fault and the header is a LOCAL one, whose entries then count as none. */
  lemma EntryChangeDetected(p: Plan, i: nat, value: bytes, k: nat, n: nat, rest: bytes)
    requires Protected(p) && i < |p.entries|
    requires Burst(p.entries[i].value, value, k, n) && value != p.entries[i].value
    ensures AllFit(p.entries) && ValueAt(p, i) + |value| <= |BuildV2(p).value|
    ensures Parser.Parse(Spliced(BuildV2(p).value, ValueAt(p, i), value) + rest).Ok?
            <==> p.command == Local && !Faultless(Fault, Replanned(p, i, value).entries)
  {
    var p', crc := Replanned(p, i, value), CrcEntry(p).value;
    FinalFit(p);
    TamperedIs(p, i, value);
    ReplannedBuildable(p, i, value);
    if Faultless(Fault, p'.entries) {
      UnsealedDiffer(p, i, value, k, n);
      U32OfBe32(Crc32c.Checksum(Unsealed(p)));
      ChangeMismatch(p', crc, rest);
    } else {
      ChangeFault(p', crc, rest);
    }
  }
}
