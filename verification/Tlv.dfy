/** Type-length-value extensions (src/parse/tlv.rs): framing, the typed view of the entries, and the two
    nested parsing loops. */
module Tlv {
  import opened Octets
  import opened Utf8
  import opened Types

  // Framing

  predicate Fits(e: RawTlv)
  {
    |e.value| <= U16_MAX
  }

  predicate AllFit(es: seq<RawTlv>)
  {
    forall i :: 0 <= i < |es| ==> Fits(es[i])
  }

  function Encode(e: RawTlv): (bs: bytes)
    requires Fits(e)
    ensures |bs| == 3 + |e.value|
  {
    [e.kind] + Be16(|e.value|) + e.value
  }

  function EncodeAll(es: seq<RawTlv>): bytes
    requires AllFit(es)
  {
    if es == [] then [] else Encode(es[0]) + EncodeAll(es[1..])
  }

  /** No complete entry starts here. */
  predicate Stuck(data: bytes)
  {
    |data| < 3 || |data| < 3 + U16(data[1], data[2])
  }

  /** The entry a sequence that is not stuck starts with. */
  function Head(data: bytes): (e: RawTlv)
    requires !Stuck(data)
    ensures Fits(e) && 3 + |e.value| <= |data|
  {
    RawTlv(data[0], data[3..3 + U16(data[1], data[2])])
  }

  /** What comes after that entry. */
  function Tail(data: bytes): (rest: bytes)
    requires !Stuck(data)
    ensures |rest| < |data|
  {
    data[3 + U16(data[1], data[2])..]
  }

  datatype Framed = Framed(entries: seq<RawTlv>, rest: bytes)

  /** The entries `data` starts with, and the bytes left where no further complete entry starts. */
  function Unframe(data: bytes): (f: Framed)
    ensures AllFit(f.entries) && Stuck(f.rest) && |f.rest| <= |data|
    decreases |data|
  {
    if Stuck(data) then Framed([], data)
    else
      var f := Unframe(Tail(data));
      Framed([Head(data)] + f.entries, f.rest)
  }

  /** Nothing is lost: the entries and the rest spell `data` again. */
  lemma {:induction false} UnframeLossless(data: bytes)
    ensures EncodeAll(Unframe(data).entries) + Unframe(data).rest == data
    decreases |data|
  {
    if !Stuck(data) {
      var e := Head(data);
      var f := Unframe(Tail(data));
      calc {
        EncodeAll([e] + f.entries) + f.rest;
        { EncodeCons(e, f.entries); }
        (Encode(e) + EncodeAll(f.entries)) + f.rest;
        { Regroup(Encode(e), EncodeAll(f.entries), f.rest); }
        Encode(e) + (EncodeAll(f.entries) + f.rest);
        { UnframeLossless(Tail(data)); EncodeHead(data); }
        data;
      }
    }
  }

  lemma EncodeCons(e: RawTlv, es: seq<RawTlv>)
    requires Fits(e) && AllFit(es)
    ensures EncodeAll([e] + es) == Encode(e) + EncodeAll(es)
  {
    assert ([e] + es)[1..] == es;
  }

  lemma EncodeHead(data: bytes)
    requires !Stuck(data)
    ensures Encode(Head(data)) + Tail(data) == data
  {
    Be16OfU16(data[1], data[2]);
  }

  /** Entries written before `tail` are read back before those of `tail`. */
  lemma {:induction false} UnframeConcat(es: seq<RawTlv>, tail: bytes)
    requires AllFit(es)
    ensures Unframe(EncodeAll(es) + tail) == Framed(es + Unframe(tail).entries, Unframe(tail).rest)
  {
    var f := Unframe(tail);
    if es == [] {
      assert EncodeAll(es) + tail == tail;
      assert es + f.entries == f.entries;
    } else {
      var mid := EncodeAll(es[1..]) + tail;
      calc {
        Unframe(EncodeAll(es) + tail);
        { Regroup(Encode(es[0]), EncodeAll(es[1..]), tail); }
        Unframe(Encode(es[0]) + mid);
        { UnframeHead(es[0], mid); }
        Framed([es[0]] + Unframe(mid).entries, Unframe(mid).rest);
        { UnframeConcat(es[1..], tail); }
        Framed([es[0]] + (es[1..] + f.entries), f.rest);
        { HeadAndTail(es, f.entries); }
        Framed(es + f.entries, f.rest);
      }
    }
  }

  lemma HeadAndTail(es: seq<RawTlv>, fs: seq<RawTlv>)
    requires es != []
    ensures [es[0]] + (es[1..] + fs) == es + fs
  {
  }

  /** The entries and the rest that spell `data` are unique. */
  lemma UnframeEncoded(es: seq<RawTlv>, rest: bytes)
    requires AllFit(es) && Stuck(rest)
    ensures Unframe(EncodeAll(es) + rest) == Framed(es, rest)
  {
    UnframeConcat(es, rest);
    assert es + [] == es;
  }

  lemma UnframeHead(e: RawTlv, tail: bytes)
    requires Fits(e)
    ensures Unframe(Encode(e) + tail) == Framed([e] + Unframe(tail).entries, Unframe(tail).rest)
  {
    HeadTailOf(e, tail);
  }

  lemma {:induction false} EncodeAllConcat(es: seq<RawTlv>, fs: seq<RawTlv>)
    requires AllFit(es) && AllFit(fs)
    ensures AllFit(es + fs)
    ensures EncodeAll(es + fs) == EncodeAll(es) + EncodeAll(fs)
  {
    if es == [] {
      assert es + fs == fs;
    } else {
      assert (es + fs)[1..] == es[1..] + fs;
      EncodeAllConcat(es[1..], fs);
      Regroup(Encode(es[0]), EncodeAll(es[1..]), EncodeAll(fs));
    }
  }

  // Typed view

  /** The value of the last entry of the given type. */
  function LastValue(es: seq<RawTlv>, kind: byte): Option<bytes>
  {
    if es == [] then None
    else if es[|es| - 1].kind == kind then Some(es[|es| - 1].value)
    else LastValue(es[..|es| - 1], kind)
  }

  function Text(v: Option<bytes>): Option<utf8>
  {
    match v
    case None => None
    case Some(s) => Some(Lossy(s))
  }

  /** The record an SSL entry with these leading bytes and sub-entries stands for. */
  function SslFrom(client: byte, verify: bytes, subs: seq<RawTlv>): SslInfo
  {
    SslInfo(
      client % 8,
      verify == [0, 0, 0, 0],
      Text(LastValue(subs, 0x21)),
      Text(LastValue(subs, 0x22)),
      Text(LastValue(subs, 0x23)),
      Text(LastValue(subs, 0x24)),
      Text(LastValue(subs, 0x25)),
      Text(LastValue(subs, 0x26)),
      Text(LastValue(subs, 0x27)),
      LastValue(subs, 0x28))
  }

  function SslOf(v: Option<bytes>): Option<SslInfo>
  {
    if v.Some? && |v.value| >= 5
    then Some(SslFrom(v.value[0], v.value[1..5], Unframe(v.value[5..]).entries))
    else None
  }

  function CrcOf(v: Option<bytes>): Option<bv32>
  {
    if v.Some? && |v.value| == 4 then Some(U32(v.value)) else None
  }

  /** The typed fields: each is the decoding of the last entry of its type. */
  function Typed(es: seq<RawTlv>): Tlvs
  {
    Tlvs(
      LastValue(es, 0x01),
      Text(LastValue(es, 0x02)),
      CrcOf(LastValue(es, 0x03)),
      LastValue(es, 0x05),
      SslOf(LastValue(es, 0x20)),
      Text(LastValue(es, 0x30)),
      es)
  }

  // Faults

  /** The offset of the first thing wrong with entries that start at offset `at`: an incomplete entry, or a fault
      inside one, which `fault` counts from the type byte of the entry. */
  function FirstBad(fault: RawTlv -> Option<nat>, data: bytes, at: nat): Option<nat>
    decreases |data|
  {
    if data == [] then None
    else if Stuck(data) then Some(at)
    else match fault(Head(data))
      case Some(k) => Some(at + k)
      case None => FirstBad(fault, Tail(data), at + 3 + |Head(data).value|)
  }

  /** The parser reads over any complete sub-entry. */
  function SubFault(e: RawTlv): Option<nat>
  {
    None
  }

  /** Where in an entry the parser complains about it. */
  function Fault(e: RawTlv): Option<nat>
  {
    if e.kind == 0x03 then (if |e.value| != 4 then Some(0) else None)
    else if e.kind == 0x05 then (if |e.value| > 128 then Some(0) else None)
    else if e.kind == 0x20 then (if |e.value| < 5 then Some(0) else FirstBad(SubFault, e.value[5..], 8))
    else None
  }

  predicate Faultless(fault: RawTlv -> Option<nat>, es: seq<RawTlv>)
  {
    forall i :: 0 <= i < |es| ==> fault(es[i]).None?
  }

  function Malformed<T>(offset: nat): Result<T, ParseError>
  {
    Err(Invalid(MalformedTlv(offset)))
  }

  /** What `parse_tlvs` returns. */
  function ParseTlvs(data: bytes): Result<Tlvs, ParseError>
  {
    match FirstBad(Fault, data, 0)
    case Some(offset) => Malformed(offset)
    case None => Ok(Typed(Unframe(data).entries))
  }

  /** What `parse_ssl` returns for the value of an SSL entry, where the value starts at `offset`. */
  function ParseSsl(data: bytes, offset: nat): Result<SslInfo, ParseError>
    requires |data| >= 5
  {
    match FirstBad(SubFault, data[5..], offset + 5)
    case Some(bad) => Malformed(bad)
    case None => Ok(SslFrom(data[0], data[1..5], Unframe(data[5..]).entries))
  }

  lemma {:induction false} FirstBadMoved(fault: RawTlv -> Option<nat>, data: bytes, at: nat, base: nat)
    ensures FirstBad(fault, data, base + at)
         == match FirstBad(fault, data, at)
            case Some(k) => Some(base + k)
            case None => None
    decreases |data|
  {
    if !Stuck(data) {
      FirstBadMoved(fault, Tail(data), at + 3 + |Head(data).value|, base);
    }
  }

  // The loops

  lemma LastValueAppend(es: seq<RawTlv>, e: RawTlv, kind: byte)
    ensures LastValue(es + [e], kind) == if e.kind == kind then Some(e.value) else LastValue(es, kind)
  {
    assert (es + [e])[..|es|] == es;
  }

  /** The record after one more sub-entry: its field, if it has one. */
  function AssignedSub(ssl: SslInfo, kind: byte, value: bytes): SslInfo
  {
    match kind
    case 0x21 => ssl.(version := Some(Lossy(value)))
    case 0x22 => ssl.(cn := Some(Lossy(value)))
    case 0x23 => ssl.(cipher := Some(Lossy(value)))
    case 0x24 => ssl.(sigAlg := Some(Lossy(value)))
    case 0x25 => ssl.(keyAlg := Some(Lossy(value)))
    case 0x26 => ssl.(group := Some(Lossy(value)))
    case 0x27 => ssl.(sigScheme := Some(Lossy(value)))
    case 0x28 => ssl.(clientCert := Some(value))
    case _ => ssl
  }

  lemma SslAppend(client: byte, verify: bytes, subs: seq<RawTlv>, e: RawTlv)
    ensures SslFrom(client, verify, subs + [e]) == AssignedSub(SslFrom(client, verify, subs), e.kind, e.value)
  {
    LastValueAppend(subs, e, 0x21);
    LastValueAppend(subs, e, 0x22);
    LastValueAppend(subs, e, 0x23);
    LastValueAppend(subs, e, 0x24);
    LastValueAppend(subs, e, 0x25);
    LastValueAppend(subs, e, 0x26);
    LastValueAppend(subs, e, 0x27);
    LastValueAppend(subs, e, 0x28);
  }

  /** What reading has established when the entries `done` of `input` have been read and `data` is left. */
  ghost predicate Reading(fault: RawTlv -> Option<nat>, input: bytes, start: nat, done: seq<RawTlv>, data: bytes,
                          offset: nat)
  {
    && FirstBad(fault, data, offset) == FirstBad(fault, input, start)
    && done + Unframe(data).entries == Unframe(input).entries
  }

  lemma ReadingStarts(fault: RawTlv -> Option<nat>, input: bytes, start: nat)
    ensures Reading(fault, input, start, [], input, start)
  {
    assert [] + Unframe(input).entries == Unframe(input).entries;
  }

  lemma ReadingGoesOn(fault: RawTlv -> Option<nat>, input: bytes, start: nat, done: seq<RawTlv>, data: bytes,
                      offset: nat)
    requires Reading(fault, input, start, done, data, offset) && !Stuck(data)
    ensures match fault(Head(data))
            case Some(k) => FirstBad(fault, input, start) == Some(offset + k)
            case None => Reading(fault, input, start, done + [Head(data)], Tail(data), offset + 3 + |Head(data).value|)
  {
    Shift(done, Head(data), Unframe(Tail(data)).entries);
  }

  lemma ReadingEnds(fault: RawTlv -> Option<nat>, input: bytes, start: nat, done: seq<RawTlv>, data: bytes, offset: nat)
    requires Reading(fault, input, start, done, data, offset) && Stuck(data)
    ensures data != [] ==> FirstBad(fault, input, start) == Some(offset)
    ensures data == [] ==> FirstBad(fault, input, start) == None && Unframe(input).entries == done
  {
    assert done + [] == done;
  }

  /** The body of the loop of `parse_ssl`: the record with one more field, or the offset of the error. */
  method NextSub(ghost input: bytes, ghost start: nat, ghost client: byte, ghost verify: bytes, ghost done: seq<RawTlv>,
                 ssl: SslInfo, data: bytes, offset: nat)
    returns (r: Result<SslInfo, ParseError>, n: nat)
    requires Reading(SubFault, input, start, done, data, offset) && ssl == SslFrom(client, verify, done) && data != []
    ensures r.Err? ==> r == Malformed(offset) && FirstBad(SubFault, input, start) == Some(offset)
    ensures r.Ok? ==> !Stuck(data) && n == 3 + |Head(data).value|
    ensures r.Ok? ==> r.value == SslFrom(client, verify, done + [Head(data)])
    ensures r.Ok? ==> Reading(SubFault, input, start, done + [Head(data)], Tail(data), offset + n)
  {
    n := 0;
    if |data| < 3 {
      ReadingEnds(SubFault, input, start, done, data, offset);
      return Malformed(offset), n;
    }
    var subType := data[0];
    var subLen := U16(data[1], data[2]);
    if |data| < 3 + subLen {
      ReadingEnds(SubFault, input, start, done, data, offset);
      return Malformed(offset), n;
    }
    var subValue := data[3..3 + subLen];
    SslAppend(client, verify, done, Head(data));
    ReadingGoesOn(SubFault, input, start, done, data, offset);
    return Ok(AssignedSub(ssl, subType, subValue)), 3 + subLen;
  }

  /** `parse_ssl`: one pass that shrinks `subData`, advances `subOffset` and assigns fields of `ssl`. */
  method ParseSslLoop(data: bytes, outerOffset: nat) returns (r: Result<SslInfo, ParseError>)
    requires |data| >= 5
    ensures r == ParseSsl(data, outerOffset)
  {
    var ssl := SslInfo(data[0] % 8, data[1..5] == [0, 0, 0, 0], None, None, None, None, None, None, None, None);
    var subData := data[5..];
    var subOffset: nat := outerOffset + 5;
    ghost var input, start := subData, subOffset;
    ghost var done: seq<RawTlv> := [];
    ReadingStarts(SubFault, input, start);
    while subData != []
      invariant Reading(SubFault, input, start, done, subData, subOffset)
      invariant ssl == SslFrom(data[0], data[1..5], done)
      decreases |subData|
    {
      var next, n := NextSub(input, start, data[0], data[1..5], done, ssl, subData, subOffset);
      if next.Err? {
        return next;
      }
      done := done + [Head(subData)];
      ssl, subData, subOffset := next.value, subData[n..], subOffset + n;
    }
    ReadingEnds(SubFault, input, start, done, subData, subOffset);
    return Ok(ssl);
  }

  lemma Shift(done: seq<RawTlv>, e: RawTlv, todo: seq<RawTlv>)
    ensures done + ([e] + todo) == (done + [e]) + todo
  {
  }

  /** The record after one more entry: its field, if it has one, and `raw`. */
  function Assigned(tlvs: Tlvs, e: RawTlv): Tlvs
  {
    var was := tlvs.(raw := tlvs.raw + [e]);
    if e.kind == 0x01 then was.(alpn := Some(e.value))
    else if e.kind == 0x02 then was.(authority := Some(Lossy(e.value)))
    else if e.kind == 0x03 then was.(crc32c := CrcOf(Some(e.value)))
    else if e.kind == 0x05 then was.(uniqueId := Some(e.value))
    else if e.kind == 0x20 then was.(ssl := SslOf(Some(e.value)))
    else if e.kind == 0x30 then was.(netns := Some(Lossy(e.value)))
    else was
  }

  lemma TypedAppend(es: seq<RawTlv>, e: RawTlv)
    ensures Typed(es + [e]) == Assigned(Typed(es), e)
  {
    LastValueAppend(es, e, 0x01);
    LastValueAppend(es, e, 0x02);
    LastValueAppend(es, e, 0x03);
    LastValueAppend(es, e, 0x05);
    LastValueAppend(es, e, 0x20);
    LastValueAppend(es, e, 0x30);
  }

  /** The body of the loop of `parse_tlvs`: push the entry at `offset` to `raw` and assign its field. */
  method AssignEntry(before: Tlvs, tlvType: byte, value: bytes, offset: nat) returns (r: Result<Tlvs, ParseError>)
    ensures r == match Fault(RawTlv(tlvType, value))
                 case Some(k) => Malformed(offset + k)
                 case None => Ok(Assigned(before, RawTlv(tlvType, value)))
  {
    var tlvs := before.(raw := before.raw + [RawTlv(tlvType, value)]);
    match tlvType {
      case 0x01 => tlvs := tlvs.(alpn := Some(value));
      case 0x02 => tlvs := tlvs.(authority := Some(Lossy(value)));
      case 0x03 =>
        if |value| != 4 {
          return Malformed(offset);
        }
        tlvs := tlvs.(crc32c := Some(U32(value)));
      case 0x04 =>
      case 0x05 =>
        if |value| > 128 {
          return Malformed(offset);
        }
        tlvs := tlvs.(uniqueId := Some(value));
      case 0x20 =>
        if |value| < 5 {
          return Malformed(offset);
        }
        FirstBadMoved(SubFault, value[5..], 8, offset);
        var ssl := ParseSslLoop(value, offset + 3);
        if ssl.Err? {
          return Err(ssl.error);
        }
        tlvs := tlvs.(ssl := Some(ssl.value));
      case 0x30 => tlvs := tlvs.(netns := Some(Lossy(value)));
      case _ =>
    }
    return Ok(tlvs);
  }

  lemma ReadingFails(input: bytes, done: seq<RawTlv>, data: bytes, offset: nat)
    requires Reading(Fault, input, 0, done, data, offset)
    requires data != [] && (Stuck(data) || Fault(Head(data)).Some?)
    ensures ParseTlvs(input) == Malformed(offset + if Stuck(data) then 0 else Fault(Head(data)).value)
  {
  }

  lemma ReadingSucceeds(input: bytes, done: seq<RawTlv>, offset: nat)
    requires Reading(Fault, input, 0, done, [], offset)
    ensures ParseTlvs(input) == Ok(Typed(done))
  {
    ReadingEnds(Fault, input, 0, done, [], offset);
  }

  /** The state of the loop of `parse_tlvs`. */
  ghost predicate SoFar(input: bytes, done: seq<RawTlv>, tlvs: Tlvs, data: bytes, offset: nat)
  {
    Reading(Fault, input, 0, done, data, offset) && tlvs == Typed(done)
  }

  /** One round of the loop of `parse_tlvs`: reads the entry at `offset`, or fails as the whole does. */
  method NextEntry(ghost input: bytes, ghost done: seq<RawTlv>, tlvs: Tlvs, data: bytes, offset: nat)
    returns (r: Result<Tlvs, ParseError>, n: nat)
    requires SoFar(input, done, tlvs, data, offset) && data != []
    ensures r.Err? ==> r == ParseTlvs(input)
    ensures r.Ok? ==> !Stuck(data) && 0 < n <= |data|
    ensures r.Ok? ==> SoFar(input, done + [Head(data)], r.value, data[n..], offset + n)
  {
    n := 0;
    if |data| < 3 {
      ReadingFails(input, done, data, offset);
      return Malformed(offset), n;
    }
    var tlvType := data[0];
    var tlvLen := U16(data[1], data[2]);
    if |data| < 3 + tlvLen {
      ReadingFails(input, done, data, offset);
      return Malformed(offset), n;
    }
    r := AssignEntry(tlvs, tlvType, data[3..3 + tlvLen], offset);
    n := 3 + tlvLen;
    if r.Err? {
      ReadingFails(input, done, data, offset);
    } else {
      TypedAppend(done, Head(data));
      ReadingGoesOn(Fault, input, 0, done, data, offset);
    }
  }

  /** `parse_tlvs`: one pass that shrinks `data`, advances `offset` and builds up `tlvs`. */
  method ParseTlvsLoop(input: bytes) returns (r: Result<Tlvs, ParseError>)
    ensures r == ParseTlvs(input)
  {
    var tlvs := NO_TLVS;
    var data := input;
    var offset: nat := 0;
    ghost var done: seq<RawTlv> := [];
    ReadingStarts(Fault, input, 0);
    while data != []
      invariant SoFar(input, done, tlvs, data, offset)
      decreases |data|
    {
      var next, n := NextEntry(input, done, tlvs, data, offset);
      if next.Err? {
        return next;
      }
      tlvs := next.value;
      done := done + [Head(data)];
      data := data[n..];
      offset := offset + n;
    }
    ReadingSucceeds(input, done, offset);
    return Ok(tlvs);
  }

  // What acceptance and rejection mean

  lemma {:induction false} FirstBadNone(fault: RawTlv -> Option<nat>, data: bytes, at: nat)
    ensures FirstBad(fault, data, at).None? <==> Unframe(data).rest == [] && Faultless(fault, Unframe(data).entries)
    decreases |data|
  {
    if !Stuck(data) {
      FirstBadNone(fault, Tail(data), at + 3 + |Head(data).value|);
      FaultlessCons(fault, Head(data), Unframe(Tail(data)).entries);
    }
  }

  lemma FaultlessCons(fault: RawTlv -> Option<nat>, e: RawTlv, es: seq<RawTlv>)
    ensures Faultless(fault, [e] + es) <==> fault(e).None? && Faultless(fault, es)
  {
    assert forall i :: 0 <= i < |es| ==> es[i] == ([e] + es)[i + 1];
    assert ([e] + es)[0] == e;
  }

  /** `parse_tlvs` accepts exactly the concatenations of faultless entries, keeps them all, in order, in `raw`, and
      its typed fields are a function of `raw`. */
  lemma AcceptedIff(data: bytes, t: Tlvs)
    ensures ParseTlvs(data) == Ok(t)
            <==> AllFit(t.raw) && EncodeAll(t.raw) == data && Faultless(Fault, t.raw) && t == Typed(t.raw)
  {
    var es := Unframe(data).entries;
    FirstBadNone(Fault, data, 0);
    if ParseTlvs(data) == Ok(t) {
      UnframeLossless(data);
      assert EncodeAll(es) + [] == EncodeAll(es);
    }
    if AllFit(t.raw) && EncodeAll(t.raw) == data && Faultless(Fault, t.raw) && t == Typed(t.raw) {
      UnframeEncoded(t.raw, []);
      assert EncodeAll(t.raw) + [] == data;
    }
  }

  lemma {:induction false} LastValueNone(es: seq<RawTlv>, kind: byte)
    requires LastValue(es, kind).None?
    ensures forall i :: 0 <= i < |es| ==> es[i].kind != kind
  {
    if es != [] {
      LastValueNone(es[..|es| - 1], kind);
      assert forall i :: 0 <= i < |es| - 1 ==> es[i] == es[..|es| - 1][i];
    }
  }

  lemma {:induction false} LastValueAt(es: seq<RawTlv>, kind: byte) returns (i: nat)
    requires LastValue(es, kind).Some?
    ensures i < |es| && es[i] == RawTlv(kind, LastValue(es, kind).value)
    ensures forall j :: i < j < |es| ==> es[j].kind != kind
  {
    if es[|es| - 1].kind == kind {
      i := |es| - 1;
    } else {
      i := LastValueAt(es[..|es| - 1], kind);
      assert forall j :: i < j < |es| - 1 ==> es[j] == es[..|es| - 1][j];
    }
  }

  /** `LastValue` finds the last entry of a type, and nothing exactly if there is no entry of that type. */
  lemma LastValueIsLast(es: seq<RawTlv>, kind: byte)
    ensures LastValue(es, kind).None? <==> forall i :: 0 <= i < |es| ==> es[i].kind != kind
    ensures LastValue(es, kind).Some? ==>
              exists i :: && 0 <= i < |es| && es[i] == RawTlv(kind, LastValue(es, kind).value)
                          && forall j :: i < j < |es| ==> es[j].kind != kind
  {
    if LastValue(es, kind).None? {
      LastValueNone(es, kind);
    } else {
      var i := LastValueAt(es, kind);
      assert es[i].kind == kind;
    }
  }

  /** `data` is a run of faultless entries followed by `tail`, and reading on into `tail` fails at `offset`: because no
      complete entry starts there, or because of a fault inside the entry there. */
  ghost predicate BadAt(fault: RawTlv -> Option<nat>, data: bytes, good: seq<RawTlv>, tail: bytes, offset: nat)
  {
    && AllFit(good) && Faultless(fault, good) && data == EncodeAll(good) + tail
    && (|| (Stuck(tail) && tail != [] && offset == |EncodeAll(good)|)
        || (&& !Stuck(tail) && offset >= |EncodeAll(good)|
            && fault(Head(tail)) == Some(offset - |EncodeAll(good)|)))
  }

  /** An entry whose length is not one its type allows. */
  predicate IllSized(e: RawTlv)
  {
    || (e.kind == 0x03 && |e.value| != 4)
    || (e.kind == 0x05 && |e.value| > 128)
    || (e.kind == 0x20 && |e.value| < 5)
  }

  /** The SSL entry `e` holds the complete sub-entries `subs` and then, `k` bytes from its start, an incomplete one. */
  ghost predicate BadSub(e: RawTlv, subs: seq<RawTlv>, broken: bytes, k: nat)
  {
    && e.kind == 0x20 && |e.value| >= 5
    && AllFit(subs) && Stuck(broken) && broken != []
    && e.value[5..] == EncodeAll(subs) + broken
    && k == 8 + |EncodeAll(subs)|
  }

  lemma HeadTailOf(e: RawTlv, later: bytes)
    requires Fits(e)
    ensures var data := Encode(e) + later; !Stuck(data) && Head(data) == e && Tail(data) == later
  {
    var data := Encode(e) + later;
    assert data[1] == Be16(|e.value|)[0] && data[2] == Be16(|e.value|)[1];
    assert data[3..3 + |e.value|] == e.value;
  }

  /** A search through encoded entries that passes over the entries that `skip` picks. */
  ghost predicate Skips(search: (bytes, nat) -> Option<nat>, skip: RawTlv -> bool)
  {
    forall e, later: bytes, at: nat ::
      Fits(e) && skip(e) ==> search(Encode(e) + later, at) == search(later, at + |Encode(e)|)
  }

  /** Such a search passes over a run of such entries. */
  lemma {:induction false} SearchAfter(search: (bytes, nat) -> Option<nat>, skip: RawTlv -> bool, es: seq<RawTlv>,
                                       tail: bytes, at: nat)
    requires Skips(search, skip) && AllFit(es) && forall i :: 0 <= i < |es| ==> skip(es[i])
    ensures search(EncodeAll(es) + tail, at) == search(tail, at + |EncodeAll(es)|)
  {
    if es == [] {
      assert EncodeAll(es) + tail == tail;
    } else {
      Regroup(Encode(es[0]), EncodeAll(es[1..]), tail);
      SearchAfter(search, skip, es[1..], tail, at + |Encode(es[0])|);
    }
  }

  lemma FirstBadSkips(fault: RawTlv -> Option<nat>)
    ensures Skips((data, at) => FirstBad(fault, data, at), e => fault(e).None?)
  {
    forall e, later: bytes, at: nat | Fits(e) && fault(e).None?
      ensures FirstBad(fault, Encode(e) + later, at) == FirstBad(fault, later, at + |Encode(e)|)
    {
      HeadTailOf(e, later);
    }
  }

  lemma FirstBadAfter(fault: RawTlv -> Option<nat>, good: seq<RawTlv>, tail: bytes, at: nat)
    requires AllFit(good) && Faultless(fault, good)
    ensures FirstBad(fault, EncodeAll(good) + tail, at) == FirstBad(fault, tail, at + |EncodeAll(good)|)
  {
    FirstBadSkips(fault);
    SearchAfter((data, at) => FirstBad(fault, data, at), e => fault(e).None?, good, tail, at);
  }

  lemma BadMeansFirstBad(fault: RawTlv -> Option<nat>, data: bytes, good: seq<RawTlv>, tail: bytes, offset: nat,
                         at: nat)
    requires BadAt(fault, data, good, tail, offset)
    ensures FirstBad(fault, data, at) == Some(at + offset)
  {
    FirstBadAfter(fault, good, tail, at);
  }

  lemma BadAtHere(fault: RawTlv -> Option<nat>, data: bytes, offset: nat)
    requires data != [] && (if Stuck(data) then offset == 0 else fault(Head(data)) == Some(offset))
    ensures BadAt(fault, data, [], data, offset)
  {
    assert EncodeAll([]) + data == data;
  }

  lemma BadAtLater(fault: RawTlv -> Option<nat>, data: bytes, later: seq<RawTlv>, tail: bytes, k: nat,
                   good: seq<RawTlv>, offset: nat)
    requires !Stuck(data) && fault(Head(data)).None? && BadAt(fault, Tail(data), later, tail, k)
    requires good == [Head(data)] + later && offset == k + 3 + |Head(data).value|
    ensures BadAt(fault, data, good, tail, offset)
  {
    var e := Head(data);
    FaultlessCons(fault, e, later);
    EncodeCons(e, later);
    Regroup(Encode(e), EncodeAll(later), tail);
    EncodeHead(data);
  }

  lemma FirstBadNext(fault: RawTlv -> Option<nat>, data: bytes, at: nat)
    requires !Stuck(data) && fault(Head(data)).None?
    ensures FirstBad(fault, data, at) == FirstBad(fault, Tail(data), at + 3 + |Head(data).value|)
  {
  }

  /** Splits `data` at the entry that `FirstBad` complains about. */
  lemma {:induction false} Blame(fault: RawTlv -> Option<nat>, data: bytes, at: nat)
    returns (good: seq<RawTlv>, tail: bytes, offset: nat)
    requires FirstBad(fault, data, at).Some?
    ensures BadAt(fault, data, good, tail, offset)
    decreases |data|
  {
    if Stuck(data) || fault(Head(data)).Some? {
      good, tail, offset := [], data, if Stuck(data) then 0 else fault(Head(data)).value;
      BadAtHere(fault, data, offset);
    } else {
      FirstBadNext(fault, data, at);
      var later, k;
      later, tail, k := Blame(fault, Tail(data), at + 3 + |Head(data).value|);
      good, offset := [Head(data)] + later, k + 3 + |Head(data).value|;
      BadAtLater(fault, data, later, tail, k, good, offset);
    }
  }

  lemma SubFaultIff(e: RawTlv, k: nat)
    requires e.kind == 0x20 && |e.value| >= 5
    ensures FirstBad(SubFault, e.value[5..], 8) == Some(k) <==> exists subs, broken :: BadSub(e, subs, broken, k)
  {
    if FirstBad(SubFault, e.value[5..], 8) == Some(k) {
      var subs, broken, offset := Blame(SubFault, e.value[5..], 8);
      BadMeansFirstBad(SubFault, e.value[5..], subs, broken, offset, 8);
      assert BadSub(e, subs, broken, k);
    }
    forall subs, broken | BadSub(e, subs, broken, k) ensures FirstBad(SubFault, e.value[5..], 8) == Some(k) {
      BadMeansFirstBad(SubFault, e.value[5..], subs, broken, k - 8, 8);
    }
  }

  /** A fault is an ill-sized entry or, in an SSL entry, the first incomplete sub-entry. */
  lemma FaultMeaning(e: RawTlv, k: nat)
    ensures Fault(e) == Some(k) <==> (IllSized(e) && k == 0) || exists subs, broken :: BadSub(e, subs, broken, k)
  {
    if e.kind == 0x20 && |e.value| >= 5 {
      SubFaultIff(e, k);
    }
  }

  lemma FirstBadIff(fault: RawTlv -> Option<nat>, data: bytes, offset: nat)
    ensures FirstBad(fault, data, 0) == Some(offset) <==> exists good, tail :: BadAt(fault, data, good, tail, offset)
  {
    if FirstBad(fault, data, 0) == Some(offset) {
      var good, tail, k := Blame(fault, data, 0);
      BadMeansFirstBad(fault, data, good, tail, k, 0);
    }
    if good, tail :| BadAt(fault, data, good, tail, offset) {
      BadMeansFirstBad(fault, data, good, tail, offset, 0);
    }
  }

  /** `parse_tlvs` fails with an offset exactly when that offset points at the first thing wrong with `data`, and it
      fails in no other way. */
  lemma RejectedIff(data: bytes, offset: nat)
    ensures ParseTlvs(data) == Malformed(offset) <==> exists good, tail :: BadAt(Fault, data, good, tail, offset)
    ensures ParseTlvs(data).Err? ==> ParseTlvs(data).error.Invalid? && ParseTlvs(data).error.reason.MalformedTlv?
  {
    FirstBadIff(Fault, data, offset);
  }
}
