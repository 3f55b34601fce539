/** IPv6 addresses as text: the reader behind `IpAddr::from_str` accepts exactly the three forms of section 2.2 of RFC
    4291, and reads them as that section says. */
module Inet6Text {
  import opened Octets
  import opened Types
  import Builder
  import CanonicalIp
  import IpText
  import WireText

  // The forms

  /** The value of a hexadecimal digit in either case, and -1 of anything else. */
  function HexValue(b: byte): int
  {
    if 0x30 <= b <= 0x39 then b - 0x30
    else if 0x61 <= b <= 0x66 then b - 0x61 + 10
    else if 0x41 <= b <= 0x46 then b - 0x41 + 10
    else -1
  }

  function HexNumber(t: bytes): int
  {
    if t == [] then 0 else 16 * HexNumber(t[..|t| - 1]) + HexValue(t[|t| - 1])
  }

  /** One to four digits that stand for a group. */
  predicate Group(t: bytes, g: u16)
  {
    1 <= |t| <= 4 && (forall i :: 0 <= i < |t| ==> HexValue(t[i]) >= 0) && HexNumber(t) == g
  }

  predicate Groups(ts: seq<bytes>, gs: seq<u16>)
  {
    |ts| == |gs| && forall i :: 0 <= i < |ts| ==> Group(ts[i], gs[i])
  }

  /** Pieces with colons between them, and before them unless they come first. */
  function Listed(ts: seq<bytes>, first: bool): bytes
  {
    if ts == [] then [] else (if first then [] else [0x3A]) + (ts[0] + Listed(ts[1..], false))
  }

  /** An IPv4 address at the end, if there is one: a piece of text, and four bytes. */
  function Quad(v: Option<Octets4>): seq<bytes>
  {
    if v.None? then [] else [WireText.Dotted(v.value)]
  }

  function QuadBytes(v: Option<Octets4>): bytes
  {
    if v.None? then [] else v.value
  }

  /** Group texts, what they stand for, and an IPv4 address in the place of two groups at the end, or none. */
  datatype Pieces = Pieces(ts: seq<bytes>, gs: seq<u16>, v: Option<Octets4>)
  {
    predicate Valid()
    {
      Groups(ts, gs)
    }

    function Text(first: bool): bytes
    {
      Listed(ts + Quad(v), first)
    }

    function Values(): seq<u16>
    {
      gs + QuadGroups(v)
    }

    /** The two bytes of each group, and the four of the IPv4 address. */
    function Bytes(): bytes
    {
      GroupBytes(gs) + QuadBytes(v)
    }
  }

  /** All groups. */
  predicate Full(text: bytes, p: Pieces, o: Octets16)
  {
    p.Valid() && text == p.Text(true) && o == p.Bytes()
  }

  /** Groups, a double colon in the place of one or more groups of zeros, and groups. */
  predicate Short(text: bytes, head: Pieces, tail: Pieces, o: Octets16)
  {
    && head.Valid() && head.v.None? && tail.Valid()
    && text == head.Text(true) + ([0x3A, 0x3A] + tail.Text(true))
    && var n := |head.Bytes()| + |tail.Bytes()|;
       n <= 14 && o == head.Bytes() + Builder.ZeroBytes(16 - n) + tail.Bytes()
  }

  ghost predicate Inet6(text: bytes, o: Octets16)
  {
    (exists p :: Full(text, p, o)) || (exists head, tail :: Short(text, head, tail, o))
  }

  // Bytes of groups

  /** The two bytes of each group, the high one first. */
  function GroupBytes(gs: seq<u16>): (o: bytes)
    ensures |o| == 2 * |gs|
  {
    if gs == [] then [] else [gs[0] / 256, gs[0] % 256] + GroupBytes(gs[1..])
  }

  lemma {:induction false} GroupBytesConcat(a: seq<u16>, b: seq<u16>)
    ensures GroupBytes(a + b) == GroupBytes(a) + GroupBytes(b)
    decreases |a|
  {
    if a == [] {
      assert a + b == b;
    } else {
      assert (a + b)[1..] == a[1..] + b;
      GroupBytesConcat(a[1..], b);
    }
  }

  lemma {:induction false} GroupBytesAt(gs: seq<u16>, i: nat)
    requires i < |gs|
    ensures GroupBytes(gs)[2 * i] == gs[i] / 256 && GroupBytes(gs)[2 * i + 1] == gs[i] % 256
    decreases i
  {
    if i > 0 {
      GroupBytesAt(gs[1..], i - 1);
    }
  }

  lemma EightGroups(gs: IpText.Segments8)
    ensures IpText.OctetsOf(gs) == GroupBytes(gs)
  {
    forall i | 0 <= i < 8
      ensures IpText.OctetsOf(gs)[2 * i] == GroupBytes(gs)[2 * i]
              && IpText.OctetsOf(gs)[2 * i + 1] == GroupBytes(gs)[2 * i + 1]
    {
      GroupBytesAt(gs, i);
    }
    var a, b := IpText.OctetsOf(gs), GroupBytes(gs);
    forall k | 0 <= k < 16 ensures a[k] == b[k] {
      assert k == 2 * (k / 2) || k == 2 * (k / 2) + 1;
    }
  }

  lemma {:induction false} ZeroGroups(n: nat)
    ensures GroupBytes(IpText.Zeros(n)) == Builder.ZeroBytes(2 * n)
    decreases n
  {
    if n > 0 {
      ZeroGroups(n - 1);
      assert IpText.Zeros(n)[1..] == IpText.Zeros(n - 1);
    }
  }

  /** The two groups an IPv4 address stands for. */
  function QuadGroups(v: Option<Octets4>): seq<u16>
  {
    if v.None? then [] else [U16(v.value[0], v.value[1]), U16(v.value[2], v.value[3])]
  }

  lemma QuadGroupBytes(v: Option<Octets4>)
    ensures GroupBytes(QuadGroups(v)) == QuadBytes(v)
  {
    if v.Some? {
      Be16OfU16(v.value[0], v.value[1]);
      Be16OfU16(v.value[2], v.value[3]);
      var gs := QuadGroups(v);
      assert gs[1..] == [gs[1]] && gs[1..][1..] == [];
    }
  }

  // Groups as they are read

  lemma HexDigits(b: byte)
    ensures IpText.DigitValue(b, 16) == if HexValue(b) >= 0 then Some(HexValue(b)) else None
  {
  }

  lemma {:induction false} HexNumberIs(t: bytes)
    requires IpText.AllDigits(t, 16)
    ensures HexNumber(t) == IpText.Value(t, 16)
    decreases |t|
  {
    if t != [] {
      HexDigits(t[|t| - 1]);
      HexNumberIs(t[..|t| - 1]);
    }
  }

  lemma GroupDigits(t: bytes, g: u16)
    ensures Group(t, g) <==> 1 <= |t| <= 4 && IpText.AllDigits(t, 16) && IpText.Value(t, 16) == g
  {
    forall b: byte ensures HexValue(b) >= 0 <==> IpText.DigitValue(b, 16).Some? {
      HexDigits(b);
    }
    if IpText.AllDigits(t, 16) {
      HexNumberIs(t);
    }
  }

  lemma NotOctets(t: bytes, later: bytes)
    requires IpText.AllDigits(t, 16) && IpText.EndsGroup(later)
    ensures IpText.Read4(t + later).None?
  {
    IpText.NoDotAfterRun(t, later);
  }

  /** A group before a colon or the end is read, and is not the start of an IPv4 address. */
  lemma GroupRead(t: bytes, g: u16, later: bytes, index: nat)
    requires Group(t, g) && IpText.EndsGroup(later)
    ensures var s := IpText.Lead(0x3A, index) + (t + later);
            IpText.ReadGroup(s, index) == Some(IpText.Read(g, later)) && IpText.ReadEmbedded(s, index).None?
  {
    GroupDigits(t, g);
    IpText.SeparatedLead(t + later, 0x3A, index);
    IpText.RunOfDigits(t, later, 16);
    assert (t + later)[|t|..] == later;
    NotOctets(t, later);
  }

  lemma QuadRead(v: Octets4, index: nat)
    ensures IpText.ReadEmbedded(IpText.Lead(0x3A, index) + WireText.Dotted(v), index)
         == Some(IpText.Read(QuadGroups(Some(v)), []))
  {
    WireText.DottedIs(v);
    IpText.SeparatedLead(WireText.Dotted(v), 0x3A, index);
    IpText.Read4Printed(v);
  }

  lemma ListedEnds(ts: seq<bytes>, after: bytes)
    requires IpText.EndsGroups(after)
    ensures IpText.EndsGroup(Listed(ts, false) + after)
  {
    if ts == [] {
      assert [] + after == after;
    }
  }

  lemma ListedCons(t: bytes, ts: seq<bytes>, index: nat, after: bytes)
    ensures Listed([t] + ts, index == 0) + after
         == IpText.Lead(0x3A, index) + (t + (Listed(ts, false) + after))
  {
    assert ([t] + ts)[1..] == ts;
    Regroup(IpText.Lead(0x3A, index), t + Listed(ts, false), after);
    Regroup(t, Listed(ts, false), after);
  }

  lemma ReadsFirst(s: bytes, g: u16, later: bytes, index: nat, limit: nat)
    requires index < limit && (index + 1 == limit || IpText.ReadEmbedded(s, index).None?)
    requires IpText.ReadGroup(s, index) == Some(IpText.Read(g, later))
    ensures var more := IpText.ReadGroups(later, index + 1, limit);
            IpText.ReadGroups(s, index, limit) == IpText.Groups([g] + more.value, more.endsInV4, more.rest)
  {
  }

  lemma ReadsQuad(s: bytes, gs: seq<u16>, index: nat, limit: nat)
    requires index + 1 < limit && IpText.ReadEmbedded(s, index) == Some(IpText.Read(gs, []))
    ensures IpText.ReadGroups(s, index, limit) == IpText.Groups(gs, true, [])
  {
  }

  lemma LastRead(v: Option<Octets4>, index: nat, limit: nat, after: bytes)
    requires IpText.EndsGroups(after) && (v.Some? ==> after == []) && index + |QuadGroups(v)| <= limit
    ensures IpText.ReadGroups(Listed(Quad(v), index == 0) + after, index, limit)
         == IpText.Groups(QuadGroups(v), v.Some?, after)
  {
    if v.Some? {
      var s := IpText.Lead(0x3A, index) + WireText.Dotted(v.value);
      ListedCons(WireText.Dotted(v.value), [], index, []);
      assert [WireText.Dotted(v.value)] + [] == Quad(v);
      assert WireText.Dotted(v.value) + (Listed([], false) + []) == WireText.Dotted(v.value);
      QuadRead(v.value, index);
      ReadsQuad(s, QuadGroups(v), index, limit);
    } else {
      assert [] + after == after;
      IpText.NoGroupsThere(after, index, limit);
    }
  }

  lemma HeadAndRest<T>(xs: seq<T>, ys: seq<T>)
    requires xs != []
    ensures [xs[0]] + (xs[1..] + ys) == xs + ys
  {
  }

  lemma GroupsTail(ts: seq<bytes>, gs: seq<u16>)
    requires Groups(ts, gs) && ts != []
    ensures Group(ts[0], gs[0]) && Groups(ts[1..], gs[1..])
  {
  }

  /** The reader of lists of up to `limit` groups, from the group with a given index on. */
  function Reader(limit: nat): (bytes, nat) -> IpText.Groups
  {
    (s: bytes, index: nat) => if index <= limit then IpText.ReadGroups(s, index, limit) else IpText.Groups([], false, s)
  }

  /** A group is read, and then the rest. */
  predicate ReadsOn(read: (bytes, nat) -> IpText.Groups, t: bytes, g: u16, later: bytes, index: nat)
  {
    var more := read(later, index + 1);
    read(IpText.Lead(0x3A, index) + (t + later), index) == IpText.Groups([g] + more.value, more.endsInV4, more.rest)
  }

  ghost predicate ReadsGroups(read: (bytes, nat) -> IpText.Groups, limit: nat)
  {
    forall t, g, later, index: nat | Group(t, g) && IpText.EndsGroup(later) && index < limit ::
      ReadsOn(read, t, g, later, index)
  }

  /** The pieces `last` are read as `values`. */
  predicate ReadsPieces(read: (bytes, nat) -> IpText.Groups, last: seq<bytes>, index: nat, after: bytes,
                        r: IpText.Groups)
  {
    read(Listed(last, index == 0) + after, index) == r
  }

  /** Wherever they come in the list. */
  ghost predicate ReadsLast(read: (bytes, nat) -> IpText.Groups, last: seq<bytes>, after: bytes, r: IpText.Groups,
                            limit: nat)
  {
    forall index: nat | index + |r.value| <= limit :: ReadsPieces(read, last, index, after, r)
  }

  lemma ReaderReadsGroups(limit: nat)
    ensures ReadsGroups(Reader(limit), limit)
  {
    forall t, g, later, index: nat | Group(t, g) && IpText.EndsGroup(later) && index < limit
      ensures ReadsOn(Reader(limit), t, g, later, index)
    {
      ReaderReadsOn(limit, t, g, later, index);
    }
  }

  lemma ReaderReadsOn(limit: nat, t: bytes, g: u16, later: bytes, index: nat)
    requires Group(t, g) && IpText.EndsGroup(later) && index < limit
    ensures ReadsOn(Reader(limit), t, g, later, index)
  {
    GroupRead(t, g, later, index);
    ReadsFirst(IpText.Lead(0x3A, index) + (t + later), g, later, index, limit);
  }

  lemma ReaderReadsLast(limit: nat, v: Option<Octets4>, after: bytes)
    requires IpText.EndsGroups(after) && (v.Some? ==> after == [])
    ensures ReadsLast(Reader(limit), Quad(v), after, IpText.Groups(QuadGroups(v), v.Some?, after), limit)
  {
    var r := IpText.Groups(QuadGroups(v), v.Some?, after);
    forall index: nat | index + |r.value| <= limit ensures ReadsPieces(Reader(limit), Quad(v), index, after, r) {
      LastRead(v, index, limit, after);
    }
  }

  /** Listed groups are read, and then what comes last. */
  lemma {:induction false} ListRead(read: (bytes, nat) -> IpText.Groups, limit: nat, ts: seq<bytes>, gs: seq<u16>,
                                    last: seq<bytes>, r: IpText.Groups, index: nat, after: bytes)
    requires ReadsGroups(read, limit) && ReadsLast(read, last, after, r, limit)
    requires Groups(ts, gs) && IpText.EndsGroups(after) && index + |gs| + |r.value| <= limit
    ensures ReadsPieces(read, ts + last, index, after, IpText.Groups(gs + r.value, r.endsInV4, r.rest))
    decreases |ts|
  {
    if ts == [] {
      assert ts + last == last && gs + r.value == r.value;
      assert ReadsPieces(read, last, index, after, r);
    } else {
      var rest := ts[1..] + last;
      GroupsTail(ts, gs);
      ListRead(read, limit, ts[1..], gs[1..], last, r, index + 1, after);
      ListedEnds(rest, after);
      assert ReadsOn(read, ts[0], gs[0], Listed(rest, false) + after, index);
      HeadAndRest(ts, last);
      ListedCons(ts[0], rest, index, after);
      HeadAndRest(gs, r.value);
    }
  }

  // What is read is listed

  function Prepend(t: bytes, g: u16, p: Pieces): Pieces
  {
    Pieces([t] + p.ts, [g] + p.gs, p.v)
  }

  /** `text` starts with these pieces and is read as they are, up to the rest. */
  predicate Lists(text: bytes, index: nat, p: Pieces, r: IpText.Groups)
  {
    p.Valid() && text == p.Text(index == 0) + r.rest && r.value == p.Values() && r.endsInV4 == p.v.Some?
  }

  lemma ListsNothing(text: bytes, index: nat)
    ensures Lists(text, index, Pieces([], [], None), IpText.Groups([], false, text))
  {
    assert Listed([] + Quad(None), index == 0) + text == text;
  }

  lemma ListsQuad(text: bytes, index: nat) returns (p: Pieces)
    requires IpText.ReadEmbedded(text, index).Some?
    ensures var q := IpText.ReadEmbedded(text, index).value;
            Lists(text, index, p, IpText.Groups(q.value, true, q.rest))
  {
    var t := IpText.Separated(text, 0x3A, index).value;
    var q := IpText.Read4(t).value;
    var v: Octets4 := q.value;
    p := Pieces([], [], Some(v));
    CanonicalIp.LeadOfSeparated(text, 0x3A, index);
    CanonicalIp.Read4Strict(t);
    WireText.DottedIs(v);
    ListedCons(WireText.Dotted(v), [], index, q.rest);
    assert [WireText.Dotted(v)] + [] == [] + Quad(Some(v));
    assert Listed([], false) + q.rest == q.rest;
  }

  lemma GroupListed(text: bytes, index: nat) returns (t: bytes, g: u16, later: bytes)
    requires IpText.ReadGroup(text, index).Some?
    ensures IpText.ReadGroup(text, index) == Some(IpText.Read(g, later))
    ensures Group(t, g) && text == IpText.Lead(0x3A, index) + (t + later)
  {
    var s := IpText.Separated(text, 0x3A, index).value;
    t := IpText.Run(s, 16);
    g, later := IpText.ReadGroup(text, index).value.value, IpText.ReadGroup(text, index).value.rest;
    CanonicalIp.LeadOfSeparated(text, 0x3A, index);
    CanonicalIp.RunEnds(s, 16);
    GroupDigits(t, IpText.Value(t, 16));
  }

  lemma GroupsCons(t: bytes, g: u16, ts: seq<bytes>, gs: seq<u16>)
    requires Group(t, g) && Groups(ts, gs)
    ensures Groups([t] + ts, [g] + gs)
  {
  }

  lemma ListsCons(text: bytes, index: nat, t: bytes, g: u16, later: bytes, p: Pieces, r: IpText.Groups)
    requires Group(t, g) && text == IpText.Lead(0x3A, index) + (t + later) && Lists(later, index + 1, p, r)
    ensures Lists(text, index, Prepend(t, g, p), IpText.Groups([g] + r.value, r.endsInV4, r.rest))
  {
    GroupsCons(t, g, p.ts, p.gs);
    ListedCons(t, p.ts + Quad(p.v), index, r.rest);
    assert [t] + (p.ts + Quad(p.v)) == ([t] + p.ts) + Quad(p.v);
    assert [g] + (p.gs + QuadGroups(p.v)) == ([g] + p.gs) + QuadGroups(p.v);
  }

  lemma QuadIsListed(text: bytes, index: nat, limit: nat) returns (p: Pieces)
    requires index + 1 < limit && IpText.ReadEmbedded(text, index).Some?
    ensures Lists(text, index, p, IpText.ReadGroups(text, index, limit))
  {
    p := ListsQuad(text, index);
  }

  lemma NothingIsListed(text: bytes, index: nat, limit: nat)
    requires index <= limit && (index + 1 >= limit || IpText.ReadEmbedded(text, index).None?)
    requires index == limit || IpText.ReadGroup(text, index).None?
    ensures Lists(text, index, Pieces([], [], None), IpText.ReadGroups(text, index, limit))
  {
    ListsNothing(text, index);
  }

  lemma FirstIsListed(text: bytes, index: nat, limit: nat, t: bytes, g: u16, later: bytes, more: Pieces)
    requires index < limit && (index + 1 == limit || IpText.ReadEmbedded(text, index).None?)
    requires IpText.ReadGroup(text, index) == Some(IpText.Read(g, later))
    requires Group(t, g) && text == IpText.Lead(0x3A, index) + (t + later)
    requires Lists(later, index + 1, more, IpText.ReadGroups(later, index + 1, limit))
    ensures Lists(text, index, Prepend(t, g, more), IpText.ReadGroups(text, index, limit))
  {
    ReadsFirst(text, g, later, index, limit);
    ListsCons(text, index, t, g, later, more, IpText.ReadGroups(later, index + 1, limit));
  }

  /** No group follows, unless it is the first of an IPv4 address. */
  predicate Ends(text: bytes, index: nat, limit: nat)
    requires index <= limit
  {
    || index == limit || IpText.ReadGroup(text, index).None?
    || (index + 1 < limit && IpText.ReadEmbedded(text, index).Some?)
  }

  lemma EndIsListed(text: bytes, index: nat, limit: nat) returns (p: Pieces)
    requires index <= limit && Ends(text, index, limit)
    ensures Lists(text, index, p, IpText.ReadGroups(text, index, limit))
  {
    if index + 1 < limit && IpText.ReadEmbedded(text, index).Some? {
      p := QuadIsListed(text, index, limit);
    } else {
      p := Pieces([], [], None);
      NothingIsListed(text, index, limit);
    }
  }

  /** A group, and before what pieces the rest is listed as. */
  lemma NextIsListed(text: bytes, index: nat, limit: nat) returns (t: bytes, g: u16, later: bytes)
    requires index <= limit && !Ends(text, index, limit)
    ensures index < limit
    ensures forall more :: Lists(later, index + 1, more, IpText.ReadGroups(later, index + 1, limit)) ==>
              Lists(text, index, Prepend(t, g, more), IpText.ReadGroups(text, index, limit))
  {
    t, g, later := GroupListed(text, index);
    forall more | Lists(later, index + 1, more, IpText.ReadGroups(later, index + 1, limit))
      ensures Lists(text, index, Prepend(t, g, more), IpText.ReadGroups(text, index, limit))
    {
      FirstIsListed(text, index, limit, t, g, later, more);
    }
  }

  lemma {:induction false} ReadIsListed(text: bytes, index: nat, limit: nat) returns (p: Pieces)
    requires index <= limit
    ensures Lists(text, index, p, IpText.ReadGroups(text, index, limit))
    decreases limit - index
  {
    if Ends(text, index, limit) {
      p := EndIsListed(text, index, limit);
    } else {
      var t, g, later := NextIsListed(text, index, limit);
      var more := ReadIsListed(later, index + 1, limit);
      p := Prepend(t, g, more);
    }
  }

  // The forms are read, and nothing else is

  lemma BytesAre(p: Pieces)
    ensures GroupBytes(p.Values()) == p.Bytes() && |p.Bytes()| == 2 * |p.Values()|
  {
    GroupBytesConcat(p.gs, QuadGroups(p.v));
    QuadGroupBytes(p.v);
  }

  lemma PiecesRead(p: Pieces, limit: nat, after: bytes)
    requires p.Valid() && IpText.EndsGroups(after) && (p.v.Some? ==> after == []) && |p.Values()| <= limit
    ensures IpText.ReadGroups(p.Text(true) + after, 0, limit) == IpText.Groups(p.Values(), p.v.Some?, after)
  {
    ReaderReadsGroups(limit);
    ReaderReadsLast(limit, p.v, after);
    ListRead(Reader(limit), limit, p.ts, p.gs, Quad(p.v), IpText.Groups(QuadGroups(p.v), p.v.Some?, after), 0, after);
  }

  /** Pieces that start with a group, or with nothing before a double colon, are no IPv4 address. */
  lemma PiecesNotOctets(p: Pieces, after: bytes)
    requires p.Valid() && IpText.EndsGroups(after) && (p.ts != [] || p.v.None?)
    ensures IpText.Read4(p.Text(true) + after).None?
  {
    if p.ts == [] {
      assert p.Text(true) + after == after;
      IpText.Read4NotColon(after);
    } else {
      var rest := p.ts[1..] + Quad(p.v);
      HeadAndRest(p.ts, Quad(p.v));
      ListedCons(p.ts[0], rest, 0, after);
      ListedEnds(rest, after);
      GroupDigits(p.ts[0], p.gs[0]);
      NotOctets(p.ts[0], Listed(rest, false) + after);
      assert [] + (p.ts[0] + (Listed(rest, false) + after)) == p.ts[0] + (Listed(rest, false) + after);
    }
  }

  lemma FullRead(text: bytes, p: Pieces, o: Octets16)
    requires Full(text, p, o)
    ensures IpText.Parse(text) == Some(V6(o))
  {
    BytesAre(p);
    assert p.Text(true) + [] == text;
    PiecesRead(p, IpText.GROUPS, []);
    PiecesNotOctets(p, []);
    EightGroups(p.Values());
    IpText.ParseFrom6(text, p.Values());
  }

  lemma ExpandedGroups(head: seq<u16>, tail: seq<u16>)
    requires |head| + |tail| <= 7
    ensures IpText.OctetsOf(IpText.Expanded(head, tail))
         == GroupBytes(head) + Builder.ZeroBytes(16 - 2 * |head| - 2 * |tail|) + GroupBytes(tail)
  {
    var zeros := IpText.Zeros(8 - |head| - |tail|);
    EightGroups(IpText.Expanded(head, tail));
    GroupBytesConcat(head + zeros, tail);
    GroupBytesConcat(head, zeros);
    ZeroGroups(8 - |head| - |tail|);
  }

  lemma ExpandedAs(head: seq<u16>, tail: seq<u16>, a: bytes, b: bytes)
    requires |head| + |tail| <= 7 && a == GroupBytes(head) && b == GroupBytes(tail)
    ensures IpText.OctetsOf(IpText.Expanded(head, tail)) == a + Builder.ZeroBytes(16 - (|a| + |b|)) + b
  {
    ExpandedGroups(head, tail);
  }

  lemma ExpandedBytes(head: Pieces, tail: Pieces, o: Octets16)
    requires var n := |head.Bytes()| + |tail.Bytes()|;
             n <= 14 && o == head.Bytes() + Builder.ZeroBytes(16 - n) + tail.Bytes()
    ensures |head.Values()| + |tail.Values()| <= 7
            && IpText.OctetsOf(IpText.Expanded(head.Values(), tail.Values())) == o
  {
    BytesAre(head);
    BytesAre(tail);
    ExpandedAs(head.Values(), tail.Values(), head.Bytes(), tail.Bytes());
  }

  lemma ShortParsed(text: bytes, head: seq<u16>, later: bytes, tail: seq<u16>, v4: bool)
    requires |head| + |tail| <= 7 && IpText.Read4(text).None?
    requires IpText.ReadGroups(text, 0, IpText.GROUPS) == IpText.Groups(head, false, [0x3A, 0x3A] + later)
    requires IpText.ReadGroups(later, 0, IpText.GROUPS - 1 - |head|) == IpText.Groups(tail, v4, [])
    ensures IpText.Parse(text) == Some(V6(IpText.OctetsOf(IpText.Expanded(head, tail))))
  {
    IpText.Read6Parts(text, head, later, tail, v4);
    IpText.ParseFrom6(text, IpText.Expanded(head, tail));
  }

  lemma HeadParsed(text: bytes, head: Pieces, later: bytes)
    requires head.Valid() && head.v.None? && |head.Values()| <= 7
    requires text == head.Text(true) + ([0x3A, 0x3A] + later)
    ensures IpText.Read4(text).None?
            && IpText.ReadGroups(text, 0, IpText.GROUPS) == IpText.Groups(head.Values(), false, [0x3A, 0x3A] + later)
  {
    PiecesRead(head, IpText.GROUPS, [0x3A, 0x3A] + later);
    PiecesNotOctets(head, [0x3A, 0x3A] + later);
  }

  lemma TailParsed(later: bytes, tail: Pieces, limit: nat)
    requires tail.Valid() && |tail.Values()| <= limit && later == tail.Text(true)
    ensures IpText.ReadGroups(later, 0, limit) == IpText.Groups(tail.Values(), tail.v.Some?, [])
  {
    assert tail.Text(true) + [] == later;
    PiecesRead(tail, limit, []);
  }

  lemma ShortRead(text: bytes, head: Pieces, tail: Pieces, o: Octets16)
    requires Short(text, head, tail, o)
    ensures IpText.Parse(text) == Some(V6(o))
  {
    var later := tail.Text(true);
    ExpandedBytes(head, tail, o);
    HeadParsed(text, head, later);
    TailParsed(later, tail, IpText.GROUPS - 1 - |head.Values()|);
    ShortParsed(text, head.Values(), later, tail.Values(), tail.v.Some?);
  }

  lemma FullWritten(text: bytes, p: Pieces, o: Octets16)
    requires Lists(text, 0, p, IpText.Groups(p.Values(), p.v.Some?, [])) && |p.Values()| == 8
    requires IpText.OctetsOf(p.Values()) == o
    ensures Full(text, p, o)
  {
    BytesAre(p);
    EightGroups(p.Values());
    assert p.Text(true) + [] == p.Text(true);
  }

  lemma ShortWritten(text: bytes, head: Pieces, tail: Pieces, later: bytes, o: Octets16)
    requires Lists(text, 0, head, IpText.Groups(head.Values(), false, [0x3A, 0x3A] + later))
    requires Lists(later, 0, tail, IpText.Groups(tail.Values(), tail.v.Some?, []))
    requires |head.Values()| + |tail.Values()| <= 7
    requires IpText.OctetsOf(IpText.Expanded(head.Values(), tail.Values())) == o
    ensures Short(text, head, tail, o)
  {
    BytesAre(head);
    BytesAre(tail);
    var n := |head.Bytes()| + |tail.Bytes()|;
    ExpandedBytes(head, tail, head.Bytes() + Builder.ZeroBytes(16 - n) + tail.Bytes());
    assert tail.Text(true) + [] == tail.Text(true);
  }

  /** What is read as an IPv6 address is so by the reader of groups. */
  lemma ReadAs6(text: bytes, o: Octets16) returns (s: IpText.Segments8)
    requires IpText.Parse(text) == Some(V6(o))
    ensures IpText.Read6(text) == Some(IpText.Read(s, [])) && IpText.OctetsOf(s) == o
  {
    s := IpText.Read6(text).value.value;
  }

  /** What such a text starts with, and what follows. */
  lemma ReadParts(r: IpText.Groups, s: IpText.Segments8)
    requires |r.value| <= 8 && IpText.Read6After(r) == Some(IpText.Read(s, []))
    ensures |r.value| == 8 ==> r.rest == [] && r.value == s
    ensures |r.value| < 8 ==> !r.endsInV4 && [0x3A, 0x3A] <= r.rest
    ensures |r.value| < 8 ==>
              var t := IpText.ReadGroups(r.rest[2..], 0, IpText.GROUPS - 1 - |r.value|);
              t.rest == [] && IpText.Expanded(r.value, t.value) == s
  {
  }

  lemma ShortIsWritten(text: bytes, r: IpText.Groups, s: IpText.Segments8, head: Pieces)
    requires Lists(text, 0, head, r) && |r.value| < 8 && IpText.Read6After(r) == Some(IpText.Read(s, []))
    ensures Inet6(text, IpText.OctetsOf(s))
  {
    ReadParts(r, s);
    var later := r.rest[2..];
    assert r.rest == [0x3A, 0x3A] + later;
    var tail := ReadIsListed(later, 0, IpText.GROUPS - 1 - |r.value|);
    ShortWritten(text, head, tail, later, IpText.OctetsOf(s));
  }

  lemma FullIsWritten(text: bytes, r: IpText.Groups, s: IpText.Segments8, head: Pieces)
    requires Lists(text, 0, head, r) && |r.value| == 8 && IpText.Read6After(r) == Some(IpText.Read(s, []))
    ensures Inet6(text, IpText.OctetsOf(s))
  {
    ReadParts(r, s);
    FullWritten(text, head, IpText.OctetsOf(s));
  }

  lemma ReadIsWritten(text: bytes, o: Octets16)
    requires IpText.Parse(text) == Some(V6(o))
    ensures Inet6(text, o)
  {
    var s := ReadAs6(text, o);
    var r := IpText.ReadGroups(text, 0, IpText.GROUPS);
    var head := ReadIsListed(text, 0, IpText.GROUPS);
    if |r.value| == 8 {
      FullIsWritten(text, r, s, head);
    } else {
      ShortIsWritten(text, r, s, head);
    }
  }

  /** A text is read as an IPv6 address exactly if it has one of the forms, and as the bytes that these stand for. */
  lemma Inet6Iff(text: bytes, o: Octets16)
    ensures IpText.Parse(text) == Some(V6(o)) <==> Inet6(text, o)
  {
    if IpText.Parse(text) == Some(V6(o)) {
      ReadIsWritten(text, o);
    }
    if p :| Full(text, p, o) {
      FullRead(text, p, o);
    }
    if head, tail :| Short(text, head, tail, o) {
      ShortRead(text, head, tail, o);
    }
  }
}
