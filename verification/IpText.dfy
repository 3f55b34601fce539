/** IP addresses and ports as text, the way Rust's standard library prints and reads them: the printer follows section 4
    of RFC 5952, the reader is the recursive-descent reader behind `IpAddr::from_str`. */
module IpText {
  import opened Octets
  import opened Types

  const DOT: byte := 0x2E
  const COLON: byte := 0x3A
  const ZERO: byte := 0x30
  const PLUS: byte := 0x2B

  // Numbers

  type Radix = r: nat | r == 10 || r == 16 witness 10

  function Quotient(n: nat, radix: Radix): nat
  {
    if radix == 10 then n / 10 else n / 16
  }

  function Remainder(n: nat, radix: Radix): nat
  {
    if radix == 10 then n % 10 else n % 16
  }

  function Scaled(n: nat, radix: Radix): nat
  {
    if radix == 10 then 10 * n else 16 * n
  }

  function DigitChar(d: nat): byte
    requires d < 16
  {
    if d < 10 then 0x30 + d else 0x57 + d
  }

  /** `char::to_digit` */
  function DigitValue(b: byte, radix: Radix): Option<nat>
  {
    if 0x30 <= b <= 0x39 then Some(b - 0x30)
    else if radix == 16 && 0x61 <= b <= 0x66 then Some(b - 0x57)
    else if radix == 16 && 0x41 <= b <= 0x46 then Some(b - 0x37)
    else None
  }

  /** A number without leading zeros. */
  function Digits(n: nat, radix: Radix): (s: bytes)
    ensures s != []
    decreases n
  {
    if Quotient(n, radix) == 0 then [DigitChar(Remainder(n, radix))]
    else Digits(Quotient(n, radix), radix) + [DigitChar(Remainder(n, radix))]
  }

  predicate AllDigits(s: bytes, radix: Radix)
  {
    forall i :: 0 <= i < |s| ==> DigitValue(s[i], radix).Some?
  }

  function Value(s: bytes, radix: Radix): nat
    requires AllDigits(s, radix)
  {
    if s == [] then 0
    else Scaled(Value(s[..|s| - 1], radix), radix) + DigitValue(s[|s| - 1], radix).value
  }

  /** The longest run of digits at the start of `s`. */
  function Run(s: bytes, radix: Radix): (r: bytes)
    ensures r <= s && AllDigits(r, radix)
  {
    if s == [] || DigitValue(s[0], radix).None? then [] else [s[0]] + Run(s[1..], radix)
  }

  /** A value read off the front of the text, and the text after it. */
  datatype Read<+T> = Read(value: T, rest: bytes)

  function ReadNumber(s: bytes, radix: Radix, maxDigits: nat, maxValue: nat,
                      allowZeroPrefix: bool): (r: Option<Read<nat>>)
    ensures r.Some? ==> r.value.value <= maxValue
  {
    var run := Run(s, radix);
    if run == [] || |run| > maxDigits then None
    else if !allowZeroPrefix && run[0] == ZERO && |run| > 1 then None
    else if Value(run, radix) > maxValue then None
    else Some(Read(Value(run, radix), s[|run|..]))
  }

  /** `u16::from_str` */
  function ParsePort(s: bytes): Option<u16>
  {
    var t := if |s| > 1 && s[0] == PLUS then s[1..] else s;
    if t == [] || !AllDigits(t, 10) || Value(t, 10) > 65535 then None else Some(Value(t, 10))
  }

  predicate StartsWithDigit(s: bytes, radix: Radix)
  {
    s != [] && DigitValue(s[0], radix).Some?
  }

  lemma {:induction false} DigitsAreDigits(n: nat, radix: Radix)
    ensures AllDigits(Digits(n, radix), radix) && Value(Digits(n, radix), radix) == n
    decreases n
  {
    var s := Digits(n, radix);
    if Quotient(n, radix) == 0 {
      assert s[..|s| - 1] == [];
    } else {
      DigitsAreDigits(Quotient(n, radix), radix);
      assert s[..|s| - 1] == Digits(Quotient(n, radix), radix);
    }
  }

  lemma {:induction false} NoLeadingZero(n: nat, radix: Radix)
    requires n > 0
    ensures Digits(n, radix)[0] != ZERO
    decreases n
  {
    if Quotient(n, radix) != 0 {
      NoLeadingZero(Quotient(n, radix), radix);
    }
  }

  lemma DecimalLength(n: nat)
    ensures n < 10 ==> |Digits(n, 10)| == 1
    ensures n < 100 ==> |Digits(n, 10)| <= 2
    ensures n < 1000 ==> |Digits(n, 10)| <= 3
    ensures n < 10000 ==> |Digits(n, 10)| <= 4
    ensures n < 100000 ==> |Digits(n, 10)| <= 5
  {
    if n >= 10 {
      DecimalLengthStep(n);
      if n >= 100 {
        DecimalLengthStep(n / 10);
        if n >= 1000 {
          DecimalLengthStep(n / 10 / 10);
          if n >= 10000 {
            DecimalLengthStep(n / 10 / 10 / 10);
          }
        }
      }
    }
  }

  lemma DecimalLengthStep(n: nat)
    requires n >= 10
    ensures |Digits(n, 10)| == |Digits(n / 10, 10)| + 1
    ensures n / 10 < 10 ==> |Digits(n / 10, 10)| == 1
  {
  }

  lemma HexLength(n: nat)
    requires n <= 65535
    ensures |Digits(n, 16)| <= 4
  {
    if n >= 16 {
      HexLengthStep(n);
      if n >= 256 {
        HexLengthStep(n / 16);
        if n >= 4096 {
          HexLengthStep(n / 16 / 16);
        }
      }
    }
  }

  lemma HexLengthStep(n: nat)
    requires n >= 16
    ensures |Digits(n, 16)| == |Digits(n / 16, 16)| + 1
    ensures n / 16 < 16 ==> |Digits(n / 16, 16)| == 1
  {
  }

  lemma {:induction false} RunOfDigits(s: bytes, after: bytes, radix: Radix)
    requires AllDigits(s, radix) && !StartsWithDigit(after, radix)
    ensures Run(s + after, radix) == s
  {
    if s == [] {
      assert s + after == after;
    } else {
      assert (s + after)[1..] == s[1..] + after;
      RunOfDigits(s[1..], after, radix);
    }
  }

  /** A printed number is read back whole. */
  lemma ReadPrinted(n: nat, radix: Radix, after: bytes, maxDigits: nat, maxValue: nat, allowZeroPrefix: bool)
    requires !StartsWithDigit(after, radix) && n <= maxValue && |Digits(n, radix)| <= maxDigits
    ensures ReadNumber(Digits(n, radix) + after, radix, maxDigits, maxValue, allowZeroPrefix) == Some(Read(n, after))
  {
    var s := Digits(n, radix);
    DigitsAreDigits(n, radix);
    RunOfDigits(s, after, radix);
    assert (s + after)[|s|..] == after;
    if n > 0 {
      NoLeadingZero(n, radix);
    }
  }

  lemma PortPrinted(n: u16)
    ensures ParsePort(Digits(n, 10)) == Some(n)
  {
    DigitsAreDigits(n, 10);
    assert DigitValue(Digits(n, 10)[0], 10).Some?;
  }

  // IPv4

  /** What comes before a group of a list: its separator, unless it is the first. */
  function Lead(separator: byte, index: nat): bytes
  {
    if index == 0 then [] else [separator]
  }

  /** A group without its separator. */
  function Separated(s: bytes, separator: byte, index: nat): Option<bytes>
  {
    if index == 0 then Some(s)
    else if s != [] && s[0] == separator then Some(s[1..])
    else None
  }

  lemma SeparatedLead(body: bytes, separator: byte, index: nat)
    ensures Separated(Lead(separator, index) + body, separator, index) == Some(body)
  {
    if index == 0 {
      assert [] + body == body;
    } else {
      assert ([separator] + body)[1..] == body;
    }
  }

  function PrintOctets(vs: bytes, index: nat): bytes
    decreases |vs|
  {
    if vs == [] then [] else Lead(DOT, index) + (Digits(vs[0], 10) + PrintOctets(vs[1..], index + 1))
  }

  function Print4(v: Octets4): bytes
  {
    PrintOctets(v, 0)
  }

  /** `count` items of a list, the first of which has the given index. */
  function ReadList(item: bytes -> Option<Read<byte>>, s: bytes, index: nat, count: nat): (r: Option<Read<bytes>>)
    ensures r.Some? ==> |r.value.value| == count
    decreases count
  {
    if count == 0 then Some(Read([], s))
    else
      match Separated(s, DOT, index)
      case None => None
      case Some(t) =>
        match item(t)
        case None => None
        case Some(first) =>
          match ReadList(item, first.rest, index + 1, count - 1)
          case None => None
          case Some(more) => Some(Read([first.value] + more.value, more.rest))
  }

  function ReadOctet(s: bytes): Option<Read<byte>>
  {
    match ReadNumber(s, 10, 3, 255, false)
    case None => None
    case Some(n) => Some(Read(n.value, n.rest))
  }

  const OCTETS: nat := 4

  function Read4(s: bytes): (r: Option<Read<bytes>>)
    ensures r.Some? ==> |r.value.value| == 4
  {
    ReadList(ReadOctet, s, 0, OCTETS)
  }

  /** The reader reads back what the printer prints, before anything but a digit. */
  ghost predicate ReadsBack(item: bytes -> Option<Read<byte>>)
  {
    forall b: byte, later: bytes :: !StartsWithDigit(later, 10) ==> item(Digits(b, 10) + later) == Some(Read(b, later))
  }

  lemma OctetReadsBack()
    ensures ReadsBack(ReadOctet)
  {
    forall b: byte, later: bytes | !StartsWithDigit(later, 10)
      ensures ReadOctet(Digits(b, 10) + later) == Some(Read(b, later)) {
      DecimalLength(b);
      ReadPrinted(b, 10, later, 3, 255, false);
    }
  }

  lemma PrintOctetsCons(vs: bytes, index: nat, after: bytes)
    requires vs != []
    ensures PrintOctets(vs, index) + after
         == Lead(DOT, index) + (Digits(vs[0], 10) + (PrintOctets(vs[1..], index + 1) + after))
  {
    var text := PrintOctets(vs[1..], index + 1);
    Regroup(Lead(DOT, index), Digits(vs[0], 10) + text, after);
    Regroup(Digits(vs[0], 10), text, after);
  }

  lemma ReadListCons(item: bytes -> Option<Read<byte>>, vs: bytes, later: bytes, index: nat, after: bytes)
    requires ReadsBack(item) && vs != [] && !StartsWithDigit(later, 10)
    requires ReadList(item, later, index + 1, |vs| - 1) == Some(Read(vs[1..], after))
    ensures ReadList(item, Lead(DOT, index) + (Digits(vs[0], 10) + later), index, |vs|) == Some(Read(vs, after))
  {
    var body := Digits(vs[0], 10) + later;
    SeparatedLead(body, DOT, index);
    assert item(body) == Some(Read(vs[0], later));
    assert [vs[0]] + vs[1..] == vs;
  }

  lemma LaterIsNoDigit(vs: bytes, index: nat, after: bytes)
    requires !StartsWithDigit(after, 10) && index > 0
    ensures !StartsWithDigit(PrintOctets(vs, index) + after, 10)
  {
    if vs == [] {
      assert [] + after == after;
    }
  }

  lemma {:induction false} ReadListPrinted(item: bytes -> Option<Read<byte>>, vs: bytes, index: nat, after: bytes)
    requires ReadsBack(item) && !StartsWithDigit(after, 10)
    ensures ReadList(item, PrintOctets(vs, index) + after, index, |vs|) == Some(Read(vs, after))
    decreases |vs|
  {
    if vs == [] {
      assert [] + after == after;
    } else {
      var later := PrintOctets(vs[1..], index + 1) + after;
      PrintOctetsCons(vs, index, after);
      LaterIsNoDigit(vs[1..], index + 1, after);
      ReadListPrinted(item, vs[1..], index + 1, after);
      ReadListCons(item, vs, later, index, after);
    }
  }

  /** A printed IPv4 address is read back whole. */
  lemma Read4Printed(v: Octets4)
    ensures Read4(Print4(v)) == Some(Read(v, []))
  {
    OctetReadsBack();
    ReadListPrinted(ReadOctet, v, 0, []);
    assert PrintOctets(v, 0) + [] == PrintOctets(v, 0);
  }

  /** What comes after a group: nothing, or a colon. */
  predicate EndsGroup(later: bytes)
  {
    later == [] || later[0] == COLON
  }

  lemma {:induction false} NoDotAfterRun(s: bytes, later: bytes)
    requires AllDigits(s, 16) && EndsGroup(later)
    ensures var rest := (s + later)[|Run(s + later, 10)|..]; rest == [] || rest[0] != DOT
  {
    if s == [] {
      assert s + later == later;
      assert Run(later, 10) == [];
    } else {
      assert (s + later)[1..] == s[1..] + later;
      NoDotAfterRun(s[1..], later);
    }
  }

  /** A hexadecimal group is not the start of an IPv4 address. */
  lemma Read4NotGroup(g: nat, later: bytes)
    requires EndsGroup(later)
    ensures Read4(Digits(g, 16) + later).None?
  {
    DigitsAreDigits(g, 16);
    NoDotAfterRun(Digits(g, 16), later);
  }

  lemma Read4NotColon(s: bytes)
    requires EndsGroup(s)
    ensures Read4(s).None?
  {
    assert Run(s, 10) == [];
  }

  // IPv6

  const GROUPS: nat := 8

  type Segments8 = s: seq<u16> | |s| == 8 witness [0, 0, 0, 0, 0, 0, 0, 0]

  function Segments(v: Octets16): Segments8
  {
    [U16(v[0], v[1]), U16(v[2], v[3]), U16(v[4], v[5]), U16(v[6], v[7]),
     U16(v[8], v[9]), U16(v[10], v[11]), U16(v[12], v[13]), U16(v[14], v[15])]
  }

  function OctetsOf(s: Segments8): Octets16
  {
    Be16(s[0]) + Be16(s[1]) + Be16(s[2]) + Be16(s[3]) + Be16(s[4]) + Be16(s[5]) + Be16(s[6]) + Be16(s[7])
  }

  lemma OctetsOfSegments(v: Octets16)
    ensures OctetsOf(Segments(v)) == v
  {
    Be16OfU16(v[0], v[1]);
    Be16OfU16(v[2], v[3]);
    Be16OfU16(v[4], v[5]);
    Be16OfU16(v[6], v[7]);
    Be16OfU16(v[8], v[9]);
    Be16OfU16(v[10], v[11]);
    Be16OfU16(v[12], v[13]);
    Be16OfU16(v[14], v[15]);
  }

  datatype Span = Span(start: nat, len: nat)

  predicate ZeroSpan(s: seq<u16>, span: Span)
  {
    span.start + span.len <= |s| && forall k :: span.start <= k < span.start + span.len ==> s[k] == 0
  }

  /** The loop that finds the longest run of zero segments: `current` is the run that ends before `i`. */
  function LongestZeros(s: seq<u16>, i: nat, current: Span, longest: Span): (r: Span)
    requires i <= |s| && ZeroSpan(s, longest)
    requires current.len > 0 ==> ZeroSpan(s, current) && current.start + current.len == i
    ensures ZeroSpan(s, r)
    decreases |s| - i
  {
    if i == |s| then longest
    else if s[i] != 0 then LongestZeros(s, i + 1, Span(0, 0), longest)
    else
      var c := if current.len == 0 then Span(i, 1) else Span(current.start, current.len + 1);
      LongestZeros(s, i + 1, c, if c.len > longest.len then c else longest)
  }

  /** Groups in hexadecimal. */
  function PrintGroups(gs: seq<u16>, index: nat): bytes
    decreases |gs|
  {
    if gs == [] then [] else Lead(COLON, index) + (Digits(gs[0], 16) + PrintGroups(gs[1..], index + 1))
  }

  /** `Ipv6Addr::to_ipv4_mapped` */
  predicate Mapped(v: Octets16)
  {
    v[..12] == [0, 0, 0, 0, 0, 0, 0, 0, 0, 0, 255, 255]
  }

  const MAPPED_PREFIX: bytes := [COLON, COLON, 0x66, 0x66, 0x66, 0x66, COLON]

  function Compressed(s: Segments8, span: Span): bytes
    requires ZeroSpan(s, span)
  {
    PrintGroups(s[..span.start], 0) + ([COLON, COLON] + PrintGroups(s[span.start + span.len..], 0))
  }

  function Print6(v: Octets16): bytes
  {
    var s := Segments(v);
    var span := LongestZeros(s, 0, Span(0, 0), Span(0, 0));
    if Mapped(v) then MAPPED_PREFIX + Print4(v[12..])
    else if span.len > 1 then Compressed(s, span)
    else PrintGroups(s, 0)
  }

  datatype Groups = Groups(value: seq<u16>, endsInV4: bool, rest: bytes)

  /** An IPv4 address in the place of two groups. */
  function ReadEmbedded(s: bytes, index: nat): (r: Option<Read<seq<u16>>>)
    ensures r.Some? ==> |r.value.value| == 2
  {
    match Separated(s, COLON, index)
    case None => None
    case Some(t) =>
      match Read4(t)
      case None => None
      case Some(v) => Some(Read([U16(v.value[0], v.value[1]), U16(v.value[2], v.value[3])], v.rest))
  }

  function ReadGroup(s: bytes, index: nat): (r: Option<Read<nat>>)
    ensures r.Some? ==> r.value.value <= 65535
  {
    match Separated(s, COLON, index)
    case None => None
    case Some(t) => ReadNumber(t, 16, 4, 65535, true)
  }

  /** `read_groups` from the group with the given index on. */
  function ReadGroups(s: bytes, index: nat, limit: nat): (r: Groups)
    requires index <= limit
    ensures index + |r.value| <= limit
    decreases limit - index
  {
    if index == limit then Groups([], false, s)
    else
      var v4 := if index + 1 < limit then ReadEmbedded(s, index) else None;
      if v4.Some? then Groups(v4.value.value, true, v4.value.rest)
      else
        match ReadGroup(s, index)
        case None => Groups([], false, s)
        case Some(g) =>
          var more := ReadGroups(g.rest, index + 1, limit);
          Groups([g.value] + more.value, more.endsInV4, more.rest)
  }

  function Zeros(n: nat): (s: seq<u16>)
    ensures |s| == n && forall i :: 0 <= i < n ==> s[i] == 0
  {
    if n == 0 then [] else [0] + Zeros(n - 1)
  }

  /** The eight segments that a double colon between `head` and `tail` stands for. */
  function Expanded(head: seq<u16>, tail: seq<u16>): Segments8
    requires |head| + |tail| <= GROUPS
  {
    head + Zeros(GROUPS - |head| - |tail|) + tail
  }

  /** The part after the groups `head`, which must start with a double colon. */
  function Read6Tail(head: seq<u16>, s: bytes): Option<Read<Segments8>>
    requires |head| < GROUPS
  {
    if !([COLON, COLON] <= s) then None
    else
      var tail := ReadGroups(s[2..], 0, GROUPS - 1 - |head|);
      Some(Read(Expanded(head, tail.value), tail.rest))
  }

  /** An address that starts with the groups `head`. */
  function Read6After(head: Groups): Option<Read<Segments8>>
    requires |head.value| <= GROUPS
  {
    if |head.value| == GROUPS then Some(Read(head.value, head.rest))
    else if head.endsInV4 then None
    else Read6Tail(head.value, head.rest)
  }

  function Read6(s: bytes): Option<Read<Segments8>>
  {
    Read6After(ReadGroups(s, 0, GROUPS))
  }

  function Print(ip: IpAddr): bytes
  {
    match ip
    case V4(v) => Print4(v)
    case V6(v) => Print6(v)
  }

  /** `IpAddr::from_str` */
  function Parse(s: bytes): Option<IpAddr>
  {
    match Read4(s)
    case Some(v) => if v.rest == [] then Some(V4(v.value)) else None
    case None =>
      match Read6(s)
      case Some(v) => if v.rest == [] then Some(V6(OctetsOf(v.value))) else None
      case None => None
  }

  lemma ParseFrom6(text: bytes, s: Segments8)
    requires Read4(text).None? && Read6(text) == Some(Read(s, []))
    ensures Parse(text) == Some(V6(OctetsOf(s)))
  {
  }

  // Reading back what was printed

  /** Text that ends a list of groups: nothing more, or the double colon of a compressed address. */
  predicate EndsGroups(after: bytes)
  {
    after == [] || (|after| >= 2 && after[0] == COLON && after[1] == COLON)
  }

  lemma NoGroupsThere(after: bytes, index: nat, limit: nat)
    requires index <= limit && EndsGroups(after)
    ensures ReadGroups(after, index, limit) == Groups([], false, after)
  {
    NothingThere(after, index);
  }

  lemma NothingThere(after: bytes, index: nat)
    requires EndsGroups(after)
    ensures ReadEmbedded(after, index).None? && ReadGroup(after, index).None?
  {
    if index == 0 {
      Read4NotColon(after);
    } else if after != [] {
      Read4NotColon(after[1..]);
    }
  }

  lemma ReadGroupsStep(g: u16, later: bytes, index: nat, limit: nat)
    requires index < limit && EndsGroup(later)
    ensures ReadGroups(Lead(COLON, index) + (Digits(g, 16) + later), index, limit)
         == var more := ReadGroups(later, index + 1, limit); Groups([g] + more.value, more.endsInV4, more.rest)
  {
    SeparatedLead(Digits(g, 16) + later, COLON, index);
    Read4NotGroup(g, later);
    HexLength(g);
    ReadPrinted(g, 16, later, 4, 65535, true);
  }

  lemma PrintGroupsCons(gs: seq<u16>, index: nat, after: bytes)
    requires gs != []
    ensures PrintGroups(gs, index) + after
         == Lead(COLON, index) + (Digits(gs[0], 16) + (PrintGroups(gs[1..], index + 1) + after))
  {
    var text := PrintGroups(gs[1..], index + 1);
    Regroup(Lead(COLON, index), Digits(gs[0], 16) + text, after);
    Regroup(Digits(gs[0], 16), text, after);
  }

  lemma GroupsEndGroup(gs: seq<u16>, index: nat, after: bytes)
    requires EndsGroups(after) && index > 0
    ensures EndsGroup(PrintGroups(gs, index) + after)
  {
    if gs == [] {
      assert [] + after == after;
    }
  }

  /** Printed groups are read back, up to the text that ends them. */
  lemma {:induction false} ReadGroupsPrinted(gs: seq<u16>, index: nat, limit: nat, after: bytes)
    requires index + |gs| <= limit && EndsGroups(after)
    ensures ReadGroups(PrintGroups(gs, index) + after, index, limit) == Groups(gs, false, after)
    decreases |gs|
  {
    if gs == [] {
      assert [] + after == after;
      NoGroupsThere(after, index, limit);
    } else {
      var later := PrintGroups(gs[1..], index + 1) + after;
      PrintGroupsCons(gs, index, after);
      GroupsEndGroup(gs[1..], index + 1, after);
      ReadGroupsPrinted(gs[1..], index + 1, limit, after);
      ReadGroupsCons(gs, later, index, limit, after);
    }
  }

  lemma ReadGroupsCons(gs: seq<u16>, later: bytes, index: nat, limit: nat, after: bytes)
    requires gs != [] && index < limit && EndsGroup(later)
    requires ReadGroups(later, index + 1, limit) == Groups(gs[1..], false, after)
    ensures ReadGroups(Lead(COLON, index) + (Digits(gs[0], 16) + later), index, limit) == Groups(gs, false, after)
  {
    ReadGroupsStep(gs[0], later, index, limit);
    assert [gs[0]] + gs[1..] == gs;
  }

  lemma Read6Full(s: Segments8)
    ensures Read6(PrintGroups(s, 0)) == Some(Read(s, []))
  {
    ReadLastGroups(s, GROUPS);
  }

  lemma Read6Compressed(s: Segments8, span: Span)
    requires ZeroSpan(s, span) && span.len > 1
    ensures Read6(Compressed(s, span)) == Some(Read(s, []))
  {
    ReadCompressed(s[..span.start], s[span.start + span.len..]);
    ExpandedSpan(s, span);
  }

  lemma ReadCompressed(head: seq<u16>, tail: seq<u16>)
    requires |head| + |tail| < GROUPS
    ensures Read6(PrintGroups(head, 0) + ([COLON, COLON] + PrintGroups(tail, 0)))
         == Some(Read(Expanded(head, tail), []))
  {
    var text := PrintGroups(tail, 0);
    ReadGroupsPrinted(head, 0, GROUPS, [COLON, COLON] + text);
    ReadLastGroups(tail, GROUPS - 1 - |head|);
    Read6Parts(PrintGroups(head, 0) + ([COLON, COLON] + text), head, text, tail, false);
  }

  lemma ReadLastGroups(gs: seq<u16>, limit: nat)
    requires |gs| <= limit
    ensures ReadGroups(PrintGroups(gs, 0), 0, limit) == Groups(gs, false, [])
  {
    ReadGroupsPrinted(gs, 0, limit, []);
    assert PrintGroups(gs, 0) + [] == PrintGroups(gs, 0);
  }

  lemma ExpandedSpan(s: Segments8, span: Span)
    requires ZeroSpan(s, span)
    ensures Expanded(s[..span.start], s[span.start + span.len..]) == s
  {
  }

  /** An address with a double colon, given what its two halves read as. */
  lemma Read6Parts(s: bytes, head: seq<u16>, text: bytes, tail: seq<u16>, v4: bool)
    requires |head| < GROUPS && ReadGroups(s, 0, GROUPS) == Groups(head, false, [COLON, COLON] + text)
    requires ReadGroups(text, 0, GROUPS - 1 - |head|) == Groups(tail, v4, [])
    ensures Read6(s) == Some(Read(Expanded(head, tail), []))
  {
    TailAfterColons(head, text, tail, v4);
  }

  lemma TailAfterColons(head: seq<u16>, text: bytes, tail: seq<u16>, v4: bool)
    requires |head| < GROUPS && ReadGroups(text, 0, GROUPS - 1 - |head|) == Groups(tail, v4, [])
    ensures Read6Tail(head, [COLON, COLON] + text) == Some(Read(Expanded(head, tail), []))
  {
    assert ([COLON, COLON] + text)[2..] == text;
  }

  lemma ReadEmbeddedPrinted(v: Octets4, index: nat)
    requires index > 0
    ensures ReadEmbedded([COLON] + Print4(v), index) == Some(Read([U16(v[0], v[1]), U16(v[2], v[3])], []))
  {
    SeparatedLead(Print4(v), COLON, index);
    Read4Printed(v);
  }

  const FFFF: bytes := [0x66, 0x66, 0x66, 0x66]

  lemma ReadFfff(later: bytes)
    requires !StartsWithDigit(later, 16)
    ensures ReadGroup(FFFF + later, 0) == Some(Read(0xFFFF, later))
    ensures ReadEmbedded(FFFF + later, 0).None?
  {
    assert Value(FFFF, 16) == 0xFFFF by {
      assert FFFF[..3] == [0x66, 0x66, 0x66] && FFFF[..3][..2] == [0x66, 0x66] && FFFF[..3][..2][..1] == [0x66];
      assert FFFF[..3][..2][..1][..0] == [];
      assert Value(FFFF[..3][..2][..1], 16) == 0xF;
      assert Value(FFFF[..3][..2], 16) == 0xFF;
      assert Value(FFFF[..3], 16) == 0xFFF;
    }
    RunOfDigits(FFFF, later, 16);
    assert (FFFF + later)[4..] == later;
    assert Run(FFFF + later, 10) == [];
  }

  /** `ffff` and an IPv4 address, in the place of up to seven groups. */
  lemma ReadMappedTail(v4: Octets4, limit: nat)
    requires limit == 7
    ensures ReadGroups(FFFF + ([COLON] + Print4(v4)), 0, limit)
         == Groups([0xFFFF] + [U16(v4[0], v4[1]), U16(v4[2], v4[3])], true, [])
  {
    var later := [COLON] + Print4(v4);
    ReadFfff(later);
    ReadEmbeddedPrinted(v4, 1);
  }

  lemma MappedSegments(v: Octets16)
    requires Mapped(v)
    ensures Expanded([], [0xFFFF] + [U16(v[12], v[13]), U16(v[14], v[15])]) == Segments(v)
  {
    assert v[..12][10] == v[10] && v[..12][11] == v[11];
    assert forall k :: 0 <= k < 10 ==> v[k] == v[..12][k];
  }

  lemma Read6Mapped(v: Octets16)
    requires Mapped(v)
    ensures Read6(MAPPED_PREFIX + Print4(v[12..])) == Some(Read(Segments(v), []))
  {
    var v4 := v[12..];
    var text := FFFF + ([COLON] + Print4(v4));
    assert MAPPED_PREFIX + Print4(v4) == [COLON, COLON] + text;
    ReadMapped(v4, text);
    MappedSegments(v);
  }

  lemma ReadMapped(v4: Octets4, text: bytes)
    requires text == FFFF + ([COLON] + Print4(v4))
    ensures Read6([COLON, COLON] + text)
         == Some(Read(Expanded([], [0xFFFF] + [U16(v4[0], v4[1]), U16(v4[2], v4[3])]), []))
  {
    ReadMappedTail(v4, GROUPS - 1);
    Read6AfterColons(text, [0xFFFF] + [U16(v4[0], v4[1]), U16(v4[2], v4[3])], true);
  }

  /** An address that starts with a double colon. */
  lemma Read6AfterColons(text: bytes, tail: seq<u16>, v4: bool)
    requires ReadGroups(text, 0, GROUPS - 1) == Groups(tail, v4, [])
    ensures Read6([COLON, COLON] + text) == Some(Read(Expanded([], tail), []))
  {
    NoGroupsAtColon(text);
    Read6Parts([COLON, COLON] + text, [], text, tail, v4);
  }

  lemma NoGroupsAtColon(text: bytes)
    ensures ReadGroups([COLON, COLON] + text, 0, GROUPS) == Groups([], false, [COLON, COLON] + text)
  {
    NoGroupsThere([COLON, COLON] + text, 0, GROUPS);
  }

  /** Printing an address and reading the text gives the address back. */
  lemma ParsePrinted(ip: IpAddr)
    ensures Parse(Print(ip)) == Some(ip)
  {
    match ip {
      case V4(v) => Read4Printed(v);
      case V6(v) => Parse6Printed(v);
    }
  }

  lemma Read4NotGroups(gs: seq<u16>, after: bytes)
    requires EndsGroups(after)
    ensures Read4(PrintGroups(gs, 0) + after).None?
  {
    if gs == [] {
      assert [] + after == after;
      Read4NotColon(after);
    } else {
      var later := PrintGroups(gs[1..], 1) + after;
      PrintGroupsCons(gs, 0, after);
      assert [] + (Digits(gs[0], 16) + later) == Digits(gs[0], 16) + later;
      GroupsEndGroup(gs[1..], 1, after);
      Read4NotGroup(gs[0], later);
    }
  }

  lemma Print6Reads(v: Octets16)
    ensures Read4(Print6(v)).None? && Read6(Print6(v)) == Some(Read(Segments(v), []))
  {
    var s := Segments(v);
    var span := LongestZeros(s, 0, Span(0, 0), Span(0, 0));
    if Mapped(v) {
      Read4NotColon(Print6(v));
      Read6Mapped(v);
    } else if span.len > 1 {
      Read4NotGroups(s[..span.start], [COLON, COLON] + PrintGroups(s[span.start + span.len..], 0));
      Read6Compressed(s, span);
    } else {
      assert PrintGroups(s, 0) + [] == PrintGroups(s, 0);
      Read4NotGroups(s, []);
      Read6Full(s);
    }
  }

  lemma Parse6Printed(v: Octets16)
    ensures Parse(Print6(v)) == Some(V6(v))
  {
    Print6Reads(v);
    OctetsOfSegments(v);
  }

  // What printed text looks like

  /** Dots, digits, colons and lower-case hexadecimal letters lie in this range; spaces and line ends do not. */
  predicate Plain(s: bytes)
  {
    forall i :: 0 <= i < |s| ==> 0x2E <= s[i] <= 0x66
  }

  lemma {:induction false} DigitsPlain(n: nat, radix: Radix)
    ensures Plain(Digits(n, radix))
    decreases n
  {
    if Quotient(n, radix) != 0 {
      DigitsPlain(Quotient(n, radix), radix);
    }
  }

  lemma {:induction false} OctetsPlain(vs: bytes, index: nat)
    ensures Plain(PrintOctets(vs, index))
    ensures |PrintOctets(vs, index)| <= 4 * |vs|
    ensures index == 0 && vs != [] ==> |PrintOctets(vs, index)| < 4 * |vs|
    decreases |vs|
  {
    if vs != [] {
      DigitsPlain(vs[0], 10);
      DecimalLength(vs[0]);
      OctetsPlain(vs[1..], index + 1);
    }
  }

  lemma {:induction false} GroupsPlain(gs: seq<u16>, index: nat)
    ensures Plain(PrintGroups(gs, index))
    ensures |PrintGroups(gs, index)| <= 5 * |gs|
    ensures index == 0 && gs != [] ==> |PrintGroups(gs, index)| < 5 * |gs|
    decreases |gs|
  {
    if gs != [] {
      DigitsPlain(gs[0], 16);
      HexLength(gs[0]);
      GroupsPlain(gs[1..], index + 1);
    }
  }

  lemma PlainConcat(a: bytes, b: bytes)
    requires Plain(a) && Plain(b)
    ensures Plain(a + b)
  {
  }

  lemma CompressedPlain(s: Segments8, span: Span)
    requires ZeroSpan(s, span) && span.len > 1
    ensures Plain(Compressed(s, span)) && |Compressed(s, span)| <= 32
  {
    var head, tail := s[..span.start], s[span.start + span.len..];
    GroupsPlain(head, 0);
    GroupsPlain(tail, 0);
    PlainConcat([COLON, COLON], PrintGroups(tail, 0));
    PlainConcat(PrintGroups(head, 0), [COLON, COLON] + PrintGroups(tail, 0));
  }

  lemma MappedPlain(v: Octets4)
    ensures Plain(MAPPED_PREFIX + Print4(v)) && |MAPPED_PREFIX + Print4(v)| <= 22
  {
    OctetsPlain(v, 0);
  }

  lemma PrintPlain(ip: IpAddr)
    ensures Plain(Print(ip)) && |Print(ip)| <= (if ip.V4? then 15 else 39)
  {
    match ip {
      case V4(v) => OctetsPlain(v, 0);
      case V6(v) =>
        var s := Segments(v);
        var span := LongestZeros(s, 0, Span(0, 0), Span(0, 0));
        if Mapped(v) {
          MappedPlain(v[12..]);
        } else if span.len > 1 {
          CompressedPlain(s, span);
        } else {
          GroupsPlain(s, 0);
        }
    }
  }

  // The longest texts

  lemma FullGroup()
    ensures |Digits(65535, 16)| == 4
  {
    HexLengthStep(65535);
    HexLengthStep(4095);
    HexLengthStep(255);
  }

  lemma FullPort()
    ensures |Digits(65535, 10)| == 5
  {
    DecimalLengthStep(65535);
    DecimalLengthStep(6553);
    DecimalLengthStep(655);
    DecimalLengthStep(65);
  }

  lemma {:induction false} FullGroups(gs: seq<u16>, index: nat)
    requires forall i :: 0 <= i < |gs| ==> gs[i] == 65535
    ensures |PrintGroups(gs, index)| == 5 * |gs| - (if gs != [] && index == 0 then 1 else 0)
    decreases |gs|
  {
    if gs != [] {
      FullGroup();
      FullGroups(gs[1..], index + 1);
    }
  }

  lemma ZeroInside(s: seq<u16>, span: Span)
    requires ZeroSpan(s, span) && span.len > 0
    ensures exists k :: 0 <= k < |s| && s[k] == 0
  {
    assert s[span.start] == 0;
  }

  /** The longest text of an address. */
  lemma PrintFull(ip: IpAddr)
    requires ip.V6? && forall i :: 0 <= i < 16 ==> ip.v6[i] == 255
    ensures |Print(ip)| == 39
  {
    var s := Segments(ip.v6);
    var span := LongestZeros(s, 0, Span(0, 0), Span(0, 0));
    assert forall k :: 0 <= k < 8 ==> s[k] == 65535;
    assert span.len == 0 by {
      if span.len > 0 {
        ZeroInside(s, span);
      }
    }
    assert !Mapped(ip.v6) by {
      assert ip.v6[..12][0] == 255;
    }
    FullGroups(s, 0);
  }
}
