/** Which of the texts an address or a number is read from is the one it is printed as. For IPv6 addresses that is
    section 4 of RFC 5952, stated on the text and on what the reader makes of it. */
module CanonicalIp {
  import opened Octets
  import opened Types
  import opened IpText

  // Numbers

  lemma {:induction false} ValuePositive(s: bytes, radix: Radix)
    requires s != [] && AllDigits(s, radix) && s[0] != ZERO
    ensures Value(s, radix) > 0
    decreases |s|
  {
    if |s| == 1 {
      assert s[..0] == [];
    } else {
      ValuePositive(s[..|s| - 1], radix);
    }
  }

  predicate UpperHex(b: byte)
  {
    0x41 <= b <= 0x46
  }

  predicate NoUpperHex(s: bytes)
  {
    forall i :: 0 <= i < |s| ==> !UpperHex(s[i])
  }

  lemma LastDigit(n: nat, front: nat, last: byte, radix: Radix)
    requires DigitValue(last, radix).Some? && !UpperHex(last)
             && n == Scaled(front, radix) + DigitValue(last, radix).value
    ensures Quotient(n, radix) == front && DigitChar(Remainder(n, radix)) == last
  {
  }

  /** Digits without a leading zero are how their value is printed. */
  lemma {:induction false} DigitsOfValue(s: bytes, radix: Radix)
    requires s != [] && AllDigits(s, radix) && NoUpperHex(s) && (|s| == 1 || s[0] != ZERO)
    ensures Digits(Value(s, radix), radix) == s
    decreases |s|
  {
    var front, last := s[..|s| - 1], s[|s| - 1];
    LastDigit(Value(s, radix), Value(front, radix), last, radix);
    assert s == front + [last];
    if |s| == 1 {
      assert front == [];
    } else {
      ValuePositive(front, radix);
      DigitsOfValue(front, radix);
    }
  }

  /** What follows the longest run of digits is no digit. */
  lemma {:induction false} RunEnds(s: bytes, radix: Radix)
    ensures s == Run(s, radix) + s[|Run(s, radix)|..] && !StartsWithDigit(s[|Run(s, radix)|..], radix)
  {
    if s != [] && DigitValue(s[0], radix).Some? {
      RunEnds(s[1..], radix);
    }
  }

  // IPv4 addresses

  /** The reader accepts only what the printer prints. */
  ghost predicate Strict(item: bytes -> Option<Read<byte>>)
  {
    forall s :: item(s).Some? ==> s == Digits(item(s).value.value, 10) + item(s).value.rest
  }

  lemma OctetStrict()
    ensures Strict(ReadOctet)
  {
    forall s | ReadOctet(s).Some? ensures s == Digits(ReadOctet(s).value.value, 10) + ReadOctet(s).value.rest {
      DigitsOfValue(Run(s, 10), 10);
      RunEnds(s, 10);
    }
  }

  lemma PrintedCons(s: bytes, vs: bytes, index: nat, t: bytes, later: bytes, rest: bytes)
    requires vs != [] && s == Lead(DOT, index) + t && t == Digits(vs[0], 10) + later
    requires later == PrintOctets(vs[1..], index + 1) + rest
    ensures s == PrintOctets(vs, index) + rest
  {
    PrintOctetsCons(vs, index, rest);
  }

  lemma LeadOfSeparated(s: bytes, separator: byte, index: nat)
    requires Separated(s, separator, index).Some?
    ensures s == Lead(separator, index) + Separated(s, separator, index).value
  {
  }

  lemma {:induction false} ListStrict(item: bytes -> Option<Read<byte>>, s: bytes, index: nat, count: nat)
    requires Strict(item) && ReadList(item, s, index, count).Some?
    ensures var r := ReadList(item, s, index, count).value; s == PrintOctets(r.value, index) + r.rest
    decreases count
  {
    if count > 0 {
      var t := Separated(s, DOT, index).value;
      var first := item(t).value;
      var more := ReadList(item, first.rest, index + 1, count - 1).value;
      ListStrict(item, first.rest, index + 1, count - 1);
      LeadOfSeparated(s, DOT, index);
      assert ([first.value] + more.value)[1..] == more.value;
      PrintedCons(s, [first.value] + more.value, index, t, first.rest, more.rest);
    }
  }

  lemma Read4Strict(s: bytes)
    requires Read4(s).Some?
    ensures s == Print4(Read4(s).value.value) + Read4(s).value.rest
  {
    OctetStrict();
    ListStrict(ReadOctet, s, 0, OCTETS);
  }

  lemma {:induction false} OctetsDot(vs: bytes, index: nat)
    requires |vs| >= 2 || (vs != [] && index > 0)
    ensures DOT in PrintOctets(vs, index)
    decreases |vs|
  {
    if index == 0 {
      OctetsDot(vs[1..], 1);
    }
  }

  // The rules

  predicate HexDigit(b: byte)
  {
    DigitValue(b, 16).Some?
  }

  /** A group starts here with a zero, and goes on. */
  predicate LeadingZero(s: bytes, i: nat)
    requires i + 1 < |s|
  {
    s[i] == ZERO && (i == 0 || s[i - 1] == COLON) && HexDigit(s[i + 1])
  }

  /** Sections 4.1 and 4.3: no upper-case digit, and no group with a leading zero. */
  predicate Tidy(s: bytes)
  {
    && NoUpperHex(s)
    && forall i :: 0 <= i < |s| - 1 ==> !LeadingZero(s, i)
  }

  /** Section 4.2.3: `span` is the first of the longest runs of zero segments. */
  ghost predicate FirstLongest(segments: seq<u16>, span: Span)
  {
    && ZeroSpan(segments, span)
    && forall t: Span :: t.len > 0 && ZeroSpan(segments, t) ==>
         t.len < span.len || (t.len == span.len && span.start <= t.start)
  }

  /** Section 4.2: no two adjacent segments are zero. */
  predicate NothingToShorten(segments: seq<u16>)
  {
    forall k :: 0 <= k < |segments| - 1 ==> segments[k] != 0 || segments[k + 1] != 0
  }

  /** What a double colon after the groups `head` stands for. */
  function Shortened(head: Groups): Span
    requires |head.value| < GROUPS && [COLON, COLON] <= head.rest
  {
    var tail := ReadGroups(head.rest[2..], 0, GROUPS - 1 - |head.value|);
    Span(|head.value|, GROUPS - |head.value| - |tail.value|)
  }

  /** The text of an IPv6 address as section 4 of RFC 5952 recommends it: it is tidy; it has a dotted end exactly if
      it is an IPv4-mapped address, written as `::ffff:` and an IPv4 address; otherwise a double colon stands for the
      first of the longest runs of two or more zero segments, and there is none if there is no such run. */
  ghost predicate Rfc5952(s: bytes)
    requires Read6(s).Some?
  {
    var segments := Read6(s).value.value;
    && Tidy(s)
    && if DOT in s then MAPPED_PREFIX <= s && Read4(s[7..]).Some? && Read4(s[7..]).value.rest == []
       else
         && !Mapped(OctetsOf(segments))
         && if |ReadGroups(s, 0, GROUPS).value| == GROUPS then NothingToShorten(segments)
            else
              var span := Shortened(ReadGroups(s, 0, GROUPS));
              span.len >= 2 && FirstLongest(segments, span)
  }

  // The run that is shortened

  /** Runs that end at `i` or before. */
  ghost predicate BestBefore(s: seq<u16>, i: nat, span: Span)
  {
    && ZeroSpan(s, span) && span.start + span.len <= i
    && forall t: Span :: t.len > 0 && ZeroSpan(s, t) && t.start + t.len <= i ==>
         t.len < span.len || (t.len == span.len && span.start <= t.start)
  }

  /** The longest run that ends at `i`. */
  ghost predicate RunTo(s: seq<u16>, i: nat, current: Span)
  {
    && (current.len > 0 ==> ZeroSpan(s, current) && current.start + current.len == i)
    && forall t: Span :: t.len > 0 && ZeroSpan(s, t) && t.start + t.len == i ==> t.len <= current.len
  }

  lemma RunGrows(s: seq<u16>, i: nat, current: Span, c: Span)
    requires i < |s| && s[i] == 0 && RunTo(s, i, current)
    requires c == if current.len == 0 then Span(i, 1) else Span(current.start, current.len + 1)
    ensures RunTo(s, i + 1, c) && ZeroSpan(s, c)
  {
    forall t: Span | t.len > 0 && ZeroSpan(s, t) && t.start + t.len == i + 1 ensures t.len <= c.len {
      if t.len > 1 {
        assert ZeroSpan(s, Span(t.start, t.len - 1));
      }
    }
  }

  lemma BestGrows(s: seq<u16>, i: nat, c: Span, longest: Span)
    requires i < |s| && BestBefore(s, i, longest) && RunTo(s, i + 1, c) && c.len > 0
    ensures BestBefore(s, i + 1, if c.len > longest.len then c else longest)
  {
    var best := if c.len > longest.len then c else longest;
    forall t: Span | t.len > 0 && ZeroSpan(s, t) && t.start + t.len <= i + 1
      ensures t.len < best.len || (t.len == best.len && best.start <= t.start)
    {
      if t.start + t.len == i + 1 {
        assert t.len <= c.len;
      }
    }
  }

  lemma LastIsZero(s: seq<u16>, t: Span)
    requires ZeroSpan(s, t) && t.len > 0
    ensures s[t.start + t.len - 1] == 0
  {
  }

  lemma BestStays(s: seq<u16>, i: nat, longest: Span)
    requires i < |s| && s[i] != 0 && BestBefore(s, i, longest)
    ensures BestBefore(s, i + 1, longest) && RunTo(s, i + 1, Span(0, 0))
  {
    forall t: Span | t.len > 0 && ZeroSpan(s, t) && t.start + t.len <= i + 1 ensures t.start + t.len <= i {
      LastIsZero(s, t);
    }
  }

  lemma {:induction false} LongestIsBest(s: seq<u16>, i: nat, current: Span, longest: Span)
    requires i <= |s| && BestBefore(s, i, longest) && RunTo(s, i, current)
    ensures BestBefore(s, |s|, LongestZeros(s, i, current, longest))
    decreases |s| - i
  {
    if i < |s| {
      if s[i] != 0 {
        BestStays(s, i, longest);
        LongestIsBest(s, i + 1, Span(0, 0), longest);
      } else {
        var c := if current.len == 0 then Span(i, 1) else Span(current.start, current.len + 1);
        RunGrows(s, i, current, c);
        BestGrows(s, i, c, longest);
        LongestIsBest(s, i + 1, c, if c.len > longest.len then c else longest);
      }
    }
  }

  /** The loop of the printer finds the first of the longest runs. */
  lemma LongestIsFirst(s: seq<u16>)
    ensures FirstLongest(s, LongestZeros(s, 0, Span(0, 0), Span(0, 0)))
  {
    LongestIsBest(s, 0, Span(0, 0), Span(0, 0));
  }

  lemma FirstLongestUnique(s: seq<u16>, a: Span, b: Span)
    requires FirstLongest(s, a) && FirstLongest(s, b) && a.len > 0
    ensures a == b
  {
  }

  lemma ShortensIff(s: seq<u16>, span: Span)
    requires FirstLongest(s, span)
    ensures span.len <= 1 <==> NothingToShorten(s)
  {
    if span.len <= 1 {
      forall k | 0 <= k < |s| - 1 ensures s[k] != 0 || s[k + 1] != 0 {
        if s[k] == 0 && s[k + 1] == 0 {
          assert ZeroSpan(s, Span(k, 2));
        }
      }
    } else {
      assert s[span.start] == 0 && s[span.start + 1] == 0;
    }
  }

  // What is printed follows the rules

  lemma TidyConcat(a: bytes, b: bytes)
    requires Tidy(a) && Tidy(b) && (a == [] || b == [] || a[|a| - 1] != ZERO || !HexDigit(b[0]))
    ensures Tidy(a + b)
  {
    var s := a + b;
    forall i | 0 <= i < |s| - 1 ensures !LeadingZero(s, i) {
      if i + 1 < |a| {
        assert !LeadingZero(a, i);
      } else if i >= |a| {
        assert !LeadingZero(b, i - |a|);
      }
    }
  }

  lemma {:induction false} DigitsNoUpper(n: nat, radix: Radix)
    ensures NoUpperHex(Digits(n, radix))
    decreases n
  {
    if Quotient(n, radix) != 0 {
      DigitsNoUpper(Quotient(n, radix), radix);
    }
  }

  lemma DigitsTidy(n: nat, radix: Radix)
    ensures Tidy(Digits(n, radix))
  {
    DigitsNoUpper(n, radix);
    DigitsAreDigits(n, radix);
    if n > 0 {
      NoLeadingZero(n, radix);
    }
  }

  lemma {:induction false} GroupsTidy(gs: seq<u16>, index: nat)
    ensures Tidy(PrintGroups(gs, index)) && DOT !in PrintGroups(gs, index)
    ensures index > 0 && gs != [] ==> PrintGroups(gs, index)[0] == COLON
    decreases |gs|
  {
    if gs != [] {
      var digits, later := Digits(gs[0], 16), PrintGroups(gs[1..], index + 1);
      GroupsTidy(gs[1..], index + 1);
      DigitsTidy(gs[0], 16);
      DigitsAreDigits(gs[0], 16);
      TidyConcat(digits, later);
      TidyConcat(Lead(COLON, index), digits + later);
    }
  }

  lemma {:induction false} OctetsTidy(vs: bytes, index: nat)
    ensures Tidy(PrintOctets(vs, index))
    ensures index > 0 && vs != [] ==> PrintOctets(vs, index)[0] == DOT
    decreases |vs|
  {
    if vs != [] {
      var digits, later := Digits(vs[0], 10), PrintOctets(vs[1..], index + 1);
      OctetsTidy(vs[1..], index + 1);
      DigitsTidy(vs[0], 10);
      TidyConcat(digits, later);
      TidyConcat(Lead(DOT, index), digits + later);
    }
  }

  lemma MappedTidy(v4: Octets4, s: bytes)
    requires s == MAPPED_PREFIX + Print4(v4)
    ensures Tidy(s) && DOT in s && MAPPED_PREFIX <= s && s[7..] == Print4(v4)
  {
    OctetsTidy(v4, 0);
    OctetsDot(v4, 0);
    TidyConcat(MAPPED_PREFIX, Print4(v4));
  }

  lemma MappedFollows(v: Octets16, s: bytes)
    requires Mapped(v) && s == MAPPED_PREFIX + Print4(v[12..]) && Read6(s).Some?
    ensures Rfc5952(s)
  {
    MappedTidy(v[12..], s);
    Read4Printed(v[12..]);
  }

  lemma FullFollows(v: Octets16, s: bytes, span: Span)
    requires !Mapped(v) && s == PrintGroups(Segments(v), 0) && Read6(s) == Some(Read(Segments(v), []))
    requires FirstLongest(Segments(v), span) && span.len <= 1
    ensures Rfc5952(s)
  {
    GroupsTidy(Segments(v), 0);
    ReadLastGroups(Segments(v), GROUPS);
    OctetsOfSegments(v);
    ShortensIff(Segments(v), span);
  }

  lemma CompressedTidy(head: seq<u16>, tail: seq<u16>)
    ensures var s := PrintGroups(head, 0) + ([COLON, COLON] + PrintGroups(tail, 0)); Tidy(s) && DOT !in s
  {
    GroupsTidy(head, 0);
    GroupsTidy(tail, 0);
    TidyConcat([COLON, COLON], PrintGroups(tail, 0));
    TidyConcat(PrintGroups(head, 0), [COLON, COLON] + PrintGroups(tail, 0));
  }

  /** What a double colon between `head` and `tail` is read as. */
  lemma ShortenedIs(head: Groups, text: bytes, tail: seq<u16>)
    requires |head.value| + |tail| < GROUPS && head.rest == [COLON, COLON] + text
    requires ReadGroups(text, 0, GROUPS - 1 - |head.value|).value == tail
    ensures Shortened(head) == Span(|head.value|, GROUPS - |head.value| - |tail|)
  {
    assert ([COLON, COLON] + text)[2..] == text;
  }

  lemma HeadReads(head: seq<u16>, s: bytes, text: bytes)
    requires |head| < GROUPS && s == PrintGroups(head, 0) + ([COLON, COLON] + text)
    ensures ReadGroups(s, 0, GROUPS) == Groups(head, false, [COLON, COLON] + text)
  {
    ReadGroupsPrinted(head, 0, GROUPS, [COLON, COLON] + text);
  }

  lemma TailSpan(head: Groups, tail: seq<u16>, text: bytes)
    requires |head.value| + |tail| < GROUPS && text == PrintGroups(tail, 0) && head.rest == [COLON, COLON] + text
    ensures Shortened(head) == Span(|head.value|, GROUPS - |head.value| - |tail|)
  {
    ReadLastGroups(tail, GROUPS - 1 - |head.value|);
    ShortenedIs(head, text, tail);
  }

  lemma CompressedReads(head: seq<u16>, tail: seq<u16>, s: bytes, text: bytes)
    requires |head| + |tail| < GROUPS && text == PrintGroups(tail, 0)
    requires s == PrintGroups(head, 0) + ([COLON, COLON] + text)
    ensures ReadGroups(s, 0, GROUPS) == Groups(head, false, [COLON, COLON] + text)
    ensures Shortened(ReadGroups(s, 0, GROUPS)) == Span(|head|, GROUPS - |head| - |tail|)
  {
    HeadReads(head, s, text);
    TailSpan(ReadGroups(s, 0, GROUPS), tail, text);
  }

  lemma CompressedFollows(v: Octets16, s: bytes, span: Span)
    requires !Mapped(v) && FirstLongest(Segments(v), span) && span.len > 1
    requires s == Compressed(Segments(v), span) && Read6(s) == Some(Read(Segments(v), []))
    ensures Rfc5952(s)
  {
    var g := Segments(v);
    var head, tail := g[..span.start], g[span.start + span.len..];
    CompressedTidy(head, tail);
    CompressedReads(head, tail, s, PrintGroups(tail, 0));
    OctetsOfSegments(v);
  }

  lemma PrintedFollows(v: Octets16)
    ensures Read6(Print6(v)).Some? && Rfc5952(Print6(v))
  {
    var span := LongestZeros(Segments(v), 0, Span(0, 0), Span(0, 0));
    Print6Reads(v);
    LongestIsFirst(Segments(v));
    if Mapped(v) {
      MappedFollows(v, Print6(v));
    } else if span.len > 1 {
      CompressedFollows(v, Print6(v), span);
    } else {
      FullFollows(v, Print6(v), span);
    }
  }

  // What follows the rules is what is printed

  lemma TidySuffix(s: bytes, k: nat)
    requires Tidy(s) && k <= |s| && (k == |s| || s[k] != ZERO || k == 0 || s[k - 1] == COLON)
    ensures Tidy(s[k..])
  {
    var t := s[k..];
    forall i | 0 <= i < |t| - 1 ensures !LeadingZero(t, i) {
      assert !LeadingZero(s, k + i);
    }
  }

  /** A number at the start of a tidy text, as it is printed. */
  lemma NumberStrict(t: bytes)
    requires Tidy(t) && ReadNumber(t, 16, 4, 65535, true).Some?
    ensures var g := ReadNumber(t, 16, 4, 65535, true).value; t == Digits(g.value, 16) + g.rest && Tidy(g.rest)
  {
    var run := Run(t, 16);
    RunEnds(t, 16);
    assert |run| > 1 ==> HexDigit(run[1]) && !LeadingZero(t, 0);
    DigitsOfValue(run, 16);
    TidySuffix(t, |run|);
  }

  lemma GroupStrict(s: bytes, index: nat)
    requires Tidy(s) && ReadGroup(s, index).Some?
    ensures var g := ReadGroup(s, index).value; s == Lead(COLON, index) + (Digits(g.value, 16) + g.rest) && Tidy(g.rest)
  {
    LeadOfSeparated(s, COLON, index);
    TidySuffix(s, if index == 0 then 0 else 1);
    NumberStrict(Separated(s, COLON, index).value);
  }

  /** Without a dot, there is no IPv4 address. */
  lemma NoDotNoOctets(t: bytes)
    requires DOT !in t
    ensures Read4(t).None?
  {
    if Read4(t).Some? {
      Read4Strict(t);
      OctetsDot(Read4(t).value.value, 0);
    }
  }

  lemma GroupsPrintedCons(s: bytes, gs: seq<u16>, index: nat, later: bytes, rest: bytes)
    requires gs != [] && s == Lead(COLON, index) + (Digits(gs[0], 16) + later)
    requires later == PrintGroups(gs[1..], index + 1) + rest
    ensures s == PrintGroups(gs, index) + rest
  {
    PrintGroupsCons(gs, index, rest);
  }

  /** Without a dot, groups are read one by one. */
  lemma GroupsNext(s: bytes, index: nat, limit: nat)
    requires DOT !in s && index < limit
    ensures ReadGroup(s, index).None? ==> ReadGroups(s, index, limit) == Groups([], false, s)
    ensures ReadGroup(s, index).Some? ==>
              var g := ReadGroup(s, index).value;
              var more := ReadGroups(g.rest, index + 1, limit);
              ReadGroups(s, index, limit) == Groups([g.value] + more.value, more.endsInV4, more.rest)
  {
    if Separated(s, COLON, index).Some? {
      LeadOfSeparated(s, COLON, index);
      NoDotNoOctets(Separated(s, COLON, index).value);
    }
  }

  /** What reading tidy groups without a dotted end says of the text. */
  predicate Printed(s: bytes, index: nat, r: Groups)
  {
    !r.endsInV4 && s == PrintGroups(r.value, index) + r.rest && Tidy(r.rest) && DOT !in r.rest
  }

  lemma PrintedMore(s: bytes, index: nat, g: u16, rest: bytes, more: Groups)
    requires s == Lead(COLON, index) + (Digits(g, 16) + rest) && Printed(rest, index + 1, more)
    ensures Printed(s, index, Groups([g] + more.value, more.endsInV4, more.rest))
  {
    assert ([g] + more.value)[1..] == more.value;
    GroupsPrintedCons(s, [g] + more.value, index, rest, more.rest);
  }

  /** Tidy groups without a dotted end are what their values are printed as. */
  lemma {:induction false} GroupsStrict(s: bytes, index: nat, limit: nat)
    requires Tidy(s) && DOT !in s && index <= limit
    ensures Printed(s, index, ReadGroups(s, index, limit))
    decreases limit - index
  {
    assert PrintGroups([], index) + s == s;
    if index < limit {
      GroupsNext(s, index, limit);
      if ReadGroup(s, index).Some? {
        var g := ReadGroup(s, index).value;
        GroupStrict(s, index);
        GroupsStrict(g.rest, index + 1, limit);
        PrintedMore(s, index, g.value, g.rest, ReadGroups(g.rest, index + 1, limit));
      }
    }
  }

  lemma SegmentsOfOctets(g: Segments8)
    ensures Segments(OctetsOf(g)) == g
  {
  }

  /** The address `::ffff:` and an IPv4 address is read as. */
  function MappedOf(v4: Octets4): Octets16
  {
    [0, 0, 0, 0, 0, 0, 0, 0, 0, 0, 255, 255] + v4
  }

  lemma MappedPrinted(s: bytes, g: Segments8)
    requires Read6(s) == Some(Read(g, [])) && Rfc5952(s) && DOT in s
    ensures Print6(OctetsOf(g)) == s
  {
    var v4 := Read4(s[7..]).value.value;
    var v := MappedOf(v4);
    Read4Strict(s[7..]);
    assert s == MAPPED_PREFIX + s[7..] && s[7..] == Print4(v4) && v[12..] == v4 && v[..12] == v[..12];
    assert Mapped(v);
    Read6Mapped(v);
    OctetsOfSegments(v);
  }

  /** The groups that a text without a dotted end starts with, and what the rules say of them. */
  ghost predicate GoodHead(s: bytes, g: Segments8, head: Groups)
  {
    && |head.value| <= GROUPS && Read6After(head) == Some(Read(g, [])) && Printed(s, 0, head) && !Mapped(OctetsOf(g))
    && if |head.value| == GROUPS then NothingToShorten(g)
       else Shortened(head).len >= 2 && FirstLongest(g, Shortened(head))
  }

  lemma FullPrinted(s: bytes, g: Segments8, head: Groups)
    requires GoodHead(s, g, head) && |head.value| == GROUPS
    ensures Print6(OctetsOf(g)) == s
  {
    var span := LongestZeros(g, 0, Span(0, 0), Span(0, 0));
    SegmentsOfOctets(g);
    LongestIsFirst(g);
    ShortensIff(g, span);
    assert PrintGroups(g, 0) + [] == PrintGroups(g, 0);
  }

  lemma SplitExpanded(head: seq<u16>, tail: seq<u16>)
    requires |head| + |tail| <= GROUPS
    ensures Expanded(head, tail)[..|head|] == head && Expanded(head, tail)[GROUPS - |tail|..] == tail
  {
  }

  lemma JoinPieces(s: bytes, a: bytes, rest: bytes, text: bytes, b: bytes)
    requires s == a + rest && [COLON, COLON] <= rest && text == rest[2..] && text == b + []
    ensures s == a + ([COLON, COLON] + b)
  {
    assert rest == [COLON, COLON] + text && b + [] == b;
  }

  /** A tidy text with a double colon, from its parts. */
  lemma ShortenedText(s: bytes, head: Groups, text: bytes, tail: Groups)
    requires Printed(s, 0, head) && [COLON, COLON] <= head.rest
    requires text == head.rest[2..] && Printed(text, 0, tail) && tail.rest == []
    ensures s == PrintGroups(head.value, 0) + ([COLON, COLON] + PrintGroups(tail.value, 0))
  {
    JoinPieces(s, PrintGroups(head.value, 0), head.rest, text, PrintGroups(tail.value, 0));
  }

  lemma CompressedExpanded(head: seq<u16>, tail: seq<u16>, span: Span)
    requires |head| + |tail| <= GROUPS && span == Span(|head|, GROUPS - |head| - |tail|)
    requires ZeroSpan(Expanded(head, tail), span)
    ensures Compressed(Expanded(head, tail), span) == PrintGroups(head, 0) + ([COLON, COLON] + PrintGroups(tail, 0))
  {
    SplitExpanded(head, tail);
  }

  lemma PrintsCompressed(g: Segments8, span: Span)
    requires !Mapped(OctetsOf(g)) && FirstLongest(g, span) && span.len >= 2
    ensures Print6(OctetsOf(g)) == Compressed(g, span)
  {
    SegmentsOfOctets(g);
    LongestIsFirst(g);
    FirstLongestUnique(g, span, LongestZeros(g, 0, Span(0, 0), Span(0, 0)));
  }

  lemma ShortenedReads(g: Segments8, head: Groups, text: bytes, tail: Groups)
    requires |head.value| < GROUPS && Read6After(head) == Some(Read(g, [])) && |head.rest| >= 2
    requires text == head.rest[2..] && tail == ReadGroups(text, 0, GROUPS - 1 - |head.value|)
    ensures [COLON, COLON] <= head.rest && g == Expanded(head.value, tail.value) && tail.rest == []
  {
  }

  lemma ShortenedPrinted(s: bytes, g: Segments8, head: Groups)
    requires GoodHead(s, g, head) && |head.value| < GROUPS
    ensures Print6(OctetsOf(g)) == s
  {
    var text := head.rest[2..];
    var tail := ReadGroups(text, 0, GROUPS - 1 - |head.value|);
    ShortenedReads(g, head, text, tail);
    TidySuffix(head.rest, 2);
    GroupsStrict(text, 0, GROUPS - 1 - |head.value|);
    ShortenedText(s, head, text, tail);
    PrintsCompressed(g, Shortened(head));
    CompressedExpanded(head.value, tail.value, Shortened(head));
  }

  lemma FollowsPrinted(s: bytes, g: Segments8)
    requires Read6(s) == Some(Read(g, [])) && Rfc5952(s)
    ensures Print6(OctetsOf(g)) == s
  {
    if DOT in s {
      MappedPrinted(s, g);
    } else {
      var head := ReadGroups(s, 0, GROUPS);
      GroupsStrict(s, 0, GROUPS);
      if |head.value| == GROUPS {
        FullPrinted(s, g, head);
      } else {
        ShortenedPrinted(s, g, head);
      }
    }
  }

  /** A text read as an IPv6 address is the one it is printed as exactly when it follows section 4 of RFC 5952. */
  lemma Rfc5952Iff(s: bytes)
    requires Parse(s).Some? && Parse(s).value.V6?
    ensures Read6(s).Some? && (Print(Parse(s).value) == s <==> Rfc5952(s))
  {
    var g := Read6(s).value.value;
    PrintedFollows(OctetsOf(g));
    if Rfc5952(s) {
      FollowsPrinted(s, g);
    }
  }

  /** An IPv4 address has one text only. */
  lemma OneText(s: bytes)
    requires Parse(s).Some? && Parse(s).value.V4?
    ensures Print(Parse(s).value) == s
  {
    Read4Strict(s);
    assert Print4(Parse(s).value.v4) + [] == Print4(Parse(s).value.v4);
  }
}
