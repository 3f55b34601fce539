/** How a stream is cut into reads, and what that matters to `read_and_validate` (src/listener.rs): when every cutting
    gives the outcome of the whole stream parsed once, when all cuttings agree, and how large the buffer can get. */
module Chunking {
  import opened Octets
  import opened Types
  import opened Listener
  import Builder
  import Parser
  import RoundTrip
  import V1

  /** Every read finds bytes or the end of the stream in time. */
  ghost predicate AllReady(schedule: Schedule)
  {
    forall k :: schedule(k).Ready?
  }

  /** What the application gets to see of a handshake: the error, or the header and the bytes it will read. */
  function Observed(h: Handshake): Decision
  {
    match h.decision
    case Ok(a) => Ok(Accepted(a.leftover + h.pending, a.info))
    case Err(e) => Err(e)
  }

  /** The outcome of parsing the whole stream once. */
  function Whole(parse: StreamParser, cfg: Config, peer: SocketAddr, required: bool, stream: bytes): Decision
    requires Parser.Bounded(parse)
  {
    if stream == [] then Err(EmptyConnection(peer)) else Judged(cfg, peer, required, stream, parse(stream))
  }

  /** If the stream gives the parser an answer at all, the bytes that fit the room do. */
  predicate Decided(parse: StreamParser, stream: bytes, room: nat)
  {
    parse(stream[..Min(room, |stream|)]) == Err(Incomplete) ==> parse(stream) == Err(Incomplete)
  }

  /** What holds of the buffer whenever the loop reads. */
  predicate Waiting(parse: StreamParser, cfg: Config, buf: bytes)
  {
    buf == [] || ReadsOn(parse, cfg, buf)
  }

  lemma JudgedWhole(parse: StreamParser, cfg: Config, peer: SocketAddr, required: bool, buf: bytes, pending: bytes)
    requires Parser.Bounded(parse) && Parser.Stable(parse) && buf != [] && parse(buf) != Err(Incomplete)
    ensures Observed(Handshake(Judged(cfg, peer, required, buf, parse(buf)), pending))
         == Whole(parse, cfg, peer, required, buf + pending)
  {
    assert parse(buf + pending) == parse(buf);
    if parse(buf).Ok? {
      var n := parse(buf).value.consumed;
      assert (buf + pending)[n..] == buf[n..] + pending;
    }
  }

  /** A buffer that fills the room without an answer is the whole story. */
  lemma FullMeansIncomplete(parse: StreamParser, cfg: Config, buf: bytes, pending: bytes)
    requires Parser.Stable(parse) && Decided(parse, buf + pending, Room(cfg))
    requires parse(buf) == Err(Incomplete) && |buf| >= Room(cfg)
    ensures parse(buf + pending) == Err(Incomplete)
  {
    var fit := (buf + pending)[..Room(cfg)];
    assert fit + buf[Room(cfg)..] == buf;
  }

  /** The last round: its buffer decides, or is all there is room for. */
  lemma LastRoundWhole(parse: StreamParser, cfg: Config, peer: SocketAddr, required: bool, buf: bytes, pending: bytes)
    requires Parser.Bounded(parse) && Parser.Stable(parse) && Decided(parse, buf + pending, Room(cfg))
    requires buf != [] && !ReadsOn(parse, cfg, buf)
    ensures Observed(Handshake(Judged(cfg, peer, required, buf, parse(buf)), pending))
         == Whole(parse, cfg, peer, required, buf + pending)
  {
    if parse(buf) != Err(Incomplete) {
      JudgedWhole(parse, cfg, peer, required, buf, pending);
    } else {
      FullMeansIncomplete(parse, cfg, buf, pending);
    }
  }

  /** The loop from any of its states: however the rest arrives, the outcome is that of the whole stream. */
  lemma {:induction false} LoopWhole(parse: StreamParser, cfg: Config, peer: SocketAddr, required: bool,
                                     schedule: Schedule, k: nat, buf: bytes, pending: bytes)
    requires Parser.Bounded(parse) && Parser.Stable(parse) && AllReady(schedule)
    requires Waiting(parse, cfg, buf) && Decided(parse, buf + pending, Room(cfg))
    ensures Observed(ReadLoop(parse, cfg, peer, required, schedule, k, buf, pending))
         == Whole(parse, cfg, peer, required, buf + pending)
    decreases |pending|
  {
    if pending == [] {
      assert buf + pending == buf;
    } else {
      var n := Min(schedule(k).limit, |pending|);
      var buf' := buf + pending[..n];
      assert buf + pending == buf' + pending[n..];
      if ReadsOn(parse, cfg, buf') {
        LoopWhole(parse, cfg, peer, required, schedule, k + 1, buf', pending[n..]);
      } else {
        LastRoundWhole(parse, cfg, peer, required, buf', pending[n..]);
      }
    }
  }

  /** The slowest peer: one byte at a time. */
  const DRIP: Schedule := k => Ready(1)

  /** Fed byte by byte, the loop gives up when the room is full. */
  lemma {:induction false} DripGivesUp(parse: StreamParser, cfg: Config, peer: SocketAddr, required: bool,
                                       stream: bytes, i: nat)
    requires Parser.Bounded(parse) && Parser.Stable(parse)
    requires i < Room(cfg) <= |stream| && parse(stream[..Room(cfg)]) == Err(Incomplete)
    ensures ReadLoop(parse, cfg, peer, required, DRIP, i, stream[..i], stream[i..])
         == Handshake(Err(ParseFailed(Incomplete, peer)), stream[Room(cfg)..])
    decreases Room(cfg) - i
  {
    var buf', rest := stream[..i + 1], stream[i + 1..];
    assert stream[..i] + stream[i..][..1] == buf' && stream[i..][1..] == rest;
    assert parse(buf') == Err(Incomplete) by {
      assert buf' + stream[i + 1..Room(cfg)] == stream[..Room(cfg)];
    }
    if i + 1 < Room(cfg) {
      DripGivesUp(parse, cfg, peer, required, stream, i + 1);
    }
  }

  /** Every cutting of the stream into timely reads gives the outcome of the whole stream parsed once. */
  ghost predicate Independent(parse: StreamParser, cfg: Config, peer: SocketAddr, required: bool, stream: bytes)
    requires Parser.Bounded(parse)
  {
    forall schedule | AllReady(schedule) ::
      Observed(ReadLoop(parse, cfg, peer, required, schedule, 0, [], stream))
        == Whole(parse, cfg, peer, required, stream)
  }

  /** Chunking independence, for any parser usable on a stream: it holds exactly when the room decides. */
  lemma IndependentIff(parse: StreamParser, cfg: Config, peer: SocketAddr, required: bool, stream: bytes)
    requires Parser.Bounded(parse) && Parser.Stable(parse)
    ensures Independent(parse, cfg, peer, required, stream) <==> Decided(parse, stream, Room(cfg))
  {
    if Decided(parse, stream, Room(cfg)) {
      forall schedule | AllReady(schedule)
        ensures Observed(ReadLoop(parse, cfg, peer, required, schedule, 0, [], stream))
             == Whole(parse, cfg, peer, required, stream)
      {
        assert [] + stream == stream;
        LoopWhole(parse, cfg, peer, required, schedule, 0, [], stream);
      }
    } else {
      assert stream[..|stream|] == stream;
      assert stream[..0] == [] && stream[0..] == stream;
      DripGivesUp(parse, cfg, peer, required, stream, 0);
      assert AllReady(DRIP);
    }
  }

  /** For a stream that starts with a header, a prefix decides exactly when it holds the header. */
  lemma PrefixDecidesIff(parse: StreamParser, stream: bytes, m: nat)
    requires Parser.Bounded(parse) && Parser.Stable(parse) && Parser.Minimal(parse) && parse(stream).Ok?
    ensures parse(stream[..Min(m, |stream|)]) == Err(Incomplete) <==> m < parse(stream).value.consumed
  {
    var n := parse(stream).value.consumed;
    if n <= m {
      var k := Min(m, |stream|);
      assert stream[..n] + stream[n..k] == stream[..k];
    }
  }

  /** For a stream that starts with a header, the room decides exactly when the header fits it. */
  lemma HeaderDecidedIff(parse: StreamParser, stream: bytes, room: nat)
    requires Parser.Bounded(parse) && Parser.Stable(parse) && Parser.Minimal(parse) && parse(stream).Ok?
    ensures Decided(parse, stream, room) <==> parse(stream).value.consumed <= room
  {
    PrefixDecidesIff(parse, stream, room);
  }

  /** `read_and_validate` on a stream that starts with a header: every cutting into timely reads gives the outcome of
      the whole stream exactly when the header is no longer than `max_header_size`. */
  lemma HeaderIndependentIff(cfg: Config, peer: SocketAddr, required: bool, stream: bytes)
    requires Parser.Parse(stream).Ok?
    ensures Parser.Bounded(Parser.Parse)
    ensures Independent(Parser.Parse, cfg, peer, required, stream) <==> Parser.Parse(stream).value.consumed <= Room(cfg)
  {
    Parser.ParseStable();
    Parser.ParseMinimal();
    IndependentIff(Parser.Parse, cfg, peer, required, stream);
    HeaderDecidedIff(Parser.Parse, stream, Room(cfg));
  }

  /** `read_and_validate` on any stream. */
  lemma ReadIndependentIff(cfg: Config, peer: SocketAddr, required: bool, stream: bytes)
    ensures Parser.Bounded(Parser.Parse)
    ensures Independent(Parser.Parse, cfg, peer, required, stream) <==> Decided(Parser.Parse, stream, Room(cfg))
    ensures cfg.maxHeaderSize >= 65551 ==> Independent(Parser.Parse, cfg, peer, required, stream)
  {
    Parser.ParseStable();
    Parser.ParseMinimal();
    IndependentIff(Parser.Parse, cfg, peer, required, stream);
    if cfg.maxHeaderSize >= 65551 {
      if |stream| <= Room(cfg) {
        assert stream[..|stream|] == stream;
      } else {
        Parser.ParseDecides(stream[..Room(cfg)]);
      }
    }
  }

  // Cuttings against each other

  /** All cuttings of the stream into timely reads give the same outcome. */
  ghost predicate Agree(parse: StreamParser, cfg: Config, peer: SocketAddr, required: bool, stream: bytes)
    requires Parser.Bounded(parse)
  {
    forall a, b | AllReady(a) && AllReady(b) ::
      Observed(ReadLoop(parse, cfg, peer, required, a, 0, [], stream))
        == Observed(ReadLoop(parse, cfg, peer, required, b, 0, [], stream))
  }

  /** What the loop says if nothing it can get into its buffer decides. */
  function GivenUp(peer: SocketAddr, stream: bytes): Decision
  {
    Err(if stream == [] then EmptyConnection(peer) else ParseFailed(Incomplete, peer))
  }

  /** The largest buffer there can be does not decide. */
  predicate OutOfReach(parse: StreamParser, cfg: Config, stream: bytes)
  {
    parse(stream[..Min(Room(cfg) + 255, |stream|)]) == Err(Incomplete)
  }

  lemma WithinReach(parse: StreamParser, cfg: Config, buf: bytes, pending: bytes)
    requires Parser.Stable(parse) && OutOfReach(parse, cfg, buf + pending) && |buf| <= Room(cfg) + 255
    ensures parse(buf) == Err(Incomplete)
  {
    var reach := (buf + pending)[..Min(Room(cfg) + 255, |buf + pending|)];
    assert buf + reach[|buf|..] == reach;
  }

  /** If not even the largest buffer decides, every cutting is given up on. */
  lemma {:induction false} LoopGivesUp(parse: StreamParser, cfg: Config, peer: SocketAddr, required: bool,
                                       schedule: Schedule, k: nat, buf: bytes, pending: bytes)
    requires Parser.Bounded(parse) && Parser.Stable(parse) && AllReady(schedule)
    requires Waiting(parse, cfg, buf) && OutOfReach(parse, cfg, buf + pending)
    ensures Observed(ReadLoop(parse, cfg, peer, required, schedule, k, buf, pending)) == GivenUp(peer, buf + pending)
    decreases |pending|
  {
    if pending == [] {
      assert buf + pending == buf;
    } else {
      var n := Min(schedule(k).limit, |pending|);
      var buf' := buf + pending[..n];
      assert buf + pending == buf' + pending[n..];
      WithinReach(parse, cfg, buf', pending[n..]);
      if ReadsOn(parse, cfg, buf') {
        LoopGivesUp(parse, cfg, peer, required, schedule, k + 1, buf', pending[n..]);
      }
    }
  }

  /** A peer that sends `m` single bytes, and then up to `limit` at a time. */
  function Rush(m: nat, limit: ReadLimit): Schedule
  {
    (k: nat) => if k < m then ReadOutcome.Ready(1) else ReadOutcome.Ready(limit)
  }

  /** The single bytes do not end the loop, as long as they do not decide. */
  lemma {:induction false} RushWaits(parse: StreamParser, cfg: Config, peer: SocketAddr, required: bool, stream: bytes,
                                     m: nat, limit: ReadLimit, i: nat)
    requires Parser.Bounded(parse) && Parser.Stable(parse)
    requires i <= m <= |stream| && (m == 0 || m < cfg.maxHeaderSize) && parse(stream[..m]) == Err(Incomplete)
    ensures ReadLoop(parse, cfg, peer, required, Rush(m, limit), i, stream[..i], stream[i..])
         == ReadLoop(parse, cfg, peer, required, Rush(m, limit), m, stream[..m], stream[m..])
    decreases m - i
  {
    if i < m {
      var buf', rest := stream[..i + 1], stream[i + 1..];
      assert stream[..i] + stream[i..][..1] == buf' && stream[i..][1..] == rest;
      assert parse(buf') == Err(Incomplete) by {
        assert buf' + stream[i + 1..m] == stream[..m];
      }
      RushWaits(parse, cfg, peer, required, stream, m, limit, i + 1);
    }
  }

  /** A read that decides. */
  lemma ReadDecides(parse: StreamParser, cfg: Config, peer: SocketAddr, required: bool, schedule: Schedule, k: nat,
                    buf: bytes, pending: bytes)
    requires Parser.Bounded(parse) && Parser.Stable(parse) && pending != [] && schedule(k).Ready?
    requires parse(buf + pending[..Min(schedule(k).limit, |pending|)]) != Err(Incomplete)
    ensures Observed(ReadLoop(parse, cfg, peer, required, schedule, k, buf, pending))
         == Whole(parse, cfg, peer, required, buf + pending)
  {
    var n := Min(schedule(k).limit, |pending|);
    assert buf + pending == (buf + pending[..n]) + pending[n..];
    JudgedWhole(parse, cfg, peer, required, buf + pending[..n], pending[n..]);
  }

  /** Single bytes that do not decide, and then a full read that does. */
  lemma RushLast(parse: StreamParser, cfg: Config, peer: SocketAddr, required: bool, stream: bytes, m: nat)
    requires Parser.Bounded(parse) && Parser.Stable(parse) && m < |stream| && (m == 0 || m < cfg.maxHeaderSize)
    requires parse(stream[..m]) == Err(Incomplete) && parse(stream[..Min(m + 256, |stream|)]) != Err(Incomplete)
    ensures Observed(ReadLoop(parse, cfg, peer, required, Rush(m, 256), 0, [], stream))
         == Whole(parse, cfg, peer, required, stream)
  {
    var buf, pending := stream[..m], stream[m..];
    assert stream[..0] == [] && stream[0..] == stream && buf + pending == stream;
    RushWaits(parse, cfg, peer, required, stream, m, 256, 0);
    assert buf + pending[..Min(256, |pending|)] == stream[..Min(m + 256, |stream|)];
    ReadDecides(parse, cfg, peer, required, Rush(m, 256), m, buf, pending);
  }

  /** A peer that fills the room but for one byte and then sends a full read gets the most into the buffer there can be;
      if that decides, the outcome is that of the whole stream. */
  lemma RushDecides(parse: StreamParser, cfg: Config, peer: SocketAddr, required: bool, stream: bytes)
    requires Parser.Bounded(parse) && Parser.Stable(parse)
    requires Room(cfg) < |stream| && parse(stream[..Room(cfg)]) == Err(Incomplete) && !OutOfReach(parse, cfg, stream)
    ensures Observed(ReadLoop(parse, cfg, peer, required, Rush(Room(cfg) - 1, 256), 0, [], stream))
         == Whole(parse, cfg, peer, required, stream)
  {
    var m := Room(cfg) - 1;
    assert parse(stream[..m]) == Err(Incomplete) by {
      assert stream[..m] + stream[m..m + 1] == stream[..Room(cfg)];
    }
    RushLast(parse, cfg, peer, required, stream, m);
  }

  lemma DecidesInReach(parse: StreamParser, cfg: Config, stream: bytes)
    requires Parser.Stable(parse) && parse(stream[..Min(Room(cfg), |stream|)]) == Err(Incomplete)
    requires !OutOfReach(parse, cfg, stream)
    ensures parse(stream) != Err(Incomplete) && Room(cfg) < |stream|
  {
    var reach := Min(Room(cfg) + 255, |stream|);
    assert stream[..reach] + stream[reach..] == stream;
    assert stream[..|stream|] == stream;
  }

  /** If the stream decides only past the room, but within a full read of it, then it depends on the cutting: byte by
      byte the loop gives up, and a peer that sends the last bytes at once gets the outcome of the whole stream. */
  lemma CuttingMatters(parse: StreamParser, cfg: Config, peer: SocketAddr, required: bool, stream: bytes)
    requires Parser.Bounded(parse) && Parser.Stable(parse)
    requires parse(stream[..Min(Room(cfg), |stream|)]) == Err(Incomplete) && !OutOfReach(parse, cfg, stream)
    ensures Observed(ReadLoop(parse, cfg, peer, required, DRIP, 0, [], stream)) == Err(ParseFailed(Incomplete, peer))
    ensures Observed(ReadLoop(parse, cfg, peer, required, Rush(Room(cfg) - 1, 256), 0, [], stream))
         == Whole(parse, cfg, peer, required, stream) != Err(ParseFailed(Incomplete, peer))
  {
    DecidesInReach(parse, cfg, stream);
    assert stream[..0] == [] && stream[0..] == stream;
    DripGivesUp(parse, cfg, peer, required, stream, 0);
    RushDecides(parse, cfg, peer, required, stream);
  }

  /** All cuttings agree exactly when the room decides, or when no buffer can. */
  lemma AgreeIff(parse: StreamParser, cfg: Config, peer: SocketAddr, required: bool, stream: bytes)
    requires Parser.Bounded(parse) && Parser.Stable(parse)
    ensures Agree(parse, cfg, peer, required, stream)
            <==> parse(stream[..Min(Room(cfg), |stream|)]) != Err(Incomplete) || OutOfReach(parse, cfg, stream)
  {
    assert [] + stream == stream;
    if parse(stream[..Min(Room(cfg), |stream|)]) != Err(Incomplete) {
      IndependentIff(parse, cfg, peer, required, stream);
    } else if OutOfReach(parse, cfg, stream) {
      forall s | AllReady(s)
        ensures Observed(ReadLoop(parse, cfg, peer, required, s, 0, [], stream)) == GivenUp(peer, stream)
      {
        LoopGivesUp(parse, cfg, peer, required, s, 0, [], stream);
      }
    } else {
      CuttingMatters(parse, cfg, peer, required, stream);
      assert AllReady(DRIP) && AllReady(Rush(Room(cfg) - 1, 256));
    }
  }

  lemma AgreeOnHeaderIff(parse: StreamParser, cfg: Config, peer: SocketAddr, required: bool, stream: bytes)
    requires Parser.Bounded(parse) && Parser.Stable(parse) && Parser.Minimal(parse) && parse(stream).Ok?
    ensures var n := parse(stream).value.consumed;
            Agree(parse, cfg, peer, required, stream) <==> n <= Room(cfg) || n > Room(cfg) + 255
  {
    AgreeIff(parse, cfg, peer, required, stream);
    PrefixDecidesIff(parse, stream, Room(cfg));
    PrefixDecidesIff(parse, stream, Room(cfg) + 255);
  }

  /** `read_and_validate` on a stream that starts with a header of `n` bytes: all cuttings into timely reads agree
      exactly when the header fits `max_header_size`, or exceeds it by more than 255 bytes; then all refuse it. */
  lemma HeaderAgreeIff(cfg: Config, peer: SocketAddr, required: bool, stream: bytes)
    requires Parser.Parse(stream).Ok?
    ensures Parser.Bounded(Parser.Parse)
    ensures var n := Parser.Parse(stream).value.consumed;
            Agree(Parser.Parse, cfg, peer, required, stream) <==> n <= Room(cfg) || n > Room(cfg) + 255
  {
    Parser.ParseStable();
    Parser.ParseMinimal();
    AgreeOnHeaderIff(Parser.Parse, cfg, peer, required, stream);
  }

  /** A header that exceeds the room by more than 255 bytes is refused, however it arrives. */
  lemma TooLongRefused(cfg: Config, peer: SocketAddr, required: bool, stream: bytes, schedule: Schedule)
    requires Parser.Parse(stream).Ok? && Parser.Parse(stream).value.consumed > Room(cfg) + 255 && AllReady(schedule)
    ensures Parser.Bounded(Parser.Parse)
    ensures Observed(ReadLoop(Parser.Parse, cfg, peer, required, schedule, 0, [], stream))
         == Err(ParseFailed(Incomplete, peer))
  {
    Parser.ParseStable();
    Parser.ParseMinimal();
    PrefixDecidesIff(Parser.Parse, stream, Room(cfg) + 255);
    assert [] + stream == stream;
    LoopGivesUp(Parser.Parse, cfg, peer, required, schedule, 0, [], stream);
  }

  /** A stream that is one short header, with less room than that: byte by byte it is refused, and at once it gets what
      version and validator say of it, which is to be let in if they do not object. */
  lemma CuttingCanMatter(cfg: Config, peer: SocketAddr, required: bool)
    requires cfg.maxHeaderSize < 15
    ensures Parser.Bounded(Parser.Parse)
    ensures var stream := Builder.BuildV1(UNKNOWN);
            && Observed(ReadLoop(Parser.Parse, cfg, peer, required, DRIP, 0, [], stream))
              == Err(ParseFailed(Incomplete, peer))
            && Observed(ReadLoop(Parser.Parse, cfg, peer, required, Rush(Room(cfg) - 1, 256), 0, [], stream))
               == Checked(cfg, peer, V1.Unknown(), [])
            && (cfg.version != V2Only && cfg.validator.None?
                ==> Checked(cfg, peer, V1.Unknown(), []) == Ok(Accepted([], Some(V1.Unknown()))))
  {
    var stream := Builder.BuildV1(UNKNOWN);
    RoundTrip.V1RoundTrip(UNKNOWN, []);
    assert stream + [] == stream && |stream| == 15 && stream[15..] == [];
    Parser.ParseStable();
    Parser.ParseMinimal();
    PrefixDecidesIff(Parser.Parse, stream, Room(cfg));
    PrefixDecidesIff(Parser.Parse, stream, Room(cfg) + 255);
    CuttingMatters(Parser.Parse, cfg, peer, required, stream);
  }

  const UNKNOWN: Builder.Plan := Builder.Plan(Version1, Proxy, None, None, None, [], false)
}
