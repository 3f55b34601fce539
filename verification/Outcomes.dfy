/** What `accept` (src/listener.rs) decides, case by case and written out, for every policy and every way the bytes
    arrive. */
module Outcomes {
  import opened Octets
  import opened Types
  import opened Listener
  import opened Proxied
  import Chunking
  import EndToEnd
  import Parser

  // When every read is timely

  /** The bytes that fit the room. */
  function Fitting(cfg: Config, stream: bytes): bytes
  {
    stream[..Min(Room(cfg), |stream|)]
  }

  /** The connection is let in with this header or none, and its bytes from the `n`-th on are for the application. */
  predicate LetIn(h: Handshake, info: Option<ProxyInfo>, stream: bytes, n: nat)
  {
    && h.decision.Ok? && h.decision.value.info == info
    && n <= |stream| && h.decision.value.leftover + h.pending == stream[n..]
  }

  /** What becomes of a header: the wrong version is refused, then what the validator refuses; the rest is let in. */
  predicate HeaderOutcome(h: Handshake, cfg: Config, peer: SocketAddr, info: ProxyInfo, stream: bytes, n: nat)
  {
    if (cfg.version == V1Only && info.version == Version2) || (cfg.version == V2Only && info.version == Version1)
    then h.decision == Err(VersionMismatch(peer))
    else if cfg.validator.Some? && cfg.validator.value(info, peer).Some?
    then h.decision == Err(ValidationFailed(cfg.validator.value(info, peer).value, peer))
    else LetIn(h, Some(info), stream, n)
  }

  /** What becomes of a connection that has a permit, by what the parser says of the bytes. */
  predicate Outcome(h: Handshake, cfg: Config, peer: SocketAddr, required: bool, stream: bytes, answer: ParseResult)
  {
    match answer
    case Ok(Parsed(info, n)) => HeaderOutcome(h, cfg, peer, info, stream, n)
    case Err(NotProxyProtocol) =>
      if required then h.decision == Err(ParseFailed(NotProxyProtocol, peer)) else LetIn(h, None, stream, 0)
    case Err(e) => h.decision == Err(if stream == [] then EmptyConnection(peer) else ParseFailed(e, peer))
  }

  lemma WholeOutcome(parse: StreamParser, cfg: Config, peer: SocketAddr, required: bool, stream: bytes, h: Handshake)
    requires Parser.Bounded(parse) && Chunking.Observed(h) == Chunking.Whole(parse, cfg, peer, required, stream)
    ensures Outcome(h, cfg, peer, required, stream, parse(stream))
  {
    assert stream[0..] == stream;
  }

  /** With timely reads, for any parser usable on a stream: if the bytes that fit decide, or no more bytes come, the
      outcome is that of all bytes. */
  lemma LoopOutcome(parse: StreamParser, cfg: Config, peer: SocketAddr, required: bool, schedule: Schedule,
                    stream: bytes)
    requires Parser.Bounded(parse) && Parser.Stable(parse) && Chunking.AllReady(schedule)
    requires parse(Fitting(cfg, stream)) != Err(Incomplete) || |stream| <= Room(cfg)
    ensures var h := ReadLoop(parse, cfg, peer, required, schedule, 0, [], stream);
            Outcome(h, cfg, peer, required, stream, parse(Fitting(cfg, stream)))
  {
    var fit := Fitting(cfg, stream);
    assert stream == fit + stream[|fit|..];
    if |stream| <= Room(cfg) {
      assert fit == stream;
    }
    assert parse(stream) == parse(fit);
    Chunking.IndependentIff(parse, cfg, peer, required, stream);
    WholeOutcome(parse, cfg, peer, required, stream, ReadLoop(parse, cfg, peer, required, schedule, 0, [], stream));
  }

  /** `accept` under `Require` or `Use`, with a permit and timely reads. */
  lemma TimelyOutcome(cfg: Config, peer: SocketAddr, schedule: Schedule, stream: bytes)
    requires cfg.policy(peer) == Require || cfg.policy(peer) == Use
    requires Chunking.AllReady(schedule)
    requires Parser.Parse(Fitting(cfg, stream)) != Err(Incomplete) || |stream| <= Room(cfg)
    ensures Parser.Bounded(Parser.Parse)
    ensures Outcome(Accept(Parser.Parse, cfg, peer, Granted, schedule, stream), cfg, peer,
                    cfg.policy(peer) == Require, stream, Parser.Parse(Fitting(cfg, stream)))
  {
    Parser.ParseStable();
    Parser.ParseMinimal();
    LoopOutcome(Parser.Parse, cfg, peer, cfg.policy(peer) == Require, schedule, stream);
  }

  /** A connection that does not start with a header: under `Use` it is let in, and the application can read all of
      it; under `Require` it is refused. */
  lemma WithoutHeader(cfg: Config, peer: SocketAddr, schedule: Schedule, stream: bytes, requests: seq<Request>)
    requires cfg.policy(peer) == Require || cfg.policy(peer) == Use
    requires Chunking.AllReady(schedule) && Parser.Parse(Fitting(cfg, stream)) == Err(NotProxyProtocol)
    requires UsefulCount(requests) >= |stream|
    ensures Parser.Bounded(Parser.Parse)
    ensures var h := Accept(Parser.Parse, cfg, peer, Granted, schedule, stream);
            if cfg.policy(peer) == Use
            then h.decision.Ok? && h.decision.value.info == None && EndToEnd.Seen(h, requests) == stream
            else h.decision == Err(ParseFailed(NotProxyProtocol, peer))
  {
    TimelyOutcome(cfg, peer, schedule, stream);
    var h := Accept(Parser.Parse, cfg, peer, Granted, schedule, stream);
    if cfg.policy(peer) == Use {
      PollsComplete(Source(h.decision.value.leftover, 0, h.pending), requests);
    }
  }

  /** Under `Ignore` every connection is let in without a header and with all its bytes, and under `Reject` none is,
      whatever permits there are and however the bytes arrive. */
  lemma WithoutReading(cfg: Config, peer: SocketAddr, permit: Permit, schedule: Schedule, stream: bytes)
    ensures Parser.Bounded(Parser.Parse)
    ensures var h := Accept(Parser.Parse, cfg, peer, permit, schedule, stream);
            && (cfg.policy(peer) == Ignore ==> LetIn(h, None, stream, 0))
            && (cfg.policy(peer) == Reject ==> h.decision == Err(Rejected(peer)))
  {
    Parser.ParseMinimal();
    assert [] + stream == stream && stream[0..] == stream;
  }

  /** Byte by byte, exactly `max_header_size` bytes are read before a header is given up that needs more. */
  lemma GivenUp(cfg: Config, peer: SocketAddr, stream: bytes)
    requires cfg.policy(peer) == Require || cfg.policy(peer) == Use
    requires 1 <= cfg.maxHeaderSize <= |stream| && Parser.Parse(stream[..cfg.maxHeaderSize]) == Err(Incomplete)
    ensures Parser.Bounded(Parser.Parse)
    ensures Accept(Parser.Parse, cfg, peer, Granted, k => Ready(1), stream)
         == Handshake(Err(ParseFailed(Incomplete, peer)), stream[cfg.maxHeaderSize..])
  {
    Parser.ParseStable();
    Parser.ParseMinimal();
    assert stream[..0] == [] && stream[0..] == stream;
    Chunking.DripGivesUp(Parser.Parse, cfg, peer, cfg.policy(peer) == Require, stream, 0);
  }

  // When the permit or a read is not timely

  /** How many bytes the first `k` reads bring. */
  function Arrived(schedule: Schedule, k: nat, stream: bytes): (n: nat)
    ensures n <= |stream|
  {
    if k == 0 then 0
    else
      var before := Arrived(schedule, k - 1, stream);
      if schedule(k - 1).Ready? then Min(before + schedule(k - 1).limit, |stream|) else before
  }

  /** The `j`-th read brings bytes, and they are not enough and do not fill the room. */
  predicate GoesOn(parse: StreamParser, cfg: Config, schedule: Schedule, j: nat, stream: bytes)
  {
    && schedule(j).Ready? && Arrived(schedule, j, stream) < |stream|
    && ReadsOn(parse, cfg, stream[..Arrived(schedule, j + 1, stream)])
  }

  ghost predicate StillReading(parse: StreamParser, cfg: Config, schedule: Schedule, k: nat, stream: bytes)
  {
    forall j: nat :: j < k ==> GoesOn(parse, cfg, schedule, j, stream)
  }

  lemma LoopStep(parse: StreamParser, cfg: Config, peer: SocketAddr, required: bool, schedule: Schedule, k: nat,
                 stream: bytes, m: nat, n: nat)
    requires Parser.Bounded(parse) && m < |stream| && schedule(k).Ready? && n == Min(m + schedule(k).limit, |stream|)
    requires ReadsOn(parse, cfg, stream[..n])
    ensures ReadLoop(parse, cfg, peer, required, schedule, k, stream[..m], stream[m..])
         == ReadLoop(parse, cfg, peer, required, schedule, k + 1, stream[..n], stream[n..])
  {
    assert stream[..m] + stream[m..][..n - m] == stream[..n] && stream[m..][n - m..] == stream[n..];
  }

  /** After `k` reads the loop is on its way to `goal`. */
  predicate At(goal: Handshake, parse: StreamParser, cfg: Config, peer: SocketAddr, required: bool, schedule: Schedule,
               k: nat, stream: bytes)
    requires Parser.Bounded(parse)
  {
    var n := Arrived(schedule, k, stream);
    goal == ReadLoop(parse, cfg, peer, required, schedule, k, stream[..n], stream[n..])
  }

  lemma OneMore(goal: Handshake, parse: StreamParser, cfg: Config, peer: SocketAddr, required: bool,
                schedule: Schedule, i: nat, stream: bytes)
    requires Parser.Bounded(parse) && GoesOn(parse, cfg, schedule, i, stream)
    requires At(goal, parse, cfg, peer, required, schedule, i, stream)
    ensures At(goal, parse, cfg, peer, required, schedule, i + 1, stream)
  {
    LoopStep(parse, cfg, peer, required, schedule, i, stream, Arrived(schedule, i, stream),
             Arrived(schedule, i + 1, stream));
  }

  lemma {:induction false} StepByStep(holds: nat -> bool, i: nat, k: nat)
    requires i <= k && holds(i) && forall j: nat :: i <= j < k && holds(j) ==> holds(j + 1)
    ensures holds(k)
    decreases k - i
  {
    if i < k {
      StepByStep(holds, i + 1, k);
    }
  }

  lemma ReadsReach(goal: Handshake, parse: StreamParser, cfg: Config, peer: SocketAddr, required: bool,
                   schedule: Schedule, k: nat, stream: bytes)
    requires Parser.Bounded(parse) && StillReading(parse, cfg, schedule, k, stream)
    requires At(goal, parse, cfg, peer, required, schedule, 0, stream)
    ensures At(goal, parse, cfg, peer, required, schedule, k, stream)
  {
    var holds := (j: nat) => At(goal, parse, cfg, peer, required, schedule, j, stream);
    forall j: nat | j < k && holds(j) ensures holds(j + 1) {
      assert GoesOn(parse, cfg, schedule, j, stream);
      OneMore(goal, parse, cfg, peer, required, schedule, j, stream);
    }
    StepByStep(holds, 0, k);
  }

  /** A read that times out or fails ends the connection, whatever has been read; so does the end of the stream. */
  lemma Interrupted(parse: StreamParser, cfg: Config, peer: SocketAddr, required: bool, schedule: Schedule, k: nat,
                    stream: bytes)
    requires Parser.Bounded(parse) && StillReading(parse, cfg, schedule, k, stream)
    ensures var d := ReadLoop(parse, cfg, peer, required, schedule, 0, [], stream).decision;
            && (schedule(k) == TimedOut ==> d == Err(HeaderTimeout(peer)))
            && (schedule(k) == Failed ==> d == Err(Io))
            && (schedule(k).Ready? && Arrived(schedule, k, stream) == |stream| ==>
                  d == Err(if stream == [] then EmptyConnection(peer) else ParseFailed(Incomplete, peer)))
  {
    var goal := ReadLoop(parse, cfg, peer, required, schedule, 0, [], stream);
    assert stream[..0] == [] && stream[0..] == stream;
    ReadsReach(goal, parse, cfg, peer, required, schedule, k, stream);
  }

  /** `accept` without a permit, and with one when a read is not timely. */
  lemma UntimelyOutcome(cfg: Config, peer: SocketAddr, permit: Permit, schedule: Schedule, k: nat, stream: bytes)
    requires cfg.policy(peer) == Require || cfg.policy(peer) == Use
    ensures Parser.Bounded(Parser.Parse)
    ensures var d := Accept(Parser.Parse, cfg, peer, permit, schedule, stream).decision;
            && (permit == Expired ==> d == Err(HeaderTimeout(peer)))
            && (permit == Closed ==> d == Err(Io))
            && (permit == Granted && StillReading(Parser.Parse, cfg, schedule, k, stream) ==>
                  && (schedule(k) == TimedOut ==> d == Err(HeaderTimeout(peer)))
                  && (schedule(k) == Failed ==> d == Err(Io)))
  {
    Parser.ParseMinimal();
    if permit == Granted && StillReading(Parser.Parse, cfg, schedule, k, stream) {
      Interrupted(Parser.Parse, cfg, peer, cfg.policy(peer) == Require, schedule, k, stream);
    }
  }
}
