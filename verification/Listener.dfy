/** Accepting a connection (src/listener.rs): read until the header is there, strip it, hand over the rest.

    The socket is the sequence of bytes the peer sends before closing; how they arrive is a schedule that says, read by
    read, how many bytes a read yields at most, or that it times out or fails. Everything here holds for any parser that
    is usable on a stream, and in particular for `parse`. */
module Listener {
  import opened Octets
  import opened Types
  import Parser

  datatype PolicyDecision = Require | Use | Ignore | Reject

  datatype VersionPreference = Both | V1Only | V2Only

  datatype Refusal = Refusal(text: string)

  /** Policy and validator are arbitrary functions. */
  datatype Config = Config(
    headerTimeout: nat,
    maxHeaderSize: nat,
    maxPendingHandshakes: nat,
    policy: SocketAddr -> PolicyDecision,
    validator: Option<(ProxyInfo, SocketAddr) -> Option<Refusal>>,
    version: VersionPreference)

  datatype AcceptError =
    | Io
    | Rejected(peer: SocketAddr)
    | HeaderTimeout(peer: SocketAddr)
    | EmptyConnection(peer: SocketAddr)
    | ParseFailed(error: ParseError, peer: SocketAddr)
    | ValidationFailed(refusal: Refusal, peer: SocketAddr)
    | VersionMismatch(peer: SocketAddr)

  type ReadLimit = n: int | 1 <= n <= 256 witness 1

  /** What the environment does on a read. */
  datatype ReadOutcome = Ready(limit: ReadLimit) | TimedOut | Failed

  type Schedule = nat -> ReadOutcome

  /** What `ProxiedStream::new` is given: bytes read past the header, and the header. */
  datatype Accepted = Accepted(leftover: bytes, info: Option<ProxyInfo>)

  type Decision = Result<Accepted, AcceptError>

  type StreamParser = bytes -> ParseResult

  // One round of the loop

  predicate WrongVersion(preference: VersionPreference, version: Version)
  {
    (preference == V1Only && version == Version2) || (preference == V2Only && version == Version1)
  }

  /** What is made of a parsed header: the checks of version and validator. */
  function Checked(cfg: Config, peer: SocketAddr, info: ProxyInfo, leftover: bytes): Decision
  {
    if WrongVersion(cfg.version, info.version) then Err(VersionMismatch(peer))
    else if cfg.validator.Some? && cfg.validator.value(info, peer).Some?
    then Err(ValidationFailed(cfg.validator.value(info, peer).value, peer))
    else Ok(Accepted(leftover, Some(info)))
  }

  /** What is made of an answer of the parser that is not `Incomplete`, or that is final for want of room. */
  function Judged(cfg: Config, peer: SocketAddr, required: bool, buf: bytes, answer: ParseResult): Decision
    requires answer.Ok? ==> answer.value.consumed <= |buf|
  {
    match answer
    case Ok(parsed) => Checked(cfg, peer, parsed.info, buf[parsed.consumed..])
    case Err(e) => if e == NotProxyProtocol && !required then Ok(Accepted(buf, None)) else Err(ParseFailed(e, peer))
  }

  /** Whether the loop reads on after parsing `buf`. */
  predicate ReadsOn(parse: StreamParser, cfg: Config, buf: bytes)
  {
    parse(buf) == Err(Incomplete) && |buf| < cfg.maxHeaderSize
  }

  // The loop

  /** The size at which the loop gives up on an incomplete header; it always parses what the first read yields. */
  function Room(cfg: Config): nat
  {
    if cfg.maxHeaderSize == 0 then 1 else cfg.maxHeaderSize
  }

  /** A decision, and the bytes still in the socket when it was made. */
  datatype Handshake = Handshake(decision: Decision, pending: bytes)

  function Min(a: nat, b: nat): nat
  {
    if a < b then a else b
  }

  /** The loop of `read_and_validate` from its `k`-th read on. */
  function ReadLoop(parse: StreamParser, cfg: Config, peer: SocketAddr, required: bool,
                    schedule: Schedule, k: nat, buf: bytes, pending: bytes): Handshake
    requires Parser.Bounded(parse)
    decreases |pending|
  {
    match schedule(k)
    case TimedOut => Handshake(Err(HeaderTimeout(peer)), pending)
    case Failed => Handshake(Err(Io), pending)
    case Ready(limit) =>
      if pending == [] then
        Handshake(Err(if buf == [] then EmptyConnection(peer) else ParseFailed(Incomplete, peer)), pending)
      else
        var n := Min(limit, |pending|);
        var buf' := buf + pending[..n];
        if ReadsOn(parse, cfg, buf') then ReadLoop(parse, cfg, peer, required, schedule, k + 1, buf', pending[n..])
        else Handshake(Judged(cfg, peer, required, buf', parse(buf')), pending[n..])
  }

  /** The buffers the loop parses, in order. */
  ghost function Parsings(parse: StreamParser, cfg: Config, schedule: Schedule, k: nat, buf: bytes,
                          pending: bytes): seq<bytes>
    decreases |pending|
  {
    if !schedule(k).Ready? || pending == [] then []
    else
      var n := Min(schedule(k).limit, |pending|);
      var buf' := buf + pending[..n];
      [buf'] + if ReadsOn(parse, cfg, buf') then Parsings(parse, cfg, schedule, k + 1, buf', pending[n..]) else []
  }

  /** What became of waiting for a handshake permit. */
  datatype Permit = Granted | Expired | Closed

  /** `read_and_validate`: wait for a permit, then read. */
  function ReadAndValidate(parse: StreamParser, cfg: Config, peer: SocketAddr, required: bool,
                           permit: Permit, schedule: Schedule, stream: bytes): Handshake
    requires Parser.Bounded(parse)
  {
    match permit
    case Expired => Handshake(Err(HeaderTimeout(peer)), stream)
    case Closed => Handshake(Err(Io), stream)
    case Granted => ReadLoop(parse, cfg, peer, required, schedule, 0, [], stream)
  }

  /** `accept`, after the connection has been taken from the listening socket. */
  function Accept(parse: StreamParser, cfg: Config, peer: SocketAddr, permit: Permit, schedule: Schedule,
                  stream: bytes): Handshake
    requires Parser.Bounded(parse)
  {
    match cfg.policy(peer)
    case Reject => Handshake(Err(Rejected(peer)), stream)
    case Ignore => Handshake(Ok(Accepted([], None)), stream)
    case Require => ReadAndValidate(parse, cfg, peer, true, permit, schedule, stream)
    case Use => ReadAndValidate(parse, cfg, peer, false, permit, schedule, stream)
  }

  // No byte is lost, repeated or reordered

  /** The header, if any, is the one `stream` starts with, and `unread` is what follows it. */
  ghost predicate Strips(parse: StreamParser, stream: bytes, info: Option<ProxyInfo>, unread: bytes)
  {
    match info
    case None => unread == stream
    case Some(i) => exists n: nat :: n <= |stream| && parse(stream) == Ok(Parsed(i, n)) && unread == stream[n..]
  }

  /** What the loop hands over and what it leaves in the socket are, together, exactly what follows the header. */
  lemma {:induction false} LoopConserves(parse: StreamParser, cfg: Config, peer: SocketAddr, required: bool,
                                         schedule: Schedule, k: nat, buf: bytes, pending: bytes)
    requires Parser.Bounded(parse) && Parser.Stable(parse)
    ensures var h := ReadLoop(parse, cfg, peer, required, schedule, k, buf, pending);
            h.decision.Ok? ==> Strips(parse, buf + pending, h.decision.value.info,
                                      h.decision.value.leftover + h.pending)
    decreases |pending|
  {
    if schedule(k).Ready? && pending != [] {
      var n := Min(schedule(k).limit, |pending|);
      var buf' := buf + pending[..n];
      assert buf + pending == buf' + pending[n..];
      if ReadsOn(parse, cfg, buf') {
        LoopConserves(parse, cfg, peer, required, schedule, k + 1, buf', pending[n..]);
      } else {
        JudgedConserves(parse, cfg, peer, required, buf', pending[n..]);
      }
    }
  }

  lemma JudgedConserves(parse: StreamParser, cfg: Config, peer: SocketAddr, required: bool, buf: bytes, pending: bytes)
    requires Parser.Bounded(parse) && Parser.Stable(parse)
    ensures var d := Judged(cfg, peer, required, buf, parse(buf));
            d.Ok? ==> Strips(parse, buf + pending, d.value.info, d.value.leftover + pending)
  {
    if parse(buf).Ok? {
      var n := parse(buf).value.consumed;
      assert parse(buf + pending) == parse(buf);
      assert (buf + pending)[n..] == buf[n..] + pending;
    }
  }

  /** Every accepted connection: the application will see exactly the client's bytes after the header, and all of
      them if no header was read. */
  lemma AcceptConserves(parse: StreamParser, cfg: Config, peer: SocketAddr, permit: Permit, schedule: Schedule,
                        stream: bytes)
    requires Parser.Bounded(parse) && Parser.Stable(parse)
    ensures var h := Accept(parse, cfg, peer, permit, schedule, stream);
            h.decision.Ok? ==> Strips(parse, stream, h.decision.value.info, h.decision.value.leftover + h.pending)
  {
    if cfg.policy(peer) == Require || cfg.policy(peer) == Use {
      assert [] + stream == stream;
      LoopConserves(parse, cfg, peer, cfg.policy(peer) == Require, schedule, 0, [], stream);
    }
  }

  // How long the loop goes on

  /** Each buffer is a longer prefix of the stream than the one before. */
  ghost predicate Growing(bufs: seq<bytes>, stream: bytes, from: nat)
    decreases |bufs|
  {
    bufs == [] || (from < |bufs[0]| && bufs[0] <= stream && Growing(bufs[1..], stream, |bufs[0]|))
  }

  /** At most as many rounds as there is room, and no buffer longer than that by more than 255 bytes. */
  ghost predicate WithinRoom(cfg: Config, bufs: seq<bytes>)
  {
    |bufs| <= Room(cfg) && forall i :: 0 <= i < |bufs| ==> |bufs[i]| <= Room(cfg) + 255
  }

  /** The loop parses ever longer prefixes of the stream; it reads on only while there is room, so no buffer exceeds
      that by more than 255 bytes, and the rounds are bounded by the room that was left. */
  lemma {:induction false} ParsingsBounded(parse: StreamParser, cfg: Config, schedule: Schedule, k: nat, buf: bytes,
                                           pending: bytes)
    requires |buf| < Room(cfg)
    ensures var bufs := Parsings(parse, cfg, schedule, k, buf, pending);
            && Growing(bufs, buf + pending, |buf|)
            && |bufs| <= Room(cfg) - |buf|
            && WithinRoom(cfg, bufs)
            && (forall i :: 0 <= i < |bufs| - 1 ==> ReadsOn(parse, cfg, bufs[i]))
    decreases |pending|
  {
    if schedule(k).Ready? && pending != [] {
      var n := Min(schedule(k).limit, |pending|);
      var buf' := buf + pending[..n];
      assert buf + pending == buf' + pending[n..];
      if ReadsOn(parse, cfg, buf') {
        ParsingsBounded(parse, cfg, schedule, k + 1, buf', pending[n..]);
      }
    }
  }

  // The code itself

  /** The buffer `read_and_validate` reads into. */
  const TMP_LEN := 256

  datatype ReadResult = Filled(n: nat) | ReadTimedOut | ReadFailed

  /** The peer's end of a connection. */
  class TcpStream {
    const schedule: Schedule
    var count: nat
    var pending: bytes

    constructor (schedule: Schedule, stream: bytes)
      ensures this.schedule == schedule && count == 0 && pending == stream
    {
      this.schedule := schedule;
      count := 0;
      pending := stream;
    }

    /** A read under the deadline: moves up to a buffer of bytes from the socket into `tmp`. */
    method Read(tmp: array<byte>) returns (r: ReadResult)
      requires tmp.Length == TMP_LEN
      modifies this, tmp
      ensures count == old(count) + 1
      ensures match schedule(old(count))
              case TimedOut => r == ReadTimedOut && pending == old(pending)
              case Failed => r == ReadFailed && pending == old(pending)
              case Ready(limit) =>
                && r == Filled(Min(limit, |old(pending)|)) && r.n <= tmp.Length
                && tmp[..r.n] == old(pending)[..r.n] && pending == old(pending)[r.n..]
    {
      var outcome := schedule(count);
      count := count + 1;
      match outcome
      case TimedOut => r := ReadTimedOut;
      case Failed => r := ReadFailed;
      case Ready(limit) =>
        var n := Min(limit, |pending|);
        var i := 0;
        while i < n
          invariant 0 <= i <= n
          invariant tmp[..i] == pending[..i]
          modifies tmp
        {
          tmp[i] := pending[i];
          i := i + 1;
        }
        pending := pending[n..];
        r := Filled(n);
    }
  }

  /** The arms of the loop's match that leave it. */
  method Judge(cfg: Config, peer: SocketAddr, required: bool, buf: bytes, answer: ParseResult)
    returns (decision: Decision)
    requires answer.Ok? ==> answer.value.consumed <= |buf|
    ensures decision == Judged(cfg, peer, required, buf, answer)
  {
    match answer {
      case Ok(parsed) =>
        if WrongVersion(cfg.version, parsed.info.version) {
          return Err(VersionMismatch(peer));
        }
        if cfg.validator.Some? {
          var verdict := cfg.validator.value(parsed.info, peer);
          if verdict.Some? {
            return Err(ValidationFailed(verdict.value, peer));
          }
        }
        return Ok(Accepted(buf[parsed.consumed..], Some(parsed.info)));
      case Err(e) =>
        if e == NotProxyProtocol && !required {
          return Ok(Accepted(buf, None));
        }
        return Err(ParseFailed(e, peer));
    }
  }

  /** From here the loop comes to `goal`, and will have parsed `all`. */
  ghost predicate Ahead(goal: Handshake, all: seq<bytes>, bufs: seq<bytes>, parse: StreamParser, cfg: Config,
                        peer: SocketAddr,
                        required: bool, schedule: Schedule, k: nat, buf: bytes, pending: bytes)
    requires Parser.Bounded(parse)
  {
    && goal == ReadLoop(parse, cfg, peer, required, schedule, k, buf, pending)
    && all == bufs + Parsings(parse, cfg, schedule, k, buf, pending)
  }

  lemma MoveOver(bufs: seq<bytes>, buf: bytes, rest: seq<bytes>)
    ensures bufs + ([buf] + rest) == (bufs + [buf]) + rest
    ensures bufs + ([buf] + []) == bufs + [buf]
  {
  }

  lemma ParsingsRound(parse: StreamParser, cfg: Config, schedule: Schedule, k: nat, buf: bytes, pending: bytes, n: nat,
                      buf': bytes)
    requires schedule(k).Ready? && pending != [] && n == Min(schedule(k).limit, |pending|) && buf' == buf + pending[..n]
    ensures ReadsOn(parse, cfg, buf') ==>
              Parsings(parse, cfg, schedule, k, buf, pending)
                == [buf'] + Parsings(parse, cfg, schedule, k + 1, buf', pending[n..])
    ensures !ReadsOn(parse, cfg, buf') ==> Parsings(parse, cfg, schedule, k, buf, pending) == [buf'] + []
  {
  }

  /** One round on. */
  lemma AheadRound(goal: Handshake, all: seq<bytes>, bufs: seq<bytes>, parse: StreamParser, cfg: Config,
                   peer: SocketAddr,
                   required: bool, schedule: Schedule, k: nat, buf: bytes, pending: bytes, n: nat, buf': bytes)
    requires Parser.Bounded(parse) && Ahead(goal, all, bufs, parse, cfg, peer, required, schedule, k, buf, pending)
    requires schedule(k).Ready? && pending != [] && n == Min(schedule(k).limit, |pending|) && buf' == buf + pending[..n]
    ensures ReadsOn(parse, cfg, buf') ==>
              Ahead(goal, all, bufs + [buf'], parse, cfg, peer, required, schedule, k + 1, buf', pending[n..])
    ensures !ReadsOn(parse, cfg, buf') ==>
              goal == Handshake(Judged(cfg, peer, required, buf', parse(buf')), pending[n..]) && all == bufs + [buf']
  {
    ParsingsRound(parse, cfg, schedule, k, buf, pending, n, buf');
    MoveOver(bufs, buf', Parsings(parse, cfg, schedule, k + 1, buf', pending[n..]));
  }

  lemma AheadEnds(goal: Handshake, all: seq<bytes>, bufs: seq<bytes>, parse: StreamParser, cfg: Config,
                  peer: SocketAddr,
                  required: bool, schedule: Schedule, k: nat, buf: bytes, pending: bytes)
    requires Parser.Bounded(parse) && Ahead(goal, all, bufs, parse, cfg, peer, required, schedule, k, buf, pending)
    requires !schedule(k).Ready? || pending == []
    ensures all == bufs
    ensures goal == Handshake(Err(match schedule(k)
                                  case TimedOut => HeaderTimeout(peer)
                                  case Failed => Io
                                  case Ready(_) => if buf == [] then EmptyConnection(peer)
                                    else ParseFailed(Incomplete, peer)), pending)
  {
  }

  /** The body of the loop: a decision, or the buffer to go on with. */
  method ReadRound(parse: StreamParser, cfg: Config, peer: SocketAddr, required: bool, stream: TcpStream,
                   tmp: array<byte>, buf: bytes,
                   ghost goal: Handshake, ghost all: seq<bytes>, ghost bufs: seq<bytes>)
    returns (decision: Option<Decision>, next: bytes, ghost bufs': seq<bytes>)
    requires Parser.Bounded(parse) && tmp.Length == TMP_LEN
    requires Ahead(goal, all, bufs, parse, cfg, peer, required, stream.schedule, stream.count, buf, stream.pending)
    modifies stream, tmp
    ensures decision.Some? ==> goal == Handshake(decision.value, stream.pending) && all == bufs'
    ensures decision.None? ==>
              && Ahead(goal, all, bufs', parse, cfg, peer, required, stream.schedule, stream.count, next,
                       stream.pending)
              && |stream.pending| < |old(stream.pending)|
  {
    ghost var k, pending := stream.count, stream.pending;
    next, bufs' := buf, bufs;
    var read := stream.Read(tmp);
    if read.ReadTimedOut? || read.ReadFailed? || read.n == 0 {
      AheadEnds(goal, all, bufs, parse, cfg, peer, required, stream.schedule, k, buf, pending);
      decision := Some(Err(match read
                           case ReadTimedOut => HeaderTimeout(peer)
                           case ReadFailed => Io
                           case Filled(_) => if buf == [] then EmptyConnection(peer)
                             else ParseFailed(Incomplete, peer)));
      return;
    }
    next := buf + tmp[..read.n];
    bufs' := bufs + [next];
    AheadRound(goal, all, bufs, parse, cfg, peer, required, stream.schedule, k, buf, pending, read.n, next);
    var answer := parse(next);
    if answer == Err(Incomplete) && |next| < cfg.maxHeaderSize {
      decision := None;
    } else {
      var d := Judge(cfg, peer, required, next, answer);
      decision := Some(d);
    }
  }

  /** `read_and_validate` from the point where the permit is held, with the buffers it parses. */
  method ReadHeader(parse: StreamParser, cfg: Config, peer: SocketAddr, required: bool, stream: TcpStream)
    returns (decision: Decision, ghost bufs: seq<bytes>)
    requires Parser.Bounded(parse)
    modifies stream
    ensures Handshake(decision, stream.pending)
         == ReadLoop(parse, cfg, peer, required, stream.schedule, old(stream.count), [], old(stream.pending))
    ensures bufs == Parsings(parse, cfg, stream.schedule, old(stream.count), [], old(stream.pending))
    ensures WithinRoom(cfg, bufs)
  {
    var buf: bytes := [];
    var tmp := new byte[TMP_LEN];
    bufs := [];
    ghost var goal := ReadLoop(parse, cfg, peer, required, stream.schedule, stream.count, [], stream.pending);
    ghost var all := Parsings(parse, cfg, stream.schedule, stream.count, [], stream.pending);
    ParsingsBounded(parse, cfg, stream.schedule, stream.count, [], stream.pending);
    while true
      invariant Ahead(goal, all, bufs, parse, cfg, peer, required, stream.schedule, stream.count, buf, stream.pending)
      decreases |stream.pending|
    {
      var outcome;
      outcome, buf, bufs := ReadRound(parse, cfg, peer, required, stream, tmp, buf, goal, all, bufs);
      if outcome.Some? {
        decision := outcome.value;
        return;
      }
    }
  }

  /** `accept` on a connection from `peer`. */
  method AcceptConnection(cfg: Config, peer: SocketAddr, permit: Permit, stream: TcpStream) returns (decision: Decision)
    requires stream.count == 0
    modifies stream
    ensures Parser.Bounded(Parser.Parse)
    ensures Handshake(decision, stream.pending)
         == Accept(Parser.Parse, cfg, peer, permit, stream.schedule, old(stream.pending))
  {
    Parser.ParseMinimal();
    match cfg.policy(peer)
    case Reject => decision := Err(Rejected(peer));
    case Ignore => decision := Ok(Accepted([], None));
    case Require | Use =>
      match permit
      case Expired => decision := Err(HeaderTimeout(peer));
      case Closed => decision := Err(Io);
      case Granted =>
        ghost var bufs;
        decision, bufs := ReadHeader(Parser.Parse, cfg, peer, cfg.policy(peer) == Require, stream);
  }
}
