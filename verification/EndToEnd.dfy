/** A connection from the first byte to the last: what a proxy sends, what the listener makes of it, and what the
    application behind it sees. */
module EndToEnd {
  import opened Octets
  import opened Types
  import opened Listener
  import opened Proxied
  import Builder
  import Chunking
  import Parser
  import RoundTrip
  import Tlv

  /** What the application reads from an accepted connection. */
  function Seen(h: Handshake, requests: seq<Request>): bytes
    requires h.decision.Ok?
  {
    PollAll(Source(h.decision.value.leftover, 0, h.pending), requests).0
  }

  /** Byte conservation over a whole connection, for any policy, validator, arrival of the bytes and pattern of
      reads: the application sees a prefix of the client's stream, less exactly the header if there was one; and all
      of it, if it keeps reading. */
  lemma ConnectionConserves(cfg: Config, peer: SocketAddr, permit: Permit, schedule: Schedule, stream: bytes,
                            requests: seq<Request>)
    ensures Parser.Bounded(Parser.Parse)
    ensures var h := Accept(Parser.Parse, cfg, peer, permit, schedule, stream);
            h.decision.Ok? ==>
              exists clean: bytes ::
                && Strips(Parser.Parse, stream, h.decision.value.info, clean)
                && Seen(h, requests) <= clean
                && (UsefulCount(requests) >= |clean| ==> Seen(h, requests) == clean)
  {
    Parser.ParseStable();
    Parser.ParseMinimal();
    AcceptConserves(Parser.Parse, cfg, peer, permit, schedule, stream);
    var h := Accept(Parser.Parse, cfg, peer, permit, schedule, stream);
    if h.decision.Ok? {
      var s := Source(h.decision.value.leftover, 0, h.pending);
      assert s.Unread() == h.decision.value.leftover + h.pending;
      PollsConserve(s, requests);
      if UsefulCount(requests) >= |s.Unread()| {
        PollsComplete(s, requests);
      }
      assert Seen(h, requests) <= s.Unread();
    }
  }

  /** Every header the parser accepts has the property `good`. */
  ghost predicate Always(parse: StreamParser, good: ProxyInfo -> bool)
  {
    forall buf :: parse(buf).Ok? ==> good(parse(buf).value.info)
  }

  /** What justifies letting a connection in with this header, or without one. */
  predicate Passed(parse: StreamParser, good: ProxyInfo -> bool, cfg: Config, peer: SocketAddr, required: bool,
                   stream: bytes, info: Option<ProxyInfo>)
  {
    match info
    case None => !required && parse(stream) == Err(NotProxyProtocol)
    case Some(i) =>
      && good(i)
      && (cfg.version == V1Only ==> i.version == Version1)
      && (cfg.version == V2Only ==> i.version == Version2)
      && (cfg.validator.Some? ==> cfg.validator.value(i, peer).None?)
  }

  lemma {:induction false} LoopAccepts(parse: StreamParser, good: ProxyInfo -> bool, cfg: Config, peer: SocketAddr,
                                       required: bool, schedule: Schedule, k: nat, buf: bytes, pending: bytes)
    requires Parser.Bounded(parse) && Parser.Stable(parse) && Always(parse, good)
    ensures var h := ReadLoop(parse, cfg, peer, required, schedule, k, buf, pending);
            h.decision.Ok? ==> Passed(parse, good, cfg, peer, required, buf + pending, h.decision.value.info)
    decreases |pending|
  {
    if schedule(k).Ready? && pending != [] {
      var n := Min(schedule(k).limit, |pending|);
      var buf' := buf + pending[..n];
      assert buf + pending == buf' + pending[n..];
      if ReadsOn(parse, cfg, buf') {
        LoopAccepts(parse, good, cfg, peer, required, schedule, k + 1, buf', pending[n..]);
      }
    }
  }

  /** A connection is let in only on the policy's terms: never when it says reject, without looking when it says ignore,
      never without a header when it says require. A header that is handed over is well-formed, of a configured version
      and not refused by the validator. */
  lemma AcceptedMeans(cfg: Config, peer: SocketAddr, permit: Permit, schedule: Schedule, stream: bytes)
    ensures Parser.Bounded(Parser.Parse)
    ensures var h := Accept(Parser.Parse, cfg, peer, permit, schedule, stream);
            h.decision.Ok? ==>
              match cfg.policy(peer)
              case Reject => false
              case Ignore => h.decision.value.info.None?
              case Require => Passed(Parser.Parse, Parser.WellFormed, cfg, peer, true, stream, h.decision.value.info)
              case Use => Passed(Parser.Parse, Parser.WellFormed, cfg, peer, false, stream, h.decision.value.info)
  {
    Parser.ParseStable();
    Parser.ParseMinimal();
    forall buf | Parser.Parse(buf).Ok? ensures Parser.WellFormed(Parser.Parse(buf).value.info) {
      Parser.ParseWellFormed(buf);
    }
    assert [] + stream == stream;
    LoopAccepts(Parser.Parse, Parser.WellFormed, cfg, peer, true, schedule, 0, [], stream);
    LoopAccepts(Parser.Parse, Parser.WellFormed, cfg, peer, false, schedule, 0, [], stream);
  }

  /** The client of a well-formed header is its source, unless it names no source or a Unix one. */
  lemma ClientOfHeader(info: ProxyInfo, peer: SocketAddr)
    requires Parser.WellFormed(info)
    ensures ClientAddr(Some(info), peer) != peer ==>
              info.command == Proxy && info.transport.Some? && info.transport.value.family != Unix
    ensures info.transport.Some? && info.transport.value.family != Unix ==>
              info.source == Some(InetAddress(ClientAddr(Some(info), peer)))
  {
  }

  // From the proxy to the application

  /** The listener would let a connection with this header in. */
  predicate Admits(cfg: Config, peer: SocketAddr, info: ProxyInfo)
  {
    && (cfg.policy(peer) == Require || cfg.policy(peer) == Use)
    && (cfg.version == V1Only ==> info.version == Version1)
    && (cfg.version == V2Only ==> info.version == Version2)
    && (cfg.validator.Some? ==> cfg.validator.value(info, peer).None?)
  }

  /** A header that fits, followed by a payload: however it arrives in time, the listener hands over the header's
      content and the application reads the payload. */
  lemma HeaderDelivered(cfg: Config, peer: SocketAddr, schedule: Schedule, header: bytes, info: ProxyInfo,
                        payload: bytes, requests: seq<Request>)
    requires Parser.Parse(header + payload) == Ok(Parsed(info, |header|)) && Admits(cfg, peer, info)
    requires Chunking.AllReady(schedule) && |header| <= cfg.maxHeaderSize && UsefulCount(requests) >= |payload|
    ensures Parser.Bounded(Parser.Parse)
    ensures var h := Accept(Parser.Parse, cfg, peer, Granted, schedule, header + payload);
            h.decision.Ok? && h.decision.value.info == Some(info) && Seen(h, requests) == payload
  {
    var stream := header + payload;
    var required := cfg.policy(peer) == Require;
    Chunking.HeaderIndependentIff(cfg, peer, required, stream);
    assert stream[|header|..] == payload;
    var h := ReadLoop(Parser.Parse, cfg, peer, required, schedule, 0, [], stream);
    assert Chunking.Observed(h) == Ok(Accepted(payload, Some(info)));
    PollsComplete(Source(h.decision.value.leftover, 0, h.pending), requests);
  }

  /** A connection sent through a proxy that writes a binary header: the application learns the client's address, and
      reads exactly what the client sent. */
  lemma BinaryHeaderDelivered(p: Builder.Plan, client: SocketAddr, cfg: Config, peer: SocketAddr,
                              schedule: Schedule, payload: bytes, requests: seq<Request>)
    requires Builder.Consistent(p) && p.version == Version2 && Builder.BuildV2(p).Some?
    requires RoundTrip.NoCrc(p.entries) && Tlv.Faultless(Tlv.Fault, p.entries)
    requires p.source == Some(InetAddress(client)) && Admits(cfg, peer, RoundTrip.V2Info(p))
    requires Chunking.AllReady(schedule) && |Builder.BuildV2(p).value| <= cfg.maxHeaderSize
             && UsefulCount(requests) >= |payload|
    ensures Parser.Bounded(Parser.Parse)
    ensures var h := Accept(Parser.Parse, cfg, peer, Granted, schedule, Builder.BuildV2(p).value + payload);
            && h.decision.Ok? && ClientAddr(h.decision.value.info, peer) == client
            && Seen(h, requests) == payload
  {
    RoundTrip.V2RoundTrip(p, payload);
    HeaderDelivered(cfg, peer, schedule, Builder.BuildV2(p).value, RoundTrip.V2Info(p), payload, requests);
  }

  /** The same through a proxy that writes a text header. */
  lemma TextHeaderDelivered(p: Builder.Plan, client: SocketAddr, cfg: Config, peer: SocketAddr,
                            schedule: Schedule, payload: bytes, requests: seq<Request>)
    requires Builder.Consistent(p) && p.version == Version1
    requires p.source == Some(InetAddress(client)) && Admits(cfg, peer, RoundTrip.V1Info(p))
    requires Chunking.AllReady(schedule) && |Builder.BuildV1(p)| <= cfg.maxHeaderSize
             && UsefulCount(requests) >= |payload|
    ensures Parser.Bounded(Parser.Parse)
    ensures var h := Accept(Parser.Parse, cfg, peer, Granted, schedule, Builder.BuildV1(p) + payload);
            && h.decision.Ok? && ClientAddr(h.decision.value.info, peer) == client
            && Seen(h, requests) == payload
  {
    RoundTrip.V1RoundTrip(p, payload);
    HeaderDelivered(cfg, peer, schedule, Builder.BuildV1(p), RoundTrip.V1Info(p), payload, requests);
  }
}
