/** `ProxiedStream` (src/stream.rs): the connection as the application reads it. */
module Proxied {
  import opened Octets
  import opened Types
  import opened Listener

  // A poll

  type Positive = n: int | n >= 1 witness 1

  /** What the socket does when asked: nothing yet, fail, or yield up to `limit` bytes. */
  datatype Offer = NotYet | Broken | Arrived(limit: Positive)

  datatype Poll = PollPending | PollFailed | PollReady

  /** The unread part of a connection: bytes read past the header, how many of them are served, and the socket. */
  datatype Source = Source(leftover: bytes, position: nat, socket: bytes)
  {
    predicate Valid()
    {
      position <= |leftover|
    }

    /** What the application has not seen yet. */
    function Unread(): bytes
      requires Valid()
    {
      leftover[position..] + socket
    }
  }

  datatype Polled = Polled(poll: Poll, delivered: bytes, after: Source)

  /** `poll_read` with `room` bytes free in the caller's buffer. */
  function PollRead(s: Source, room: nat, offer: Offer): Polled
    requires s.Valid()
  {
    if s.position < |s.leftover| then
      var n := Min(|s.leftover| - s.position, room);
      Polled(PollReady, s.leftover[s.position..s.position + n], s.(position := s.position + n))
    else
      match offer
      case NotYet => Polled(PollPending, [], s)
      case Broken => Polled(PollFailed, [], s)
      case Arrived(limit) =>
        var n := Min(Min(limit, room), |s.socket|);
        Polled(PollReady, s.socket[..n], s.(socket := s.socket[n..]))
  }

  /** A poll takes bytes off the front of what is unread, and no more than there is room for. With room,
      it comes back with none exactly at the end of the stream. */
  lemma PollTakesFront(s: Source, room: nat, offer: Offer)
    requires s.Valid()
    ensures var p := PollRead(s, room, offer);
            && p.after.Valid()
            && p.delivered + p.after.Unread() == s.Unread()
            && |p.delivered| <= room
            && (p.poll == PollReady && room > 0 ==> (p.delivered == [] <==> s.Unread() == []))
            && (p.poll != PollReady ==> p.delivered == [] && p.after == s)
  {
  }

  // All the polls of a connection

  /** The room the application offers on a poll, and what the socket does. */
  datatype Request = Request(room: nat, offer: Offer)

  /** Everything the polls deliver, in order, and what is left. */
  function PollAll(s: Source, requests: seq<Request>): (bytes, Source)
    requires s.Valid()
    decreases |requests|
  {
    if requests == [] then ([], s)
    else
      var p := PollRead(s, requests[0].room, requests[0].offer);
      var (later, end) := PollAll(p.after, requests[1..]);
      (p.delivered + later, end)
  }

  /** However the application and the socket pace themselves, what has been delivered and what is unread are,
      together and in order, what was unread at first. */
  lemma {:induction false} PollsConserve(s: Source, requests: seq<Request>)
    requires s.Valid()
    ensures var (delivered, end) := PollAll(s, requests);
            end.Valid() && delivered + end.Unread() == s.Unread()
    decreases |requests|
  {
    if requests != [] {
      var p := PollRead(s, requests[0].room, requests[0].offer);
      PollTakesFront(s, requests[0].room, requests[0].offer);
      PollsConserve(p.after, requests[1..]);
      var (later, end) := PollAll(p.after, requests[1..]);
      Regroup(p.delivered, later, end.Unread());
    }
  }

  /** A poll with room, when the socket has something or is at its end. */
  predicate Useful(r: Request)
  {
    r.room > 0 && r.offer.Arrived?
  }

  function UsefulCount(requests: seq<Request>): nat
  {
    if requests == [] then 0 else (if Useful(requests[0]) then 1 else 0) + UsefulCount(requests[1..])
  }

  /** Once there have been as many useful polls as bytes, every byte has been delivered. */
  lemma {:induction false} PollsComplete(s: Source, requests: seq<Request>)
    requires s.Valid() && UsefulCount(requests) >= |s.Unread()|
    ensures PollAll(s, requests).0 == s.Unread()
    decreases |requests|
  {
    if requests != [] {
      var p := PollRead(s, requests[0].room, requests[0].offer);
      PollTakesFront(s, requests[0].room, requests[0].offer);
      assert |p.delivered| + |p.after.Unread()| == |s.Unread()|;
      PollsComplete(p.after, requests[1..]);
    }
  }

  /** All the room that the polls offer. */
  function TotalRoom(requests: seq<Request>): nat
  {
    if requests == [] then 0 else requests[0].room + TotalRoom(requests[1..])
  }

  /** What is left over is served without the socket: over any polls, even if the socket has nothing or fails, as many
      bytes are delivered as are left over and have room, and until then the socket keeps its own. */
  lemma {:induction false} LeftoverServed(s: Source, requests: seq<Request>)
    requires s.Valid()
    ensures var (delivered, end) := PollAll(s, requests);
            var left := |s.leftover| - s.position;
            && |delivered| >= Min(left, TotalRoom(requests))
            && (TotalRoom(requests) <= left ==> |delivered| == TotalRoom(requests) && end.socket == s.socket)
    decreases |requests|
  {
    if requests != [] {
      var p := PollRead(s, requests[0].room, requests[0].offer);
      LeftoverServed(p.after, requests[1..]);
      if s.position < |s.leftover| {
        assert |p.delivered| == p.after.position - s.position;
      }
    }
  }

  /** After that a poll is what the socket makes of it: pending, failed, or as many bytes as it has, offers and there is
      room for. */
  lemma SocketServed(s: Source, room: nat, offer: Offer)
    requires s.Valid() && s.position == |s.leftover|
    ensures var p := PollRead(s, room, offer);
            && (p.poll == PollPending <==> offer == NotYet) && (p.poll == PollFailed <==> offer == Broken)
            && (offer.Arrived? ==> p.delivered == s.Unread()[..Min(Min(offer.limit, room), |s.Unread()|)])
  {
    assert s.leftover[s.position..] + s.socket == s.socket;
  }

  // The code itself

  /** The caller's buffer. */
  class ReadBuf {
    const data: array<byte>
    var filled: nat

    ghost predicate Valid()
      reads this
    {
      filled <= data.Length
    }

    constructor (capacity: nat)
      ensures Valid() && filled == 0 && data.Length == capacity && fresh(data)
    {
      data := new byte[capacity];
      filled := 0;
    }

    function Remaining(): nat
      requires Valid()
      reads this
    {
      data.Length - filled
    }

    method PutSlice(s: bytes)
      requires Valid() && |s| <= Remaining()
      modifies `filled, data
      ensures Valid() && filled == old(filled) + |s|
      ensures data[..filled] == old(data[..filled]) + s
    {
      var start := filled;
      var i := 0;
      while i < |s|
        invariant 0 <= i <= |s|
        invariant data[..start + i] == old(data[..filled]) + s[..i]
        modifies data
      {
        data[start + i] := s[i];
        i := i + 1;
      }
      filled := start + |s|;
    }
  }

  class ProxiedStream {
    const inner: TcpStream
    const leftover: bytes
    var position: nat
    const info: Option<ProxyInfo>
    const peer: SocketAddr

    constructor (inner: TcpStream, leftover: bytes, info: Option<ProxyInfo>, peer: SocketAddr)
      ensures Valid() && View() == Source(leftover, 0, inner.pending)
      ensures this.inner == inner && this.info == info && this.peer == peer
    {
      this.inner := inner;
      this.leftover := leftover;
      position := 0;
      this.info := info;
      this.peer := peer;
    }

    ghost predicate Valid()
      reads this
    {
      position <= |leftover|
    }

    ghost function View(): Source
      reads this, inner
    {
      Source(leftover, position, inner.pending)
    }

    /** `poll_read` */
    method PollReadInto(buf: ReadBuf, offer: Offer) returns (poll: Poll)
      requires Valid() && buf.Valid()
      modifies `position, inner, buf`filled, buf.data
      ensures Valid() && buf.Valid()
      ensures var p := PollRead(old(View()), old(buf.Remaining()), offer);
              && poll == p.poll
              && buf.data[..buf.filled] == old(buf.data[..buf.filled]) + p.delivered
              && View() == p.after
    {
      var remaining := |leftover| - position;
      if remaining > 0 {
        var n := Min(remaining, buf.Remaining());
        buf.PutSlice(leftover[position..position + n]);
        position := position + n;
        return PollReady;
      }
      match offer {
        case NotYet => return PollPending;
        case Broken => return PollFailed;
        case Arrived(limit) =>
          var n := Min(Min(limit, buf.Remaining()), |inner.pending|);
          buf.PutSlice(inner.pending[..n]);
          inner.pending := inner.pending[n..];
          return PollReady;
      }
    }

    method ClientAddress() returns (client: SocketAddr)
      ensures client == ClientAddr(info, peer)
    {
      client := peer;
      if info.Some? {
        var source := info.value.SourceInet();
        if source.Some? {
          client := source.value;
        }
      }
    }
  }

  /** `client_addr`: the address in the header if it has one, otherwise the peer's. */
  function ClientAddr(info: Option<ProxyInfo>, peer: SocketAddr): SocketAddr
  {
    match info
    case Some(ProxyInfo(_, _, _, Some(InetAddress(client)), _, _)) => client
    case _ => peer
  }
}
