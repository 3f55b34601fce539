/** Many connections at once in `read_and_validate` (src/listener.rs): a state machine over one listener's connections,
    its semaphore and the clock. The steps of different connections interleave in any order.

    Any waiting connection may be granted a free permit. The clock does not pass a timer that has run out until the
    connection has been told. */
module Handshakes {
  import opened Octets
  import opened Types
  import opened Listener
  import Parser

  /** A connection in or after its header phase. What it has read is kept with the cuts between the reads. Of one
      that has left, the time and the limit it had are kept; one whose future was dropped has no outcome. */
  datatype Conn =
    | Waiting(peer: SocketAddr, since: nat)
    | Reading(peer: SocketAddr, since: nat, deadline: nat, chunks: seq<bytes>)
    | Done(peer: SocketAddr, since: nat, at: nat, limit: nat, chunks: seq<bytes>, outcome: Option<Decision>)

  type Id = nat

  datatype State = State(now: nat, permits: nat, conns: map<Id, Conn>)

  datatype ReadEvent = Got(chunk: bytes) | End | Broke

  datatype Step =
    | Arrive(id: Id, peer: SocketAddr)
    | Grant(id: Id)
    | Read(id: Id, event: ReadEvent)
    | Expire(id: Id)
    | Cancel(id: Id)
    | Tick

  function Init(cfg: Config, now: nat): State
  {
    State(now, cfg.maxPendingHandshakes, map[])
  }

  function Flat(chunks: seq<bytes>): bytes
  {
    if chunks == [] then [] else Flat(chunks[..|chunks| - 1]) + chunks[|chunks| - 1]
  }

  predicate Required(cfg: Config, peer: SocketAddr)
  {
    cfg.policy(peer) == Require
  }

  /** The policy has a header read from the peer. */
  predicate ReadsHeader(cfg: Config, peer: SocketAddr)
  {
    cfg.policy(peer) == Require || cfg.policy(peer) == Use
  }

  /** When the connection's timer runs out. */
  function Limit(cfg: Config, c: Conn): nat
    requires !c.Done?
  {
    match c
    case Waiting(_, since) => since + cfg.headerTimeout
    case Reading(_, _, deadline, _) => deadline
  }

  predicate Active(s: State, id: Id)
  {
    id in s.conns && !s.conns[id].Done?
  }

  predicate Enabled(cfg: Config, s: State, step: Step)
  {
    match step
    case Arrive(id, peer) => id !in s.conns && ReadsHeader(cfg, peer)
    case Grant(id) => Active(s, id) && s.conns[id].Waiting? && s.permits > 0
    case Read(id, event) => Active(s, id) && s.conns[id].Reading? && (event.Got? ==> 1 <= |event.chunk| <= 256)
    case Expire(id) => Active(s, id) && s.now >= Limit(cfg, s.conns[id])
    case Cancel(id) => Active(s, id)
    case Tick => forall id | id in s.conns && Active(s, id) :: s.now < Limit(cfg, s.conns[id])
  }

  /** The connection leaves its header phase; a permit it holds is dropped. */
  function Leave(cfg: Config, s: State, id: Id, chunks: seq<bytes>, outcome: Option<Decision>): State
    requires Active(s, id)
  {
    var c := s.conns[id];
    var permits := if c.Reading? then s.permits + 1 else s.permits;
    State(s.now, permits, s.conns[id := Done(c.peer, c.since, s.now, Limit(cfg, c), chunks, outcome)])
  }

  /** One round of the loop. */
  function AfterRead(parse: StreamParser, cfg: Config, s: State, id: Id, event: ReadEvent): State
    requires Parser.Bounded(parse) && Active(s, id) && s.conns[id].Reading?
  {
    var c := s.conns[id];
    match event
    case End => Leave(cfg, s, id, c.chunks,
                      Some(Err(if Flat(c.chunks) == [] then EmptyConnection(c.peer)
                               else ParseFailed(Incomplete, c.peer))))
    case Broke => Leave(cfg, s, id, c.chunks, Some(Err(Io)))
    case Got(chunk) =>
      var buf := Flat(c.chunks) + chunk;
      if ReadsOn(parse, cfg, buf)
        then s.(conns := s.conns[id := Reading(c.peer, c.since, c.deadline, c.chunks + [chunk])])
      else Leave(cfg, s, id, c.chunks + [chunk], Some(Judged(cfg, c.peer, Required(cfg, c.peer), buf, parse(buf))))
  }

  function Apply(parse: StreamParser, cfg: Config, s: State, step: Step): State
    requires Parser.Bounded(parse) && Enabled(cfg, s, step)
  {
    match step
    case Arrive(id, peer) => s.(conns := s.conns[id := Waiting(peer, s.now)])
    case Grant(id) =>
      var c := s.conns[id];
      State(s.now, s.permits - 1, s.conns[id := Reading(c.peer, c.since, s.now + cfg.headerTimeout, [])])
    case Read(id, event) => AfterRead(parse, cfg, s, id, event)
    case Expire(id) =>
      var c := s.conns[id];
      Leave(cfg, s, id, if c.Reading? then c.chunks else [], Some(Err(HeaderTimeout(c.peer))))
    case Cancel(id) =>
      var c := s.conns[id];
      Leave(cfg, s, id, if c.Reading? then c.chunks else [], None)
    case Tick => s.(now := s.now + 1)
  }

  /** The steps can be taken one after the other. */
  predicate Possible(parse: StreamParser, cfg: Config, s: State, steps: seq<Step>)
    requires Parser.Bounded(parse)
    decreases |steps|
  {
    steps == [] || (Enabled(cfg, s, steps[0]) && Possible(parse, cfg, Apply(parse, cfg, s, steps[0]), steps[1..]))
  }

  function After(parse: StreamParser, cfg: Config, s: State, steps: seq<Step>): State
    requires Parser.Bounded(parse) && Possible(parse, cfg, s, steps)
    decreases |steps|
  {
    if steps == [] then s else After(parse, cfg, Apply(parse, cfg, s, steps[0]), steps[1..])
  }

  // What holds in every reachable state

  /** Each chunk is what one read can yield. */
  predicate Readable(chunks: seq<bytes>)
  {
    forall k :: 0 <= k < |chunks| ==> 1 <= |chunks[k]| <= 256
  }

  /** The schedule delivers the chunks as they are cut. */
  ghost predicate Agrees(schedule: Schedule, chunks: seq<bytes>)
  {
    Readable(chunks) && forall k :: 0 <= k < |chunks| ==> schedule(k) == ReadOutcome.Ready(|chunks[k]|)
  }

  /** Alone on such a schedule, the loop would have come to the same point. */
  ghost predicate Replays(parse: StreamParser, cfg: Config, peer: SocketAddr, chunks: seq<bytes>)
    requires Parser.Bounded(parse)
  {
    forall schedule, tail | Agrees(schedule, chunks) ::
      ReadLoop(parse, cfg, peer, Required(cfg, peer), schedule, 0, [], Flat(chunks) + tail)
      == ReadLoop(parse, cfg, peer, Required(cfg, peer), schedule, |chunks|, Flat(chunks), tail)
  }

  /** The decision is the one `read_and_validate` comes to alone, on a peer that sends the same bytes in the same
      cuts; it holds a permit, unless it gave up waiting for one, and then it has read nothing. */
  ghost predicate Solo(parse: StreamParser, cfg: Config, peer: SocketAddr, chunks: seq<bytes>, decision: Decision)
    requires Parser.Bounded(parse)
  {
    exists permit, schedule ::
      && (permit == Granted || (permit == Expired && chunks == []))
      && Agrees(schedule, chunks)
      && ReadAndValidate(parse, cfg, peer, Required(cfg, peer), permit, schedule, Flat(chunks)).decision == decision
  }

  ghost predicate ConnInv(parse: StreamParser, cfg: Config, now: nat, c: Conn)
    requires Parser.Bounded(parse)
  {
    && ReadsHeader(cfg, c.peer)
    && match c
    case Waiting(_, since) => since <= now <= since + cfg.headerTimeout
    case Reading(peer, since, deadline, chunks) =>
      && since + cfg.headerTimeout <= deadline <= since + 2 * cfg.headerTimeout
      && now <= deadline <= now + cfg.headerTimeout
      && Readable(chunks)
      && (chunks == [] || ReadsOn(parse, cfg, Flat(chunks)))
      && Replays(parse, cfg, peer, chunks)
    case Done(peer, since, at, limit, chunks, outcome) =>
      && since <= at <= now && at <= limit <= since + 2 * cfg.headerTimeout
      && Readable(chunks)
      && |Flat(chunks)| <= Room(cfg) + 255
      && (outcome.Some? ==> Solo(parse, cfg, peer, chunks, outcome.value))
  }

  /** The connections in the read loop. */
  function Readers(s: State): set<Id>
  {
    set id | id in s.conns && s.conns[id].Reading?
  }

  ghost predicate Inv(parse: StreamParser, cfg: Config, s: State)
    requires Parser.Bounded(parse)
  {
    && s.permits + |Readers(s)| == cfg.maxPendingHandshakes
    && forall id | id in s.conns :: ConnInv(parse, cfg, s.now, s.conns[id])
  }

  lemma FlatSnoc(chunks: seq<bytes>, chunk: bytes)
    ensures Flat(chunks + [chunk]) == Flat(chunks) + chunk
  {
    assert (chunks + [chunk])[..|chunks|] == chunks;
  }

  lemma AgreesPrefix(schedule: Schedule, chunks: seq<bytes>, chunk: bytes)
    requires Agrees(schedule, chunks + [chunk])
    ensures Agrees(schedule, chunks) && 1 <= |chunk| <= 256 && schedule(|chunks|) == ReadOutcome.Ready(|chunk|)
  {
    forall k | 0 <= k < |chunks| ensures 1 <= |chunks[k]| <= 256 && schedule(k) == ReadOutcome.Ready(|chunks[k]|) {
      assert (chunks + [chunk])[k] == chunks[k];
    }
    assert (chunks + [chunk])[|chunks|] == chunk;
  }

  /** The read that takes `chunk` off the front of what is pending. */
  lemma LoopReads(parse: StreamParser, cfg: Config, peer: SocketAddr, schedule: Schedule, k: nat, buf: bytes,
                  chunk: bytes, tail: bytes)
    requires Parser.Bounded(parse) && 1 <= |chunk| <= 256 && schedule(k) == ReadOutcome.Ready(|chunk|)
    ensures ReadLoop(parse, cfg, peer, Required(cfg, peer), schedule, k, buf, chunk + tail)
         == if ReadsOn(parse, cfg, buf + chunk)
            then ReadLoop(parse, cfg, peer, Required(cfg, peer), schedule, k + 1, buf + chunk, tail)
            else Handshake(Judged(cfg, peer, Required(cfg, peer), buf + chunk, parse(buf + chunk)), tail)
  {
    assert (chunk + tail)[..|chunk|] == chunk && (chunk + tail)[|chunk|..] == tail;
  }

  lemma ReplaysNone(parse: StreamParser, cfg: Config, peer: SocketAddr)
    requires Parser.Bounded(parse)
    ensures Replays(parse, cfg, peer, [])
  {
    forall tail: bytes ensures Flat([]) + tail == tail {
    }
  }

  lemma ReplaysOne(parse: StreamParser, cfg: Config, peer: SocketAddr, chunks: seq<bytes>, chunk: bytes,
                   schedule: Schedule, tail: bytes)
    requires Parser.Bounded(parse) && Replays(parse, cfg, peer, chunks) && Agrees(schedule, chunks + [chunk])
    requires ReadsOn(parse, cfg, Flat(chunks) + chunk)
    ensures ReadLoop(parse, cfg, peer, Required(cfg, peer), schedule, 0, [], Flat(chunks + [chunk]) + tail)
         == ReadLoop(parse, cfg, peer, Required(cfg, peer), schedule, |chunks| + 1, Flat(chunks + [chunk]), tail)
  {
    FlatSnoc(chunks, chunk);
    AgreesPrefix(schedule, chunks, chunk);
    Regroup(Flat(chunks), chunk, tail);
    LoopReads(parse, cfg, peer, schedule, |chunks|, Flat(chunks), chunk, tail);
  }

  lemma ReplaysMore(parse: StreamParser, cfg: Config, peer: SocketAddr, chunks: seq<bytes>, chunk: bytes)
    requires Parser.Bounded(parse) && Replays(parse, cfg, peer, chunks) && ReadsOn(parse, cfg, Flat(chunks) + chunk)
    ensures Replays(parse, cfg, peer, chunks + [chunk])
  {
    forall schedule, tail | Agrees(schedule, chunks + [chunk])
      ensures ReadLoop(parse, cfg, peer, Required(cfg, peer), schedule, 0, [], Flat(chunks + [chunk]) + tail)
           == ReadLoop(parse, cfg, peer, Required(cfg, peer), schedule, |chunks + [chunk]|, Flat(chunks + [chunk]),
                       tail)
    {
      ReplaysOne(parse, cfg, peer, chunks, chunk, schedule, tail);
    }
  }

  /** The schedule that delivers the chunks and then does `last`. */
  function Replay(chunks: seq<bytes>, last: ReadOutcome): Schedule
  {
    (k: nat) => if k < |chunks| && 1 <= |chunks[k]| <= 256 then ReadOutcome.Ready(|chunks[k]|) else last
  }

  /** Nothing more comes: what the loop decides is what `last` makes of it. */
  lemma SoloStops(parse: StreamParser, cfg: Config, peer: SocketAddr, chunks: seq<bytes>, last: ReadOutcome,
                  decision: Decision)
    requires Parser.Bounded(parse) && Replays(parse, cfg, peer, chunks)
    requires Readable(chunks)
    requires decision == match last
                         case TimedOut => Err(HeaderTimeout(peer))
                         case Failed => Err(Io)
                         case Ready(_) => Err(if Flat(chunks) == [] then EmptyConnection(peer)
                                              else ParseFailed(Incomplete, peer))
    ensures Solo(parse, cfg, peer, chunks, decision)
  {
    var schedule := Replay(chunks, last);
    assert Agrees(schedule, chunks) && schedule(|chunks|) == last;
    assert Flat(chunks) + [] == Flat(chunks);
    assert ReadAndValidate(parse, cfg, peer, Required(cfg, peer), Granted, schedule, Flat(chunks)).decision == decision;
  }

  /** The last chunk settles it. */
  lemma SoloSettles(parse: StreamParser, cfg: Config, peer: SocketAddr, chunks: seq<bytes>, chunk: bytes)
    requires Parser.Bounded(parse) && Replays(parse, cfg, peer, chunks)
    requires Readable(chunks + [chunk])
    requires !ReadsOn(parse, cfg, Flat(chunks) + chunk)
    ensures var buf := Flat(chunks) + chunk;
            Solo(parse, cfg, peer, chunks + [chunk], Judged(cfg, peer, Required(cfg, peer), buf, parse(buf)))
  {
    var schedule := Replay(chunks + [chunk], TimedOut);
    assert Agrees(schedule, chunks + [chunk]);
    FlatSnoc(chunks, chunk);
    AgreesPrefix(schedule, chunks, chunk);
    assert chunk + [] == chunk;
    LoopReads(parse, cfg, peer, schedule, |chunks|, Flat(chunks), chunk, []);
    var buf := Flat(chunks) + chunk;
    assert ReadAndValidate(parse, cfg, peer, Required(cfg, peer), Granted, schedule, Flat(chunks + [chunk])).decision
        == Judged(cfg, peer, Required(cfg, peer), buf, parse(buf));
  }

  lemma SoloExpired(parse: StreamParser, cfg: Config, peer: SocketAddr)
    requires Parser.Bounded(parse)
    ensures Solo(parse, cfg, peer, [], Err(HeaderTimeout(peer)))
  {
    var schedule := Replay([], TimedOut);
    assert Agrees(schedule, []);
    assert ReadAndValidate(parse, cfg, peer, Required(cfg, peer), Expired, schedule, Flat([])).decision
           == Err(HeaderTimeout(peer));
  }

  lemma ReadersUpdate(s: State, id: Id, c: Conn, permits: nat)
    requires permits + (if c.Reading? then 1 else 0) == s.permits + (if id in Readers(s) then 1 else 0)
    ensures var s' := State(s.now, permits, s.conns[id := c]);
            permits + |Readers(s')| == s.permits + |Readers(s)|
  {
    var s' := State(s.now, permits, s.conns[id := c]);
    assert Readers(s') == if c.Reading? then Readers(s) + {id} else Readers(s) - {id};
  }

  /** Replacing one connection, with the semaphore adjusted by whether it enters or leaves the read loop. */
  lemma InvUpdate(parse: StreamParser, cfg: Config, s: State, id: Id, c: Conn, permits: nat)
    requires Parser.Bounded(parse) && Inv(parse, cfg, s) && ConnInv(parse, cfg, s.now, c)
    requires permits + (if c.Reading? then 1 else 0) == s.permits + (if id in Readers(s) then 1 else 0)
    ensures Inv(parse, cfg, State(s.now, permits, s.conns[id := c]))
  {
    ReadersUpdate(s, id, c, permits);
  }

  /** What becomes of a connection that reads a chunk. */
  lemma GotKeeps(parse: StreamParser, cfg: Config, now: nat, c: Conn, chunk: bytes)
    requires Parser.Bounded(parse) && ConnInv(parse, cfg, now, c) && c.Reading? && 1 <= |chunk| <= 256
    ensures var buf := Flat(c.chunks) + chunk;
            if ReadsOn(parse, cfg, buf)
            then ConnInv(parse, cfg, now, Reading(c.peer, c.since, c.deadline, c.chunks + [chunk]))
            else ConnInv(parse, cfg, now, Done(c.peer, c.since, now, c.deadline, c.chunks + [chunk],
                                               Some(Judged(cfg, c.peer, Required(cfg, c.peer), buf, parse(buf)))))
  {
    FlatSnoc(c.chunks, chunk);
    if ReadsOn(parse, cfg, Flat(c.chunks) + chunk) {
      ReplaysMore(parse, cfg, c.peer, c.chunks, chunk);
    } else {
      SoloSettles(parse, cfg, c.peer, c.chunks, chunk);
    }
  }

  lemma ReadKeeps(parse: StreamParser, cfg: Config, s: State, id: Id, event: ReadEvent)
    requires Parser.Bounded(parse) && Inv(parse, cfg, s) && Enabled(cfg, s, Read(id, event))
    ensures Inv(parse, cfg, AfterRead(parse, cfg, s, id, event))
  {
    var c := s.conns[id];
    var s' := AfterRead(parse, cfg, s, id, event);
    match event {
      case End => SoloStops(parse, cfg, c.peer, c.chunks, ReadOutcome.Ready(1), s'.conns[id].outcome.value);
      case Broke => SoloStops(parse, cfg, c.peer, c.chunks, ReadOutcome.Failed, s'.conns[id].outcome.value);
      case Got(chunk) => GotKeeps(parse, cfg, s.now, c, chunk);
    }
    InvUpdate(parse, cfg, s, id, s'.conns[id], s'.permits);
  }

  /** What becomes of a connection that times out or is dropped. */
  lemma LeftKeeps(parse: StreamParser, cfg: Config, now: nat, c: Conn, outcome: Option<Decision>)
    requires Parser.Bounded(parse) && ConnInv(parse, cfg, now, c) && !c.Done?
    requires outcome.Some? ==> outcome.value == Err(HeaderTimeout(c.peer))
    ensures ConnInv(parse, cfg, now,
                    Done(c.peer, c.since, now, Limit(cfg, c), if c.Reading? then c.chunks else [], outcome))
  {
    if c.Reading? {
      SoloStops(parse, cfg, c.peer, c.chunks, TimedOut, Err(HeaderTimeout(c.peer)));
    } else {
      SoloExpired(parse, cfg, c.peer);
    }
  }

  lemma LeaveKeeps(parse: StreamParser, cfg: Config, s: State, step: Step)
    requires Parser.Bounded(parse) && Inv(parse, cfg, s) && Enabled(cfg, s, step) && (step.Expire? || step.Cancel?)
    ensures Inv(parse, cfg, Apply(parse, cfg, s, step))
  {
    var c := s.conns[step.id];
    var s' := Apply(parse, cfg, s, step);
    LeftKeeps(parse, cfg, s.now, c, s'.conns[step.id].outcome);
    InvUpdate(parse, cfg, s, step.id, s'.conns[step.id], s'.permits);
  }

  lemma StepKeeps(parse: StreamParser, cfg: Config, s: State, step: Step)
    requires Parser.Bounded(parse) && Inv(parse, cfg, s) && Enabled(cfg, s, step)
    ensures Inv(parse, cfg, Apply(parse, cfg, s, step))
  {
    var s' := Apply(parse, cfg, s, step);
    match step
    case Arrive(id, peer) => InvUpdate(parse, cfg, s, id, s'.conns[id], s'.permits);
    case Grant(id) =>
      ReplaysNone(parse, cfg, s.conns[id].peer);
      InvUpdate(parse, cfg, s, id, s'.conns[id], s'.permits);
    case Read(id, event) => ReadKeeps(parse, cfg, s, id, event);
    case Expire(_) => LeaveKeeps(parse, cfg, s, step);
    case Cancel(_) => LeaveKeeps(parse, cfg, s, step);
    case Tick => TickKeeps(parse, cfg, s);
  }

  lemma TickKeeps(parse: StreamParser, cfg: Config, s: State)
    requires Parser.Bounded(parse) && Inv(parse, cfg, s) && Enabled(cfg, s, Tick)
    ensures Inv(parse, cfg, Apply(parse, cfg, s, Tick))
  {
    var s' := s.(now := s.now + 1);
    assert Readers(s') == Readers(s);
    forall id | id in s.conns ensures ConnInv(parse, cfg, s'.now, s.conns[id]) {
      assert ConnInv(parse, cfg, s.now, s.conns[id]);
      assert Active(s, id) ==> s.now < Limit(cfg, s.conns[id]);
    }
  }

  lemma {:induction false} RunKeeps(parse: StreamParser, cfg: Config, s: State, steps: seq<Step>)
    requires Parser.Bounded(parse) && Inv(parse, cfg, s) && Possible(parse, cfg, s, steps)
    ensures Inv(parse, cfg, After(parse, cfg, s, steps))
    decreases |steps|
  {
    if steps != [] {
      StepKeeps(parse, cfg, s, steps[0]);
      RunKeeps(parse, cfg, Apply(parse, cfg, s, steps[0]), steps[1..]);
    }
  }

  lemma InitHolds(parse: StreamParser, cfg: Config, now: nat)
    requires Parser.Bounded(parse)
    ensures Inv(parse, cfg, Init(cfg, now))
  {
    assert Readers(Init(cfg, now)) == {};
  }

  // Bounded concurrency

  /** Over every run: permits that are free and connections in the read loop add up to the configured number. */
  lemma PermitsConserved(parse: StreamParser, cfg: Config, now: nat, steps: seq<Step>)
    requires Parser.Bounded(parse) && Possible(parse, cfg, Init(cfg, now), steps)
    ensures var s := After(parse, cfg, Init(cfg, now), steps);
            s.permits + |Readers(s)| == cfg.maxPendingHandshakes
  {
    InitHolds(parse, cfg, now);
    RunKeeps(parse, cfg, Init(cfg, now), steps);
  }

  predicate About(step: Step, id: Id)
  {
    !step.Tick? && step.id == id
  }

  /** How many permits the connection's own steps take from the semaphore, and how many they put back. */
  function Taken(parse: StreamParser, cfg: Config, s: State, steps: seq<Step>, id: Id): nat
    requires Parser.Bounded(parse) && Possible(parse, cfg, s, steps)
    decreases |steps|
  {
    if steps == [] then 0
    else
      var s' := Apply(parse, cfg, s, steps[0]);
      (if About(steps[0], id) && s'.permits < s.permits then s.permits - s'.permits
       else 0) + Taken(parse, cfg, s', steps[1..], id)
  }

  function Returned(parse: StreamParser, cfg: Config, s: State, steps: seq<Step>, id: Id): nat
    requires Parser.Bounded(parse) && Possible(parse, cfg, s, steps)
    decreases |steps|
  {
    if steps == [] then 0
    else
      var s' := Apply(parse, cfg, s, steps[0]);
      (if About(steps[0], id) && s'.permits > s.permits then s'.permits - s.permits
       else 0) + Returned(parse, cfg, s', steps[1..], id)
  }

  function Held(s: State, id: Id): nat
  {
    if id in s.conns && s.conns[id].Reading? then 1 else 0
  }

  /** May still be granted a permit. */
  function Due(s: State, id: Id): nat
  {
    if id !in s.conns || s.conns[id].Waiting? then 1 else 0
  }

  lemma StepAccount(parse: StreamParser, cfg: Config, s: State, step: Step, id: Id)
    requires Parser.Bounded(parse) && Enabled(cfg, s, step)
    ensures var s' := Apply(parse, cfg, s, step);
            && (!About(step, id) ==> Held(s', id) == Held(s, id) && Due(s', id) == Due(s, id))
            && (About(step, id) ==>
                  && s.permits + Held(s, id) == s'.permits + Held(s', id)
                  && Held(s', id) + Due(s', id) <= Held(s, id) + Due(s, id)
                  && Due(s', id) <= Due(s, id))
  {
  }

  lemma {:induction false} RunAccount(parse: StreamParser, cfg: Config, s: State, steps: seq<Step>, id: Id)
    requires Parser.Bounded(parse) && Possible(parse, cfg, s, steps)
    ensures var s' := After(parse, cfg, s, steps);
            && Held(s, id) + Taken(parse, cfg, s, steps, id) == Held(s', id) + Returned(parse, cfg, s, steps, id)
            && Taken(parse, cfg, s, steps, id) + Due(s', id) <= Due(s, id)
    decreases |steps|
  {
    if steps != [] {
      StepAccount(parse, cfg, s, steps[0], id);
      RunAccount(parse, cfg, Apply(parse, cfg, s, steps[0]), steps[1..], id);
    }
  }

  /** Over every run, for each connection: it takes a permit at most once, and whichever way it leaves the loop has put
      back exactly what it took. */
  lemma PermitReturnedOnce(parse: StreamParser, cfg: Config, now: nat, steps: seq<Step>, id: Id)
    requires Parser.Bounded(parse) && Possible(parse, cfg, Init(cfg, now), steps)
    ensures var s0 := Init(cfg, now);
            var s := After(parse, cfg, s0, steps);
            && Returned(parse, cfg, s0, steps, id) <= Taken(parse, cfg, s0, steps, id) <= 1
            && (Returned(parse, cfg, s0, steps, id) < Taken(parse, cfg, s0, steps, id) <==> id in Readers(s))
  {
    RunAccount(parse, cfg, Init(cfg, now), steps, id);
  }

  // Time bound

  /** What no run undoes: a connection stays on the books with its arrival time; a deadline, once set, stays; what
      has been read stays; an outcome stays. */
  ghost predicate Onward(a: State, b: State, id: Id)
  {
    && a.now <= b.now
    && (id in a.conns ==>
          && id in b.conns && b.conns[id].since == a.conns[id].since && b.conns[id].peer == a.conns[id].peer
          && (a.conns[id].Reading? ==> !b.conns[id].Waiting? && a.conns[id].chunks <= b.conns[id].chunks)
          && (a.conns[id].Reading? && b.conns[id].Reading? ==> b.conns[id].deadline == a.conns[id].deadline)
          && (a.conns[id].Reading? && b.conns[id].Done? ==> b.conns[id].limit == a.conns[id].deadline)
          && (a.conns[id].Done? ==> b.conns[id] == a.conns[id]))
  }

  lemma {:induction false} RunOnward(parse: StreamParser, cfg: Config, s: State, steps: seq<Step>, id: Id)
    requires Parser.Bounded(parse) && Possible(parse, cfg, s, steps)
    ensures Onward(s, After(parse, cfg, s, steps), id)
    decreases |steps|
  {
    if steps != [] {
      assert Onward(s, Apply(parse, cfg, s, steps[0]), id);
      RunOnward(parse, cfg, Apply(parse, cfg, s, steps[0]), steps[1..], id);
    }
  }

  lemma {:induction false} RunSplit(parse: StreamParser, cfg: Config, s: State, steps: seq<Step>, later: seq<Step>)
    requires Parser.Bounded(parse) && Possible(parse, cfg, s, steps + later)
    ensures Possible(parse, cfg, s, steps) && Possible(parse, cfg, After(parse, cfg, s, steps), later)
    ensures After(parse, cfg, s, steps + later) == After(parse, cfg, After(parse, cfg, s, steps), later)
    decreases |steps|
  {
    if steps == [] {
      assert steps + later == later;
    } else {
      assert (steps + later)[1..] == steps[1..] + later;
      RunSplit(parse, cfg, Apply(parse, cfg, s, steps[0]), steps[1..], later);
    }
  }

  /** Over every run: a connection that arrives at time `t` is out of its header phase by `t` plus twice the timeout,
      and its outcome, once there, was reached by then, however slowly its bytes arrive and however long it queues. */
  lemma LeavesInTime(parse: StreamParser, cfg: Config, now: nat, before: seq<Step>, id: Id, peer: SocketAddr,
                     later: seq<Step>)
    requires Parser.Bounded(parse) && Possible(parse, cfg, Init(cfg, now), before + ([Arrive(id, peer)] + later))
    ensures Possible(parse, cfg, Init(cfg, now), before)
    ensures var t := After(parse, cfg, Init(cfg, now), before).now;
            var s := After(parse, cfg, Init(cfg, now), before + ([Arrive(id, peer)] + later));
            && id in s.conns && s.conns[id].since == t
            && (s.now > t + 2 * cfg.headerTimeout ==> s.conns[id].Done?)
            && (s.conns[id].Done? ==> s.conns[id].at <= t + 2 * cfg.headerTimeout)
  {
    var steps := [Arrive(id, peer)] + later;
    RunSplit(parse, cfg, Init(cfg, now), before, steps);
    var s1 := After(parse, cfg, Init(cfg, now), before);
    assert steps[1..] == later;
    RunOnward(parse, cfg, Apply(parse, cfg, s1, Arrive(id, peer)), later, id);
    InitHolds(parse, cfg, now);
    RunKeeps(parse, cfg, Init(cfg, now), before + steps);
  }

  // Timers run out on time

  predicate TimedOutConn(c: Conn)
  {
    c.Done? && c.outcome == Some(Err(HeaderTimeout(c.peer)))
  }

  /** Whoever has been timed out was so when the limit was reached. */
  predicate Punctual(s: State)
  {
    forall id | id in s.conns && TimedOutConn(s.conns[id]) :: s.conns[id].at == s.conns[id].limit
  }

  lemma JudgedInTime(cfg: Config, peer: SocketAddr, required: bool, buf: bytes, answer: ParseResult)
    requires answer.Ok? ==> answer.value.consumed <= |buf|
    ensures Judged(cfg, peer, required, buf, answer) != Err(HeaderTimeout(peer))
  {
  }

  lemma StepPunctual(parse: StreamParser, cfg: Config, s: State, step: Step)
    requires Parser.Bounded(parse) && Inv(parse, cfg, s) && Punctual(s) && Enabled(cfg, s, step)
    ensures Punctual(Apply(parse, cfg, s, step))
  {
    var s' := Apply(parse, cfg, s, step);
    forall id | id in s'.conns && TimedOutConn(s'.conns[id]) ensures s'.conns[id].at == s'.conns[id].limit {
      if !About(step, id) {
        assert s'.conns[id] == s.conns[id];
      } else {
        LeftPunctual(parse, cfg, s, step);
      }
    }
  }

  lemma LeftPunctual(parse: StreamParser, cfg: Config, s: State, step: Step)
    requires Parser.Bounded(parse) && Inv(parse, cfg, s) && Enabled(cfg, s, step) && !step.Tick?
    requires TimedOutConn(Apply(parse, cfg, s, step).conns[step.id])
    ensures var c := Apply(parse, cfg, s, step).conns[step.id]; c.at == c.limit
  {
    if step.Read? && step.event.Got? {
      var c := s.conns[step.id];
      var buf := Flat(c.chunks) + step.event.chunk;
      JudgedInTime(cfg, c.peer, Required(cfg, c.peer), buf, parse(buf));
    } else if step.Expire? {
      assert ConnInv(parse, cfg, s.now, s.conns[step.id]);
    }
  }

  lemma {:induction false} RunPunctual(parse: StreamParser, cfg: Config, s: State, steps: seq<Step>)
    requires Parser.Bounded(parse) && Inv(parse, cfg, s) && Punctual(s) && Possible(parse, cfg, s, steps)
    ensures Punctual(After(parse, cfg, s, steps))
    decreases |steps|
  {
    if steps != [] {
      StepKeeps(parse, cfg, s, steps[0]);
      StepPunctual(parse, cfg, s, steps[0]);
      RunPunctual(parse, cfg, Apply(parse, cfg, s, steps[0]), steps[1..]);
    }
  }

  predicate NotGranted(cfg: Config, s: State, id: Id)
  {
    && id in s.conns && !s.conns[id].Reading?
    && (s.conns[id].Done? ==> s.conns[id].limit == s.conns[id].since + cfg.headerTimeout)
  }

  lemma {:induction false} RunNotGranted(parse: StreamParser, cfg: Config, s: State, steps: seq<Step>, id: Id)
    requires Parser.Bounded(parse) && Possible(parse, cfg, s, steps) && NotGranted(cfg, s, id) && Grant(id) !in steps
    ensures NotGranted(cfg, After(parse, cfg, s, steps), id)
    decreases |steps|
  {
    if steps != [] {
      assert steps[0] != Grant(id);
      assert NotGranted(cfg, Apply(parse, cfg, s, steps[0]), id);
      RunNotGranted(parse, cfg, Apply(parse, cfg, s, steps[0]), steps[1..], id);
    }
  }

  /** Over every run: a connection that arrives at `t`, is never granted a permit and is timed out was so at exactly
      `t` plus the timeout, not before and not after. */
  lemma WaitTimesOut(parse: StreamParser, cfg: Config, now: nat, before: seq<Step>, id: Id, peer: SocketAddr,
                     later: seq<Step>)
    requires Parser.Bounded(parse) && Possible(parse, cfg, Init(cfg, now), before + ([Arrive(id, peer)] + later))
    requires Grant(id) !in later
    ensures Possible(parse, cfg, Init(cfg, now), before)
    ensures var t := After(parse, cfg, Init(cfg, now), before).now;
            var s := After(parse, cfg, Init(cfg, now), before + ([Arrive(id, peer)] + later));
            && id in s.conns
            && (s.conns[id].Done? && s.conns[id].outcome == Some(Err(HeaderTimeout(s.conns[id].peer))) ==>
                  s.conns[id].at == t + cfg.headerTimeout)
  {
    var s0, steps := Init(cfg, now), [Arrive(id, peer)] + later;
    LeavesInTime(parse, cfg, now, before, id, peer, later);
    RunSplit(parse, cfg, s0, before, steps);
    var s1 := After(parse, cfg, s0, before);
    assert steps[1..] == later;
    RunNotGranted(parse, cfg, Apply(parse, cfg, s1, Arrive(id, peer)), later, id);
    InitHolds(parse, cfg, now);
    RunPunctual(parse, cfg, s0, before + steps);
  }

  /** Over every run: one that is granted its permit at `g` and is timed out was so at exactly `g` plus the timeout. */
  lemma ReadingTimesOut(parse: StreamParser, cfg: Config, now: nat, before: seq<Step>, id: Id, later: seq<Step>)
    requires Parser.Bounded(parse) && Possible(parse, cfg, Init(cfg, now), before + ([Grant(id)] + later))
    ensures Possible(parse, cfg, Init(cfg, now), before)
    ensures var g := After(parse, cfg, Init(cfg, now), before).now;
            var s := After(parse, cfg, Init(cfg, now), before + ([Grant(id)] + later));
            && id in s.conns
            && (s.conns[id].Done? && s.conns[id].outcome == Some(Err(HeaderTimeout(s.conns[id].peer))) ==>
                  s.conns[id].at == g + cfg.headerTimeout)
  {
    var s0, steps := Init(cfg, now), [Grant(id)] + later;
    RunSplit(parse, cfg, s0, before, steps);
    var s1 := After(parse, cfg, s0, before);
    assert steps[1..] == later;
    RunOnward(parse, cfg, Apply(parse, cfg, s1, Grant(id)), later, id);
    InitHolds(parse, cfg, now);
    RunPunctual(parse, cfg, s0, before + steps);
  }

  // Building runs

  lemma Takes(parse: StreamParser, cfg: Config, s: State, step: Step, steps: seq<Step>)
    requires Parser.Bounded(parse) && Enabled(cfg, s, step) && Possible(parse, cfg, Apply(parse, cfg, s, step), steps)
    ensures Possible(parse, cfg, s, [step] + steps)
    ensures After(parse, cfg, s, [step] + steps) == After(parse, cfg, Apply(parse, cfg, s, step), steps)
  {
    assert ([step] + steps)[1..] == steps;
  }

  lemma TakesOne(parse: StreamParser, cfg: Config, s: State, step: Step)
    requires Parser.Bounded(parse) && Enabled(cfg, s, step)
    ensures Possible(parse, cfg, s, [step]) && After(parse, cfg, s, [step]) == Apply(parse, cfg, s, step)
  {
    assert [step] + [] == [step];
    Takes(parse, cfg, s, step, []);
  }

  lemma {:induction false} RunJoin(parse: StreamParser, cfg: Config, s: State, steps: seq<Step>, later: seq<Step>)
    requires Parser.Bounded(parse) && Possible(parse, cfg, s, steps)
             && Possible(parse, cfg, After(parse, cfg, s, steps), later)
    ensures Possible(parse, cfg, s, steps + later)
    ensures After(parse, cfg, s, steps + later) == After(parse, cfg, After(parse, cfg, s, steps), later)
    decreases |steps|
  {
    if steps == [] {
      assert steps + later == later;
    } else {
      RunJoin(parse, cfg, Apply(parse, cfg, s, steps[0]), steps[1..], later);
      Takes(parse, cfg, s, steps[0], steps[1..] + later);
      assert [steps[0]] + (steps[1..] + later) == steps + later;
    }
  }

  // The documented time limit

  /** Still in its header phase when more than the timeout has passed since it arrived. */
  predicate Overdue(cfg: Config, s: State, id: Id)
  {
    Active(s, id) && s.now > s.conns[id].since + cfg.headerTimeout
  }

  /** The run can go on so that the connection is overdue. */
  ghost predicate CanOverrun(parse: StreamParser, cfg: Config, s: State, id: Id)
    requires Parser.Bounded(parse)
  {
    exists steps :: Possible(parse, cfg, s, steps) && Overdue(cfg, After(parse, cfg, s, steps), id)
  }

  function Others(s: State, id: Id): set<Id>
  {
    set j | j in s.conns && Active(s, j) && j != id
  }

  /** All connections but one can be dropped. */
  lemma {:induction false} CancelOthers(parse: StreamParser, cfg: Config, s: State, id: Id) returns (steps: seq<Step>)
    requires Parser.Bounded(parse) && id in s.conns
    ensures Possible(parse, cfg, s, steps)
    ensures var s' := After(parse, cfg, s, steps);
            s'.now == s.now && id in s'.conns && s'.conns[id] == s.conns[id] && Others(s', id) == {}
    decreases |Others(s, id)|
  {
    if Others(s, id) == {} {
      steps := [];
    } else {
      var j :| j in Others(s, id);
      var s1 := Apply(parse, cfg, s, Cancel(j));
      assert Others(s1, id) == Others(s, id) - {j};
      var later := CancelOthers(parse, cfg, s1, id);
      Takes(parse, cfg, s, Cancel(j), later);
      steps := [Cancel(j)] + later;
    }
  }

  /** The clock can run up to the deadline of the only connection. */
  lemma {:induction false} TickUp(parse: StreamParser, cfg: Config, s: State, id: Id, n: nat) returns (steps: seq<Step>)
    requires Parser.Bounded(parse) && Active(s, id) && Others(s, id) == {} && s.now + n <= Limit(cfg, s.conns[id])
    ensures Possible(parse, cfg, s, steps) && After(parse, cfg, s, steps) == s.(now := s.now + n)
    decreases n
  {
    if n == 0 {
      steps := [];
    } else {
      forall j | j in s.conns && Active(s, j) ensures s.now < Limit(cfg, s.conns[j]) {
        assert j !in Others(s, id);
      }
      var s1 := Apply(parse, cfg, s, Tick);
      assert Others(s1, id) == Others(s, id);
      var later := TickUp(parse, cfg, s1, id, n - 1);
      Takes(parse, cfg, s, Tick, later);
      steps := [Tick] + later;
    }
  }

  lemma RunsToLimit(parse: StreamParser, cfg: Config, s: State, id: Id) returns (steps: seq<Step>)
    requires Parser.Bounded(parse) && Active(s, id) && s.now <= Limit(cfg, s.conns[id])
    ensures Possible(parse, cfg, s, steps)
    ensures var s' := After(parse, cfg, s, steps);
            id in s'.conns && s'.conns[id] == s.conns[id] && s'.now == Limit(cfg, s.conns[id])
  {
    var alone := CancelOthers(parse, cfg, s, id);
    var s1 := After(parse, cfg, s, alone);
    var ticks := TickUp(parse, cfg, s1, id, Limit(cfg, s1.conns[id]) - s1.now);
    RunJoin(parse, cfg, s, alone, ticks);
    steps := alone + ticks;
  }

  /** In every reachable state: a connection that is reading may yet be overdue exactly when its deadline is later
      than the timeout after its arrival, which is to say that it was granted its permit later than it arrived. */
  lemma ReadingOverrunsIff(parse: StreamParser, cfg: Config, s: State, id: Id)
    requires Parser.Bounded(parse) && Inv(parse, cfg, s) && id in s.conns && s.conns[id].Reading?
    ensures CanOverrun(parse, cfg, s, id) <==> s.conns[id].deadline > s.conns[id].since + cfg.headerTimeout
  {
    if CanOverrun(parse, cfg, s, id) {
      var steps :| Possible(parse, cfg, s, steps) && Overdue(cfg, After(parse, cfg, s, steps), id);
      RunKeeps(parse, cfg, s, steps);
      RunOnward(parse, cfg, s, steps, id);
      assert ConnInv(parse, cfg, After(parse, cfg, s, steps).now, After(parse, cfg, s, steps).conns[id]);
    }
    if s.conns[id].deadline > s.conns[id].since + cfg.headerTimeout {
      assert ConnInv(parse, cfg, s.now, s.conns[id]);
      var steps := RunsToLimit(parse, cfg, s, id);
      assert Overdue(cfg, After(parse, cfg, s, steps), id);
    }
  }

  /** Over every run, phase by phase: a connection that arrives at `t` and is granted its permit at `g` has waited at
      most the timeout; it is out of the loop by `g` plus the timeout; and as long as it reads it may yet overrun the
      timeout counted from its arrival exactly when it was not granted the permit at once. */
  lemma PhasesInTime(parse: StreamParser, cfg: Config, now: nat, before: seq<Step>, id: Id, peer: SocketAddr,
                     waiting: seq<Step>, later: seq<Step>)
    requires Parser.Bounded(parse)
    requires Possible(parse, cfg, Init(cfg, now), before + ([Arrive(id, peer)] + (waiting + ([Grant(id)] + later))))
    ensures Possible(parse, cfg, Init(cfg, now), before)
            && Possible(parse, cfg, Init(cfg, now), before + ([Arrive(id, peer)] + waiting))
    ensures var t := After(parse, cfg, Init(cfg, now), before).now;
            var g := After(parse, cfg, Init(cfg, now), before + ([Arrive(id, peer)] + waiting)).now;
            var s := After(parse, cfg, Init(cfg, now),
                           before + ([Arrive(id, peer)] + (waiting + ([Grant(id)] + later))));
            && t <= g <= t + cfg.headerTimeout
            && id in s.conns && !s.conns[id].Waiting?
            && (s.conns[id].Reading? ==> s.now <= s.conns[id].deadline == g + cfg.headerTimeout)
            && (s.conns[id].Done? ==> s.conns[id].at <= s.conns[id].limit == g + cfg.headerTimeout)
            && (s.conns[id].Reading? ==> (CanOverrun(parse, cfg, s, id) <==> g > t))
  {
    var s0 := Init(cfg, now);
    var arriving, granted := [Arrive(id, peer)] + waiting, [Grant(id)] + later;
    assert before + ([Arrive(id, peer)] + (waiting + granted)) == (before + arriving) + granted;
    RunSplit(parse, cfg, s0, before + arriving, granted);
    RunSplit(parse, cfg, s0, before, arriving);
    var s1 := After(parse, cfg, s0, before);
    assert arriving[1..] == waiting;
    RunOnward(parse, cfg, Apply(parse, cfg, s1, Arrive(id, peer)), waiting, id);
    var s2 := After(parse, cfg, s0, before + arriving);
    assert granted[1..] == later;
    RunOnward(parse, cfg, Apply(parse, cfg, s2, Grant(id)), later, id);
    InitHolds(parse, cfg, now);
    RunKeeps(parse, cfg, s0, before + arriving);
    RunKeeps(parse, cfg, s0, (before + arriving) + granted);
    var s3 := After(parse, cfg, s0, (before + arriving) + granted);
    if s3.conns[id].Reading? {
      ReadingOverrunsIff(parse, cfg, s3, id);
    }
  }

  lemma OverrunLater(parse: StreamParser, cfg: Config, s: State, steps: seq<Step>, id: Id)
    requires Parser.Bounded(parse) && Possible(parse, cfg, s, steps)
             && CanOverrun(parse, cfg, After(parse, cfg, s, steps), id)
    ensures CanOverrun(parse, cfg, s, id)
  {
    var s1 := After(parse, cfg, s, steps);
    var later :| Possible(parse, cfg, s1, later) && Overdue(cfg, After(parse, cfg, s1, later), id);
    RunJoin(parse, cfg, s, steps, later);
  }

  /** A connection that is overdue has been granted a permit, after a wait. */
  lemma OverdueMeans(parse: StreamParser, cfg: Config, s: State, id: Id)
    requires Parser.Bounded(parse) && Inv(parse, cfg, s) && Overdue(cfg, s, id)
    ensures cfg.maxPendingHandshakes >= 1 && cfg.headerTimeout >= 1 && ReadsHeader(cfg, s.conns[id].peer)
  {
    assert ConnInv(parse, cfg, s.now, s.conns[id]);
    assert id in Readers(s);
  }

  /** The first `n` permits are taken. */
  function Crowd(cfg: Config, peer: SocketAddr, n: nat): State
    requires n <= cfg.maxPendingHandshakes
  {
    State(0, cfg.maxPendingHandshakes - n, CrowdConns(cfg, peer, n))
  }

  function CrowdConns(cfg: Config, peer: SocketAddr, n: nat): (conns: map<Id, Conn>)
    ensures forall id: Id :: id in conns <==> id < n
    ensures forall id: Id :: id in conns ==> conns[id] == Reading(peer, 0, cfg.headerTimeout, [])
  {
    if n == 0 then map[] else CrowdConns(cfg, peer, n - 1)[n - 1 := Reading(peer, 0, cfg.headerTimeout, [])]
  }

  lemma {:induction false} CrowdGathers(parse: StreamParser, cfg: Config, peer: SocketAddr, n: nat)
    returns (steps: seq<Step>)
    requires Parser.Bounded(parse) && ReadsHeader(cfg, peer) && n <= cfg.maxPendingHandshakes
    ensures Possible(parse, cfg, Init(cfg, 0), steps) && After(parse, cfg, Init(cfg, 0), steps) == Crowd(cfg, peer, n)
    decreases n
  {
    if n == 0 {
      steps := [];
    } else {
      var before := CrowdGathers(parse, cfg, peer, n - 1);
      var s := Crowd(cfg, peer, n - 1);
      var s1 := Apply(parse, cfg, s, Arrive(n - 1, peer));
      TakesOne(parse, cfg, s1, Grant(n - 1));
      Takes(parse, cfg, s, Arrive(n - 1, peer), [Grant(n - 1)]);
      assert Apply(parse, cfg, s1, Grant(n - 1)).conns == Crowd(cfg, peer, n).conns;
      RunJoin(parse, cfg, Init(cfg, 0), before, [Arrive(n - 1, peer)] + [Grant(n - 1)]);
      steps := before + ([Arrive(n - 1, peer)] + [Grant(n - 1)]);
    }
  }

  /** A connection arrives, has to wait for a tick, and is granted the first permit that is returned. */
  function Queue(id: Id, peer: SocketAddr): seq<Step>
  {
    [Arrive(id, peer)] + ([Tick] + ([Cancel(0)] + [Grant(id)]))
  }

  lemma QueueMoves(parse: StreamParser, cfg: Config, peer: SocketAddr, id: Id)
    requires Parser.Bounded(parse) && ReadsHeader(cfg, peer)
    requires id == cfg.maxPendingHandshakes >= 1 && cfg.headerTimeout >= 1
    ensures Possible(parse, cfg, Crowd(cfg, peer, id), Queue(id, peer))
    ensures var s := After(parse, cfg, Crowd(cfg, peer, id), Queue(id, peer));
            id in s.conns && s.conns[id] == Reading(peer, 0, 1 + cfg.headerTimeout, [])
  {
    var s0 := Crowd(cfg, peer, id);
    var s1 := Apply(parse, cfg, s0, Arrive(id, peer));
    var s2 := Apply(parse, cfg, s1, Tick);
    var s3 := Apply(parse, cfg, s2, Cancel(0));
    TakesOne(parse, cfg, s3, Grant(id));
    Takes(parse, cfg, s2, Cancel(0), [Grant(id)]);
    Takes(parse, cfg, s1, Tick, [Cancel(0)] + [Grant(id)]);
    Takes(parse, cfg, s0, Arrive(id, peer), [Tick] + ([Cancel(0)] + [Grant(id)]));
  }

  /** For every listener that reads headers: a run in which a connection arrives when all permits are taken, is
      granted the first that is returned, at once, and can become overdue. */
  lemma QueueingDelays(parse: StreamParser, cfg: Config, peer: SocketAddr) returns (before: seq<Step>, id: Id)
    requires Parser.Bounded(parse) && cfg.maxPendingHandshakes >= 1 && cfg.headerTimeout >= 1 && ReadsHeader(cfg, peer)
    ensures Possible(parse, cfg, Init(cfg, 0), before) && After(parse, cfg, Init(cfg, 0), before).permits == 0
    ensures Possible(parse, cfg, Init(cfg, 0), before + Queue(id, peer))
    ensures CanOverrun(parse, cfg, After(parse, cfg, Init(cfg, 0), before + Queue(id, peer)), id)
  {
    id := cfg.maxPendingHandshakes;
    before := CrowdGathers(parse, cfg, peer, id);
    QueueMoves(parse, cfg, peer, id);
    RunJoin(parse, cfg, Init(cfg, 0), before, Queue(id, peer));
    InitHolds(parse, cfg, 0);
    RunKeeps(parse, cfg, Init(cfg, 0), before + Queue(id, peer));
    ReadingOverrunsIff(parse, cfg, After(parse, cfg, Init(cfg, 0), before + Queue(id, peer)), id);
  }

  /** No run from the start leaves a connection in its header phase longer than the timeout after its arrival. */
  ghost predicate MeetsDocumentedLimit(parse: StreamParser, cfg: Config)
    requires Parser.Bounded(parse)
  {
    forall now, id :: !CanOverrun(parse, cfg, Init(cfg, now), id)
  }

  /** The documented limit is met exactly by listeners that cannot keep a connection past the timeout: those with no
      permits, no time, or a policy that has no header read. */
  lemma DocumentedLimitIff(parse: StreamParser, cfg: Config)
    requires Parser.Bounded(parse)
    ensures MeetsDocumentedLimit(parse, cfg)
            <==> cfg.maxPendingHandshakes == 0 || cfg.headerTimeout == 0 || forall peer :: !ReadsHeader(cfg, peer)
  {
    if now, id :| CanOverrun(parse, cfg, Init(cfg, now), id) {
      var s := Init(cfg, now);
      var steps :| Possible(parse, cfg, s, steps) && Overdue(cfg, After(parse, cfg, s, steps), id);
      InitHolds(parse, cfg, now);
      RunKeeps(parse, cfg, s, steps);
      OverdueMeans(parse, cfg, After(parse, cfg, s, steps), id);
    }
    if cfg.maxPendingHandshakes > 0 && cfg.headerTimeout > 0 {
      if peer :| ReadsHeader(cfg, peer) {
        var before, id := QueueingDelays(parse, cfg, peer);
        OverrunLater(parse, cfg, Init(cfg, 0), before + Queue(id, peer), id);
      }
    }
  }

  // Time passes

  /** The connections whose timers have run out. */
  function Late(cfg: Config, s: State): set<Id>
  {
    set j | j in s.conns && Active(s, j) && s.now >= Limit(cfg, s.conns[j])
  }

  /** From every state, a run that only tells the connections whose timers have run out, and leaves all others as
      they are, lets the clock advance. */
  lemma {:induction false} TimePasses(parse: StreamParser, cfg: Config, s: State) returns (expiries: seq<Step>)
    requires Parser.Bounded(parse)
    ensures forall i :: 0 <= i < |expiries| ==> expiries[i].Expire? && expiries[i].id in Late(cfg, s)
    ensures Possible(parse, cfg, s, expiries + [Tick])
    ensures var s' := After(parse, cfg, s, expiries + [Tick]);
            s'.now == s.now + 1 && s'.conns.Keys == s.conns.Keys && forall j | j in s.conns && j !in Late(cfg, s) ::
              s'.conns[j] == s.conns[j]
    decreases |Late(cfg, s)|
  {
    if Late(cfg, s) == {} {
      forall j | j in s.conns && Active(s, j) ensures s.now < Limit(cfg, s.conns[j]) {
        assert j !in Late(cfg, s);
      }
      expiries := [];
      TakesOne(parse, cfg, s, Tick);
      assert expiries + [Tick] == [Tick];
    } else {
      var j :| j in Late(cfg, s);
      var s1 := Apply(parse, cfg, s, Expire(j));
      assert Late(cfg, s1) == Late(cfg, s) - {j};
      var later := TimePasses(parse, cfg, s1);
      Takes(parse, cfg, s, Expire(j), later + [Tick]);
      expiries := [Expire(j)] + later;
      assert expiries + [Tick] == [Expire(j)] + (later + [Tick]);
    }
  }

  // Isolation

  /** Over every run: a connection's outcome is what `read_and_validate` gives alone on the same bytes in the same cuts,
      and its buffer is within bounds, whatever the other connections do. */
  lemma Isolated(parse: StreamParser, cfg: Config, now: nat, steps: seq<Step>, id: Id)
    requires Parser.Bounded(parse) && Possible(parse, cfg, Init(cfg, now), steps)
    requires id in After(parse, cfg, Init(cfg, now), steps).conns
    ensures var c := After(parse, cfg, Init(cfg, now), steps).conns[id];
            c.Done? ==>
              && |Flat(c.chunks)| <= Room(cfg) + 255
              && (c.outcome.Some? ==> Solo(parse, cfg, c.peer, c.chunks, c.outcome.value))
  {
    InitHolds(parse, cfg, now);
    RunKeeps(parse, cfg, Init(cfg, now), steps);
  }

  // Completeness

  lemma ReadsEvent(parse: StreamParser, cfg: Config, s: State, id: Id, event: ReadEvent, outcome: Decision)
    requires Parser.Bounded(parse) && Enabled(cfg, s, Read(id, event))
    requires AfterRead(parse, cfg, s, id, event).conns[id].Done?
             && AfterRead(parse, cfg, s, id, event).conns[id].outcome == Some(outcome)
    ensures Possible(parse, cfg, s, [Read(id, event)])
    ensures Decides(After(parse, cfg, s, [Read(id, event)]), id, outcome)
  {
    TakesOne(parse, cfg, s, Read(id, event));
  }

  predicate Decides(s: State, id: Id, outcome: Decision)
  {
    id in s.conns && s.conns[id].Done? && s.conns[id].outcome == Some(outcome)
  }

  /** A connection can be left alone until its timer runs out. */
  lemma CanTimeOut(parse: StreamParser, cfg: Config, s: State, id: Id) returns (steps: seq<Step>)
    requires Parser.Bounded(parse) && Active(s, id) && s.now <= Limit(cfg, s.conns[id])
    ensures Possible(parse, cfg, s, steps)
    ensures Decides(After(parse, cfg, s, steps), id, Err(HeaderTimeout(s.conns[id].peer)))
  {
    var wait := RunsToLimit(parse, cfg, s, id);
    var s1 := After(parse, cfg, s, wait);
    TakesOne(parse, cfg, s1, Expire(id));
    RunJoin(parse, cfg, s, wait, [Expire(id)]);
    steps := wait + [Expire(id)];
  }

  /** What the loop does alone from here on, the connection can do among others. */
  lemma {:induction false} CanRead(parse: StreamParser, cfg: Config, s: State, id: Id, schedule: Schedule, k: nat,
                                   pending: bytes) returns (steps: seq<Step>)
    requires Parser.Bounded(parse) && id in s.conns && s.conns[id].Reading? && s.now <= s.conns[id].deadline
    ensures Possible(parse, cfg, s, steps)
    ensures var c := s.conns[id];
            Decides(After(parse, cfg, s, steps), id,
                    ReadLoop(parse, cfg, c.peer, Required(cfg, c.peer), schedule, k, Flat(c.chunks), pending).decision)
    decreases |pending|, 1
  {
    var c := s.conns[id];
    match schedule(k) {
      case TimedOut => steps := CanTimeOut(parse, cfg, s, id);
      case Failed =>
        ReadsEvent(parse, cfg, s, id, Broke, Err(Io));
        steps := [Read(id, Broke)];
      case Ready(limit) =>
        if pending == [] {
          ReadsEvent(parse, cfg, s, id, End, Err(if Flat(c.chunks) == [] then EmptyConnection(c.peer)
                                                 else ParseFailed(Incomplete, c.peer)));
          steps := [Read(id, End)];
        } else {
          steps := CanReadOn(parse, cfg, s, id, schedule, k, pending);
        }
    }
  }

  lemma {:induction false} CanReadOn(parse: StreamParser, cfg: Config, s: State, id: Id, schedule: Schedule, k: nat,
                                     pending: bytes) returns (steps: seq<Step>)
    requires Parser.Bounded(parse) && id in s.conns && s.conns[id].Reading? && s.now <= s.conns[id].deadline
    requires schedule(k).Ready? && pending != []
    ensures Possible(parse, cfg, s, steps)
    ensures var c := s.conns[id];
            Decides(After(parse, cfg, s, steps), id,
                    ReadLoop(parse, cfg, c.peer, Required(cfg, c.peer), schedule, k, Flat(c.chunks), pending).decision)
    decreases |pending|, 0
  {
    var c := s.conns[id];
    var n := Min(schedule(k).limit, |pending|);
    var chunk := pending[..n];
    var buf := Flat(c.chunks) + chunk;
    FlatSnoc(c.chunks, chunk);
    if ReadsOn(parse, cfg, buf) {
      var s1 := Apply(parse, cfg, s, Read(id, Got(chunk)));
      var later := CanRead(parse, cfg, s1, id, schedule, k + 1, pending[n..]);
      Takes(parse, cfg, s, Read(id, Got(chunk)), later);
      steps := [Read(id, Got(chunk))] + later;
    } else {
      ReadsEvent(parse, cfg, s, id, Got(chunk), Judged(cfg, c.peer, Required(cfg, c.peer), buf, parse(buf)));
      steps := [Read(id, Got(chunk))];
    }
  }

  /** The converse of `Isolated`: from every state, a new connection can come to whatever `read_and_validate` gives
      alone, without a permit, or with one if one is free. */
  lemma Realised(parse: StreamParser, cfg: Config, s: State, id: Id, peer: SocketAddr, permit: Permit,
                 schedule: Schedule, stream: bytes) returns (steps: seq<Step>)
    requires Parser.Bounded(parse) && id !in s.conns && ReadsHeader(cfg, peer)
    requires permit == Expired || (permit == Granted && s.permits > 0)
    ensures Possible(parse, cfg, s, steps)
    ensures Decides(After(parse, cfg, s, steps), id,
                    ReadAndValidate(parse, cfg, peer, Required(cfg, peer), permit, schedule, stream).decision)
  {
    var s1 := Apply(parse, cfg, s, Arrive(id, peer));
    var later;
    if permit == Expired {
      later := CanTimeOut(parse, cfg, s1, id);
    } else {
      var s2 := Apply(parse, cfg, s1, Grant(id));
      var rest := CanRead(parse, cfg, s2, id, schedule, 0, stream);
      Takes(parse, cfg, s1, Grant(id), rest);
      later := [Grant(id)] + rest;
    }
    Takes(parse, cfg, s, Arrive(id, peer), later);
    steps := [Arrive(id, peer)] + later;
  }
}
