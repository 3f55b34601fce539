/** How large the buffer of `read_and_validate` (src/listener.rs) gets: which sizes it is parsed at, for which
    streams. */
module Buffers {
  import opened Octets
  import opened Types
  import opened Listener
  import opened Chunking
  import Builder
  import Parser
  import V2

  /** The loop parses a buffer of this size. */
  ghost predicate Parses(parse: StreamParser, cfg: Config, schedule: Schedule, k: nat, buf: bytes, pending: bytes,
                         size: nat)
  {
    exists i :: 0 <= i < |Parsings(parse, cfg, schedule, k, buf, pending)|
      && |Parsings(parse, cfg, schedule, k, buf, pending)[i]| == size
  }

  /** Some cutting of the stream into timely reads makes the loop parse a buffer of this size. */
  ghost predicate CanParse(parse: StreamParser, cfg: Config, stream: bytes, size: nat)
  {
    exists schedule :: AllReady(schedule) && Parses(parse, cfg, schedule, 0, [], stream, size)
  }

  /** Before a buffer of some size, the loop must have waited with all but a read's worth of it. */
  predicate Reachable(parse: StreamParser, cfg: Config, stream: bytes, from: nat, size: nat)
  {
    size <= |stream| && (size <= from + 256
                         || (size - 256 < cfg.maxHeaderSize && parse(stream[..size - 256]) == Err(Incomplete)))
  }

  lemma ReachableFrom(parse: StreamParser, cfg: Config, buf: bytes, pending: bytes, from: nat, size: nat)
    requires Parser.Stable(parse) && ReadsOn(parse, cfg, buf) && Reachable(parse, cfg, buf + pending, |buf|, size)
    ensures Reachable(parse, cfg, buf + pending, from, size)
  {
    if from + 256 < size <= |buf| + 256 {
      var m := size - 256;
      assert (buf + pending)[..m] + buf[m..] == buf;
    }
  }

  lemma {:induction false} ParsedReachable(parse: StreamParser, cfg: Config, schedule: Schedule, k: nat, buf: bytes,
                                           pending: bytes, i: nat)
    requires Parser.Stable(parse) && i < |Parsings(parse, cfg, schedule, k, buf, pending)|
    ensures Reachable(parse, cfg, buf + pending, |buf|, |Parsings(parse, cfg, schedule, k, buf, pending)[i]|)
    decreases |pending|
  {
    var n := Min(schedule(k).limit, |pending|);
    var buf' := buf + pending[..n];
    assert buf + pending == buf' + pending[n..];
    if i > 0 {
      ParsedReachable(parse, cfg, schedule, k + 1, buf', pending[n..], i - 1);
      ReachableFrom(parse, cfg, buf', pending[n..], |buf|, |Parsings(parse, cfg, schedule, k, buf, pending)[i]|);
    }
  }

  lemma ParsesNow(parse: StreamParser, cfg: Config, schedule: Schedule, k: nat, buf: bytes, pending: bytes)
    requires pending != [] && schedule(k).Ready?
    ensures Parses(parse, cfg, schedule, k, buf, pending, |buf| + Min(schedule(k).limit, |pending|))
  {
    assert |Parsings(parse, cfg, schedule, k, buf, pending)[0]| == |buf| + Min(schedule(k).limit, |pending|);
  }

  lemma ParsesLater(parse: StreamParser, cfg: Config, schedule: Schedule, k: nat, buf: bytes, pending: bytes, n: nat,
                    size: nat)
    requires pending != [] && schedule(k).Ready? && n == Min(schedule(k).limit, |pending|)
             && ReadsOn(parse, cfg, buf + pending[..n])
    requires Parses(parse, cfg, schedule, k + 1, buf + pending[..n], pending[n..], size)
    ensures Parses(parse, cfg, schedule, k, buf, pending, size)
  {
    var later := Parsings(parse, cfg, schedule, k + 1, buf + pending[..n], pending[n..]);
    var i :| 0 <= i < |later| && |later[i]| == size;
    assert Parsings(parse, cfg, schedule, k, buf, pending)[i + 1] == later[i];
  }

  /** Single bytes up to a read's worth short of the size, and then that read. */
  lemma {:induction false} RushParses(parse: StreamParser, cfg: Config, stream: bytes, m: nat, limit: ReadLimit, i: nat)
    requires Parser.Stable(parse) && i <= m && m + limit <= |stream|
    requires m == 0 || (m < cfg.maxHeaderSize && parse(stream[..m]) == Err(Incomplete))
    ensures Parses(parse, cfg, Rush(m, limit), i, stream[..i], stream[i..], m + limit)
    decreases m - i
  {
    if i == m {
      ParsesNow(parse, cfg, Rush(m, limit), i, stream[..i], stream[i..]);
    } else {
      assert stream[..i] + stream[i..][..1] == stream[..i + 1] && stream[i..][1..] == stream[i + 1..];
      assert parse(stream[..i + 1]) == Err(Incomplete) by {
        assert stream[..i + 1] + stream[i + 1..m] == stream[..m];
      }
      RushParses(parse, cfg, stream, m, limit, i + 1);
      ParsesLater(parse, cfg, Rush(m, limit), i, stream[..i], stream[i..], 1, m + limit);
    }
  }

  /** The sizes the loop can come to parse the buffer at: those of the first read, and beyond them exactly those that
      are a read's worth past an incomplete prefix shorter than `max_header_size`. */
  lemma SizesIff(parse: StreamParser, cfg: Config, stream: bytes, size: nat)
    requires Parser.Stable(parse) && size > 0
    ensures CanParse(parse, cfg, stream, size) <==> Reachable(parse, cfg, stream, 0, size)
  {
    if CanParse(parse, cfg, stream, size) {
      var schedule :| AllReady(schedule) && Parses(parse, cfg, schedule, 0, [], stream, size);
      var i :| 0 <= i < |Parsings(parse, cfg, schedule, 0, [], stream)|
          && |Parsings(parse, cfg, schedule, 0, [], stream)[i]| == size;
      assert [] + stream == stream;
      ParsedReachable(parse, cfg, schedule, 0, [], stream, i);
    }
    if Reachable(parse, cfg, stream, 0, size) {
      var m := if size <= 256 then 0 else size - 256;
      assert stream[..0] == [] && stream[0..] == stream;
      RushParses(parse, cfg, stream, m, size - m, 0);
      assert AllReady(Rush(m, size - m));
    }
  }

  lemma ReachableLess(parse: StreamParser, cfg: Config, stream: bytes, less: nat, size: nat)
    requires Parser.Stable(parse) && less <= size && Reachable(parse, cfg, stream, 0, size)
    ensures Reachable(parse, cfg, stream, 0, less)
  {
    if less > 256 {
      var m, k := less - 256, size - 256;
      assert stream[..m] + stream[m..k] == stream[..k];
    }
  }

  /** Some cutting makes the loop parse more than `max_header_size` bytes. */
  ghost predicate CanExceed(parse: StreamParser, cfg: Config, stream: bytes)
  {
    exists size :: size > cfg.maxHeaderSize && CanParse(parse, cfg, stream, size)
  }

  /** `max_header_size` can be exceeded exactly when the stream is longer, and does not decide in all but a read's
      worth of one byte more. */
  lemma ExceedsIff(parse: StreamParser, cfg: Config, stream: bytes)
    requires Parser.Stable(parse) && Parser.Bounded(parse) && cfg.maxHeaderSize >= 1
    ensures var m := if cfg.maxHeaderSize <= 255 then 0 else cfg.maxHeaderSize - 255;
            CanExceed(parse, cfg, stream) <==> |stream| > cfg.maxHeaderSize && parse(stream[..m]) == Err(Incomplete)
  {
    var least := cfg.maxHeaderSize + 1;
    SizesIff(parse, cfg, stream, least);
    if CanExceed(parse, cfg, stream) {
      var size: nat :| size > cfg.maxHeaderSize && CanParse(parse, cfg, stream, size);
      SizesIff(parse, cfg, stream, size);
      ReachableLess(parse, cfg, stream, least, size);
    }
    assert stream[..0] == [];
  }

  /** The start of a binary header that announces the longest payload, followed by zeros. */
  function LongHeader(size: nat): (h: bytes)
    ensures |h| == 16 + size
  {
    V2.SIGNATURE + [0x21, 0x11, 0xFF, 0xFF] + Builder.ZeroBytes(size)
  }

  lemma LongHeaderWaits(size: nat, k: nat)
    requires k <= 16 + size && k < 65551
    ensures Parser.Parse(LongHeader(size)[..k]) == Err(Incomplete)
  {
    var buf := LongHeader(size)[..k];
    assert k > 0 ==> buf[0] == 0x0D;
    assert k >= 12 ==> V2.SIGNATURE <= buf;
    assert k >= 16 ==> buf[12] == 0x21 && buf[14] == 0xFF && buf[15] == 0xFF;
  }

  ghost predicate SomeStreamParses(cfg: Config, size: nat)
  {
    exists stream :: CanParse(Parser.Parse, cfg, stream, size)
  }

  /** The most the buffer can hold, 255 bytes over `max_header_size`, is reached on some stream exactly when
      `max_header_size` is no more than the longest header. */
  lemma FullExcessIff(cfg: Config)
    requires cfg.maxHeaderSize >= 1
    ensures SomeStreamParses(cfg, cfg.maxHeaderSize + 255) <==> cfg.maxHeaderSize <= 65551
  {
    var size := cfg.maxHeaderSize + 255;
    Parser.ParseStable();
    if cfg.maxHeaderSize <= 65551 {
      LongHeaderWaits(size, cfg.maxHeaderSize - 1);
      SizesIff(Parser.Parse, cfg, LongHeader(size), size);
    }
    if stream :| CanParse(Parser.Parse, cfg, stream, size) {
      SizesIff(Parser.Parse, cfg, stream, size);
      if cfg.maxHeaderSize > 65551 {
        Parser.ParseDecides(stream[..size - 256]);
      }
    }
  }
}
