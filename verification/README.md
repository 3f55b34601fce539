# PROXY protocol: a verified model

`proxy-protocol-rs` lets a TCP server behind a load balancer learn who its clients are. The balancer puts a header in
front of each connection, a text line (version 1) or a binary block with type-length-value entries and an optional
CRC-32C (version 2). The library builds such headers, parses them from a buffer that may hold only part of one, and has a
listener that reads a header off each connection, under a size limit, a time limit and a limit on how many connections do
so at once, and hands the rest of the stream to the application.

This project models that path from end to end and proves what it promises.

| file | models |
|---|---|
| `Octets`, `Utf8`, `Unicode`, `Types` | bytes and words, UTF-8 with replacement and what it encodes, the data a header carries |
| `Register`, `Crc32c` | CRC-32C on a 32-bit register fed bit by bit, and why it detects bursts of up to 32 bits |
| `Tlv` | entries: framing, typed fields, SSL records, error offsets; the two loops of `src/parse/tlv.rs` |
| `V2`, `V1`, `IpText`, `CanonicalIp`, `Parser` | the two header formats, the standard library's address texts, `parse` |
| `Builder` | `HeaderBuilder`, its fields and the bytes it appends and patches |
| `Wire`, `WireText`, `Inet6Text` | the wire format with every byte and number written out, for `parse` and for `build` |
| `RoundTrip`, `Rebuild`, `RebuildText`, `Integrity` | build then parse, parse then build, changes to a header with a checksum |
| `Listener`, `Chunking`, `Buffers` | `accept` and `read_and_validate` on one connection; how the reads are cut; how large the buffer gets |
| `Outcomes` | what `accept` decides, case by case |
| `Proxied`, `EndToEnd` | `ProxiedStream`; what the application sees of a connection |
| `Handshakes` | many connections at once: permits, timers, cancellation |
| `Policy` | trusted networks and the policies built on them |

The main results, for all inputs and all runs:

- The application reads exactly the client's bytes after the header, for every way the stream is cut into reads and
  every pattern of later reads (`EndToEnd.ConnectionConserves`); a header the builder writes brings the client's address to
  it (`EndToEnd.BinaryHeaderDelivered`, `EndToEnd.TextHeaderDelivered`).
- Every way of cutting a stream into timely reads gives the outcome of parsing the stream once if and only if the header
  fits `max_header_size` (`Chunking.HeaderIndependentIff`, `Chunking.ReadIndependentIff`). The cuttings agree with each
  other if and only if the header fits, or is more than 255 bytes too long, when all refuse it (`Chunking.HeaderAgreeIff`).
- What the bytes mean is stated without the code's own constants and helpers: for each kind of binary header and of text
  line, what `parse` returns and what `build` writes (`Wire.Inet4Header`, `Wire.ChecksumHeader`, `WireText.SixFieldLine`
  and their neighbours), and for entries, exactly which data is accepted and what each typed field then holds
  (`Wire.EntriesIff`).
- `parse` inverts `build` (`RoundTrip.V1RoundTrip`, `RoundTrip.V2RoundTrip`), and `build` inverts `parse` if and only if the
  header is canonical, for either version (`Rebuild.RebuildIff`, `RebuildText.LineRebuildIff`), which for IPv6 texts is
  section 4 of RFC 5952 (`CanonicalIp.Rfc5952Iff`). Once `parse` answers, more
  bytes do not change the answer, and headers are a prefix-free code (`Parser.ParseStable`, `Parser.ParseMinimal`,
  `Parser.HeadersPrefixFree`).
- A change confined to 32 consecutive bits of the addresses or of an entry, or any change of the checksum, is detected
  (`Integrity.AddressChangeDetected`, `Integrity.EntryChangeDetected`, `Integrity.CrcChangeDetected`).
- `accept` has exactly the outcomes written out in `Outcomes`: for each policy, what the parser says of the bytes, version,
  validator, permit and reads that fail or time out.
- In every interleaving, permits are conserved, each connection returns its permit once and leaves within twice the
  timeout, none is timed out early, and the outcomes are exactly those of connections alone (`Handshakes.Isolated`,
  `Handshakes.Realised`).

## How things are modelled

- A byte is an integer from 0 to 255, shifts and masks of nibbles are division and remainder, and the 16-bit length field
  is written out. The CRC register is a 32-bit vector; the bits of a byte are fed to it from the lowest on.
- Rust's `assert!` in the builder is a `None` result where the builder goes on building (`build`, `with_ssl`) and a
  precondition where it checks its arguments (`v2_proxy`, `v1_proxy`, `with_unique_id`).
- A socket is the bytes the peer sends before it closes. A schedule says of each read how many bytes, from 1 to 256, it
  yields at most, or that it times out or fails. Policy and validator are arbitrary functions.
- The room is `max_header_size`, or one byte if that is zero: the loop parses what the first read yields in any case.
  Statements about `max_header_size` below are about the room.
- Most proofs about the parser, the loop and the state machine are about any parser that is stable and bounded, and are
  then applied to `parse`, which is both (`Parser.ParseStable`, `Parser.ParseMinimal`).
- In `Handshakes`, a free permit may go to any waiting connection, at once or later; a read or a grant may still happen at
  the instant a timer runs out; and the clock does not move past a timer that has run out before the connection has been
  told. The time bounds rest on that last assumption about the executor.

## Where code and documentation differ

The model follows the code.

- `src/parse/v1.rs:22-23` says that the longest TCP6 line is 107 bytes. It is 104: none is longer
  (`RoundTrip.V1RoundTrip`), and one is as long (`RoundTrip.LongestLine`).
- `src/config.rs:24-26` says that `header_timeout` is the longest wait for the header after accept. Waiting for a permit
  and reading each get the whole timeout, so the bound is twice that (`Handshakes.LeavesInTime`). A connection that is
  reading may yet exceed the documented one exactly when it was not granted its permit on arrival
  (`Handshakes.ReadingOverrunsIff`). Every listener that reads headers has runs in which a connection that had to queue
  does (`Handshakes.QueueingDelays`, `Handshakes.DocumentedLimitIff`).
- `src/config.rs:28-30` says that `max_header_size` is the largest buffer for the header. `Buffers.SizesIff` says which
  sizes the buffer takes and `Buffers.ExceedsIff` for which streams it can exceed `max_header_size`; it never does by more
  than 255 bytes (`Listener.ReadHeader`), and it does by 255 on some stream exactly when `max_header_size` is at most
  65551 (`Buffers.FullExcessIff`). A header that is 1 to 255 bytes too long gets the outcome of its parsing or is refused,
  depending on how it arrives (`Chunking.CuttingMatters`, with a concrete one in `Chunking.CuttingCanMatter`).

## Model

The rows up to `Policy.OnlyTrustedPeersSpeak` are the results. Those from `Tlv.ParseTlvsLoop` on tie the code, in its own
form, to the functions that the results speak of.

| member | source | states |
|---|---|---|
| `Crc32c.CheckValue` | src/parse/v2.rs:245-246 | the register computes CRC-32C: the checksum of the digits 1 to 9 is the published check value |
| `Crc32c.AppendLaw` | src/parse/v2.rs:237-240 | a checksum continued over more bytes is the checksum of the whole |
| `Crc32c.BitBurstDetected` | src/parse/v2.rs:91-101 | two inputs whose bits, in the order they are fed, differ within 32 consecutive ones have different checksums, whatever surrounds them |
| `Utf8.Lossy` | src/parse/tlv.rs:18-23 | the string made of any bytes is valid UTF-8, and is those bytes if they were valid |
| `Unicode.ValidIff` | src/parse/tlv.rs:18-23 | bytes count as valid if and only if they are the encoding of scalar values in section 3 of RFC 3629 |
| `Unicode.LossyKeeps` | src/parse/tlv.rs:18-23 | a scalar value is kept, whatever follows |
| `Unicode.LossyReplaces` | src/parse/tlv.rs:18-23 | where none is, EF BF BD replaces the longest bytes that start one, or a single byte |
| `Wire.EntriesIff` | src/parse/tlv.rs:26-147 | the data is accepted with result `t` if and only if it spells the entries `t.raw`, each of an allowed size and with complete sub-entries, and ALPN, authority, checksum, unique id, SSL record with all its fields, and namespace hold what the last entries of types 01, 02, 03, 05, 20, 30 (and sub-types 21 to 28) say, or nothing if there are none |
| `Tlv.RejectedIff` | src/parse/tlv.rs:28-40 | `MalformedTlv` with an offset is returned if and only if faultless entries are followed, at that offset, by a cut-off or faulty one; there is no other error |
| `Tlv.FaultMeaning` | src/parse/tlv.rs:56-79 | an entry's fault is at its start if it is ill-sized, and in an SSL entry at the first cut-off sub-entry, after well-formed ones |
| `Tlv.UnframeLossless` | src/parse/tlv.rs:30-45 | the entries found and the rest that is none encode back to the data |
| `V2.UntilNul` | src/parse/v2.rs:212-217 | a path is the longest NUL-free start of its field |
| `Integrity.ScanAgrees` | src/parse/v2.rs:227-246 | on accepted entries the scan finds a value if and only if the parser has set one, so it never runs through on a header that is verified |
| `Integrity.ScanFindsOwnField` | src/parse/v2.rs:92-100 | with a single checksum entry, the value left out is the value verified |
| `Integrity.NoOtherWithinBurst` | src/parse/v2.rs:91-101 | two headers with the same checksum that agree outside 32 consecutive bits agree everywhere outside the checksum |
| `Integrity.AddressChangeDetected` | src/parse/v2.rs:91-101 | any change confined to 32 consecutive bits of the addresses of a PROXY header built with a checksum makes `parse` return `CrcMismatch`, whatever follows |
| `Integrity.EntryChangeDetected` | src/parse/v2.rs:79-101 | a header built with a checksum, with up to 32 consecutive bits of an entry's value changed, is accepted if and only if the entry has a fault now and the command is LOCAL |
| `Integrity.CrcChangeDetected` | src/builder.rs:315-337 | any change of the checksum value makes `parse` return `CrcMismatch` with that value as expected and the right one as actual |
| `Integrity.HandMadeAcceptedIff` | src/parse/v2.rs:92-100 | a built header without faults in which a checksum entry was added by hand: if the last checksum in it is that of the header with the first one zeroed, it is read back whole, and otherwise that mismatch is reported |
| `Integrity.ZeroByHandAcceptedIff` | src/builder.rs:315-337 | with a zero checksum added by hand and another asked for, if and only if the checksum computed is zero too |
| `Wire.Inet4Header` | src/parse/v2.rs:26-171 | the twelve signature bytes, 21, 11 or 12, a length, two IPv4 addresses, two ports, high byte first, and entries are read as just that, whatever follows; without entries 28 bytes are taken |
| `Wire.Inet6Header` | src/parse/v2.rs:172-190 | the same with 21 or 22 and two IPv6 addresses |
| `Wire.UnixHeader` | src/parse/v2.rs:191-217 | the same with 31 or 32 and two path fields of 108 bytes |
| `Wire.LocalHeader` | src/parse/v2.rs:64-89 | with 20 and any family: no addresses, the payload as entries, or none if it is not |
| `Wire.FixedPartRefused` | src/parse/v2.rs:26-60 | another version than 2 and a command above 1 are refused with the nibble, as soon as 16 bytes are there; with fewer bytes than announced more are asked for |
| `Wire.AddressesRefused` | src/parse/v2.rs:69-197 | a PROXY header without family or protocol, with an unknown one, or with less payload than its addresses take is refused, each with its own error |
| `Wire.ChecksumHeader` | src/parse/v2.rs:91-114 | a header with one checksum entry, between any others, is accepted if and only if the four bytes spell, high byte first, the CRC-32C of the header with them zero; else both checksums are reported |
| `Wire.ForeignIff` | src/parse/mod.rs:41-69 | `NotProxyProtocol` if and only if the first byte, the first 12 bytes or the first 6 are not those of a header |
| `Wire.IncompleteIff` | src/parse/mod.rs:41-69 | `Incomplete` if and only if the signature, the fixed part, the announced payload, or the end of a line of less than 107 bytes is missing |
| `Wire.TooLongIff` | src/parse/v1.rs:24-35 | `V1TooLong` if and only if the buffer starts with `PROXY `, has 107 bytes and no CRLF in them |
| `Wire.BuiltPlain` | src/builder.rs:260-340 | the bytes of a built binary header: signature, command, family and protocol, length, addresses, entries |
| `Wire.BuiltChecksum` | src/builder.rs:315-337 | the same with a checksum: it comes last and spells the CRC-32C of the header with it zero |
| `Wire.BuiltIff` | src/builder.rs:303-330 | a header is built if and only if no entry and not the payload exceeds 65535 bytes |
| `Wire.BuiltSsl` | src/builder.rs:377-425 | the bytes of an SSL value: flags, verification, the fields that are there in order of their types |
| `WireText.PortIff` | src/parse/v1.rs:121-127 | a text is a port if and only if it is the decimal number after any zeros after a plus sign or none |
| `WireText.DottedIff` | src/parse/v1.rs:93-99 | a text is an IPv4 address if and only if it is its four decimal numbers with dots between |
| `Inet6Text.Inet6Iff` | src/parse/v1.rs:93-99 | a text is an IPv6 address, and which, if and only if it has one of the forms of section 2.2 of RFC 4291: eight groups of one to four hexadecimal digits, up to seven with a double colon for the zeros that are missing, either with an IPv4 address in the place of the last two |
| `WireText.SixFieldLine` | src/parse/v1.rs:59-139 | a line of six fields of at most 107 bytes, its end included, is accepted if and only if the second is `TCP4` or `TCP6`, the next two are addresses of that family and the last two ports, the source first; else the error names the field |
| `WireText.WrongCount` | src/parse/v1.rs:59-81 | any other number of fields is `V1InvalidFormat` |
| `WireText.UnknownLine` | src/parse/v1.rs:43-57 | `PROXY UNKNOWN`, alone or before a space and anything, is a header without addresses |
| `WireText.NotUtf8` | src/parse/v1.rs:37-38 | a line that is not UTF-8 is `V1NotUtf8` |
| `WireText.Built4` | src/builder.rs:238-258 | the bytes of a built text header for IPv4 |
| `WireText.Built6` | src/builder.rs:238-258 | for IPv6 |
| `WireText.BuiltUnknown` | src/builder.rs:238-258 | and without addresses |
| `V1.FindCrlf` | src/parse/v1.rs:28-30 | the position found is that of the first CRLF, and none is found only if there is none |
| `V1.SplitJoined` | src/parse/v1.rs:59-76 | splitting fields joined by spaces gives the fields |
| `V1.ParseLineJoined` | src/parse/v1.rs:43-139 | a line made of the six fields for two addresses parses to those addresses, ports and family |
| `IpText.ParsePrinted` | src/parse/v1.rs:93-99 | every IPv4 and IPv6 address is read back from the text it is printed as, compressed and mapped forms included |
| `IpText.PortPrinted` | src/parse/v1.rs:121-127 | every port is read back from its decimal text |
| `Parser.ParseStable` | src/parse/mod.rs:41-69 | once `parse` has an answer, no further bytes change it |
| `Parser.ParseMinimal` | src/parse/mod.rs:41-69 | an accepted header is not empty, lies within the buffer, is accepted alike by itself, and every shorter prefix is incomplete |
| `Parser.HeadersPrefixFree` | src/parse/mod.rs:41-69 | no header is a proper prefix of another |
| `Parser.ParseDecides` | src/parse/v2.rs:55-60 | no buffer of 65551 bytes or more is incomplete |
| `Parser.ParseWellFormed` | src/parse/v2.rs:64-114 | an accepted header has transport and both addresses or none of them, addresses of the transport's family, NUL-free paths of at most 108 bytes, a unique id of at most 128; version 1 ones have stream transport and no entries, LOCAL ones no addresses |
| `RoundTrip.SslRoundTrip` | src/builder.rs:377-425 | every encodable SSL record is read back, but for flag bits without a meaning, so exactly if it has only the three defined ones; its entry has no fault |
| `RoundTrip.V1RoundTrip` | src/builder.rs:238-258 | a built text header has at most 104 bytes and its only CR at its end; parsed before anything, it gives back its addresses and takes exactly its bytes |
| `RoundTrip.LongestLine` | src/parse/v1.rs:22-24 | a text header of 104 bytes |
| `RoundTrip.V2RoundTrip` | src/builder.rs:260-374 | a built binary header without faulty or hand-made checksum entries, parsed before anything, gives back command, transport, addresses and all entries with the checksum, and takes exactly its bytes |
| `RoundTrip.V2AcceptedIff` | src/builder.rs:303-313 | a built binary header with a fault is accepted if and only if it is a LOCAL one; without faults and hand-made checksum entries it is accepted |
| `Rebuild.RebuildIff` | src/parse/v2.rs:64-89 | building from what `parse` returned for a binary header gives the bytes it took if and only if the header is canonical, as every PROXY header for IPv4 or IPv6 is |
| `Rebuild.LocalFamilyNotRebuilt` | src/parse/v2.rs:64-68 | a LOCAL header that names a family is read and not built again |
| `CanonicalIp.OneText` | src/parse/v1.rs:93-99 | an IPv4 address is read from one text only, the one it is printed as |
| `CanonicalIp.Rfc5952Iff` | src/parse/v1.rs:93-99 | a text read as an IPv6 address is the one it is printed as if and only if it has no upper-case digit and no leading zero, a dotted end exactly for `::ffff:` and an IPv4 address, and a double colon exactly for the first of the longest runs of two or more zero segments |
| `CanonicalIp.LongestIsFirst` | src/builder.rs:246-253 | the printer's loop over the segments finds the first of the longest runs of zeros |
| `RebuildText.PortRebuiltIff` | src/parse/v1.rs:121-127 | a port is printed as the text it was read from if and only if that has no sign and no leading zero |
| `RebuildText.LineRebuildIff` | src/parse/v1.rs:43-139 | building from what `parse` returned for a text header gives the bytes it took if and only if an unknown line says no more, and else the ports are plain and IPv6 addresses as section 4 of RFC 5952 recommends |
| `RebuildText.SignedLineNotRebuilt` | src/parse/v1.rs:121-127 | every text header with addresses has a twin, with a sign before the port, that is read alike and not built again |
| `RebuildText.RewordedLineNotRebuilt` | src/parse/v1.rs:93-99 | a line with any text of an IPv6 address but the recommended one is read and not built again |
| `RebuildText.UpperCaseNotRebuilt` | src/parse/v1.rs:93-99 | such a line: one with an address in upper case |
| `Listener.AcceptConserves` | src/listener.rs:122-148 | for an accepted connection, leftover and socket are together the stream after the header it starts with, or the whole stream if no header was read |
| `Listener.ParsingsBounded` | src/listener.rs:107-145 | the buffers parsed are ever longer prefixes of the stream, at most as many as there was room, none larger than `max_header_size` plus 255, and each but the last incomplete |
| `Chunking.IndependentIff` | src/listener.rs:110-153 | for any stable parser: every cutting into timely reads gives the outcome of parsing the whole stream once, if and only if the bytes that fit the room decide |
| `Chunking.HeaderIndependentIff` | src/listener.rs:110-153 | for a stream that starts with a header: every cutting gives the outcome of the whole stream if and only if the header is no longer than `max_header_size` |
| `Chunking.ReadIndependentIff` | src/listener.rs:143-145 | for `parse` on any stream: every cutting gives the outcome of the whole stream if and only if the bytes that fit the room decide, as they always do with `max_header_size` of 65551 or more |
| `Chunking.AgreeIff` | src/listener.rs:110-153 | for any stable parser and stream: all cuttings give the same outcome if and only if the bytes that fit the room decide or no buffer of at most 255 more does |
| `Chunking.HeaderAgreeIff` | src/listener.rs:110-153 | for a stream that starts with a header: if and only if the header fits `max_header_size` or exceeds it by more than 255 |
| `Chunking.TooLongRefused` | src/listener.rs:143-151 | a header that exceeds the room by more than 255 bytes is refused as incomplete under every cutting |
| `Chunking.CuttingMatters` | src/listener.rs:143-151 | in between, byte by byte the stream is refused, and a cutting that sends the last bytes at once gets the outcome of the whole stream |
| `Chunking.CuttingCanMatter` | src/listener.rs:143-151 | a concrete stream and two cuttings of it: byte by byte it is refused, with the end sent at once it is let in unless version or validator object |
| `Buffers.SizesIff` | src/listener.rs:122-145 | the buffer can come to be parsed at a size if and only if one read yields it, or it is a read past an incomplete prefix shorter than `max_header_size` |
| `Buffers.ExceedsIff` | src/listener.rs:143-145 | some cutting makes the buffer exceed `max_header_size` if and only if the stream is longer and its first `max_header_size` less 255 bytes do not decide |
| `Buffers.FullExcessIff` | src/listener.rs:107-145 | some stream makes the buffer exceed `max_header_size` by 255 if and only if `max_header_size` is at most 65551 |
| `Proxied.PollTakesFront` | src/stream.rs:152-173 | a poll takes bytes off the front of what is unread; with room it comes back ready and empty exactly at the end |
| `Proxied.PollsConserve` | src/stream.rs:152-173 | over any polls, delivered and unread bytes are in order what was unread at first |
| `Proxied.PollsComplete` | src/stream.rs:152-173 | as many useful polls as bytes deliver all of them |
| `Proxied.LeftoverServed` | src/stream.rs:152-170 | over any polls, whatever the socket does, as many bytes are delivered as are left over and have room, and until then the socket keeps its own |
| `Proxied.SocketServed` | src/stream.rs:172 | after that a poll is what the socket makes of it |
| `EndToEnd.ConnectionConserves` | src/listener.rs:74-89 | for every policy, validator, arrival and pattern of reads, the application sees a prefix of the stream less exactly its header, and all of it if it keeps reading |
| `EndToEnd.AcceptedMeans` | src/listener.rs:77-88 | nobody is let in when the policy says reject, nor without a header when it says require; a header that is handed over is well-formed, of version 1 if only that is allowed, of version 2 if only that is, and not refused by the validator |
| `Outcomes.TimelyOutcome` | src/listener.rs:122-152 | with a permit and timely reads, when the bytes that fit decide or no more come: a header of the version not asked for is `VersionMismatch`, else one the validator refuses is `ValidationFailed` with its refusal, else it is let in with the bytes after it; other bytes are let in whole if no header is required; every other parse error is returned, and an empty stream is `EmptyConnection` |
| `Outcomes.WithoutHeader` | src/listener.rs:146-148 | a connection that does not start with a header is let in under `Use`, and the application can read all of it; under `Require` it is `NotProxyProtocol` |
| `Outcomes.WithoutReading` | src/listener.rs:77-83 | under `Ignore` every connection is let in without a header and with all its bytes; under `Reject` none is |
| `Outcomes.UntimelyOutcome` | src/listener.rs:98-114 | no permit in time, or a read that times out while the header is incomplete, is `HeaderTimeout`; a read that fails is `Io` |
| `Outcomes.GivenUp` | src/listener.rs:143-151 | byte by byte, exactly `max_header_size` bytes are read of a header that needs more |
| `EndToEnd.ClientOfHeader` | src/stream.rs:73-78 | the client differs from the peer only if a PROXY header names an IP source, and then is that source |
| `EndToEnd.HeaderDelivered` | src/listener.rs:124-142 | a header that fits and is admitted, however it arrives in time, is handed over, and the application reads the payload |
| `EndToEnd.BinaryHeaderDelivered` | src/builder.rs:260-340 | through a proxy that builds a binary header, the application learns the client's address and reads exactly the payload |
| `EndToEnd.TextHeaderDelivered` | src/builder.rs:238-258 | the same through a proxy that builds a text header |
| `Handshakes.PermitsConserved` | src/listener.rs:47-54 | over every run, free permits and connections in the loop add up to `max_pending_handshakes` |
| `Handshakes.PermitReturnedOnce` | src/listener.rs:97-104 | over every run, each connection takes a permit at most once, and has returned it exactly if it has taken it and is out of the loop |
| `Handshakes.LeavesInTime` | src/listener.rs:98-114 | over every run, a connection is out of its header phase within twice the timeout of its arrival |
| `Handshakes.PhasesInTime` | src/listener.rs:98-114 | waiting takes at most the timeout, reading at most the timeout from the grant, no read extends it, and a connection that reads may yet exceed the timeout since its arrival if and only if it was granted its permit later than that |
| `Handshakes.WaitTimesOut` | src/listener.rs:98-103 | over every run, a connection that never got a permit and is timed out was so exactly at its arrival plus the timeout |
| `Handshakes.ReadingTimesOut` | src/listener.rs:106-113 | over every run, one that got its permit and is timed out was so exactly at that time plus the timeout |
| `Handshakes.ReadingOverrunsIff` | src/listener.rs:98-114 | in every reachable state, a connection that reads has a continuation in which it is still reading past the timeout since its arrival if and only if its deadline is later than that |
| `Handshakes.QueueingDelays` | src/listener.rs:98-106 | for every listener that reads headers, a run in which a connection arrives when no permit is free, gets the first that is returned, and may exceed the timeout since its arrival |
| `Handshakes.DocumentedLimitIff` | src/listener.rs:98-114 | no run keeps a connection past the timeout since its arrival if and only if there are no permits, no time, or no peer whose header is read |
| `Handshakes.RunOnward` | src/listener.rs:106-122 | no run changes a deadline, an arrival time, an outcome or bytes already read |
| `Handshakes.TimePasses` | src/listener.rs:111-113 | from every state, telling the connections whose timers have run out, and touching no other, lets the clock advance |
| `Handshakes.Isolated` | src/listener.rs:91-154 | over every run, a connection's outcome is what `read_and_validate` gives alone on the same bytes in the same cuts, with a permit, or without one and having read nothing; and its buffer is within bounds |
| `Handshakes.Realised` | src/listener.rs:91-154 | the converse: from every state, for every stream and arrival, a new connection has a run to the outcome that `read_and_validate` gives alone |
| `Policy.InRangeIff` | src/policy.rs:89-91 | an address is in a network's range if and only if it has the prefix's leading bits, as in section 3.1 of RFC 4632 |
| `Policy.WholeOctets` | src/policy.rs:89-91 | with a prefix of whole octets, if and only if it starts with these |
| `Policy.FromIpnets` | src/policy.rs:76-87 | the hash set and range list trust exactly the addresses of the given networks, and no host-length prefix stays in the list |
| `Policy.WithCidrsContains` | src/policy.rs:63-71 | a set of addresses and a range list trust exactly those addresses and those of the networks |
| `Policy.EvaluateAgrees` | src/policy.rs:93-130 | both ways of building a trusted set decide every peer alike, under both policies |
| `Policy.OnlyTrustedPeersSpeak` | src/policy.rs:94-130 | a listener with a trusted set hands over a header if and only if the peer is in it; any other peer gets in only under mixed mode, as its own client |
| `Tlv.ParseTlvsLoop` | src/parse/tlv.rs:26-93 | the loop over entries returns what unframing, first fault and last-value semantics say, errors included |
| `Tlv.ParseSslLoop` | src/parse/tlv.rs:95-147 | the same for the loop over sub-entries of an SSL value |
| `Tlv.AssignEntry` | src/parse/tlv.rs:47-86 | one entry either sets its typed field or is refused at the offset of its fault |
| `V2.FindCrcField` | src/parse/v2.rs:227-243 | the scan finds the first checksum value among the entries, by its position in the header |
| `V2.SplitCrc` | src/parse/v2.rs:236-240 | hashing in three pieces gives the checksum of a copy with the four bytes zeroed |
| `V2.ComputeCrc32c` | src/parse/v2.rs:224-247 | the split computation gives the checksum of the header with the found value zeroed, or of the header as it is if there is none |
| `Builder.EncodeSubTlv` | src/builder.rs:416-425 | appends the encoding of the entry, or fails if the value is too long for its length field |
| `Builder.EncodeSslTlvValue` | src/builder.rs:377-414 | the fields present are appended in order of their types, after flags and verification |
| `Builder.FillPathField` | src/builder.rs:362-364 | a path is cut to 108 bytes and padded with zeros |
| `Builder.HeaderBuilder.V2Proxy` | src/builder.rs:43-66 | starts a consistent binary PROXY header |
| `Builder.HeaderBuilder.V2Local` | src/builder.rs:69-79 | starts a consistent LOCAL header |
| `Builder.HeaderBuilder.V1Proxy` | src/builder.rs:86-109 | starts a consistent text header |
| `Builder.HeaderBuilder.V1Unknown` | src/builder.rs:112-122 | starts a consistent text header without addresses |
| `Builder.HeaderBuilder.V2Unix` | src/builder.rs:125-142 | starts a consistent binary header for Unix sockets |
| `Builder.HeaderBuilder.WithTransportProtocol` | src/builder.rs:145-150 | changes the protocol if there is a transport, and nothing else |
| `Builder.HeaderBuilder.WithRawTlv` | src/builder.rs:194-197 | adds the entry at the end, and changes nothing else |
| `Builder.HeaderBuilder.WithUniqueId` | src/builder.rs:164-173 | adds an entry that has no fault |
| `Builder.HeaderBuilder.WithSsl` | src/builder.rs:182-185 | adds the encoded record, or nothing if a field is too long |
| `Builder.HeaderBuilder.WithPadding` | src/builder.rs:200-203 | adds an entry of zeros |
| `Builder.HeaderBuilder.WithCrc32c` | src/builder.rs:206-209 | asks for a checksum, and changes nothing else |
| `Builder.HeaderBuilder.AppendAddresses` | src/builder.rs:342-374 | appends both addresses and ports, or both path fields |
| `Builder.HeaderBuilder.AppendEntries` | src/builder.rs:303-313 | appends the encoding of all entries, or fails exactly if one is too long |
| `Builder.HeaderBuilder.BuildV2Bytes` | src/builder.rs:260-340 | appending, patching the length and then the checksum gives the sealed header of the plan, or fails exactly if a length field is exceeded |
| `Builder.HeaderBuilder.Build` | src/builder.rs:219-224 | builds the header of the plan's version |
| `Listener.TcpStream.Read` | src/listener.rs:111-114 | a read moves the next bytes, as many as the schedule allows, from the socket to the buffer |
| `Listener.Judge` | src/listener.rs:124-152 | the arms that leave the loop: version, then validator, then leftover; a foreign stream passes if no header is required; any other error is returned |
| `Listener.ReadRound` | src/listener.rs:111-152 | one round comes closer to the decision and the buffers of the recursion over reads, or is at its end |
| `Listener.ReadHeader` | src/listener.rs:106-153 | the loop comes to the decision, leaves the socket as, and parses the buffers that the recursion over reads does; these are at most as many as there is room for bytes, and none exceeds the room by more than 255 |
| `Listener.AcceptConnection` | src/listener.rs:74-104 | the policy's decision, then the permit, then the loop |
| `Proxied.ReadBuf.PutSlice` | src/stream.rs:166 | appends the bytes to the filled part of the caller's buffer |
| `Proxied.ProxiedStream.constructor` | src/stream.rs:53-65 | nothing of the leftover has been served, and the socket follows it |
| `Proxied.ProxiedStream.PollReadInto` | src/stream.rs:152-173 | fills the caller's buffer and advances cursor or socket as the step on values says |
| `Proxied.ProxiedStream.ClientAddress` | src/stream.rs:73-78 | the source in the header if it is an IP one, otherwise the peer |

## Left out

- Tokio: sockets, wakers, pinning, the fairness of the semaphore, and `write_to`; a socket is bytes and a schedule.
- `src/axum.rs`: a framework adapter.
- `src/vendor`: vendor-specific decoding of entries is not part of this model.
- `AsyncWrite` for `ProxiedStream`: passed on to the inner stream unchanged.
- `Display` texts and error messages: they do not affect what is parsed, built or decided.
- `ConfigBuilder`: its setters, and its refusal of zero limits; the results here hold for zero limits too.
- `AcceptAll` and `OptionalProxy`: constant policies, covered by the results for arbitrary ones.
- `ProxyConnectInfo`: a copy of what `ProxiedStream` holds.
- `SocketAddr`: flow info and scope id of IPv6 socket addresses are not on the wire and not modelled.
- Builder.HeaderBuilder.WithRawTlv: stands for `with_alpn`, `with_authority` and `with_netns` too, which are it with a fixed type.
- Builder.HeaderBuilder.BuildV2Bytes: the buffer is a sequence that is reassigned, so growth and copying of the vector are not modelled.
- Listener.AcceptConnection: the outcome of waiting for a permit is a parameter; `Handshakes` models the waiting.
