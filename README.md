# Length-prefixed request/response codecs of a libp2p demo, in Dafny

This project models the codecs and the application services of a small
peer-to-peer request/response program built on libp2p's `request_response`
behaviour, and proves what they promise.

- **`MyCodec`** (src/p2p.rs) frames each request and each response as a
  4-byte big-endian unsigned length followed by exactly that many payload
  bytes, and caps payloads at `MAX_SIZE` = 1 MiB. Reading takes the prefix
  with `read_exact`, refuses an oversized length with `TooLarge(len)` of kind
  `InvalidData`, then reads exactly `len` bytes. Writing first checks the
  size and refuses with `TooLarge(len)` of kind `InvalidInput` before
  writing anything, then writes the prefix and the payload and flushes.
- **`TimeCodec`** (src/custom_protocol.rs) is unframed. Writing puts the raw
  bytes on the stream and flushes; reading takes every byte up to end of
  stream.
- **`TimeService`** (src/tower_service.rs) answers `"Echo: " ++ request`.
  **`TowerService`** (src/service.rs) answers the request unchanged. Both are
  always ready and never fail.

The streams are `Io.Reader` and `Io.Writer` classes. A reader holds every
byte the peer will send and a cursor. Its `Read` is one `poll_read`: it may
return fewer bytes than asked for, and returns none only at end of stream.
`ReadExact` and `ReadToEnd` are loops over `Read`, as `read_exact` and
`read_to_end` are. A writer holds the bytes handed to it and how many of
them were flushed. Its `Write` may accept only a prefix of the buffer, and
`WriteAll` loops over it. The codec methods are proved against two pure
functions, `P2p.EncodeFrame` and `P2p.DecodeFrame`. The round trip, the
size bound and the error cases are lemmas about those functions.

Modules: `Wrappers` (Option, Result), `Bytes` (bytes, `u32`, big-endian
conversion, ASCII), `Io` (streams and `io::Error`), `Task` (`Poll`), `P2p`,
`CustomProtocol`, `TimeServiceHandler` (src/tower_service.rs) and
`TowerServiceHandler` (src/service.rs).

The codec's errors are `io::Error` values: `UnexpectedEof` for a short
stream and `TooLarge` wrapped in `InvalidData` or `InvalidInput`. In the
model, `Io.IoError` is such a value: a kind, plus the custom error it was
built from, as at src/p2p.rs:63-66 and 117-120. `Io.CodecError` is the
`CodecError` enum of src/p2p.rs:36-43. Its `TooLarge(size)` variant carries
the offending length. Its `Io` variant wraps an I/O error, which the model
keeps only as that error's kind. The write-side size check is made on the
length truncated to 32 bits, so it does not catch every oversized payload
(see Findings).

## Model

| member | source | states |
|---|---|---|
| Bytes.TruncateU32 | src/p2p.rs:113 | `as u32` keeps a length below 2^32 and otherwise differs from it by a multiple of 2^32 |
| Bytes.ToBeBytes | src/p2p.rs:124 | a `u32` becomes exactly four bytes, its base-256 digits most significant first (through the inverse lemmas with `FromBeBytes`) |
| Bytes.FromBeBytes | src/p2p.rs:59 | four bytes become the `u32` whose base-256 digits, most significant first, are those bytes |
| Bytes.FromBeBytesToBeBytes | src/p2p.rs:59 | `from_be_bytes(to_be_bytes(n)) == n` for every `u32` |
| Bytes.ToBeBytesFromBeBytes | src/p2p.rs:124 | `to_be_bytes(from_be_bytes(b)) == b` for every 4-byte array |
| Bytes.ToBeBytesInjective | src/p2p.rs:124 | distinct lengths get distinct prefixes |
| Io.Reader.Read | src/p2p.rs:58 | one read returns a prefix of the unread bytes, at most the buffer size, and nothing only at end of stream or for an empty buffer; the cursor moves past what was returned |
| Io.Reader.ReadExact | src/p2p.rs:58 | succeeds exactly when `n` bytes are left, returning the next `n` bytes and advancing by `n`; otherwise fails with `UnexpectedEof` at end of stream |
| Io.Reader.ReadToEnd | src/custom_protocol.rs:40 | returns every unread byte and leaves the cursor at end of stream |
| Io.Writer.Write | src/p2p.rs:124 | one write accepts a prefix of the buffer, non-empty unless the buffer is; nothing is flushed |
| Io.Writer.WriteAll | src/p2p.rs:124-126 | appends the whole buffer to the output and flushes nothing |
| Io.Writer.Flush | src/p2p.rs:128 | everything written is flushed; the output is unchanged |
| P2p.MyProtocol.AsRef | src/p2p.rs:16-20 | the protocol name is `"/my-custom-protocol/1.0.0"`: ASCII, starting with `/`, ending with version `/1.0.0` |
| P2p.EncodeFrame | src/p2p.rs:113-126 | the bytes written are `be32(len mod 2^32) ++ data`, `4 + len` bytes with the payload after the prefix; or the error `TooLarge(len mod 2^32)` of kind `InvalidInput`, returned only when the payload exceeds `MAX_SIZE` |
| P2p.DecodeFrame | src/p2p.rs:57-74 | decoding never consumes more bytes than the stream holds |
| P2p.EncodeFrameLayout | src/p2p.rs:113-126 | for a payload under 2^32 bytes: written iff at most `MAX_SIZE`, as `be32(len) ++ data`, `4 + len` bytes, prefix first; refused otherwise with `TooLarge(len)` of kind `InvalidInput` |
| P2p.DecodeRejectsOversize | src/p2p.rs:62-67 | a declared length over `MAX_SIZE` fails with `TooLarge(len)` of kind `InvalidData` after consuming only the 4 prefix bytes |
| P2p.DecodeTruncated | src/p2p.rs:57-71 | fewer than 4 bytes, or fewer than `len` bytes after the prefix, fails with `UnexpectedEof` and drains the stream |
| P2p.DecodeSuccess | src/p2p.rs:57-74 | a decoded payload has exactly the declared length, at most `MAX_SIZE`, is the bytes after the prefix, and `4 + len` bytes are consumed |
| P2p.FrameRoundTrip | src/p2p.rs:52-130 | decoding the bytes written for a payload of at most `MAX_SIZE` bytes yields the payload and consumes `4 + len` bytes, leaving any trailing bytes unread |
| P2p.DecodeThenEncode | src/p2p.rs:52-130 | every successfully decoded frame is exactly the encoding of its payload |
| P2p.ReadFrame | src/p2p.rs:52-75 | the read result is `DecodeFrame` of the unread bytes and the cursor advances by the bytes it consumes |
| P2p.WriteFrame | src/p2p.rs:104-130 | on success appends `EncodeFrame(data)` and flushes it; on the size error the output is unchanged |
| P2p.ReadRequest | src/p2p.rs:52-75 | `read_request` returns `DecodeFrame`'s payload as a `MyRequest`, and its error otherwise |
| P2p.ReadResponse | src/p2p.rs:78-101 | `read_response` behaves as `read_request`, wrapping `MyResponse` |
| P2p.WriteRequest | src/p2p.rs:104-130 | `write_request` appends `EncodeFrame(data)` and flushes, or fails leaving the output unchanged |
| P2p.WriteResponse | src/p2p.rs:133-159 | `write_response` behaves as `write_request` |
| P2p.RequestExchange | src/p2p.rs:52-130 | a request within the cap written to a fresh stream, followed by any bytes, is read back intact with `4 + len` bytes consumed |
| P2p.ResponseExchange | src/p2p.rs:78-159 | the same for a response |
| P2p.OversizeRequestWritesNothing | src/p2p.rs:113-121 | a request over `MAX_SIZE` (and under 2^32) bytes fails with `TooLarge(len)` of kind `InvalidInput` and the stream stays empty |
| P2p.WrappedLengthPassesCheck | src/p2p.rs:113-121 | a payload of 2^32 + 1 bytes passes the size check and is written as a frame that decodes to one byte |
| P2p.CheckedEncodeFrame | src/p2p.rs:113-121 | the intended check: refuses exactly the payloads over `MAX_SIZE` with `TooLarge(len)`, and every accepted payload decodes back to itself |
| P2p.CheckedEncodeAgrees | src/p2p.rs:113-126 | below 2^32 bytes the intended and the written encodings agree |
| CustomProtocol.TimeProtocol.ProtocolName | src/custom_protocol.rs:10-14 | the protocol name is the 18 ASCII bytes of `"/time/reqrep/1.0.0"` |
| CustomProtocol.ReadRequest | src/custom_protocol.rs:31-42 | returns every remaining byte up to end of stream and leaves the cursor at the end |
| CustomProtocol.ReadResponse | src/custom_protocol.rs:44-55 | behaves as `read_request` |
| CustomProtocol.WriteRequest | src/custom_protocol.rs:57-69 | appends exactly the request bytes, with no prefix and no size check, flushes, and succeeds |
| CustomProtocol.WriteResponse | src/custom_protocol.rs:71-83 | behaves as `write_request` |
| CustomProtocol.RequestExchange | src/custom_protocol.rs:39-68 | reading to end over exactly the bytes written for a request, the empty one included, yields that request |
| CustomProtocol.ResponseExchange | src/custom_protocol.rs:52-81 | the same for a response |
| CustomProtocol.TwoWritesReadAsOne | src/custom_protocol.rs:39-68 | end of stream is the only terminator: two requests written to one stream read back as their concatenation |
| TimeServiceHandler.TimeService.PollReady | src/tower_service.rs:14-16 | always `Ready(Ok(()))` |
| TimeServiceHandler.TimeService.Call | src/tower_service.rs:18-21 | never fails; the response is `|req| + 6` bytes, starts with the bytes of `"Echo: "` and has `req` as its suffix |
| TimeServiceHandler.CallStateless | src/tower_service.rs:6-7 | the service has a single value, so equal requests get equal responses |
| TowerServiceHandler.TowerService.PollReady | src/service.rs:17-19 | always `Ready(Ok(()))` |
| TowerServiceHandler.TowerService.Call | src/service.rs:21-24 | never fails and returns the request unchanged |
| TowerServiceHandler.CallStateless | src/service.rs:7-8 | the service has no fields, so `call` is stateless and equal inputs get equal outputs |

## Left out

- Request ids, the pending-request map, per-request timeouts, response channels and the events of the request-response engine: they are implemented in the external `libp2p::request_response` crate, not in this program's source.
- `build_swarm` (src/p2p.rs:172-198), `P2pError`, src/swarm.rs and src/transport.rs: builder calls into libp2p (TCP, Noise, Yamux, timeouts) with no logic of their own.
- src/main.rs (the command-line driver and its single-shot exchange), src/error.rs (conversions and display of foreign errors) and tests/integration.rs (an async test harness over a copy of the read-to-end codec).
- Asynchronous scheduling, `Context` and wake-ups: each `poll_*` is modelled as a call that completes.
- I/O errors of the underlying stream other than end of stream: the model's writer never fails, so the `?` after each write and flush has no error path here.
- Io.Reader.ReadExact: when the stream ends early, Rust leaves the buffer contents unspecified; the model fixes the cursor at end of stream, which is what a reader that drains before reporting EOF does.
- Io.Reader.ReadToEnd: the growth of `read_to_end`'s buffer is not modelled; each read asks for at most 32 bytes, which does not affect the result.
- The protocol argument of every codec method is unused in the source and in the model.
- TimeServiceHandler.TimeService.Call and TowerServiceHandler.TowerService.Call return their result directly instead of as a boxed future.

## Findings

| source | as written | input that shows it | evidently intended | confidence | as-written member | corrected member |
|---|---|---|---|---|---|---|
| src/p2p.rs:113-121 (and 142-150) | `data.len() as u32` truncates to 32 bits before `len as usize > MAX_SIZE` is checked, and the truncated length is the prefix | a payload of 2^32 + 1 bytes: the truncated length is 1, the check passes, the prefix announces 1 byte and all 2^32 + 1 bytes are written, so the reader decodes a 1-byte request and meets the rest as further data | compare the untruncated length with `MAX_SIZE`, so no payload over 1 MiB is ever written | medium, not executed | P2p.WrappedLengthPassesCheck | P2p.CheckedEncodeFrame |

The codec methods `P2p.WriteRequest` and `P2p.WriteResponse` keep the check as
written, so that they match the source. `P2p.CheckedEncodeAgrees` shows that
the corrected encoding gives the same result for every payload under 2^32
bytes, so every property proved for those payloads holds for both.
