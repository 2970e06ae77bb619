# Request/response framing engine of Crashpad's WinHTTP transport

This project models `HTTPTransportWin::ExecuteSynchronously`, the synchronous
HTTP upload path of Crashpad on Windows. It has four parts:

- **Header planning** chooses the transfer mode. A `Content-Length` header
  whose value parses as a size selects content-length mode. Otherwise the
  request is sent chunked and a `Transfer-Encoding: chunked` header is
  added after the caller's headers. Every other header is added as
  `Name: Value\r\n`.
- **The body streamer** reads blocks of at most 32 KiB from the body source.
  In chunked mode it writes each block as a chunk frame
  (`<hex size>\r\n<data>\r\n`, section 4.1 of RFC 7230). The size field is
  `%08x` with its leading zeros trimmed to at least one digit. The empty
  block becomes the last-chunk `0\r\n\r\n`. In content-length mode it writes
  the raw bytes and skips empty writes.
- **The response consumer** treats any status other than 200 as failure.
  When the caller wants the body, it clears the output string and then
  appends reads until a read returns no bytes.
- **The failure policy**: the first failing collaborator makes the call
  return `false`.

## Modelling choices

- Every WinHTTP call is a scripted answer held in `Transport.Connection`.
  Per-call results are sequences indexed by call number: header additions,
  data writes and response reads. A call past the end of its script
  succeeds. A response read past the end returns no bytes.
- The body source (`GetBytesBuffer`) is a sequence of `BodyStreamer.BodyRead`
  values: a block of bytes, or the error result -1. A source whose script
  has run out reports end of body.
- Bytes are `Wire.byte` (0..255). Header names and values are `string`s.
- Each loop of the source is a Dafny method with loop invariants:
  - the header loop is `HeaderPlan.AddRequestHeaders`;
  - the body loop is `BodyStreamer.StreamBody`;
  - the response read loop is `ResponseConsumer.DrainResponse`.
- A pass over the body is logged as `BodyStreamer.StreamLog`. The log keeps
  the block behind each `WinHttpWriteData` call. `BodyStreamer.Writes`
  turns those blocks into the buffers handed to the call: the frames in
  chunked mode, the raw blocks otherwise.
- The body loop also has a recursive reference definition,
  `BodyStreamer.StreamFrom`. The lemmas about what reaches the wire are
  proved against this reference. `StreamBody` is proved to compute it.
- The chunked wire format is checked against a decoder,
  `ChunkFrame.Deframe`. Decoding what was written gives back the body
  blocks.
- The trimmed size field is checked against `ChunkHex.ToHex`, an
  independent shortest-hex numeral, and `ChunkHex.FromHex` reads it back.
- The header name is compared with `==` (util/net/http_transport_win.cc:173).
  HTTP header names are case-insensitive (section 3.2 of RFC 7230), but the
  code's `==` does not treat `content-length` as `Content-Length`. The model
  follows the code: the match is exact and case-sensitive.
- When a response read fails, the code leaves the caller's string holding
  what was read before the failure: it was cleared, then appended to. It
  does not discard that partial body. The model follows the code:
  `ExecuteSynchronously` returns that partial body in `responseBodyOut`.
- The caller's headers come in a `std::map`, so names are unique there and
  the loop visits them in the map's iteration order, sorted by name. The
  model takes a sequence, standing for that iteration order. If several `Content-Length` headers appear, the
  last one decides, just as the loop does. `HeaderPlan.ModeChoiceDistinct`
  states the mode choice for the unique-name case.
- DCHECKs are debug-only, so the model follows the release build. An
  unparseable `Content-Length` (DCHECK at line 175) selects chunked mode.

## Model

| member | source | states |
|---|---|---|
| `ChunkHex.TrimLeadingZerosShape` | util/net/http_transport_win.cc:263-269 | the `size_len` loop keeps a suffix of the field of at least one byte; every byte it drops is '0'; the kept part starts with a non-zero digit unless it is a single digit |
| `ChunkHex.FixedHexPadsToHex` | util/net/http_transport_win.cc:253 | `%0<w>x` of a value below 16^w is the shortest hex numeral of the value with zeros in front, and that numeral has at most w digits |
| `ChunkHex.FromHexToHex` | util/net/http_transport_win.cc:253 | reading the shortest hex numeral back as hex gives the original number |
| `ChunkHex.SizeFieldIsMinimalHex` | util/net/http_transport_win.cc:250-269 | the trimmed `%08x` size field is exactly the shortest hex numeral of the block length; every digit is lower case ('0'-'9', 'a'-'f'); it has 1 to 8 digits, no leading zero except the single "0", and reads back as the length |
| `ChunkHex.SizeFieldExamples` | util/net/http_transport_win.cc:253-269 | a 0-byte block gives "0", a 4096-byte block gives "1000", a full 32768-byte block gives "8000", and a 32767-byte block gives "7fff" |
| `ChunkFrame.FrameLayout` | util/net/http_transport_win.cc:221-273 | a frame is size field, CRLF, data, CRLF; its length is `size_len + 2 + data_bytes + 2`; it fits in the 32780-byte stack buffer; it equals the last-chunk exactly when the block is empty |
| `ChunkFrame.ParseChunkOfFrame` | util/net/http_transport_win.cc:258-273 | a chunk decoder reading a frame followed by any bytes returns the frame's data and exactly the bytes that follow |
| `ChunkFrame.DeframeFrames` | util/net/http_transport_win.cc:244-294 | decoding the frames of non-empty blocks followed by the last-chunk returns exactly those blocks |
| `HeaderPlan.ModeChoice` | util/net/http_transport_win.cc:170-175 | chunked mode is chosen exactly when the last `Content-Length` header is missing or does not parse as a size; otherwise content-length mode is chosen with the parsed value |
| `HeaderPlan.ModeChoiceDistinct` | util/net/http_transport_win.cc:170-175 | with unique header names, chunked mode is chosen exactly when no `Content-Length` header parses as a size |
| `HeaderPlan.ForwardedLinesAppend` | util/net/http_transport_win.cc:172-188 | the added header lines keep the order in which the loop visits the headers (the map's name order): the lines for a concatenation of header lists are the lines of each list, one after the other |
| `HeaderPlan.ForwardedLinesSkip` | util/net/http_transport_win.cc:172-188 | a `Content-Length` header anywhere in the list adds no line, and the headers before and after it keep their lines in order |
| `HeaderPlan.ForwardedLinesAll` | util/net/http_transport_win.cc:176-187 | without `Content-Length`, header i is added as line i, `Name + ": " + Value + "\r\n"` |
| `HeaderPlan.AddRequestHeaders` | util/net/http_transport_win.cc:170-205 | the lines handed to WinHTTP are a prefix of the planned ones: each non-`Content-Length` header in order, then `Transfer-Encoding: chunked` in chunked mode; the loop succeeds exactly when no addition fails; a failure stops right after the first failing addition; on success the mode is the requested one, and the declared length is "ignore" in chunked mode or when the length exceeds a DWORD, and the length otherwise |
| `BodyStreamer.StreamBody` | util/net/http_transport_win.cc:218-294 | the do-while body loop computes the recursive reference pass `Stream` exactly: its success, its number of source reads, the block behind every write and `total_written` |
| `BodyStreamer.StreamOutcome` | util/net/http_transport_win.cc:218-294 | the blocks behind the writes are a prefix of the planned blocks (every data block, then the empty block in chunked mode), and every write but the last succeeded; a successful pass made all planned writes, read the source up to its end of body, and counted every byte in `total_written`; a failed pass ended either on a source error after all planned writes or on a failing write, with no read after it |
| `BodyStreamer.StreamOkIff` | util/net/http_transport_win.cc:233-294 | the pass succeeds exactly when the source ends with end of body rather than an error and no planned write fails |
| `BodyStreamer.ChunkedRoundTrip` | util/net/http_transport_win.cc:244-294 | in chunked mode a successful pass writes the frames of the body blocks followed by the last-chunk; decoding the written bytes returns the blocks, and concatenating them gives the body |
| `BodyStreamer.LastChunkOnceAndLast` | util/net/http_transport_win.cc:280-294 | in chunked mode the last-chunk is written at most once, only as the final write, and only after the source reported end of body; a successful pass always writes it |
| `BodyStreamer.ContentLengthRaw` | util/net/http_transport_win.cc:274-298 | in content-length mode a successful pass writes exactly the non-empty body blocks, with no framing and no empty write, and `total_written` equals the body length |
| `BodyStreamer.BodyErrorFailsFast` | util/net/http_transport_win.cc:233-239 | a body source error makes the pass fail; the source is not read after the failing read, and nothing is written for that read or after it |
| `BodyStreamer.WriteFailureFailsFast` | util/net/http_transport_win.cc:284-293 | when a planned write fails, the pass fails; the first failing write is its last write, and the source is not read again |
| `ResponseConsumer.DrainResponse` | util/net/http_transport_win.cc:324-341 | the output is cleared and then holds every byte read before the first empty or failed read, in order; it reads exactly once past the data; it succeeds exactly when that last read did not fail |
| `ResponseConsumer.ResponseOfBlocks` | util/net/http_transport_win.cc:331-341 | a response delivered as non-empty blocks and then end of stream is read as those blocks concatenated, in one call per block plus one |
| `ResponseConsumer.ReadsAfterEndIgnored` | util/net/http_transport_win.cc:331-341 | anything the connection would deliver after the end of the response does not change the body or the number of reads |
| `Transport.ReceiveResponse` | util/net/http_transport_win.cc:300-344 | a failed `WinHttpReceiveResponse` ends the phase with that stage, and a failed status query likewise; a status other than 200 is reported with its code exactly when the receive and query succeeded; the phase succeeds exactly when both succeed, the status is 200 and, if the body is wanted, the read loop ends on an empty read; a read failure happens only after status 200 with a body wanted; the output is untouched unless the status was 200 and a body was asked for, and then it is every byte read up to end of stream |
| `Transport.ExecuteSynchronously` | util/net/http_transport_win.cc:95-345 | the call succeeds exactly when every collaborator succeeds and the status is 200; a step that succeeds always leads on to the next one, and every failure ends the call where it happens: a setup failure names the first failing call and adds nothing, a failed header addition leaves exactly the planned lines up to the failing one and sends nothing, a failed send streams nothing, a failed body pass receives nothing, a failed receive or status query reads nothing; the request is sent only with all its headers and the body only after that; a non-200 status fails with that code, reads nothing, and leaves the output untouched; with status 200 and a requested body the output is every byte read up to end of stream; in a successful chunked call the wire decodes to the body blocks; in a successful content-length call the wire carries exactly the body and `total_written` equals its length |

## Left out

- The WinHTTP calls themselves are not modelled: session, timeouts, URL
  cracking, connect, open-request, header add, send, write, receive, status
  query and read (util/net/http_transport_win.cc:96-158, 179-187, 193-200, 207-216, 286,
  300-317, 334). Each is only a scripted success or failure, plus a status
  code and response bytes.
- The URL is not modelled. `WinHttpCrackUrl`, the host, path and scheme
  components, and the UTF-8 to UTF-16 conversions are foreign library
  behaviour.
- The timeout `timeout() * 1000` is not modelled. It is a floating-point
  conversion done inside the connection setup.
- Error-message formatting and logging (`WinHttpMessage`, `LOG`) are left
  out. They do not affect control flow.
- Handle release through `ScopedHINTERNET` is left out. It is RAII cleanup
  that runs on every return. It does not affect the result.
- The on-stack buffer and its `static_assert` are not modelled byte by
  byte. A frame is a byte sequence. `ChunkFrame.FrameLayout` states only
  that a frame fits in the buffer.
- Debug checks are not modelled as failures:
  - `DCHECK(!chunked)` at line 175;
  - the checks on `_snprintf` at lines 254-256;
  - `DCHECK_EQ(written, write_size)` at line 291: every write is taken to
    be complete;
  - `DCHECK_EQ(total_written, content_length)` at line 297: the model
    states `total_written` instead.
- The block-size checks at lines 238-239 are not checks in the model. The
  upper bound of line 239 is the precondition `BodyStreamer.WellFormedSource`
  on the body source. The lower bound of line 238 is built into the
  `BodyStreamer.BodyRead` type, which cannot hold a result below -1; in a
  release build such a result would reach the `checked_cast` at line 250 or
  277 and abort, which is not modelled.
- The `checked_cast` aborts are not modelled (lines 182, 196, 250, 272,
  277). Frames are at most 32780 bytes and raw blocks at most 32768 bytes,
  so the ones on write sizes cannot fire. Header strings longer than a
  DWORD are not modelled.
- `HeaderPlan.ParseSize`: `base::StringToSizeT` is not part of this model.
  It is stood in for by "non-empty decimal digits whose value fits a 64-bit
  `size_t`". Any sign or whitespace handling of the library is not
  modelled.
- The 4096-byte read buffer is not a bound in the model. It only limits the
  size of each read, and the model accepts reads of any size.
