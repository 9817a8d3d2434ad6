# SOCKS 4 / 4A request reader

This project models the request reader of the SOCKS 4 server session in
`src/services/socks/v4/session.h`. The model covers `ReadRequestCoro`, the
stackless coroutine that decodes a client's SOCKS 4 or SOCKS 4A request, and
`AsyncReadRequest`, which starts that coroutine.

The reader is resumed once per completion `(error code, length)`:

- The kick-off `(success, 0)` issues an `async_read` of the fixed header
  into the request.
- It then issues an `async_read_until` of a `'\0'` into a private
  `streambuf`. When that read completes, it stores the user id (the C string
  at the front of the buffer) and consumes `length` bytes.
- When the header carries the SOCKS 4A marker, it issues a second
  `async_read_until` and stores the domain the same way, without consuming.
- It then calls the handler with success and the byte count it accumulated.
- An error completion calls the handler at once with the count so far.

The model has two layers:

- **Values.** These modules hold the values:
  - `Octets` covers bytes, NUL-terminated fields and C strings.
  - `RequestFormat` holds the request as it is sent (`Encode`) and a
    reference parser (`Parse`). The header size and the 4A test are a
    parameter `Format`, because the request layout lives in `request.h`,
    and `request.h` is not part of this model. `Socks4a` is the standard
    8-byte instance, used in worked examples.
  - `ReadRequest` models the reader as a resumable state machine: `Step` is
    one resumption, and `Inv` is what holds of every reachable state.
  - `AsioModel` gives what the two reads do to the client's byte stream and
    to the reader's buffers. `Run` drives the reader from the kick-off to
    the handler call.
- **Objects.** `ReaderObjects` has the objects the source updates in place:
  - `StreamBuf` (the `streambuf`);
  - `Request` (header buffer, name, domain);
  - `RequestReader`, whose `Resume` is `operator()` and is proved equal to
    `Step`;
  - the two read completions as effects on those objects;
  - `AsyncReadRequest`;
  - `DecodeRequest`, which starts a reader and completes its reads until the
    handler fires, and whose result is proved equal to the parser's.

A phase `Start` stands for the coroutine before it is first entered. The
phases `ReadHeader`, `ReadUserId` and `ReadDomain` are the three `yield`
points, and `Done` and `Failed` are the states after the handler call.

An `async_read_until` reads chunks until the buffer holds a `'\0'`. How the
client's bytes were split into chunks shows in the buffer only through how
far the last chunk reached past the terminator. So a chunking is the
`Chunking` value: one over-read count per read until a terminator. Every
refinement lemma quantifies over it.

Bytes read past a request stay in the reader's private buffer. On the plain
SOCKS 4 path, the user id read may fetch bytes past the user id's terminator.
The reader consumes only through the terminator, so these bytes stay
buffered. On the SOCKS 4A path, the domain read consumes nothing, so the
domain, its terminator and anything read past it stay buffered. Nothing hands
the buffer on: it belongs to the coroutine and is destroyed with it. So any
bytes the client sent right after its request, and that a read fetched, are
lost to the session. The model records this rather than hiding it:
`Refinement` states that the final buffer followed by the unread bytes is
exactly what follows the user id's terminator in the client's stream.

## Model

| member | source | states |
|---|---|---|
| Octets.FirstTerminator | src/services/socks/v4/session.h:110-111 | the delimiter search of a read until `'\0'`: the index is within the buffer and holds a terminator, or equals the length when there is none |
| Octets.BeforeFirstTerminator | src/services/socks/v4/session.h:110-111 | no terminator comes before the first one |
| Octets.CString | src/services/socks/v4/session.h:115 | the string read from a `const char*` into the buffer: a terminator-free prefix that stops at a terminator or at the end |
| Octets.FirstTerminatorUnique | src/services/socks/v4/session.h:110-111 | the first terminator is the only position with a terminator and none before it |
| Octets.FirstTerminatorAfter | src/services/socks/v4/session.h:110-111 | a terminator-free prefix shifts the first terminator by its length |
| Octets.FirstTerminatorBefore | src/services/socks/v4/session.h:110-111 | bytes appended after a terminator do not move the first one |
| RequestFormat.Parse | src/services/socks/v4/session.h:104-128 | the reference parser never claims more bytes than the stream holds |
| RequestFormat.ParseFields | src/services/socks/v4/session.h:109-128 | the fields after a complete header: the count covers that header and at most the bytes after it, and a complete request carries that header |
| RequestFormat.ParseSound | src/services/socks/v4/session.h:104-128 | soundness: a complete parse has well-formed fields, and their encoding is exactly the prefix of the stream it counted |
| RequestFormat.ParseEncode | src/services/socks/v4/session.h:104-128 | round trip: parsing the encoding of well-formed fields, followed by any bytes, gives back those fields and the encoding's length |
| RequestFormat.TruncatedHasNoRequest | src/services/socks/v4/session.h:104-128 | a stream the parser calls truncated starts with no well-formed request |
| RequestFormat.EncodedLength | src/services/socks/v4/session.h:107-122 | a request occupies the header, the user id and its terminator, and on the 4A path the domain and its terminator |
| RequestFormat.MarkerRequiresDomain | src/services/socks/v4/session.h:118-126 | a SOCKS 4A request to 0.0.0.1 is not complete after its user id |
| RequestFormat.MarkedRequestWithDomain | src/services/socks/v4/session.h:118-126 | the same request with a domain is complete, with 15 bytes |
| RequestFormat.PlainAddressEndsAfterUserId | src/services/socks/v4/session.h:118-128 | a request to 0.0.0.0 is plain SOCKS 4 and ends after the user id |
| ReadRequest.Initial | src/services/socks/v4/session.h:89-95 | the constructor's state: nothing counted, buffered, issued or stored, the handler not called, and every read still ahead |
| ReadRequest.Step | src/services/socks/v4/session.h:98-129 | every resumption moves the reader forward. Only a successful completion after the kick-off adds its length to the total. The handler is called exactly when the reader stops, with the completion's code and the total. Otherwise exactly one read is issued, the one the new phase waits for |
| ReadRequest.InitialInv | src/services/socks/v4/session.h:89-95 | a freshly constructed reader satisfies the invariant |
| ReadRequest.StepInv | src/services/socks/v4/session.h:98-129 | every resumption keeps the invariant. It holds whatever the header read stored, and under it: reads follow the order header, user id, then the domain only under the 4A marker; no handler call while a read is pending and exactly one after; a stored name and domain have no terminator; the domain is unset unless the decode succeeded, and after success it is set exactly on the 4A path |
| ReadRequest.AwaitsLastIssued | src/services/socks/v4/session.h:104-126 | while the reader waits, exactly the last issued read is outstanding, and it is the read its phase waits for |
| ReadRequest.KickOff | src/services/socks/v4/session.h:144-146 | the kick-off `(success, 0)` issues only the header read, counts nothing and does not call the handler |
| ReadRequest.ErrorAborts | src/services/socks/v4/session.h:99-101 | an error completion in any phase calls the handler with that error and the earlier count. The failing length is not added, no read is issued and the request is untouched |
| ReadRequest.UserIdFromBuffer | src/services/socks/v4/session.h:112-118 | after the user id read, the name is the bytes before the buffer's first terminator. Exactly `length` bytes are consumed and what lies past the terminator stays buffered. The reader goes on to the domain exactly when the header has the 4A marker |
| ReadRequest.DomainFromBuffer | src/services/socks/v4/session.h:122-128 | the domain is the bytes before the first terminator of what stayed buffered; storing it calls the handler with success and the full count |
| ReadRequest.HandlerCalledAtMostOnce | src/services/socks/v4/session.h:98-129 | whatever completions arrive, the handler is called at most once, and has been called exactly when the reader has stopped; a completed decode reports success with a stored name |
| AsioModel.ReadExactly | src/services/socks/v4/session.h:106 | `async_read` of n bytes completes with n bytes, or with end of file and fewer; the bytes taken and those left make up the stream |
| AsioModel.ReadUntil | src/services/socks/v4/session.h:110-111 | `async_read_until`: succeeds exactly when buffer and stream hold a terminator. Its length runs through the first terminator of the buffer after the read. It reads nothing when the buffer already has one. End of file reports length 0 |
| AsioModel.Overwrite | src/services/socks/v4/session.h:106 | the header buffer keeps its size and starts with the bytes read |
| AsioModel.PerformHeader | src/services/socks/v4/session.h:106 | the header read changes only the request's header buffer |
| AsioModel.PerformUntil | src/services/socks/v4/session.h:110-111 | a read until a terminator changes only the reader's stream buffer |
| AsioModel.Perform | src/services/socks/v4/session.h:106-121 | the read a suspended reader waits for changes only the buffer it reads into, and takes bytes only from the front of the client's stream |
| AsioModel.Run | src/services/socks/v4/session.h:104-128 | the coroutine driven by the completions of its own reads always stops, calling the handler exactly once if it had not stopped yet, and never gives bytes back to the stream |
| AsioModel.RunStopped | src/services/socks/v4/session.h:128 | after the handler call no read is performed |
| AsioModel.HeaderRead | src/services/socks/v4/session.h:104-107 | a short stream fails the decode with the earlier count. Otherwise the header holds the first bytes, their number is counted and the user id read is issued |
| AsioModel.UntilEof | src/services/socks/v4/session.h:99-101 | a read until a terminator that meets end of file first fails the decode with the earlier count |
| AsioModel.UntilFound | src/services/socks/v4/session.h:110-111 | a read until a terminator that finds one reports the position of the first terminator of buffer-then-stream, plus one; the buffer then starts with that field |
| AsioModel.UserIdReadName | src/services/socks/v4/session.h:110-115 | the user id is the bytes before the first terminator however the bytes were chunked; the count grows by the field and its terminator |
| AsioModel.UserIdReadRest | src/services/socks/v4/session.h:110-116 | after the user id, buffer and unread stream together are exactly the bytes after its terminator |
| AsioModel.UserIdReadNext | src/services/socks/v4/session.h:118-128 | after the user id, the reader reads the domain under the 4A marker and otherwise reports success |
| AsioModel.PerformCompletes | src/services/socks/v4/session.h:110-111 | a read until a terminator that finds one reports success and the length through the first terminator of buffer-then-stream |
| AsioModel.DomainReadFound | src/services/socks/v4/session.h:120-125 | the domain is the bytes before the first terminator of buffer-then-stream, however the bytes were chunked |
| AsioModel.DomainReadDone | src/services/socks/v4/session.h:120-128 | after the domain read the decode is done, the name is kept and the handler gets success and the count through the domain's terminator |
| AsioModel.DomainReadRest | src/services/socks/v4/session.h:120-125 | the domain read consumes nothing: buffer and unread stream still hold everything after the user id |
| AsioModel.HeaderStep | src/services/socks/v4/session.h:104-107 | kick-off and header read as the first steps of a run, for a short and for a long enough stream |
| AsioModel.UserIdStep | src/services/socks/v4/session.h:109-128 | the user id read as a step of the run, in both outcomes |
| AsioModel.DomainStep | src/services/socks/v4/session.h:118-128 | the domain read as the last step of the run, in both outcomes |
| AsioModel.FromUserId | src/services/socks/v4/session.h:109-128 | from the user id read on, the run ends as the parser says for the bytes after the header, for every chunking |
| AsioModel.PlainOutcome | src/services/socks/v4/session.h:110-128 | a reader that stopped after the user id read ends as the parser says: it failed for want of a terminator, or it has a plain SOCKS 4 request |
| AsioModel.DomainOutcome | src/services/socks/v4/session.h:118-128 | a reader that went on to the domain ends as the parser says: it failed for want of a second terminator, or it has a SOCKS 4A request |
| AsioModel.ParseOutcome | src/services/socks/v4/session.h:104-128 | agreeing with the parse of the fields after the header is agreeing with the parse of the whole stream |
| AsioModel.Refinement | src/services/socks/v4/session.h:104-129 | for every byte stream and chunking, the reader ends as the parser says. A complete request gives success, the parsed fields and their byte count, with every byte after the user id's terminator still buffered or unread. Otherwise it gives end of file, no domain, and the count of the complete fields |
| AsioModel.DecodesEncoded | src/services/socks/v4/session.h:104-129 | for well-formed fields sent in any chunking, the reader stores exactly those fields and reports success with the encoded length |
| ReaderObjects.StreamBuf.constructor | src/services/socks/v4/session.h:95 | a new stream buffer is empty |
| ReaderObjects.StreamBuf.Commit | src/services/socks/v4/session.h:110-111 | bytes a read stores are appended |
| ReaderObjects.StreamBuf.Consume | src/services/socks/v4/session.h:116 | `consume(n)` drops the first n bytes, or all of them |
| ReaderObjects.Request.SetName | src/services/socks/v4/session.h:115 | the name becomes the C string at the front of the buffer; nothing else changes |
| ReaderObjects.Request.SetDomain | src/services/socks/v4/session.h:125 | the domain becomes the C string at the front of the buffer; nothing else changes |
| ReaderObjects.Request.WriteHeader | src/services/socks/v4/session.h:106 | the header read writes the front of the header buffer |
| ReaderObjects.RequestReader.constructor | src/services/socks/v4/session.h:89-95 | zero count, a fresh empty buffer, the given request; the invariant holds |
| ReaderObjects.RequestReader.Resume | src/services/socks/v4/session.h:98-129 | `operator()` changes the reader, its buffer and the request exactly as `Step` says, and keeps the invariant |
| ReaderObjects.AsyncReadRequest | src/services/socks/v4/session.h:141-147 | a new reader kicked off: the header read is outstanding, the count is zero, the handler has not been called and the request is unchanged |
| ReaderObjects.CompleteHeaderRead | src/services/socks/v4/session.h:106 | completing the header read on the objects is the header read of the value model |
| ReaderObjects.CompleteUntilRead | src/services/socks/v4/session.h:110-111 | completing a read until a terminator on the objects is that read in the value model |
| ReaderObjects.DecodeRequest | src/services/socks/v4/session.h:141-147 | a reader started by `AsyncReadRequest` and driven to its handler call over any byte stream and chunking reports what the parser computes; the request holds the parsed fields, and no domain when the stream was truncated |

## Left out

- The `Session` class (`session.h:29-84`) is left out: only its declarations are here, and its behaviour is in `session.ipp`, which is not part of this model.
- `AsyncSendReply` is left out: it forwards to `async_write` of a reply whose layout is in `reply.h`, which is not part of this model.
- The relay buffers and socket linking are left out: no relay code is part of this model.
- The request layout is left out. The header size that `MutBuffer` gives and the 4A test `Is4aVersion` are the parameter `Format`, because `request.h` is not part of this model. `set_name` and `set_domain` are modelled as storing the C string at the buffer's front.
- The Asio runtime is left out: the `io_service`, handler copying (`std::move(*this)`), the `coroutine` macros, `shared_ptr` lifetimes and any concurrency. The reads are modelled only through their effect on the byte stream and the buffers, and through the completion they report.
- Read errors other than end of file are left out of `ReadExactly` and `ReadUntil`. `Step` and `ErrorAborts` still take any error code.
- A `streambuf` size limit is left out: `ReadUntil` never fails with "not found" because the buffer is full.
- Chunking of the header read is left out: `async_read` of a fixed buffer never reads past it, so chunking does not change its outcome.
- Destroying the coroutine is left out, and with it the loss of its private buffer. That buffer can hold bytes read past the request: past the user id on the plain path, or past the domain on the 4A path. The model keeps them in the final state, as described above.
- ReadRequest.Step: `total_length_` is a `std::size_t`, modelled as an unbounded natural number, so wrap-around is not modelled (a request would need more than `SIZE_MAX` bytes).
- ReaderObjects.Request.Is4aVersion: is the layout parameter `Format.is4a` applied to the header buffer; the test itself lives in `request.h`, so the member states nothing of its own. The branch it decides is stated by `ReadRequest.UserIdFromBuffer` and `AsioModel.UserIdReadNext`.
- ReaderObjects.RequestReader.Resume: requires an outstanding read (or the kick-off). The source would also call the handler again on an error delivered after it stopped, but no such completion can arrive, since no read is pending then.
- ReaderObjects.RequestReader.constructor: requires a request with no name or domain stored. The source's constructor (`session.h:89-95`) takes any request, but the invariant relating the stored fields to the phase needs them unset at the start.
- ReaderObjects.AsyncReadRequest: requires a request with no name or domain stored, for the same reason as the constructor. The source passes on whatever request it is given (`session.h:141-147`).
- ReaderObjects.DecodeRequest: starts from a request with no name or domain set and drives the reads itself. That loop plays the role of the `io_service` delivering completions; the source has no such loop.
