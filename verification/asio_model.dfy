/** What the asynchronous reads the request reader issues do to the client's
    byte stream and to the reader's buffers, and what completion they report;
    and the reader driven by them from the kick-off to the handler call. */
module AsioModel {
  import opened Octets
  import opened RequestFormat
  import opened ReadRequest

  /** The outcome of one read: its completion `(ec, length)`, the bytes it
      stored, and the bytes the client has sent that are still unread. */
  datatype ReadResult = ReadResult(ec: ErrorCode, length: nat, data: seq<byte>, rest: seq<byte>)

  /** `async_read` into a buffer of `n` bytes: completes once the buffer is
      full, or with end of file and the count read so far. */
  function ReadExactly(n: nat, wire: seq<byte>): (c: ReadResult)
    ensures c.data + c.rest == wire
    ensures c.ec.Success? <==> n <= |wire|
    ensures c.ec.Success? ==> c.length == n == |c.data|
    ensures !c.ec.Success? ==> c.ec == EndOfFile && c.length == |c.data| < n && c.rest == []
  {
    if n <= |wire| then ReadResult(Success, n, wire[..n], wire[n..])
    else ReadResult(EndOfFile, |wire|, wire, [])
  }

  /** `async_read_until(stream, '\0')`: when the buffer already holds a
      terminator it completes without reading; otherwise it appends chunks
      until one contains a terminator. The reported length runs through the
      buffer's first terminator. Only where the last chunk ends is visible in
      the buffer, so a chunking is summed up by `overRead`, the number of
      bytes the last chunk carried past the terminator (as many as the client
      sent, at most). End of file before a terminator reports length 0 and
      leaves what arrived in the buffer. */
  function ReadUntil(buffered: seq<byte>, wire: seq<byte>, overRead: nat): (c: ReadResult)
    ensures c.data + c.rest == wire
    ensures c.ec.Success? <==> FirstTerminator(buffered + wire) < |buffered + wire|
    ensures c.ec.Success? ==> var b := buffered + c.data;
            && 0 < c.length <= |b|
            && FirstTerminator(b) == c.length - 1
            && FirstTerminator(buffered + wire) == c.length - 1
    ensures !c.ec.Success? ==> c.ec == EndOfFile && c.length == 0 && c.rest == []
    ensures FirstTerminator(buffered) < |buffered| ==> c.data == []
  {
    var all := buffered + wire;
    var k := FirstTerminator(all);
    if k == |all| then
      NoTerminatorInPrefix(buffered, wire);
      ReadResult(EndOfFile, 0, wire, [])
    else
      var m := if k < |buffered| then 0 else Min(k + 1 + overRead, |all|) - |buffered|;
      ReadCompletes(buffered, wire, overRead, k, m);
      ReadResult(Success, k + 1, wire[..m], wire[m..])
  }

  lemma ReadCompletes(buffered: seq<byte>, wire: seq<byte>, overRead: nat, k: nat, m: nat)
    requires k == FirstTerminator(buffered + wire) < |buffered + wire|
    requires m == if k < |buffered| then 0 else Min(k + 1 + overRead, |buffered + wire|) - |buffered|
    ensures m <= |wire|
    ensures FirstTerminator(buffered + wire[..m]) == k < |buffered + wire[..m]|
    ensures FirstTerminator(buffered) < |buffered| ==> m == 0
  {
    var all := buffered + wire;
    var b := buffered + wire[..m];
    BeforeFirstTerminator(all);
    assert b[..k] == all[..k];
    assert b[k] == all[k];
    FirstTerminatorUnique(b, k);
    if FirstTerminator(buffered) < |buffered| {
      FirstTerminatorBefore(buffered, wire);
    }
  }

  /** The header buffer after a read stored `got` at its front. */
  function Overwrite(header: seq<byte>, got: seq<byte>): (h: seq<byte>)
    ensures |got| <= |header| ==> |h| == |header| && h[..|got|] == got
  {
    got + header[Min(|got|, |header|)..]
  }

  /** How the bytes arrive: the over-read of the user id read and of the
      domain read (see `ReadUntil`). */
  datatype Chunking = Chunking(userIdOverRead: nat, domainOverRead: nat)

  /** A read that completed: its completion, the reader with the read's bytes
      stored, and what the client has not yet had read. */
  datatype Completion = Completion(ec: ErrorCode, length: nat, after: Reader, rest: seq<byte>)

  /** The header read: `async_read` into the request's header buffer. */
  function PerformHeader(fmt: Format, s: Reader, wire: seq<byte>): (c: Completion)
    ensures c.after == s.(header := c.after.header)
  {
    var r := ReadExactly(fmt.headerSize, wire);
    Completion(r.ec, r.length, s.(header := Overwrite(s.header, r.data)), r.rest)
  }

  /** A read until a terminator into the reader's stream buffer. */
  function PerformUntil(s: Reader, wire: seq<byte>, overRead: nat): (c: Completion)
    ensures c.after == s.(stream := c.after.stream)
  {
    var r := ReadUntil(s.stream, wire, overRead);
    Completion(r.ec, r.length, s.(stream := s.stream + r.data), r.rest)
  }

  /** The over-read of the read a phase waits for. */
  function OverRead(ch: Chunking, p: Phase): nat {
    if p == ReadUserId then ch.userIdOverRead else ch.domainOverRead
  }

  /** The outstanding read of `s` performed against the client's bytes: it
      touches only the buffer it reads into and takes bytes only from the
      front of the stream. */
  function Perform(fmt: Format, s: Reader, wire: seq<byte>, ch: Chunking): (c: Completion)
    ensures c.after == s.(header := c.after.header, stream := c.after.stream)
    ensures |c.rest| <= |wire| && c.rest == wire[|wire| - |c.rest|..]
  {
    if s.phase == ReadHeader then PerformHeader(fmt, s, wire)
    else PerformUntil(s, wire, OverRead(ch, s.phase))
  }

  /** The reader run from `s` to its handler call: the kick-off first, then
      one completion per outstanding read. It always ends with the reader
      stopped, having called the handler once more if it was still active,
      and with bytes taken only from the front of the stream. */
  function Run(fmt: Format, s: Reader, wire: seq<byte>, ch: Chunking): (r: (Reader, seq<byte>))
    ensures Terminal(r.0.phase)
    ensures |r.0.calls| == |s.calls| + (if Terminal(s.phase) then 0 else 1)
    ensures |r.1| <= |wire|
    decreases Rank(s.phase)
  {
    if Terminal(s.phase) then (s, wire)
    else if s.phase == Start then Run(fmt, Step(fmt, s, Success, 0), wire, ch)
    else
      var c := Perform(fmt, s, wire, ch);
      Run(fmt, Step(fmt, c.after, c.ec, c.length), c.rest, ch)
  }

  /** The kick-off advances the run without reading. */
  lemma RunKickOff(fmt: Format, s: Reader, wire: seq<byte>, ch: Chunking)
    requires s.phase == Start
    ensures Run(fmt, s, wire, ch) == Run(fmt, Step(fmt, s, Success, 0), wire, ch)
  {
  }

  /** One completion of the header read advances the run by one step. */
  lemma RunHeader(fmt: Format, s: Reader, wire: seq<byte>, ch: Chunking)
    requires s.phase == ReadHeader
    ensures var c := PerformHeader(fmt, s, wire);
            Run(fmt, s, wire, ch) == Run(fmt, Step(fmt, c.after, c.ec, c.length), c.rest, ch)
  {
  }

  /** One completion of a read until a terminator advances the run by one step. */
  lemma RunUntil(fmt: Format, s: Reader, wire: seq<byte>, ch: Chunking)
    requires s.phase == ReadUserId || s.phase == ReadDomain
    ensures var c := PerformUntil(s, wire, OverRead(ch, s.phase));
            Run(fmt, s, wire, ch) == Run(fmt, Step(fmt, c.after, c.ec, c.length), c.rest, ch)
  {
  }

  /** Once the reader has stopped, the run is over. */
  lemma RunStopped(fmt: Format, s: Reader, wire: seq<byte>, ch: Chunking)
    requires Terminal(s.phase)
    ensures Run(fmt, s, wire, ch) == (s, wire)
  {
  }

  /** The header read: the client closing early fails the decode; otherwise
      the header buffer holds the first bytes and the user id read follows. */
  lemma HeaderRead(fmt: Format, s: Reader, wire: seq<byte>)
    requires s.phase == ReadHeader && |s.header| == fmt.headerSize
    ensures var c := PerformHeader(fmt, s, wire);
            var r := Step(fmt, c.after, c.ec, c.length);
            && (|wire| < fmt.headerSize ==>
                  r.phase == Failed && r.calls == s.calls + [HandlerCall(EndOfFile, s.total)]
                  && r.domain == s.domain)
            && (fmt.headerSize <= |wire| ==>
                  && r.phase == ReadUserId && r.header == wire[..fmt.headerSize]
                  && r.total == s.total + fmt.headerSize && r.stream == s.stream
                  && r.name == s.name && r.domain == s.domain && r.calls == s.calls
                  && r.issued == s.issued + [ReadUntilTerminator]
                  && c.rest == wire[fmt.headerSize..])
  {
    var c := PerformHeader(fmt, s, wire);
    if |wire| < fmt.headerSize {
      ErrorAborts(fmt, c.after, c.ec, c.length);
    }
  }

  /** A read until a terminator that finds none fails with end of file and
      the count of the earlier steps. */
  lemma UntilEof(fmt: Format, s: Reader, wire: seq<byte>, overRead: nat)
    requires s.phase == ReadUserId || s.phase == ReadDomain
    requires NoTerminator(s.stream + wire)
    ensures var c := PerformUntil(s, wire, overRead);
            var r := Step(fmt, c.after, c.ec, c.length);
            r.phase == Failed && r.calls == s.calls + [HandlerCall(EndOfFile, s.total)]
            && r.domain == s.domain
  {
    var c := PerformUntil(s, wire, overRead);
    assert FirstTerminator(s.stream + wire) == |s.stream + wire| by {
      FirstTerminatorUnique(s.stream + wire, |s.stream + wire|);
    }
    ErrorAborts(fmt, c.after, c.ec, c.length);
  }

  /** A read until a terminator that finds one: the length runs through the
      first terminator of what was buffered followed by what the client
      sends, and the buffer then starts with that field. */
  lemma UntilFound(buffered: seq<byte>, wire: seq<byte>, overRead: nat)
    requires FirstTerminator(buffered + wire) < |buffered + wire|
    ensures var c := ReadUntil(buffered, wire, overRead);
            var b := buffered + c.data;
            var k := FirstTerminator(buffered + wire);
            && c.ec == Success && c.length == k + 1
            && k < |b| && FirstTerminator(b) == k
            && b + c.rest == buffered + wire
            && b[..k] == (buffered + wire)[..k]
  {
    var c := ReadUntil(buffered, wire, overRead);
    AppendSplit(buffered, c.data, c.rest);
  }

  lemma AppendSplit(a: seq<byte>, d: seq<byte>, r: seq<byte>)
    ensures (a + d) + r == a + (d + r)
    ensures forall k :: 0 <= k <= |a + d| ==> (a + d)[..k] == (a + (d + r))[..k]
  {
    forall k | 0 <= k <= |a + d| ensures (a + d)[..k] == (a + (d + r))[..k] {
      assert (a + (d + r)) == (a + d) + r;
    }
  }

  lemma PerformFound(s: Reader, wire: seq<byte>, overRead: nat)
    requires FirstTerminator(s.stream + wire) < |s.stream + wire|
    ensures var c := PerformUntil(s, wire, overRead);
            var k := FirstTerminator(s.stream + wire);
            && c.ec == Success && c.length == k + 1
            && k < |c.after.stream| && FirstTerminator(c.after.stream) == k
            && c.after.stream + c.rest == s.stream + wire
            && c.after.stream[..k] == (s.stream + wire)[..k]
  {
    UntilFound(s.stream, wire, overRead);
  }

  /** A read until a terminator that finds one reports success and the
      length through the first terminator. */
  lemma PerformCompletes(s: Reader, wire: seq<byte>, overRead: nat)
    requires FirstTerminator(s.stream + wire) < |s.stream + wire|
    ensures var c := PerformUntil(s, wire, overRead);
            c.ec == Success && c.length == FirstTerminator(s.stream + wire) + 1
  {
  }

  /** The user id read: the name is the bytes before the first terminator. */
  lemma UserIdReadName(fmt: Format, s: Reader, wire: seq<byte>, overRead: nat)
    requires s.phase == ReadUserId
    requires FirstTerminator(s.stream + wire) < |s.stream + wire|
    ensures var c := PerformUntil(s, wire, overRead);
            var r := Step(fmt, c.after, c.ec, c.length);
            var j := FirstTerminator(s.stream + wire);
            && r.name == Some((s.stream + wire)[..j]) && r.total == s.total + j + 1
  {
    var c := PerformUntil(s, wire, overRead);
    PerformFound(s, wire, overRead);
    UserIdFromBuffer(fmt, c.after, c.length);
  }

  /** The user id read consumes the terminator; what the last chunk carried
      past it stays buffered. */
  lemma UserIdReadRest(fmt: Format, s: Reader, wire: seq<byte>, overRead: nat)
    requires s.phase == ReadUserId
    requires FirstTerminator(s.stream + wire) < |s.stream + wire|
    ensures var c := PerformUntil(s, wire, overRead);
            var r := Step(fmt, c.after, c.ec, c.length);
            var j := FirstTerminator(s.stream + wire);
            r.stream + c.rest == (s.stream + wire)[j + 1..]
  {
    var c := PerformUntil(s, wire, overRead);
    var j := FirstTerminator(s.stream + wire);
    PerformFound(s, wire, overRead);
    UserIdFromBuffer(fmt, c.after, c.length);
    DropAppend(c.after.stream, c.rest, j + 1);
  }

  lemma DropAppend(a: seq<byte>, b: seq<byte>, n: nat)
    requires n <= |a|
    ensures (a + b)[n..] == a[n..] + b
  {
  }

  /** After the user id read the reader waits for the domain on the 4A path
      and otherwise reports success. */
  lemma UserIdReadNext(fmt: Format, s: Reader, wire: seq<byte>, overRead: nat)
    requires s.phase == ReadUserId
    requires FirstTerminator(s.stream + wire) < |s.stream + wire|
    ensures var c := PerformUntil(s, wire, overRead);
            var r := Step(fmt, c.after, c.ec, c.length);
            && r.header == s.header && r.domain == s.domain
            && (fmt.is4a(s.header) ==>
                  r.phase == ReadDomain && r.calls == s.calls
                  && r.issued == s.issued + [ReadUntilTerminator])
            && (!fmt.is4a(s.header) ==>
                  r.phase == Done && r.calls == s.calls + [HandlerCall(Success, r.total)]
                  && r.issued == s.issued)
  {
    PerformCompletes(s, wire, overRead);
  }

  /** The domain read: the domain is the bytes before the first terminator
      of what was buffered and what the client sends next. */
  lemma DomainReadFound(fmt: Format, s: Reader, wire: seq<byte>, overRead: nat)
    requires s.phase == ReadDomain
    requires FirstTerminator(s.stream + wire) < |s.stream + wire|
    ensures var c := PerformUntil(s, wire, overRead);
            var r := Step(fmt, c.after, c.ec, c.length);
            r.domain == Some((s.stream + wire)[..FirstTerminator(s.stream + wire)])
  {
    var c := PerformUntil(s, wire, overRead);
    PerformFound(s, wire, overRead);
    DomainFromBuffer(fmt, c.after, c.length);
  }

  /** Storing the domain completes the decode: the handler gets success and
      the count through the domain's terminator. */
  lemma DomainReadDone(fmt: Format, s: Reader, wire: seq<byte>, overRead: nat)
    requires s.phase == ReadDomain
    requires FirstTerminator(s.stream + wire) < |s.stream + wire|
    ensures var c := PerformUntil(s, wire, overRead);
            var r := Step(fmt, c.after, c.ec, c.length);
            var k := FirstTerminator(s.stream + wire);
            && r.phase == Done && r.name == s.name
            && r.calls == s.calls + [HandlerCall(Success, s.total + k + 1)]
  {
    PerformCompletes(s, wire, overRead);
  }

  /** The domain read consumes nothing: the buffer keeps the domain, its
      terminator and whatever the last chunk carried past it. */
  lemma DomainReadRest(fmt: Format, s: Reader, wire: seq<byte>, overRead: nat)
    requires s.phase == ReadDomain
    requires FirstTerminator(s.stream + wire) < |s.stream + wire|
    ensures var c := PerformUntil(s, wire, overRead);
            var r := Step(fmt, c.after, c.ec, c.length);
            && r.header == s.header && r.issued == s.issued
            && r.stream + c.rest == s.stream + wire
  {
    PerformFound(s, wire, overRead);
  }

  /** What the reader ends with agrees with a parse `d`, `wire` being the
      bytes after the header: for a complete request success, its fields and
      its byte count, with the bytes after the user id's terminator still
      buffered or unread; otherwise end of file, no domain, and the count of
      the fields that were complete. */
  predicate AgreesWith(fmt: Format, d: Decoded, wire: seq<byte>, f: Reader, rest: seq<byte>)
  {
    match d
    case Complete(h, u, dom, n) =>
      && f.phase == Done && f.calls == [HandlerCall(Success, n)]
      && f.header == h && f.name == Some(u) && f.domain == dom
      && f.issued == Plan(fmt.is4a(h))
      && |u| < |wire| && f.stream + rest == wire[|u| + 1..]
    case Truncated(n) =>
      f.phase == Failed && f.calls == [HandlerCall(EndOfFile, n)] && f.domain == None
  }

  /** What the reference parser says the reader ends with, run over the
      client's whole byte stream. */
  predicate AgreesWithParse(fmt: Format, input: seq<byte>, f: Reader, rest: seq<byte>)
  {
    var wire := if |input| < fmt.headerSize then [] else input[fmt.headerSize..];
    AgreesWith(fmt, Parse(fmt, input), wire, f, rest)
  }

  /** Refinement: run against any client byte stream, however it is
      chunked, the reader ends as the reference parser says. */
  lemma Refinement(fmt: Format, header0: seq<byte>, input: seq<byte>, ch: Chunking)
    requires |header0| == fmt.headerSize
    ensures var (f, rest) := Run(fmt, Initial(header0), input, ch);
            AgreesWithParse(fmt, input, f, rest)
  {
    var r, rest := HeaderStep(fmt, header0, input, ch);
    if |input| < fmt.headerSize {
      RunStopped(fmt, r, rest, ch);
    } else {
      FromUserId(fmt, r, rest, ch);
      var (f, rest') := Run(fmt, r, rest, ch);
      ParseOutcome(fmt, input, f, rest');
    }
  }

  /** The kick-off and the header read as the first steps of the run. */
  lemma HeaderStep(fmt: Format, header0: seq<byte>, input: seq<byte>, ch: Chunking)
    returns (r: Reader, rest: seq<byte>)
    requires |header0| == fmt.headerSize
    ensures Run(fmt, Initial(header0), input, ch) == Run(fmt, r, rest, ch)
    ensures |input| < fmt.headerSize ==>
              r.phase == Failed && r.calls == [HandlerCall(EndOfFile, 0)] && r.domain == None
    ensures fmt.headerSize <= |input| ==>
              && r.phase == ReadUserId && r.header == input[..fmt.headerSize]
              && r.total == fmt.headerSize && r.stream == []
              && r.name == None && r.domain == None && r.calls == []
              && r.issued == [ReadFixedHeader, ReadUntilTerminator]
              && rest == input[fmt.headerSize..]
  {
    var s1 := Step(fmt, Initial(header0), Success, 0);
    var c1 := PerformHeader(fmt, s1, input);
    r, rest := Step(fmt, c1.after, c1.ec, c1.length), c1.rest;
    RunHeader(fmt, s1, input, ch);
    HeaderRead(fmt, s1, input);
  }

  /** Agreement with the parse of the fields after the header is agreement
      with the parse of the whole stream. */
  lemma ParseOutcome(fmt: Format, input: seq<byte>, f: Reader, rest: seq<byte>)
    requires fmt.headerSize <= |input|
    requires AgreesWith(fmt, ParseFields(fmt, input[..fmt.headerSize], input[fmt.headerSize..]),
                        input[fmt.headerSize..], f, rest)
    ensures AgreesWithParse(fmt, input, f, rest)
  {
  }

  /** The user id read as one step of the run. */
  lemma UserIdStep(fmt: Format, s: Reader, wire: seq<byte>, ch: Chunking) returns (r: Reader, rest: seq<byte>)
    requires s.phase == ReadUserId
    ensures Run(fmt, s, wire, ch) == Run(fmt, r, rest, ch)
    ensures UserIdDecoded(fmt, s, s.stream + wire, r, rest)
  {
    var o := OverRead(ch, ReadUserId);
    var c := PerformUntil(s, wire, o);
    r, rest := Step(fmt, c.after, c.ec, c.length), c.rest;
    RunUntil(fmt, s, wire, ch);
    if FirstTerminator(s.stream + wire) == |s.stream + wire| {
      BeforeFirstTerminator(s.stream + wire);
      UntilEof(fmt, s, wire, o);
    } else {
      UserIdReadName(fmt, s, wire, o);
      UserIdReadRest(fmt, s, wire, o);
      UserIdReadNext(fmt, s, wire, o);
    }
  }

  /** What the user id read leaves: the name up to the first terminator and
      the bytes after it, or a failure when there is none. */
  predicate UserIdDecoded(fmt: Format, s: Reader, field: seq<byte>, r: Reader, rest: seq<byte>)
  {
    var j := FirstTerminator(field);
    if j == |field| then
      r.phase == Failed && r.calls == s.calls + [HandlerCall(EndOfFile, s.total)]
      && r.domain == s.domain
    else
      && r.name == Some(field[..j]) && r.total == s.total + j + 1
      && r.header == s.header && r.domain == s.domain
      && r.stream + rest == field[j + 1..]
      && (if fmt.is4a(s.header) then
            r.phase == ReadDomain && r.calls == s.calls
            && r.issued == s.issued + [ReadUntilTerminator]
          else
            r.phase == Done && r.calls == s.calls + [HandlerCall(Success, r.total)]
            && r.issued == s.issued)
  }

  /** The domain read as the last step of the run. */
  lemma DomainStep(fmt: Format, s: Reader, wire: seq<byte>, ch: Chunking) returns (r: Reader, rest: seq<byte>)
    requires s.phase == ReadDomain
    ensures Run(fmt, s, wire, ch) == (r, rest)
    ensures DomainDecoded(s, s.stream + wire, r, rest)
  {
    var o := OverRead(ch, ReadDomain);
    var c := PerformUntil(s, wire, o);
    r, rest := Step(fmt, c.after, c.ec, c.length), c.rest;
    RunUntil(fmt, s, wire, ch);
    RunStopped(fmt, r, rest, ch);
    if FirstTerminator(s.stream + wire) == |s.stream + wire| {
      BeforeFirstTerminator(s.stream + wire);
      UntilEof(fmt, s, wire, o);
    } else {
      DomainReadFound(fmt, s, wire, o);
      DomainReadDone(fmt, s, wire, o);
      DomainReadRest(fmt, s, wire, o);
    }
  }

  /** What the domain read over `field` leaves: the domain up to its first
      terminator, or a failure when there is none. */
  predicate DomainDecoded(s: Reader, field: seq<byte>, r: Reader, rest: seq<byte>)
  {
    var k := FirstTerminator(field);
    if k == |field| then
      r.phase == Failed && r.calls == s.calls + [HandlerCall(EndOfFile, s.total)]
      && r.domain == s.domain
    else
      && r.phase == Done && r.domain == Some(field[..k]) && r.name == s.name
      && r.calls == s.calls + [HandlerCall(Success, s.total + k + 1)]
      && r.header == s.header && r.issued == s.issued
      && r.stream + rest == field
  }

  /** The reader right after the header read: nothing buffered, no field
      stored, the handler not called, the header counted. */
  predicate AfterHeader(s: Reader)
  {
    && s.phase == ReadUserId && s.stream == [] && s.total == |s.header|
    && s.name == None && s.domain == None && s.calls == []
    && s.issued == [ReadFixedHeader, ReadUntilTerminator]
  }

  /** The run from the user id read on agrees with the parse of the bytes
      after the header. */
  lemma FromUserId(fmt: Format, s: Reader, wire: seq<byte>, ch: Chunking)
    requires AfterHeader(s)
    ensures var (f, rest) := Run(fmt, s, wire, ch);
            AgreesWith(fmt, ParseFields(fmt, s.header, wire), wire, f, rest)
  {
    var r, rest := UserIdStep(fmt, s, wire, ch);
    assert s.stream + wire == wire;
    if Terminal(r.phase) {
      RunStopped(fmt, r, rest, ch);
      PlainOutcome(fmt, s, wire, r, rest);
    } else {
      var r', rest' := DomainStep(fmt, r, rest, ch);
      DomainOutcome(fmt, s, wire, r, rest, r', rest');
    }
  }

  /** A reader that stopped after the user id read: no terminator, or a
      plain SOCKS 4 request. */
  lemma PlainOutcome(fmt: Format, s: Reader, wire: seq<byte>, r: Reader, rest: seq<byte>)
    requires AfterHeader(s)
    requires UserIdDecoded(fmt, s, wire, r, rest) && Terminal(r.phase)
    ensures AgreesWith(fmt, ParseFields(fmt, s.header, wire), wire, r, rest)
  {
  }

  /** A reader that went on to the domain: no second terminator, or a
      SOCKS 4A request. */
  lemma DomainOutcome(fmt: Format, s: Reader, wire: seq<byte>, r: Reader, rest: seq<byte>,
                      r': Reader, rest': seq<byte>)
    requires AfterHeader(s)
    requires UserIdDecoded(fmt, s, wire, r, rest) && !Terminal(r.phase)
    requires DomainDecoded(r, r.stream + rest, r', rest')
    ensures AgreesWith(fmt, ParseFields(fmt, s.header, wire), wire, r', rest')
  {
  }

  /** For a request encoded from well-formed fields, the reader stores
      exactly those fields and reports the header, the user id and its
      terminator, and on the 4A path the domain and its terminator. */
  lemma DecodesEncoded(fmt: Format, header0: seq<byte>, header: seq<byte>, userId: seq<byte>,
                       domain: Option<seq<byte>>, tail: seq<byte>, ch: Chunking)
    requires |header0| == fmt.headerSize
    requires WellFormed(fmt, header, userId, domain)
    ensures var (f, _) := Run(fmt, Initial(header0), Encode(header, userId, domain) + tail, ch);
            && f.phase == Done && f.header == header && f.name == Some(userId) && f.domain == domain
            && f.calls == [HandlerCall(Success, |Encode(header, userId, domain)|)]
  {
    var input := Encode(header, userId, domain) + tail;
    ParseEncode(fmt, header, userId, domain, tail);
    Refinement(fmt, header0, input, ch);
    var (f, rest) := Run(fmt, Initial(header0), input, ch);
    assert AgreesWithParse(fmt, input, f, rest);
  }
}
