/** The request reader of a SOCKS 4 session as a resumable state machine.
    Each call of `Step` is one resumption of the reader by a completion
    `(error code, length)`: it either issues the next read or calls the
    completion handler. */
module ReadRequest {
  import opened Octets
  import opened RequestFormat

  /** A non-zero error value: an error code with value 0 tests false and is
      `Success`. */
  type ErrorValue = v: int | v != 0 witness 1

  /** A `boost::system::error_code`: `Success` is the value that tests false. */
  datatype ErrorCode = Success | EndOfFile | OtherError(code: ErrorValue)

  /** Where the reader is suspended. `Start`: not yet entered. `ReadHeader`,
      `ReadUserId`, `ReadDomain`: waiting for the completion of that read.
      `Done`, `Failed`: the handler has been called and nothing is pending. */
  datatype Phase = Start | ReadHeader | ReadUserId | ReadDomain | Done | Failed

  /** The reads the reader issues on the client channel: `async_read` of the
      fixed header, and `async_read_until` a terminator into its stream buffer. */
  datatype ReadOp = ReadFixedHeader | ReadUntilTerminator

  /** One invocation of the completion handler. */
  datatype HandlerCall = HandlerCall(ec: ErrorCode, total: nat)

  /** One completion delivered to the reader: `(ec, length)`. */
  datatype Event = Event(ec: ErrorCode, length: nat)

  /** The reader's state: resume point, `total_length_`, the bytes in its
      private stream buffer, the request it fills in (header, name, domain;
      `None` until stored), and what it has done so far: the reads it issued
      and the handler calls it made. */
  datatype Reader = Reader(
    phase: Phase,
    total: nat,
    stream: seq<byte>,
    header: seq<byte>,
    name: Option<seq<byte>>,
    domain: Option<seq<byte>>,
    issued: seq<ReadOp>,
    calls: seq<HandlerCall>)

  predicate Active(p: Phase) {
    p == Start || p == ReadHeader || p == ReadUserId || p == ReadDomain
  }

  predicate Terminal(p: Phase) {
    p == Done || p == Failed
  }

  /** Reads still to come; every resumption lowers it. */
  function Rank(p: Phase): nat {
    match p
    case Start => 4
    case ReadHeader => 3
    case ReadUserId => 2
    case ReadDomain => 1
    case Done => 0
    case Failed => 0
  }

  /** The read whose completion an active phase waits for. */
  function Awaited(p: Phase): ReadOp
    requires p == ReadHeader || p == ReadUserId || p == ReadDomain
  {
    if p == ReadHeader then ReadFixedHeader else ReadUntilTerminator
  }

  /** A freshly constructed reader over a request whose header buffer holds
      `header`: nothing counted, nothing buffered, nothing issued. */
  function Initial(header: seq<byte>): (r: Reader)
    ensures Active(r.phase) && Rank(r.phase) == 4 && r.header == header
    ensures r.total == 0 && r.stream == [] && r.name == None && r.domain == None
    ensures r.issued == [] && r.calls == []
  {
    Reader(Start, 0, [], header, None, None, [], [])
  }

  /** One resumption with the completion `(ec, length)`. */
  function Step(fmt: Format, s: Reader, ec: ErrorCode, length: nat): (r: Reader)
    requires Active(s.phase)
    ensures Rank(r.phase) < Rank(s.phase)
    ensures r.total == s.total + (if ec.Success? && s.phase != Start then length else 0)
    ensures r.calls == s.calls + (if Terminal(r.phase) then [HandlerCall(ec, r.total)] else [])
    ensures r.issued == s.issued + (if Terminal(r.phase) then [] else [Awaited(r.phase)])
  {
    if !ec.Success? then
      s.(phase := Failed, calls := s.calls + [HandlerCall(ec, s.total)])
    else
      match s.phase
      case Start =>
        s.(phase := ReadHeader, issued := s.issued + [ReadFixedHeader])
      case ReadHeader =>
        s.(phase := ReadUserId, total := s.total + length,
           issued := s.issued + [ReadUntilTerminator])
      case ReadUserId =>
        var total := s.total + length;
        var name := Some(CString(s.stream));
        var stream := s.stream[Min(length, |s.stream|)..];
        if fmt.is4a(s.header) then
          s.(phase := ReadDomain, total := total, name := name, stream := stream,
             issued := s.issued + [ReadUntilTerminator])
        else
          s.(phase := Done, total := total, name := name, stream := stream,
             calls := s.calls + [HandlerCall(ec, total)])
      case ReadDomain =>
        var total := s.total + length;
        s.(phase := Done, total := total, domain := Some(CString(s.stream)),
           calls := s.calls + [HandlerCall(ec, total)])
  }

  function Min(a: nat, b: nat): nat {
    if a <= b then a else b
  }

  /** The reads of a complete decode, in order: header, user id, and the
      domain only under the 4A marker. */
  function Plan(is4a: bool): seq<ReadOp> {
    [ReadFixedHeader, ReadUntilTerminator] + (if is4a then [ReadUntilTerminator] else [])
  }

  /** What holds of every state the reader reaches from `Initial`. */
  ghost predicate Inv(fmt: Format, s: Reader) {
    && |s.header| == fmt.headerSize
    // the handler has been called exactly when the reader stopped, and once
    && (Active(s.phase) ==> s.calls == [])
    && (Terminal(s.phase) ==> |s.calls| == 1)
    // reads are issued in the fixed order, one per completed step
    && s.issued <= Plan(fmt.is4a(s.header))
    && (s.phase == Start ==> s.issued == [] && s.total == 0 && s.stream == [])
    && (s.phase == ReadHeader ==> |s.issued| == 1 && s.total == 0 && s.stream == [])
    && (s.phase == ReadUserId ==> |s.issued| == 2)
    && (s.phase == ReadDomain ==> |s.issued| == 3)
    && (s.phase == Done ==> s.issued == Plan(fmt.is4a(s.header)))
    // fields are stored only once their read completed
    && (s.phase in {Start, ReadHeader, ReadUserId} ==> s.name.None?)
    && (s.phase in {ReadDomain, Done} ==> s.name.Some? && NoTerminator(s.name.value))
    && (s.phase != Done ==> s.domain.None?)
    && (s.phase == ReadDomain ==> fmt.is4a(s.header))
    && (s.phase == Done ==> (s.domain.Some? <==> fmt.is4a(s.header)))
    && (s.phase == Done && s.domain.Some? ==> NoTerminator(s.domain.value))
    && (s.phase == Done ==> s.calls == [HandlerCall(Success, s.total)])
  }

  lemma InitialInv(fmt: Format, header: seq<byte>)
    requires |header| == fmt.headerSize
    ensures Inv(fmt, Initial(header))
  {
  }

  /** Completions that do not change the header keep the invariant. The
      header read may overwrite the header buffer; it is the only read that
      may. */
  lemma StepInv(fmt: Format, s: Reader, ec: ErrorCode, length: nat, header: seq<byte>)
    requires Inv(fmt, s) && Active(s.phase)
    requires |header| == fmt.headerSize
    requires s.phase == ReadHeader || header == s.header
    ensures Inv(fmt, Step(fmt, s.(header := header), ec, length))
  {
    var s' := s.(header := header);
    var r := Step(fmt, s', ec, length);
    if !ec.Success? {
      if s.phase == ReadHeader {
        assert s'.issued == [ReadFixedHeader] == Plan(fmt.is4a(header))[..1];
      }
    } else if s.phase == ReadHeader {
      assert r.issued == Plan(fmt.is4a(header))[..2];
    } else if s.phase == ReadUserId {
      assert r.issued == Plan(fmt.is4a(header))[..|r.issued|];
    }
  }

  /** While the reader waits, exactly one read is outstanding: the last one
      issued, which is the one its phase waits for. */
  lemma AwaitsLastIssued(fmt: Format, s: Reader)
    requires Inv(fmt, s)
    requires s.phase == ReadHeader || s.phase == ReadUserId || s.phase == ReadDomain
    ensures |s.issued| == 4 - Rank(s.phase)
    ensures s.issued[|s.issued| - 1] == Awaited(s.phase)
  {
    assert s.issued == Plan(fmt.is4a(s.header))[..|s.issued|];
  }

  /** The kick-off `(success, 0)` issues the header read and nothing else:
      no byte is counted and the handler is not called. */
  lemma KickOff(fmt: Format, header: seq<byte>)
    ensures var r := Step(fmt, Initial(header), Success, 0);
            r.phase == ReadHeader && r.total == 0 && r.issued == [ReadFixedHeader]
            && r.calls == [] && r.stream == [] && r.header == header
  {
  }

  /** An error completion stops the reader at once: the handler gets the
      error and the count of the earlier steps, the failing step's length is
      not added, no read is issued and the request is left as it was. */
  lemma ErrorAborts(fmt: Format, s: Reader, ec: ErrorCode, length: nat)
    requires Active(s.phase) && !ec.Success?
    ensures var r := Step(fmt, s, ec, length);
            && r.phase == Failed && r.total == s.total
            && r.calls == s.calls + [HandlerCall(ec, s.total)]
            && r.issued == s.issued && r.stream == s.stream
            && r.header == s.header && r.name == s.name && r.domain == s.domain
  {
  }

  /** After the user id read completed through the buffer's first terminator,
      the name is the bytes before it, exactly `length` bytes are consumed and
      what the read fetched beyond the terminator stays buffered. */
  lemma UserIdFromBuffer(fmt: Format, s: Reader, length: nat)
    requires s.phase == ReadUserId
    requires 0 < length <= |s.stream| && FirstTerminator(s.stream) == length - 1
    ensures var r := Step(fmt, s, Success, length);
            && r.name == Some(s.stream[..length - 1])
            && r.stream == s.stream[length..]
            && s.stream == s.stream[..length - 1] + [Terminator] + r.stream
            && r.total == s.total + length
            && r.domain == s.domain
            && (r.phase == ReadDomain <==> fmt.is4a(s.header))
            && (r.phase == Done <==> !fmt.is4a(s.header))
  {
    var r := Step(fmt, s, Success, length);
    assert s.stream == s.stream[..length] + s.stream[length..];
    assert s.stream[..length] == s.stream[..length - 1] + [Terminator];
  }

  /** The domain is the bytes before the first terminator of what stayed
      buffered after the user id; storing it completes the decode. */
  lemma DomainFromBuffer(fmt: Format, s: Reader, length: nat)
    requires s.phase == ReadDomain
    requires 0 < length <= |s.stream| && FirstTerminator(s.stream) == length - 1
    ensures var r := Step(fmt, s, Success, length);
            && r.domain == Some(s.stream[..length - 1])
            && r.name == s.name
            && r.total == s.total + length
            && r.phase == Done
            && r.calls == s.calls + [HandlerCall(Success, s.total + length)]
  {
  }

  /** Completions for the outstanding reads, applied while a read is
      outstanding; a completion for a reader that has stopped cannot arise
      (no read is pending), so later events are dropped. */
  function Replay(fmt: Format, s: Reader, events: seq<Event>): (r: Reader)
    decreases |events|
  {
    if events == [] || !Active(s.phase) then s
    else Replay(fmt, Step(fmt, s, events[0].ec, events[0].length), events[1..])
  }

  /** Whatever completions arrive, the handler is called at most once, and
      it has been called exactly when the reader has stopped; a completed
      decode reports success with the stored name. */
  lemma {:induction false} HandlerCalledAtMostOnce(fmt: Format, s: Reader, events: seq<Event>)
    requires Inv(fmt, s)
    ensures var r := Replay(fmt, s, events);
            && |r.calls| <= 1
            && (|r.calls| == 1 <==> Terminal(r.phase))
            && (r.phase == Done ==> r.name.Some? && r.calls[0].ec == Success)
    decreases |events|
  {
    if events != [] && Active(s.phase) {
      StepInv(fmt, s, events[0].ec, events[0].length, s.header);
      HandlerCalledAtMostOnce(fmt, Step(fmt, s, events[0].ec, events[0].length), events[1..]);
    }
  }
}
