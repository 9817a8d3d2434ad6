/** The request reader as the objects it updates in place: the request, the
    reader's private stream buffer and the resumable reader itself; the two
    reads it issues as the effects they have on those objects; and the
    decode run from `AsyncReadRequest` to the handler call. */
module ReaderObjects {
  import opened Octets
  import opened RequestFormat
  import opened ReadRequest
  import opened AsioModel

  /** `boost::asio::streambuf`: bytes committed by reads, consumed from the front. */
  class StreamBuf {
    var data: seq<byte>

    constructor ()
      ensures data == []
    {
      data := [];
    }

    /** Bytes a read stored become readable after what is there. */
    method Commit(bytes: seq<byte>)
      modifies this
      ensures data == old(data) + bytes
    {
      data := data + bytes;
    }

    /** `consume(n)` drops the first `n` bytes, or everything when fewer are
        buffered. */
    method Consume(n: nat)
      modifies this
      ensures data == old(data)[Min(n, |old(data)|)..]
    {
      data := data[Min(n, |data|)..];
    }
  }

  /** The request the reader fills in: its fixed header buffer, the user id
      and the domain. The layout of the header is the `format`'s. */
  class Request {
    const format: Format
    var header: seq<byte>
    var name: Option<seq<byte>>
    var domain: Option<seq<byte>>

    constructor (format: Format, header: seq<byte>)
      ensures this.format == format && this.header == header
      ensures name == None && domain == None
    {
      this.format := format;
      this.header := header;
      name := None;
      domain := None;
    }

    /** The 4A test of the request layout, applied to the header buffer as
        it stands. */
    predicate Is4aVersion()
      reads this
    {
      format.is4a(header)
    }

    /** `set_name` from a character pointer: the C string it points at. */
    method SetName(s: seq<byte>)
      modifies this
      ensures name == Some(CString(s))
      ensures header == old(header) && domain == old(domain)
    {
      name := Some(CString(s));
    }

    /** `set_domain` from a character pointer: the C string it points at. */
    method SetDomain(s: seq<byte>)
      modifies this
      ensures domain == Some(CString(s))
      ensures header == old(header) && name == old(name)
    {
      domain := Some(CString(s));
    }

    /** The header read stores `got` at the front of the header buffer. */
    method WriteHeader(got: seq<byte>)
      modifies this
      ensures header == Overwrite(old(header), got)
      ensures name == old(name) && domain == old(domain)
    {
      header := Overwrite(header, got);
    }
  }

  /** `ReadRequestCoro`: the resume point, `total_length_`, the private
      stream buffer, the request it fills in, and (as history) the reads it
      issued and the handler calls it made. */
  class RequestReader {
    var phase: Phase
    var totalLength: nat
    const stream: StreamBuf
    const request: Request
    var issued: seq<ReadOp>
    var calls: seq<HandlerCall>

    /** The reader's state as a value. */
    function Snapshot(): Reader
      reads this, stream, request
    {
      Reader(phase, totalLength, stream.data, request.header, request.name, request.domain,
             issued, calls)
    }

    ghost predicate Valid()
      reads this, stream, request
    {
      Inv(request.format, Snapshot())
    }

    /** The coroutine's constructor: nothing counted, a fresh empty stream
        buffer, the request as it was. */
    constructor (r: Request)
      requires |r.header| == r.format.headerSize && r.name == None && r.domain == None
      ensures request == r && fresh(stream)
      ensures Snapshot() == Initial(r.header)
      ensures Valid()
    {
      phase := Start;
      totalLength := 0;
      stream := new StreamBuf();
      request := r;
      issued := [];
      calls := [];
      new;
      InitialInv(r.format, r.header);
    }

    /** `operator()(ec, length)`: one resumption of the coroutine. */
    method Resume(ec: ErrorCode, length: nat)
      requires Valid() && Active(phase)
      modifies this, stream, request
      ensures Snapshot() == Step(request.format, old(Snapshot()), ec, length)
      ensures Valid()
    {
      ghost var s := Snapshot();
      StepInv(request.format, s, ec, length, s.header);
      assert s.(header := s.header) == s;
      if !ec.Success? {
        calls := calls + [HandlerCall(ec, totalLength)];
        phase := Failed;
        return;
      }
      match phase
      case Start =>
        issued := issued + [ReadFixedHeader];
        phase := ReadHeader;
      case ReadHeader =>
        totalLength := totalLength + length;
        issued := issued + [ReadUntilTerminator];
        phase := ReadUserId;
      case ReadUserId =>
        totalLength := totalLength + length;
        request.SetName(stream.data);
        stream.Consume(length);
        if request.Is4aVersion() {
          issued := issued + [ReadUntilTerminator];
          phase := ReadDomain;
        } else {
          calls := calls + [HandlerCall(ec, totalLength)];
          phase := Done;
        }
      case ReadDomain =>
        totalLength := totalLength + length;
        request.SetDomain(stream.data);
        calls := calls + [HandlerCall(ec, totalLength)];
        phase := Done;
    }
  }

  /** `AsyncReadRequest`: a new reader, kicked off with `(success, 0)`. The
      header read is issued and nothing else happens. */
  method AsyncReadRequest(r: Request) returns (reader: RequestReader)
    requires |r.header| == r.format.headerSize && r.name == None && r.domain == None
    modifies r
    ensures fresh(reader) && fresh(reader.stream) && reader.request == r
    ensures reader.Valid()
    ensures reader.Snapshot() == Step(r.format, Initial(old(r.header)), Success, 0)
    ensures reader.phase == ReadHeader && reader.totalLength == 0
    ensures reader.issued == [ReadFixedHeader] && reader.calls == []
    ensures r.header == old(r.header) && r.name == None && r.domain == None
  {
    reader := new RequestReader(r);
    KickOff(r.format, r.header);
    reader.Resume(Success, 0);
  }

  /** The completion of the outstanding header read against the client's
      bytes: the header buffer is written; the completion and the bytes
      still unread are returned. */
  method CompleteHeaderRead(reader: RequestReader, wire: seq<byte>)
    returns (ec: ErrorCode, length: nat, rest: seq<byte>)
    requires reader.Valid() && reader.phase == ReadHeader
    modifies reader.request
    ensures Completion(ec, length, reader.Snapshot(), rest)
            == PerformHeader(reader.request.format, old(reader.Snapshot()), wire)
    ensures reader.Valid()
  {
    var r := ReadExactly(reader.request.format.headerSize, wire);
    reader.request.WriteHeader(r.data);
    ec, length, rest := r.ec, r.length, r.rest;
  }

  /** The completion of an outstanding read until a terminator: the bytes
      it fetched are committed to the stream buffer. */
  method CompleteUntilRead(reader: RequestReader, wire: seq<byte>, overRead: nat)
    returns (ec: ErrorCode, length: nat, rest: seq<byte>)
    requires reader.Valid() && (reader.phase == ReadUserId || reader.phase == ReadDomain)
    modifies reader.stream
    ensures Completion(ec, length, reader.Snapshot(), rest)
            == PerformUntil(old(reader.Snapshot()), wire, overRead)
    ensures reader.Valid()
  {
    var r := ReadUntil(reader.stream.data, wire, overRead);
    reader.stream.Commit(r.data);
    ec, length, rest := r.ec, r.length, r.rest;
  }

  /** A whole decode: a request with header buffer `header0`, the reader
      started by `AsyncReadRequest`, and each outstanding read completed
      against the client's bytes `input` as `ch` chunks them, until the
      handler is called. The handler gets what the reference parser
      computes, and the request holds the parsed fields. */
  method DecodeRequest(fmt: Format, header0: seq<byte>, input: seq<byte>, ch: Chunking)
    returns (call: HandlerCall, header: seq<byte>, name: Option<seq<byte>>, domain: Option<seq<byte>>)
    requires |header0| == fmt.headerSize
    ensures match Parse(fmt, input)
            case Complete(h, u, d, n) =>
              call == HandlerCall(Success, n) && header == h && name == Some(u) && domain == d
            case Truncated(n) =>
              call == HandlerCall(EndOfFile, n) && domain == None
  {
    var r := new Request(fmt, header0);
    var reader := AsyncReadRequest(r);
    var wire := input;
    RunKickOff(fmt, Initial(header0), input, ch);
    while Active(reader.phase)
      invariant fresh(reader) && fresh(reader.stream) && reader.request == r && fresh(r)
      invariant r.format == fmt && reader.Valid() && reader.phase != Start
      invariant Run(fmt, reader.Snapshot(), wire, ch) == Run(fmt, Initial(header0), input, ch)
      decreases Rank(reader.phase)
    {
      ghost var s := reader.Snapshot();
      var ec, length;
      if reader.phase == ReadHeader {
        RunHeader(fmt, s, wire, ch);
        ec, length, wire := CompleteHeaderRead(reader, wire);
      } else {
        RunUntil(fmt, s, wire, ch);
        ec, length, wire := CompleteUntilRead(reader, wire, OverRead(ch, reader.phase));
      }
      reader.Resume(ec, length);
    }
    RunStopped(fmt, reader.Snapshot(), wire, ch);
    Refinement(fmt, header0, input, ch);
    call := reader.calls[0];
    header, name, domain := r.header, r.name, r.domain;
  }
}
