/** The SOCKS 4 / 4A request as bytes on the wire, and a reference parser for
    it. The fixed header's size and the 4A test belong to the request layout,
    which is a parameter here (a `Format`). */
module RequestFormat {
  import opened Octets

  datatype Option<T> = None | Some(value: T)

  /** What the decoder needs to know about the request layout: how many bytes
      the fixed header has, and whether a header asks for a trailing domain
      name (the SOCKS 4A "address 0.0.0.x, x != 0" marker). */
  datatype Format = Format(headerSize: nat, is4a: seq<byte> -> bool)

  /** A request as it is sent: header, user id and terminator, and on the 4A
      path the domain and its terminator. */
  function Encode(header: seq<byte>, userId: seq<byte>, domain: Option<seq<byte>>): seq<byte>
  {
    header + userId + [Terminator] + (if domain.Some? then domain.value + [Terminator] else [])
  }

  /** An encoded request occupies the header, the user id and the domain,
      each field with its terminator. */
  lemma EncodedLength(header: seq<byte>, userId: seq<byte>, domain: Option<seq<byte>>)
    ensures |Encode(header, userId, domain)|
            == |header| + |userId| + 1 + (if domain.Some? then |domain.value| + 1 else 0)
  {
  }

  /** The fields a well-formed request has under `fmt`. */
  predicate WellFormed(fmt: Format, header: seq<byte>, userId: seq<byte>, domain: Option<seq<byte>>)
  {
    && |header| == fmt.headerSize
    && NoTerminator(userId)
    && (domain.Some? <==> fmt.is4a(header))
    && (domain.Some? ==> NoTerminator(domain.value))
  }

  /** Result of parsing a byte stream: a complete request and the number of
      bytes it occupies, or a stream that ended early and the number of bytes
      of the fields that were complete before it ended. */
  datatype Decoded =
    | Complete(header: seq<byte>, userId: seq<byte>, domain: Option<seq<byte>>, length: nat)
    | Truncated(length: nat)

  /** Reference parser: header, then the user id up to the first terminator,
      then (only when the header carries the 4A marker) the domain up to the
      next terminator. Bytes after the request are ignored. */
  function Parse(fmt: Format, input: seq<byte>): (d: Decoded)
    ensures d.length <= |input|
  {
    if |input| < fmt.headerSize then Truncated(0)
    else ParseFields(fmt, input[..fmt.headerSize], input[fmt.headerSize..])
  }

  /** The fields after a complete `header`, parsed from the bytes `wire` that
      follow it; lengths count the header too. */
  function ParseFields(fmt: Format, header: seq<byte>, wire: seq<byte>): (d: Decoded)
    ensures |header| <= d.length <= |header| + |wire|
    ensures d.Complete? ==> d.header == header
  {
    var n := |header|;
    var i := FirstTerminator(wire);
    if i == |wire| then Truncated(n)
    else
      var userId, rest := wire[..i], wire[i + 1..];
      if !fmt.is4a(header) then Complete(header, userId, None, n + i + 1)
      else
        var j := FirstTerminator(rest);
        if j == |rest| then Truncated(n + i + 1)
        else Complete(header, userId, Some(rest[..j]), n + i + 1 + j + 1)
  }

  /** Soundness of the parser: a complete result has well-formed fields,
      and their encoding is exactly the prefix of the input it consumed. */
  lemma ParseSound(fmt: Format, input: seq<byte>)
    ensures var d := Parse(fmt, input);
            d.Complete? ==> WellFormed(fmt, d.header, d.userId, d.domain)
                            && input[..d.length] == Encode(d.header, d.userId, d.domain)
  {
    var hs := fmt.headerSize;
    if hs <= |input| {
      var header, rest := input[..hs], input[hs..];
      var i := FirstTerminator(rest);
      if i < |rest| {
        var userId, rest2 := rest[..i], rest[i + 1..];
        BeforeFirstTerminator(rest);
        FieldAt(input, hs, i, header, userId);
        if fmt.is4a(header) {
          var j := FirstTerminator(rest2);
          if j < |rest2| {
            BeforeFirstTerminator(rest2);
            FieldAt(input, hs + i + 1, j, header + userId + [Terminator], rest2[..j]);
          }
        }
      }
    }
  }

  /** A field of `i` bytes at `p` followed by a terminator extends the
      prefix before it. */
  lemma FieldAt(input: seq<byte>, p: nat, i: nat, before: seq<byte>, field: seq<byte>)
    requires p + i < |input| && input[p..][i] == Terminator
    requires input[..p] == before && input[p..][..i] == field
    ensures input[..p + i + 1] == before + field + [Terminator]
    ensures input[..p + i + 1] == before + (field + [Terminator])
    ensures input[p..][i + 1..] == input[p + i + 1..]
  {
    assert input[..p + i + 1] == input[..p] + input[p..][..i + 1];
    assert input[p..][..i + 1] == field + [Terminator];
  }

  /** Parsing recovers every well-formed request from its encoding, whatever
      follows it in the stream. */
  lemma {:induction false} ParseEncode(fmt: Format, header: seq<byte>, userId: seq<byte>,
                                       domain: Option<seq<byte>>, tail: seq<byte>)
    requires WellFormed(fmt, header, userId, domain)
    ensures Parse(fmt, Encode(header, userId, domain) + tail)
            == Complete(header, userId, domain, |Encode(header, userId, domain)|)
  {
    var input := Encode(header, userId, domain) + tail;
    var after := if domain.Some? then domain.value + [Terminator] else [];
    assert input == header + (userId + [Terminator] + (after + tail));
    assert input[..fmt.headerSize] == header;
    var rest := input[fmt.headerSize..];
    SplitField(userId, after + tail);
    if domain.Some? {
      assert after + tail == domain.value + [Terminator] + tail;
      SplitField(domain.value, tail);
    }
  }

  /** A terminator-free field followed by a terminator is recovered by
      splitting at the first terminator. */
  lemma SplitField(field: seq<byte>, after: seq<byte>)
    requires NoTerminator(field)
    ensures var s := field + [Terminator] + after;
            FirstTerminator(s) == |field| && s[..|field|] == field && s[|field| + 1..] == after
  {
    var s := field + [Terminator] + after;
    assert s == field + ([Terminator] + after);
    FirstTerminatorAfter(field, [Terminator] + after);
  }

  /** A stream the parser calls truncated starts with no well-formed request. */
  lemma TruncatedHasNoRequest(fmt: Format, input: seq<byte>, header: seq<byte>,
                              userId: seq<byte>, domain: Option<seq<byte>>)
    requires Parse(fmt, input).Truncated?
    requires WellFormed(fmt, header, userId, domain)
    ensures !(Encode(header, userId, domain) <= input)
  {
    var e := Encode(header, userId, domain);
    if e <= input {
      assert input == e + input[|e|..];
      ParseEncode(fmt, header, userId, domain, input[|e|..]);
    }
  }

  /** The SOCKS 4A layout: version, command, port (2 bytes) and IPv4 address
      (4 bytes); a domain follows when the address is 0.0.0.x with x != 0. */
  predicate Socks4aMarker(header: seq<byte>)
  {
    |header| == 8 && header[4] == 0 && header[5] == 0 && header[6] == 0 && header[7] != 0
  }

  const Socks4a: Format := Format(8, Socks4aMarker)

  /** A CONNECT to port 80 of 0.0.0.1 with user id "root": the 4A marker is
      set, so the request is not complete after the user id. */
  lemma MarkerRequiresDomain()
    ensures Parse(Socks4a, [4, 1, 0, 0x50, 0, 0, 0, 1, 0x72, 0x6f, 0x6f, 0x74, 0]) == Truncated(13)
  {
    var u: seq<byte> := [0x72, 0x6f, 0x6f, 0x74];
    var s: seq<byte> := [4, 1, 0, 0x50, 0, 0, 0, 1, 0x72, 0x6f, 0x6f, 0x74, 0];
    assert Socks4aMarker(s[..8]);
    assert s[8..] == u + [Terminator];
    FirstTerminatorAfter(u, [Terminator]);
    assert s[8..][5..] == [];
  }

  /** The same request followed by the domain "a" is complete. */
  lemma MarkedRequestWithDomain()
    ensures Parse(Socks4a, [4, 1, 0, 0x50, 0, 0, 0, 1, 0x72, 0x6f, 0x6f, 0x74, 0, 0x61, 0])
            == Complete([4, 1, 0, 0x50, 0, 0, 0, 1], [0x72, 0x6f, 0x6f, 0x74], Some([0x61]), 15)
  {
    var h: seq<byte> := [4, 1, 0, 0x50, 0, 0, 0, 1];
    var u: seq<byte> := [0x72, 0x6f, 0x6f, 0x74];
    assert Socks4aMarker(h);
    ParseEncode(Socks4a, h, u, Some([0x61]), []);
    assert Encode(h, u, Some([0x61])) + [] == [4, 1, 0, 0x50, 0, 0, 0, 1, 0x72, 0x6f, 0x6f, 0x74, 0, 0x61, 0];
  }

  /** The same request to 0.0.0.0 is plain SOCKS 4: it ends after the user id. */
  lemma PlainAddressEndsAfterUserId()
    ensures Parse(Socks4a, [4, 1, 0, 0x50, 0, 0, 0, 0, 0x72, 0x6f, 0x6f, 0x74, 0])
            == Complete([4, 1, 0, 0x50, 0, 0, 0, 0], [0x72, 0x6f, 0x6f, 0x74], None, 13)
  {
    var h: seq<byte> := [4, 1, 0, 0x50, 0, 0, 0, 0];
    var u: seq<byte> := [0x72, 0x6f, 0x6f, 0x74];
    assert !Socks4aMarker(h);
    ParseEncode(Socks4a, h, u, None, []);
    assert Encode(h, u, None) + [] == [4, 1, 0, 0x50, 0, 0, 0, 0, 0x72, 0x6f, 0x6f, 0x74, 0];
  }
}
