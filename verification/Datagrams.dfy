/** HTTP/3 datagrams (section 2.1 of RFC 9297) and the context-tagged payloads inside them. */
module Datagrams {
  import opened Wrappers
  import opened Bytes
  import Varint

  const MAX_QUARTER_STREAM_ID: nat := 0x0FFF_FFFF_FFFF_FFFF

  datatype HttpDatagram = HttpDatagram(streamId: nat, payload: seq<Byte>)

  datatype StreamError = InvalidStreamId | TruncatedStreamId

  datatype ContextDatagram = ContextDatagram(contextId: nat, payload: seq<Byte>)

  datatype ContextError = VarInt(error: Varint.VarIntError)

  /** Stream identifiers a datagram can name: those of client-initiated request streams. */
  predicate RequestStream(streamId: nat) {
    streamId % 4 == 0 && streamId / 4 <= MAX_QUARTER_STREAM_ID
  }

  function Decoded(input: seq<Byte>): Result<HttpDatagram, StreamError> {
    match Varint.DecodedAt(input, 0)
    case Err(Truncated) => Err(TruncatedStreamId)
    case Err(Overflow) => Err(InvalidStreamId)
    case Ok((quarter, consumed)) =>
      if quarter > MAX_QUARTER_STREAM_ID then Err(InvalidStreamId)
      else Ok(HttpDatagram(quarter * 4, input[consumed..]))
  }

  function Encoded(datagram: HttpDatagram): seq<Byte>
    requires RequestStream(datagram.streamId)
  {
    Varint.Encoded(datagram.streamId / 4) + datagram.payload
  }

  method Encode(streamId: nat, payload: seq<Byte>) returns (r: Result<seq<Byte>, StreamError>)
    ensures r.Ok? <==> RequestStream(streamId)
    ensures r.Ok? ==> r.value == Encoded(HttpDatagram(streamId, payload))
    ensures r.Err? ==> r.error == InvalidStreamId
  {
    if streamId % 4 != 0 {
      return Err(InvalidStreamId);
    }
    var quarter := streamId / 4;
    if quarter > MAX_QUARTER_STREAM_ID {
      return Err(InvalidStreamId);
    }
    var prefix := new Byte[8](_ => 0);
    var length := Varint.Encode(quarter, prefix);
    var output := new ByteBuffer();
    output.Extend(prefix[..length.value]);
    output.Extend(payload);
    return Ok(output.bytes);
  }

  function DecodedContext(input: seq<Byte>): Result<ContextDatagram, ContextError> {
    match Varint.DecodedAt(input, 0)
    case Err(error) => Err(VarInt(error))
    case Ok((contextId, consumed)) => Ok(ContextDatagram(contextId, input[consumed..]))
  }

  function EncodedContext(datagram: ContextDatagram): seq<Byte>
    requires datagram.contextId <= Varint.MAX_VARINT
  {
    Varint.Encoded(datagram.contextId) + datagram.payload
  }

  method EncodeContext(contextId: nat, payload: seq<Byte>, output: ByteBuffer) returns (r: Result<(), ContextError>)
    modifies output
    ensures r.Ok? <==> contextId <= Varint.MAX_VARINT
    ensures r.Ok? ==> output.bytes == old(output.bytes) + EncodedContext(ContextDatagram(contextId, payload))
    ensures r.Err? ==> output.bytes == old(output.bytes) && r.error == VarInt(Varint.Overflow)
  {
    var scratch := new Byte[8](_ => 0);
    var length := Varint.Encode(contextId, scratch);
    if length.Err? {
      return Err(VarInt(length.error));
    }
    output.Extend(scratch[..length.value]);
    output.Extend(payload);
    return Ok(());
  }

  lemma RoundTrip(datagram: HttpDatagram)
    requires RequestStream(datagram.streamId)
    ensures Decoded(Encoded(datagram)) == Ok(datagram)
  {
    var wire := Encoded(datagram);
    assert HoldsAt(wire, 0, Varint.Encoded(datagram.streamId / 4));
    Varint.RoundTrip(datagram.streamId / 4, wire, 0);
    assert wire[|Varint.Encoded(datagram.streamId / 4)|..] == datagram.payload;
  }

  lemma ContextRoundTrip(datagram: ContextDatagram)
    requires datagram.contextId <= Varint.MAX_VARINT
    ensures DecodedContext(EncodedContext(datagram)) == Ok(datagram)
  {
    var wire := EncodedContext(datagram);
    assert HoldsAt(wire, 0, Varint.Encoded(datagram.contextId));
    Varint.RoundTrip(datagram.contextId, wire, 0);
    assert wire[|Varint.Encoded(datagram.contextId)|..] == datagram.payload;
  }

  /** The two layers compose: stream, context and payload all come back. */
  lemma LayeredRoundTrip(streamId: nat, inner: ContextDatagram)
    requires RequestStream(streamId) && inner.contextId <= Varint.MAX_VARINT
    ensures var outer := Decoded(Encoded(HttpDatagram(streamId, EncodedContext(inner))));
            outer.Ok? && outer.value.streamId == streamId && DecodedContext(outer.value.payload) == Ok(inner)
  {
    RoundTrip(HttpDatagram(streamId, EncodedContext(inner)));
    ContextRoundTrip(inner);
  }

  /** Every datagram accepted names a request stream and can be sent on unchanged in meaning. */
  lemma AcceptedCanBeResent(input: seq<Byte>)
    requires Decoded(input).Ok?
    ensures RequestStream(Decoded(input).value.streamId)
    ensures Decoded(Encoded(Decoded(input).value)) == Decoded(input)
    ensures |Encoded(Decoded(input).value)| <= |input|
  {
    Varint.OnlyTruncationFails(input, 0);
    Varint.EncodingIsShortest(input, 0);
    RoundTrip(Decoded(input).value);
  }

  lemma FirstOctetLeads(input: seq<Byte>, length: nat)
    requires |input| >= length && length in {1, 2, 4, 8} && Varint.AnnouncedLength(input[0]) == length
    ensures input[0] % 64 * Pow256(length - 1) <= Folded(input[0] % 64, input, 1, length)
    ensures Folded(input[0] % 64, input, 1, length) < (input[0] % 64 + 1) * Pow256(length - 1)
  {
    FoldedAtLeast(input[0] % 64, input, 1, length);
    FoldedBound(input[0] % 64, input, 1, length, input[0] % 64 + 1);
  }

  lemma BelowTopSixteenth(first: Byte, quarter: nat)
    requires first / 64 == 3
    requires first % 64 * 0x100_0000_0000_0000 <= quarter < (first % 64 + 1) * 0x100_0000_0000_0000
    ensures quarter > MAX_QUARTER_STREAM_ID <==> first >= 0xD0
  {
  }

  /**
    A datagram is refused exactly when it is shorter than its first octet announces, or when that octet
    begins an eight-octet identifier of 2^60 or more.
   */
  lemma RefusedExactly(input: seq<Byte>)
    ensures Decoded(input) == Err(TruncatedStreamId) <==>
            || |input| == 0
            || (input[0] < 0x80 && |input| < (if input[0] < 0x40 then 1 else 2))
            || (input[0] >= 0x80 && |input| < (if input[0] < 0xC0 then 4 else 8))
    ensures Decoded(input) == Err(InvalidStreamId) <==> |input| >= 8 && input[0] >= 0xD0
  {
    Varint.OnlyTruncationFails(input, 0);
    if Varint.DecodedAt(input, 0).Ok? {
      var length := Varint.AnnouncedLength(input[0]);
      Varint.PowerValues();
      FirstOctetLeads(input, length);
      if length == 8 {
        BelowTopSixteenth(input[0], Varint.DecodedAt(input, 0).value.0);
      } else {
        FoldedBound(input[0] % 64, input, 1, length, 64);
      }
    }
  }
}
