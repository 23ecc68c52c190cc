/** Capsules on the wire: section 3.2 of RFC 9297. */
module Capsules {
  import opened Wrappers
  import opened Bytes
  import Varint

  const DATAGRAM_CAPSULE: nat := 0
  const ADDRESS_ASSIGN_CAPSULE: nat := 1
  const ADDRESS_REQUEST_CAPSULE: nat := 2
  const ROUTE_ADVERTISEMENT_CAPSULE: nat := 3

  datatype Capsule = Capsule(capsuleType: nat, value: seq<Byte>)

  predicate Encodable(capsule: Capsule) {
    capsule.capsuleType <= Varint.MAX_VARINT && |capsule.value| <= Varint.MAX_VARINT
  }

  function Encoded(capsule: Capsule): seq<Byte>
    requires Encodable(capsule)
  {
    Varint.Encoded(capsule.capsuleType) + Varint.Encoded(|capsule.value|) + capsule.value
  }

  method Encode(capsule: Capsule, output: ByteBuffer) returns (r: Result<(), Varint.VarIntError>)
    modifies output
    ensures r.Ok? <==> Encodable(capsule)
    ensures r.Ok? ==> output.bytes == old(output.bytes) + Encoded(capsule)
    ensures r.Err? ==> r.error == Varint.Overflow
    ensures capsule.capsuleType > Varint.MAX_VARINT ==> output.bytes == old(output.bytes)
  {
    var scratch := new Byte[8](_ => 0);
    var typeLength := Varint.Encode(capsule.capsuleType, scratch);
    if typeLength.Err? {
      return Err(typeLength.error);
    }
    output.Extend(scratch[..typeLength.value]);
    var valueLength := Varint.Encode(|capsule.value|, scratch);
    if valueLength.Err? {
      return Err(valueLength.error);
    }
    output.Extend(scratch[..valueLength.value]);
    output.Extend(capsule.value);
    return Ok(());
  }

  /** The type, value length and header size of the capsule at the front of `input`. */
  function ParseHeader(input: seq<Byte>): (r: Option<(nat, nat, nat)>)
    ensures r.Some? ==> r.value.2 <= |input|
  {
    var kind := Varint.DecodedAt(input, 0);
    if kind.Err? then None
    else
      var length := Varint.DecodedAt(input, kind.value.1);
      if length.Err? then None
      else Some((kind.value.0, length.value.0, kind.value.1 + length.value.1))
  }

  lemma HeaderFits(input: seq<Byte>)
    requires ParseHeader(input).Some?
    ensures 2 <= ParseHeader(input).value.2 <= 16
    ensures ParseHeader(input).value.0 <= Varint.MAX_VARINT && ParseHeader(input).value.1 <= Varint.MAX_VARINT
  {
    Varint.OnlyTruncationFails(input, 0);
    Varint.OnlyTruncationFails(input, Varint.DecodedAt(input, 0).value.1);
  }

  /** Sixteen octets always hold a whole header. */
  lemma SixteenOctetsSuffice(input: seq<Byte>)
    requires ParseHeader(input).None?
    ensures |input| <= 15
  {
    Varint.OnlyTruncationFails(input, 0);
    if |input| > 15 {
      Varint.OnlyTruncationFails(input, Varint.DecodedAt(input, 0).value.1);
    }
  }

  /** Later octets never change a header already complete. */
  lemma HeaderPrefixDecides(input: seq<Byte>, more: seq<Byte>)
    requires ParseHeader(input).Some?
    ensures ParseHeader(input + more) == ParseHeader(input)
  {
    assert HoldsAt(input + more, 0, input);
    Varint.Local(input, 0, input + more, 0);
    Varint.Local(input, Varint.DecodedAt(input, 0).value.1, input + more, 0);
  }

  /** A header of fewer octets than all is one of the whole. */
  lemma HeaderOfPrefix(input: seq<Byte>, k: nat)
    requires k <= |input| && ParseHeader(input[..k]).Some?
    ensures ParseHeader(input) == ParseHeader(input[..k])
  {
    HeaderPrefixDecides(input[..k], input[k..]);
    assert input[..k] + input[k..] == input;
  }

  /** A header is recognised at its last octet and no sooner. */
  lemma HeaderIsExact(input: seq<Byte>, k: nat)
    requires ParseHeader(input).Some? && k <= |input|
    ensures k >= ParseHeader(input).value.2 ==> ParseHeader(input[..k]) == ParseHeader(input)
    ensures k < ParseHeader(input).value.2 ==> ParseHeader(input[..k]).None?
  {
    if ParseHeader(input[..k]).Some? {
      HeaderOfPrefix(input, k);
    }
    if k >= ParseHeader(input).value.2 {
      HeaderWithinPrefix(input, k);
    }
  }

  lemma HeaderWithinPrefix(input: seq<Byte>, k: nat)
    requires ParseHeader(input).Some? && ParseHeader(input).value.2 <= k <= |input|
    ensures ParseHeader(input[..k]) == ParseHeader(input)
  {
    Varint.OnlyTruncationFails(input, 0);
    var n := Varint.DecodedAt(input, 0).value.1;
    Varint.OnlyTruncationFails(input, n);
    Varint.OnlyTruncationFails(input[..k], 0);
    Varint.OnlyTruncationFails(input[..k], n);
    assert HoldsAt(input, 0, input[..k]);
    Varint.Local(input[..k], 0, input, 0);
    Varint.Local(input[..k], n, input, 0);
  }

  lemma EncodedHeader(capsule: Capsule, rest: seq<Byte>)
    requires Encodable(capsule)
    ensures var header := Varint.Encoded(capsule.capsuleType) + Varint.Encoded(|capsule.value|);
            Encoded(capsule) == header + capsule.value
            && ParseHeader(Encoded(capsule) + rest) == Some((capsule.capsuleType, |capsule.value|, |header|))
  {
    var kind, length := Varint.Encoded(capsule.capsuleType), Varint.Encoded(|capsule.value|);
    var wire := Encoded(capsule) + rest;
    assert HoldsAt(wire, 0, kind);
    Varint.RoundTrip(capsule.capsuleType, wire, 0);
    assert HoldsAt(wire, |kind|, length);
    Varint.RoundTrip(|capsule.value|, wire, |kind|);
  }
}
