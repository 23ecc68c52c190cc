/** QUIC variable-length integers: section 16 of RFC 9000. */
module Varint {
  import opened Wrappers
  import opened Bytes

  const MAX_VARINT: nat := 0x3FFF_FFFF_FFFF_FFFF

  datatype VarIntError = Truncated | Overflow

  /** The length the two top bits of a first octet announce. */
  function AnnouncedLength(first: Byte): (length: nat)
    ensures length in {1, 2, 4, 8}
  {
    match first / 64
    case 0 => 1
    case 1 => 2
    case 2 => 4
    case _ => 8
  }

  /** The value and length of the integer that stands at `at`. */
  function DecodedAt(input: seq<Byte>, at: nat): (r: Result<(nat, nat), VarIntError>)
    requires at <= |input|
    ensures r.Ok? ==> 0 < r.value.1 <= |input| - at
  {
    if at == |input| then Err(Truncated)
    else
      var length := AnnouncedLength(input[at]);
      if |input| - at < length then Err(Truncated)
      else
        var value := Folded(input[at] % 64, input, at + 1, at + length);
        if value > MAX_VARINT then Err(Overflow) else Ok((value, length))
  }

  method Decode(input: seq<Byte>) returns (r: Result<(nat, nat), VarIntError>)
    ensures r == DecodedAt(input, 0)
  {
    if |input| == 0 {
      return Err(Truncated);
    }
    var first := input[0];
    var length := AnnouncedLength(first);
    if |input| < length {
      return Err(Truncated);
    }
    var value := first % 64;
    for i := 1 to length
      invariant value == Folded(first % 64, input, 1, i)
    {
      value := value * 256 + input[i];
    }
    if value > MAX_VARINT {
      return Err(Overflow);
    }
    return Ok((value, length));
  }

  /** The shortest of the four encodings that holds `value`. */
  function EncodedLength(value: nat): nat {
    if value < 0x40 then 1 else if value < 0x4000 then 2 else if value < 0x4000_0000 then 4 else 8
  }

  function LengthPrefix(length: nat): nat {
    if length == 1 then 0 else if length == 2 then 0x40 else if length == 4 then 0x80 else 0xC0
  }

  lemma TopOctetIsFree(value: nat)
    requires value <= MAX_VARINT
    ensures value < Pow256(EncodedLength(value))
    ensures ToBytes(value, EncodedLength(value))[0] < 64
  {
    PowerValues();
    LeadingOctetBound(value, EncodedLength(value), 64);
  }

  lemma PowerValues()
    ensures Pow256(0) == 1 && Pow256(1) == 0x100 && Pow256(2) == 0x1_0000
    ensures Pow256(3) == 0x100_0000 && Pow256(4) == 0x1_0000_0000
    ensures Pow256(7) == 0x100_0000_0000_0000 && Pow256(8) == 0x1_0000_0000_0000_0000
  {
  }

  function Encoded(value: nat): (bytes: seq<Byte>)
    requires value <= MAX_VARINT
    ensures |bytes| == EncodedLength(value)
  {
    TopOctetIsFree(value);
    var bytes := ToBytes(value, EncodedLength(value));
    bytes[0 := bytes[0] + LengthPrefix(|bytes|)]
  }

  /** Writes into the caller's buffer, as the source does. */
  method Encode(value: nat, output: array<Byte>) returns (r: Result<nat, VarIntError>)
    modifies output
    ensures value > MAX_VARINT ==> r == Err(Overflow)
    ensures value <= MAX_VARINT && output.Length < |Encoded(value)| ==> r == Err(Truncated)
    ensures r.Err? ==> output[..] == old(output[..])
    ensures value <= MAX_VARINT && output.Length >= |Encoded(value)| ==>
              r == Ok(|Encoded(value)|) && output[..] == Encoded(value) + old(output[|Encoded(value)|..])
  {
    if value > MAX_VARINT {
      return Err(Overflow);
    }
    var length := if value < 0x40 then 1 else if value < 0x4000 then 2 else if value < 0x4000_0000 then 4 else 8;
    if output.Length < length {
      return Err(Truncated);
    }
    var prefix := match length case 1 => 0 case 2 => 0x40 case 4 => 0x80 case _ => 0xC0;
    TopOctetIsFree(value);
    var bytes := ToBytes(value, length);
    forall i | 0 <= i < length {
      output[i] := bytes[i];
    }
    // The top two bits are clear, so `|=` with the prefix is an addition.
    output[0] := output[0] + prefix;
    assert output[..length] == Encoded(value);
    assert output[length..] == old(output[length..]);
    assert output[..] == output[..length] + output[length..];
    return Ok(length);
  }

  /** An integer is decided by its own octets: it reads the same wherever they stand. */
  lemma Local(part: seq<Byte>, k: nat, input: seq<Byte>, at: nat)
    requires HoldsAt(input, at, part) && k <= |part| && DecodedAt(part, k).Ok?
    ensures DecodedAt(input, at + k) == DecodedAt(part, k)
  {
    var length := DecodedAt(part, k).value.1;
    assert part[k] == input[at + k];
    FoldedLocal(part[k] % 64, part, k + 1, k + length, input, at);
  }

  /** Cutting off what stands before an integer does not change how it reads. */
  lemma TailDecodes(input: seq<Byte>, at: nat)
    requires at <= |input|
    ensures DecodedAt(input[at..], 0) == DecodedAt(input, at)
  {
    OnlyTruncationFails(input, at);
    OnlyTruncationFails(input[at..], 0);
    assert HoldsAt(input, at, input[at..]);
    if DecodedAt(input[at..], 0).Ok? {
      Local(input[at..], 0, input, at);
    }
  }

  /** What is encoded is read back, wherever it stands. */
  lemma RoundTrip(value: nat, input: seq<Byte>, at: nat)
    requires value <= MAX_VARINT && HoldsAt(input, at, Encoded(value))
    ensures DecodedAt(input, at) == Ok((value, |Encoded(value)|))
  {
    EncodedDecodes(value);
    Local(Encoded(value), 0, input, at);
  }

  lemma PrefixReadsBack(octet: Byte, length: nat)
    requires octet < 64 && length in {1, 2, 4, 8}
    ensures octet + LengthPrefix(length) < 256
    ensures AnnouncedLength(octet + LengthPrefix(length)) == length
    ensures (octet + LengthPrefix(length)) % 64 == octet
  {
  }

  /** Tagging the first octet of a string with its length makes an integer of it. */
  lemma TaggedDecodes(bytes: seq<Byte>, first: Byte)
    requires |bytes| in {1, 2, 4, 8} && bytes[0] < 64 && first == bytes[0] + LengthPrefix(|bytes|)
    requires FromBytes(bytes) <= MAX_VARINT
    ensures DecodedAt(bytes[0 := first], 0) == Ok((FromBytes(bytes), |bytes|))
  {
    FirstThenRest(bytes);
    FoldedIgnoresFirst(bytes[0], bytes, first, |bytes|);
    PrefixReadsBack(bytes[0], |bytes|);
  }

  lemma EncodedDecodes(value: nat)
    requires value <= MAX_VARINT
    ensures DecodedAt(Encoded(value), 0) == Ok((value, |Encoded(value)|))
  {
    var bytes := ToBytes(value, EncodedLength(value));
    TopOctetIsFree(value);
    ToThenFrom(value, |bytes|);
    PrefixReadsBack(bytes[0], |bytes|);
    TaggedDecodes(bytes, bytes[0] + LengthPrefix(|bytes|));
  }

  /** The 62-bit maximum is never exceeded, so decoding fails only for want of octets. */
  lemma OnlyTruncationFails(input: seq<Byte>, at: nat)
    requires at <= |input|
    ensures DecodedAt(input, at).Ok? <==> at < |input| && |input| - at >= AnnouncedLength(input[at])
    ensures DecodedAt(input, at).Err? ==> DecodedAt(input, at) == Err(Truncated)
    ensures DecodedAt(input, at).Ok? ==>
              DecodedAt(input, at).value.0 <= MAX_VARINT && DecodedAt(input, at).value.1 == AnnouncedLength(input[at])
  {
    if at < |input| && |input| - at >= AnnouncedLength(input[at]) {
      PowerValues();
      FoldedBound(input[at] % 64, input, at + 1, at + AnnouncedLength(input[at]), 64);
    }
  }

  /** No encoding the decoder accepts for a value is shorter than the encoder's. */
  lemma EncodingIsShortest(input: seq<Byte>, at: nat)
    requires at <= |input| && DecodedAt(input, at).Ok?
    ensures DecodedAt(input, at).value.0 <= MAX_VARINT
    ensures |Encoded(DecodedAt(input, at).value.0)| <= DecodedAt(input, at).value.1
  {
    OnlyTruncationFails(input, at);
    PowerValues();
    FoldedBound(input[at] % 64, input, at + 1, at + AnnouncedLength(input[at]), 64);
  }
}
