/** The value of a ROUTE_ADVERTISEMENT capsule: section 4.7.3 of RFC 9484. */
module RouteCapsule {
  import opened Basics
  import opened Wrappers
  import opened Bytes
  import opened Net
  import opened AddressOctets
  import opened RouteRanges

  // ----- Encoding -----

  function RangeSize(family: Family): nat {
    2 + 2 * Octets(family)
  }

  function EncodedRange(range: AddressRange): (bytes: seq<Byte>)
    requires WellFormed(range)
    ensures |bytes| == RangeSize(range.start.family)
  {
    [if range.start.family.V4? then 4 else 6] + AddressBytes(range.start) + AddressBytes(range.end) + [range.protocol]
  }

  function Encoded(ranges: seq<AddressRange>): seq<Byte>
    requires forall r <- ranges :: WellFormed(r)
  {
    if ranges == [] then [] else EncodedRange(ranges[0]) + Encoded(ranges[1..])
  }

  lemma {:induction false} EncodedSnoc(ranges: seq<AddressRange>, range: AddressRange)
    requires (forall r <- ranges :: WellFormed(r)) && WellFormed(range)
    ensures Encoded(ranges + [range]) == Encoded(ranges) + EncodedRange(range)
  {
    if ranges == [] {
      assert ranges + [range] == [range];
      assert Encoded([]) == [];
    } else {
      assert (ranges + [range])[1..] == ranges[1..] + [range];
      EncodedSnoc(ranges[1..], range);
    }
  }

  lemma EncodedNext(ranges: seq<AddressRange>, i: nat)
    requires i < |ranges| && forall r <- ranges :: WellFormed(r)
    ensures Encoded(ranges[..i + 1]) == Encoded(ranges[..i]) + EncodedRange(ranges[i])
  {
    assert ranges[..i + 1] == ranges[..i] + [ranges[i]];
    EncodedSnoc(ranges[..i], ranges[i]);
  }

  method WriteRange(range: AddressRange, output: ByteBuffer)
    requires WellFormed(range)
    modifies output
    ensures output.bytes == old(output.bytes) + EncodedRange(range)
  {
    output.Extend([if range.start.family.V4? then 4 else 6]);
    output.Extend(AddressBytes(range.start));
    output.Extend(AddressBytes(range.end));
    output.Extend([range.protocol]);
  }

  method Encode(ranges: seq<AddressRange>, output: ByteBuffer) returns (r: Result<(), RouteError>)
    modifies output
    ensures r == CheckedRanges(ranges)
    ensures r.Ok? ==> Valid(ranges) && output.bytes == old(output.bytes) + Encoded(ranges)
    ensures r.Err? ==> output.bytes == old(output.bytes)
  {
    r := ValidateRanges(ranges);
    AcceptedExactly(ranges);
    if r.Err? {
      return;
    }
    for i := 0 to |ranges|
      invariant output.bytes == old(output.bytes) + Encoded(ranges[..i])
    {
      WriteRange(ranges[i], output);
      EncodedNext(ranges, i);
    }
    assert ranges[..|ranges|] == ranges;
  }

  // ----- Decoding -----

  /** The range that stands at `at`. */
  function ParsedRange(value: seq<Byte>, at: nat): (r: Result<AddressRange, RouteError>)
    requires at < |value|
    ensures r.Ok? ==> at + RangeSize(r.value.start.family) <= |value|
  {
    if value[at] != 4 && value[at] != 6 then Err(IpVersion(value[at]))
    else
      var family := if value[at] == 4 then V4 else V6;
      var width := Octets(family);
      if |value| < at + RangeSize(family) then Err(Truncated)
      else
        var start := AddressFrom(family, value, at + 1);
        var end := AddressFrom(family, value, at + 1 + width);
        if !AtMost(start, end) then Err(ReversedRange)
        else Ok(AddressRange(start, end, value[at + 1 + 2 * width]))
  }

  /** The ranges from `at` to the end. */
  function Parsed(value: seq<Byte>, at: nat): Result<seq<AddressRange>, RouteError>
    requires at <= |value|
    decreases |value| - at
  {
    if at == |value| then Ok([])
    else
      var range :- ParsedRange(value, at);
      Prepended([range], Parsed(value, at + RangeSize(range.start.family)))
  }

  ghost function Decoded(value: seq<Byte>): Result<seq<AddressRange>, RouteError> {
    var ranges :- Parsed(value, 0);
    var _ :- CheckedRanges(ranges);
    Ok(ranges)
  }

  /** The loop body up to where the range is kept. */
  method DecodeRange(value: seq<Byte>, offset: nat) returns (r: Result<AddressRange, RouteError>)
    requires offset < |value|
    ensures r == ParsedRange(value, offset)
  {
    var version := value[offset];
    if version != 4 && version != 6 {
      return Err(IpVersion(version));
    }
    var family := if version == 4 then V4 else V6;
    var width := Octets(family);
    var startBegin := offset + 1;
    var startEnd := startBegin + width;
    var endEnd := startEnd + width;
    if endEnd >= |value| {
      return Err(Truncated);
    }
    var start := AddressFrom(family, value, startBegin);
    var end := AddressFrom(family, value, startEnd);
    if !AtMost(start, end) {
      return Err(ReversedRange);
    }
    return Ok(AddressRange(start, end, value[endEnd]));
  }

  method Decode(value: seq<Byte>) returns (r: Result<seq<AddressRange>, RouteError>)
    ensures r == Decoded(value)
  {
    var offset := 0;
    var ranges: seq<AddressRange> := [];
    PrependedNothing([], Parsed(value, 0));
    while offset < |value|
      invariant 0 <= offset <= |value|
      invariant Parsed(value, 0) == Prepended(ranges, Parsed(value, offset))
    {
      var range := DecodeRange(value, offset);
      if range.Err? {
        return Err(range.error);
      }
      var next := offset + RangeSize(range.value.start.family);
      PrependedSnoc(ranges, range.value, Parsed(value, next));
      ranges := ranges + [range.value];
      offset := next;
    }
    PrependedNothing<AddressRange, RouteError>(ranges, Ok([]));
    var checked := ValidateRanges(ranges);
    if checked.Err? {
      return Err(checked.error);
    }
    return Ok(ranges);
  }

  lemma ParsedRangeHeld(range: AddressRange, value: seq<Byte>, at: nat)
    requires WellFormed(range) && HoldsAt(value, at, EncodedRange(range))
    ensures at < |value| && ParsedRange(value, at) == Ok(range)
  {
    var first := [if range.start.family.V4? then 4 else 6];
    var start, end := AddressBytes(range.start), AddressBytes(range.end);
    HoldsBoth(value, at, first + start + end, [range.protocol]);
    HoldsBoth(value, at, first + start, end);
    HoldsBoth(value, at, first, start);
    AddressRoundTrip(range.start, value, at + 1);
    AddressRoundTrip(range.end, value, at + 1 + |start|);
    assert value[at + 0] == first[0];
    assert value[at + |first + start + end| + 0] == [range.protocol][0];
  }

  lemma {:induction false} ParsedHeld(ranges: seq<AddressRange>, value: seq<Byte>, at: nat)
    requires forall r <- ranges :: WellFormed(r)
    requires HoldsAt(value, at, Encoded(ranges)) && at + |Encoded(ranges)| == |value|
    ensures Parsed(value, at) == Ok(ranges)
    decreases |ranges|
  {
    if ranges != [] {
      HoldsBoth(value, at, EncodedRange(ranges[0]), Encoded(ranges[1..]));
      ParsedRangeHeld(ranges[0], value, at);
      ParsedHeld(ranges[1..], value, at + RangeSize(ranges[0].start.family));
      assert ranges == [ranges[0]] + ranges[1..];
    }
  }

  /** Every valid advertisement is read back as it was written. */
  lemma RoundTrip(ranges: seq<AddressRange>)
    requires Valid(ranges)
    ensures Decoded(Encoded(ranges)) == Ok(ranges)
  {
    ParsedHeld(ranges, Encoded(ranges), 0);
    AcceptedExactly(ranges);
  }

  lemma EncodedRangeHeld(value: seq<Byte>, at: nat)
    requires at < |value| && ParsedRange(value, at).Ok?
    ensures WellFormed(ParsedRange(value, at).value)
    ensures HoldsAt(value, at, EncodedRange(ParsedRange(value, at).value))
  {
    var range := ParsedRange(value, at).value;
    var family := range.start.family;
    var first := [value[at]];
    var start, end := AddressBytes(range.start), AddressBytes(range.end);
    AddressBytesHeld(family, value, at + 1);
    AddressBytesHeld(family, value, at + 1 + Octets(family));
    HoldsBoth(value, at, first, start);
    HoldsBoth(value, at, first + start, end);
    HoldsBoth(value, at, first + start + end, [range.protocol]);
  }

  lemma {:induction false} EncodedHeld(value: seq<Byte>, at: nat)
    requires at <= |value| && Parsed(value, at).Ok?
    ensures forall r <- Parsed(value, at).value :: WellFormed(r)
    ensures HoldsAt(value, at, Encoded(Parsed(value, at).value))
    ensures at + |Encoded(Parsed(value, at).value)| == |value|
    decreases |value| - at
  {
    if at < |value| {
      EncodedRangeHeld(value, at);
      var range := ParsedRange(value, at).value;
      var next := at + RangeSize(range.start.family);
      EncodedHeld(value, next);
      var rest := Parsed(value, next).value;
      assert ([range] + rest)[1..] == rest;
      HoldsBoth(value, at, EncodedRange(range), Encoded(rest));
    }
  }

  /** Every accepted capsule holds a valid advertisement, and is the only encoding of it. */
  lemma EncodingIsUnique(value: seq<Byte>)
    requires Decoded(value).Ok?
    ensures Valid(Decoded(value).value)
    ensures Encoded(Decoded(value).value) == value
  {
    EncodedHeld(value, 0);
    AcceptedExactly(Decoded(value).value);
  }

  // ----- The advertisement a session holds -----

  class RouteAdvertisement {
    var ranges: seq<AddressRange>

    constructor ()
      ensures ranges == [] && Valid(ranges)
    {
      ranges := [];
    }

    /** All or nothing: a capsule that does not decode leaves the routes as they were. */
    method Replace(value: seq<Byte>) returns (r: Result<(), RouteError>)
      requires Valid(ranges)
      modifies this
      ensures Valid(ranges)
      ensures match Decoded(value)
              case Ok(next) => r == Ok(()) && ranges == next
              case Err(error) => r == Err(error) && ranges == old(ranges)
    {
      var next := Decode(value);
      if next.Err? {
        return Err(next.error);
      }
      EncodingIsUnique(value);
      ranges := next.value;
      return Ok(());
    }
  }
}
