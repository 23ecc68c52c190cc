/** Reading IP packets, and taking one from the hop limit of a packet that is passed on. */
module Packets {
  import opened Basics
  import opened Wrappers
  import opened Bytes
  import opened Net
  import opened Checksums
  import opened AddressOctets
  import RouteRanges

  const MAX_EXTENSION_HEADERS: nat := 8

  datatype PacketError =
    | Truncated(needed: nat, available: nat)
    | BadVersion(version: nat)
    | LengthMismatch(declared: nat, actual: nat)
    | InvalidHeaderLength
    | InvalidChecksum
    | InvalidExtensionLength
    | InvalidExtensionOrder
    | DuplicateExtension
    | TooManyExtensions
    | HopLimitExpired
    | InvalidIcmpInvocation

  datatype PacketView =
    | Ipv4(bytes: seq<Byte>, headerLen: nat, totalLen: nat)
    | Ipv6(bytes: seq<Byte>, headerLen: nat, totalLen: nat, nextHeader: Byte, fragmentSeen: bool)

  // ----- IPv4 -----

  function ParsedV4(input: seq<Byte>): Result<PacketView, PacketError> {
    if |input| < 20 then Err(Truncated(20, |input|))
    else if input[0] / 16 != 4 then Err(BadVersion(input[0] / 16))
    else
      var headerLen := HeaderLen(input[0]);
      var totalLen := Word(input[2], input[3]);
      if headerLen < 20 || headerLen > |input| then Err(InvalidHeaderLength)
      else if totalLen < headerLen then Err(LengthMismatch(totalLen, |input|))
      else if Complement(Sum(input, 0, headerLen)) != 0 then Err(InvalidChecksum)
      else Ok(Ipv4(input[..Min(|input|, totalLen)], headerLen, totalLen))
  }

  function HeaderLen(octet: Byte): (n: nat)
    ensures n <= 60
  {
    var words: nat := octet % 16;
    words * 4
  }

  // ----- IPv6 and its extension headers -----

  predicate IsExtension(nextHeader: Byte) {
    nextHeader in {0, 43, 44, 60, 51, 135, 139, 140}
  }

  function ExtensionLength(nextHeader: Byte, input: seq<Byte>, offset: nat): (r: Result<nat, PacketError>)
    ensures r.Ok? ==> r.value >= 8
  {
    if nextHeader == 44 then Ok(8)
    else if offset + 1 >= |input| then Err(Truncated(offset + 2, |input|))
    else
      var units: nat := input[offset + 1];
      if nextHeader == 51 then Ok((units + 2) * 4) else Ok((units + 1) * 8)
  }

  /** Where the chain of extension headers ends, and what follows it. */
  datatype Chain = Chain(end: nat, nextHeader: Byte, fragmentSeen: bool)

  /** The length of the extension header at `offset`, when it may stand there. */
  function NextExtension(input: seq<Byte>, available: nat, c: Chain, count: nat): (r: Result<nat, PacketError>)
    ensures r.Ok? ==> c.end + 8 <= c.end + r.value <= available
  {
    if count == MAX_EXTENSION_HEADERS then Err(TooManyExtensions)
    else if c.nextHeader == 0 && c.end != 40 then Err(InvalidExtensionOrder)
    else
      match ExtensionLength(c.nextHeader, input, c.end)
      case Err(error) => Err(error)
      case Ok(length) =>
        if c.end + length > available then Err(InvalidExtensionLength)
        else if c.nextHeader == 44 && c.fragmentSeen then Err(DuplicateExtension)
        else Ok(length)
  }

  /** The walk goes on from `c`, `count` headers in. */
  function Walk(input: seq<Byte>, available: nat, c: Chain, count: nat): (r: Result<Chain, PacketError>)
    requires available <= |input| && count <= MAX_EXTENSION_HEADERS
    ensures r.Ok? ==> c.end <= r.value.end && (c.end <= available ==> r.value.end <= available)
    ensures r.Ok? ==> !IsExtension(r.value.nextHeader)
    decreases |input|, MAX_EXTENSION_HEADERS - count
  {
    if !IsExtension(c.nextHeader) then Ok(c)
    else
      match NextExtension(input, available, c, count)
      case Err(error) => Err(error)
      case Ok(length) =>
        Walk(input, available, Chain(c.end + length, input[c.end], c.fragmentSeen || c.nextHeader == 44), count + 1)
  }

  function ParsedV6(input: seq<Byte>): Result<PacketView, PacketError> {
    if |input| < 40 then Err(Truncated(40, |input|))
    else if input[0] / 16 != 6 then Err(BadVersion(input[0] / 16))
    else
      var totalLen := 40 + Word(input[4], input[5]);
      var available := Min(|input|, totalLen);
      match Walk(input, available, Chain(40, input[6], false), 0)
      case Err(error) => Err(error)
      case Ok(c) => Ok(Ipv6(input[..available], c.end, totalLen, c.nextHeader, c.fragmentSeen))
  }

  // ----- Either version -----

  function ParsedPrefix(input: seq<Byte>): (r: Result<PacketView, PacketError>)
    ensures r.Ok? ==> WellSized(r.value)
  {
    if input == [] then Err(Truncated(1, 0))
    else if input[0] / 16 == 4 then ParsedV4(input)
    else if input[0] / 16 == 6 then ParsedV6(input)
    else Err(BadVersion(input[0] / 16))
  }

  /** `parse`: the declared length is the length of the input. */
  function Parsed(input: seq<Byte>): (r: Result<PacketView, PacketError>)
    ensures r.Ok? ==> WellSized(r.value) && r.value.totalLen == |input|
  {
    match ParsedPrefix(input)
    case Err(error) => Err(error)
    case Ok(view) => if view.totalLen != |input| then Err(LengthMismatch(view.totalLen, |input|)) else Ok(view)
  }

  predicate WellSized(view: PacketView) {
    (if view.Ipv4? then 20 else 40) <= view.headerLen <= |view.bytes|
  }

  function Source(view: PacketView): IpAddr
    requires WellSized(view)
  {
    if view.Ipv4? then AddressFrom(V4, view.bytes, 12) else AddressFrom(V6, view.bytes, 8)
  }

  function Destination(view: PacketView): IpAddr
    requires WellSized(view)
  {
    if view.Ipv4? then AddressFrom(V4, view.bytes, 16) else AddressFrom(V6, view.bytes, 24)
  }

  function Protocol(view: PacketView): Byte
    requires WellSized(view)
  {
    if view.Ipv4? then view.bytes[9] else view.nextHeader
  }

  function HopPlace(view: PacketView): nat {
    if view.Ipv4? then 8 else 7
  }

  function HopLimit(view: PacketView): Byte
    requires WellSized(view)
  {
    view.bytes[HopPlace(view)]
  }

  function Payload(view: PacketView): seq<Byte>
    requires WellSized(view)
  {
    view.bytes[view.headerLen..]
  }

  predicate IsIcmpError(protocol: Byte, messageType: Byte) {
    if protocol == 1 then messageType in {3, 4, 5, 11, 12} else messageType < 128
  }

  /** `icmp_invoking_packet`: the packet an ICMP error quotes, if this is one. */
  function Invoking(view: PacketView): (r: Result<Option<PacketView>, PacketError>)
    requires WellSized(view)
    ensures r.Ok? && r.value.Some? ==> WellSized(r.value.value)
  {
    var payload := Payload(view);
    if !RouteRanges.IsIcmp(Protocol(view)) then Ok(None)
    else if payload == [] then Err(InvalidIcmpInvocation)
    else if !IsIcmpError(Protocol(view), payload[0]) then Ok(None)
    else if |payload| < 8 then Err(InvalidIcmpInvocation)
    else
      match ParsedPrefix(payload[8..])
      case Err(_) => Err(InvalidIcmpInvocation)
      case Ok(invoking) => Ok(Some(invoking))
  }

  // ----- The loops of the source -----

  method WalkExtensions(input: seq<Byte>, available: nat) returns (r: Result<Chain, PacketError>)
    requires 40 <= available <= |input|
    ensures r == Walk(input, available, Chain(40, input[6], false), 0)
  {
    var offset, nextHeader, count, fragmentSeen := 40, input[6], 0, false;
    while IsExtension(nextHeader)
      invariant count <= MAX_EXTENSION_HEADERS && 40 <= offset
      invariant Walk(input, available, Chain(offset, nextHeader, fragmentSeen), count)
             == Walk(input, available, Chain(40, input[6], false), 0)
      decreases MAX_EXTENSION_HEADERS - count
    {
      if count == MAX_EXTENSION_HEADERS {
        return Err(TooManyExtensions);
      }
      if nextHeader == 0 && offset != 40 {
        return Err(InvalidExtensionOrder);
      }
      var length := ExtensionLength(nextHeader, input, offset);
      if length.Err? {
        return Err(length.error);
      }
      var end := offset + length.value;
      if end > available || length.value == 0 {
        return Err(InvalidExtensionLength);
      }
      if nextHeader == 44 {
        if fragmentSeen {
          return Err(DuplicateExtension);
        }
        fragmentSeen := true;
      }
      nextHeader := input[offset];
      offset := end;
      count := count + 1;
    }
    return Ok(Chain(offset, nextHeader, fragmentSeen));
  }

  method ParsePrefix(input: seq<Byte>) returns (r: Result<PacketView, PacketError>)
    ensures r == ParsedPrefix(input)
  {
    if input == [] {
      return Err(Truncated(1, 0));
    }
    if input[0] / 16 == 4 {
      r := ParsePrefixV4(input);
    } else if input[0] / 16 == 6 {
      r := ParsePrefixV6(input);
    } else {
      r := Err(BadVersion(input[0] / 16));
    }
  }

  method ParsePrefixV4(input: seq<Byte>) returns (r: Result<PacketView, PacketError>)
    ensures r == ParsedV4(input)
  {
    if |input| < 20 {
      return Err(Truncated(20, |input|));
    }
    if input[0] / 16 != 4 {
      return Err(BadVersion(input[0] / 16));
    }
    var headerLen := HeaderLen(input[0]);
    if headerLen < 20 || headerLen > |input| {
      return Err(InvalidHeaderLength);
    }
    var totalLen := Word(input[2], input[3]);
    if totalLen < headerLen {
      return Err(LengthMismatch(totalLen, |input|));
    }
    SumBound(input[..headerLen], 0, headerLen);
    SumLocal(input[..headerLen], input, 0, headerLen);
    var checksum := HeaderChecksum(input[..headerLen]);
    if checksum != 0 {
      return Err(InvalidChecksum);
    }
    return Ok(Ipv4(input[..Min(|input|, totalLen)], headerLen, totalLen));
  }

  method ParsePrefixV6(input: seq<Byte>) returns (r: Result<PacketView, PacketError>)
    ensures r == ParsedV6(input)
  {
    if |input| < 40 {
      return Err(Truncated(40, |input|));
    }
    if input[0] / 16 != 6 {
      return Err(BadVersion(input[0] / 16));
    }
    var totalLen := 40 + Word(input[4], input[5]);
    var available := Min(|input|, totalLen);
    var chain := WalkExtensions(input, available);
    if chain.Err? {
      return Err(chain.error);
    }
    var c := chain.value;
    return Ok(Ipv6(input[..available], c.end, totalLen, c.nextHeader, c.fragmentSeen));
  }

  // ----- One less hop -----

  /** The header of an IPv4 packet with one less hop and no checksum. */
  function Cleared(packet: seq<Byte>): seq<Byte>
    requires |packet| >= 20 && packet[8] > 0
  {
    packet[8 := packet[8] - 1][10 := 0][11 := 0]
  }

  function WithWord(packet: seq<Byte>, at: nat, word: nat): (r: seq<Byte>)
    requires at + 2 <= |packet| && word < 0x1_0000
    ensures |r| == |packet| && Word(r[at], r[at + 1]) == word
    ensures forall i :: 0 <= i < |r| && i != at && i != at + 1 ==> r[i] == packet[i]
  {
    packet[at := word / 256][at + 1 := word % 256]
  }

  function Decremented(packet: seq<Byte>, view: PacketView): seq<Byte>
    requires Parsed(packet) == Ok(view) && HopLimit(view) > 1
  {
    if view.Ipv4? then
      var cleared := Cleared(packet);
      WithWord(cleared, 10, Complement(Sum(cleared, 0, view.headerLen)))
    else packet[7 := packet[7] - 1]
  }

  /** `decrement_hop_limit`, in place; a refusal leaves the packet alone. */
  method DecrementHopLimit(packet: array<Byte>) returns (r: Result<(), PacketError>)
    modifies packet
    ensures r == match Parsed(old(packet[..]))
                 case Err(error) => Err(error)
                 case Ok(view) => if HopLimit(view) <= 1 then Err(HopLimitExpired) else Ok(())
    ensures packet[..] == if r.Ok? then Decremented(old(packet[..]), Parsed(old(packet[..])).value) else old(packet[..])
  {
    var prefix := ParsePrefix(packet[..]);
    if prefix.Err? {
      return Err(prefix.error);
    }
    var view := prefix.value;
    if view.totalLen != packet.Length {
      return Err(LengthMismatch(view.totalLen, packet.Length));
    }
    if HopLimit(view) <= 1 {
      return Err(HopLimitExpired);
    }
    ghost var before := packet[..];
    if view.Ipv4? {
      packet[8] := packet[8] - 1;
      packet[10] := 0;
      packet[11] := 0;
      ghost var cleared := packet[..];
      assert cleared == Cleared(before);
      var header := packet[..view.headerLen];
      SumBound(header, 0, view.headerLen);
      SumLocal(header, cleared, 0, view.headerLen);
      var checksum := HeaderChecksum(header);
      packet[10] := checksum / 256;
      packet[11] := checksum % 256;
      assert packet[..] == WithWord(cleared, 10, checksum);
    } else {
      packet[7] := packet[7] - 1;
      assert packet[..] == before[7 := before[7] - 1];
    }
    return Ok(());
  }

  // ----- What is accepted -----

  /** An IPv4 packet is read exactly when its header is whole, sized right and sums to a multiple of 65535. */
  lemma V4AcceptedExactly(input: seq<Byte>)
    ensures ParsedV4(input).Ok? <==>
              && |input| >= 20 && input[0] / 16 == 4
              && 20 <= HeaderLen(input[0]) <= |input| && HeaderLen(input[0]) <= Word(input[2], input[3])
              && Sum(input, 0, HeaderLen(input[0])) > 0 && Sum(input, 0, HeaderLen(input[0])) % 65535 == 0
  {
    if |input| >= 20 && HeaderLen(input[0]) <= |input| {
      FoldsFull(Sum(input, 0, HeaderLen(input[0])));
    }
  }

  /**
    A chain of extension headers: where each begins and its type, the last being what follows them. The
    hop-by-hop header comes only first, a fragment header only once, and there are at most eight.
   */
  ghost predicate IsChain(input: seq<Byte>, available: nat, places: seq<nat>, types: seq<Byte>) {
    && |places| == |types| && 1 <= |places| <= MAX_EXTENSION_HEADERS + 1
    && (forall i :: 0 <= i < |places| - 1 ==> IsLink(input, available, places, types, i))
    && !IsExtension(types[|types| - 1])
    && (forall i, j :: 0 <= i < j < |types| - 1 ==> !(types[i] == 44 && types[j] == 44))
  }

  predicate IsLink(input: seq<Byte>, available: nat, places: seq<nat>, types: seq<Byte>, i: nat)
    requires |places| == |types| && i + 1 < |places|
  {
    && IsExtension(types[i]) && (types[i] == 0 ==> places[i] == 40)
    && places[i] < places[i + 1] <= available && places[i] < |input|
    && ExtensionLength(types[i], input, places[i]) == Ok(places[i + 1] - places[i])
    && types[i + 1] == input[places[i]]
  }

  /** The chain may still be walked from `c`, `count` headers in. */
  ghost predicate Continues(input: seq<Byte>, available: nat, c: Chain, count: nat, places: seq<nat>,
                            types: seq<Byte>) {
    && IsChain(input, available, places, types)
    && places[0] == c.end && types[0] == c.nextHeader && |places| - 1 + count <= MAX_EXTENSION_HEADERS
    && (c.fragmentSeen ==> forall i :: 0 <= i < |types| - 1 ==> types[i] != 44)
  }

  lemma {:induction false} WalkHasChain(input: seq<Byte>, available: nat, c: Chain, count: nat)
    returns (places: seq<nat>, types: seq<Byte>)
    requires available <= |input| && count <= MAX_EXTENSION_HEADERS && Walk(input, available, c, count).Ok?
    ensures Continues(input, available, c, count, places, types)
    decreases MAX_EXTENSION_HEADERS - count
  {
    if !IsExtension(c.nextHeader) {
      places, types := [c.end], [c.nextHeader];
    } else {
      var length := NextExtension(input, available, c, count).value;
      var next := Chain(c.end + length, input[c.end], c.fragmentSeen || c.nextHeader == 44);
      var restPlaces, restTypes := WalkHasChain(input, available, next, count + 1);
      places, types := [c.end] + restPlaces, [c.nextHeader] + restTypes;
      forall i | 0 <= i < |places| - 1 ensures IsLink(input, available, places, types, i) {
        if i > 0 {
          assert IsLink(input, available, restPlaces, restTypes, i - 1);
        }
      }
    }
  }

  lemma {:induction false} ChainIsWalked(input: seq<Byte>, available: nat, c: Chain, count: nat, places: seq<nat>,
                                         types: seq<Byte>)
    requires available <= |input| && count <= MAX_EXTENSION_HEADERS
    requires Continues(input, available, c, count, places, types)
    ensures Walk(input, available, c, count).Ok?
    ensures Walk(input, available, c, count).value.end == places[|places| - 1]
    ensures Walk(input, available, c, count).value.nextHeader == types[|types| - 1]
    decreases |places|
  {
    assert |places| > 1 ==> IsLink(input, available, places, types, 0);
    if IsExtension(c.nextHeader) {
      var length := places[1] - places[0];
      var next := Chain(c.end + length, input[c.end], c.fragmentSeen || c.nextHeader == 44);
      forall i | 0 <= i < |places| - 2 ensures IsLink(input, available, places[1..], types[1..], i) {
        assert IsLink(input, available, places, types, i + 1);
      }
      ChainIsWalked(input, available, next, count + 1, places[1..], types[1..]);
    }
  }

  /** The walk accepts exactly the packets whose extension headers form a chain, and finds its end. */
  lemma V6AcceptedExactly(input: seq<Byte>)
    requires |input| >= 40 && input[0] / 16 == 6
    ensures var available := Min(|input|, 40 + Word(input[4], input[5]));
      && (ParsedV6(input).Ok? <==>
          exists places: seq<nat>, types: seq<Byte> ::
            IsChain(input, available, places, types) && places[0] == 40 && types[0] == input[6])
      && forall places: seq<nat>, types: seq<Byte> ::
           IsChain(input, available, places, types) && places[0] == 40 && types[0] == input[6] ==>
             ParsedV6(input).value.headerLen == places[|places| - 1]
             && Protocol(ParsedV6(input).value) == types[|types| - 1]
  {
    var available := Min(|input|, 40 + Word(input[4], input[5]));
    var c := Chain(40, input[6], false);
    forall places: seq<nat>, types: seq<Byte> |
      IsChain(input, available, places, types) && places[0] == 40 && types[0] == input[6]
      ensures ParsedV6(input).Ok? && ParsedV6(input).value.headerLen == places[|places| - 1]
              && Protocol(ParsedV6(input).value) == types[|types| - 1]
    {
      ChainIsWalked(input, available, c, 0, places, types);
    }
    if ParsedV6(input).Ok? {
      var places, types := WalkHasChain(input, available, c, 0);
    }
  }

  // ----- What passing on a packet keeps -----

  lemma ClearedIsClear(packet: seq<Byte>)
    requires |packet| >= 20 && packet[8] > 0
    ensures |Cleared(packet)| == |packet| && Cleared(packet)[10] == 0 && Cleared(packet)[11] == 0
    ensures Cleared(packet)[8] == packet[8] - 1
    ensures forall i :: 0 <= i < |packet| && i != 8 && i != 10 && i != 11 ==> Cleared(packet)[i] == packet[i]
  {
  }

  /** The rewritten IPv4 header verifies, and only its hop limit and checksum differ. */
  lemma DecrementedV4(packet: seq<Byte>, view: PacketView)
    requires Parsed(packet) == Ok(view) && HopLimit(view) > 1 && view.Ipv4?
    ensures var after := Decremented(packet, view);
      && |after| == |packet| && after[8] == packet[8] - 1
      && (forall i :: 0 <= i < |packet| && i != 8 && i != 10 && i != 11 ==> after[i] == packet[i])
      && Complement(Sum(after, 0, view.headerLen)) == 0
  {
    ClearedIsClear(packet);
    StoredComplementVerifies(Cleared(packet), Decremented(packet, view), 0, 10, view.headerLen);
  }

  /** The walk never looks at the fixed header. */
  lemma {:induction false} WalkIgnoresHeader(a: seq<Byte>, b: seq<Byte>, available: nat, c: Chain, count: nat)
    requires |a| == |b| && available <= |a| && count <= MAX_EXTENSION_HEADERS && c.end >= 40
    requires forall i :: 40 <= i < |a| ==> a[i] == b[i]
    ensures Walk(a, available, c, count) == Walk(b, available, c, count)
    decreases MAX_EXTENSION_HEADERS - count
  {
    if IsExtension(c.nextHeader) && NextExtension(a, available, c, count).Ok? {
      var length := NextExtension(a, available, c, count).value;
      assert NextExtension(b, available, c, count) == Ok(length);
      var next := Chain(c.end + length, a[c.end], c.fragmentSeen || c.nextHeader == 44);
      WalkIgnoresHeader(a, b, available, next, count + 1);
    }
  }

  /** Addresses depend on their octets only. */
  lemma SameAddress(family: Family, a: seq<Byte>, b: seq<Byte>, at: nat)
    requires at + Octets(family) <= |a| && at + Octets(family) <= |b|
    requires forall i :: at <= i < at + Octets(family) ==> a[i] == b[i]
    ensures AddressFrom(family, a, at) == AddressFrom(family, b, at)
  {
    var end := at + Octets(family);
    var part := a[at..end];
    FoldedHeld(part, a, at);
    FoldedHeld(part, b, at);
  }

  /** Where the source and destination addresses stand. */
  predicate SameAddresses(family: Family, a: seq<Byte>, b: seq<Byte>) {
    var begin, end := if family.V4? then 12 else 8, if family.V4? then 20 else 40;
    |a| >= end && |b| >= end && forall i :: begin <= i < end ==> a[i] == b[i]
  }

  lemma SameEnds(a: PacketView, b: PacketView)
    requires WellSized(a) && WellSized(b) && a.Ipv4? == b.Ipv4?
    requires SameAddresses(if a.Ipv4? then V4 else V6, a.bytes, b.bytes)
    ensures Source(a) == Source(b) && Destination(a) == Destination(b)
  {
    if a.Ipv4? {
      SameAddress(V4, a.bytes, b.bytes, 12);
      SameAddress(V4, a.bytes, b.bytes, 16);
    } else {
      SameAddress(V6, a.bytes, b.bytes, 8);
      SameAddress(V6, a.bytes, b.bytes, 24);
    }
  }

  lemma DecrementedParses(packet: seq<Byte>, view: PacketView)
    requires Parsed(packet) == Ok(view) && HopLimit(view) > 1
    ensures Parsed(Decremented(packet, view)) == Ok(view.(bytes := Decremented(packet, view)))
  {
    var after := Decremented(packet, view);
    assert packet[..|packet|] == packet && after[..|packet|] == after;
    if view.Ipv4? {
      DecrementedV4(packet, view);
    } else {
      WalkIgnoresHeader(packet, after, |packet|, Chain(40, packet[6], false), 0);
    }
  }

  /**
    A packet passed on still parses; its hop limit is one lower, and its addresses, protocol, lengths and
    payload are what they were, as is every octet but the hop limit and the IPv4 header checksum.
   */
  lemma DecrementKeepsPacket(packet: seq<Byte>)
    requires Parsed(packet).Ok? && HopLimit(Parsed(packet).value) > 1
    ensures var view := Parsed(packet).value;
      var after := Decremented(packet, view);
      && Parsed(after).Ok?
      && var now := Parsed(after).value;
        && HopLimit(now) == HopLimit(view) - 1
        && Source(now) == Source(view) && Destination(now) == Destination(view)
        && Protocol(now) == Protocol(view) && Payload(now) == Payload(view)
        && |after| == |packet|
        && forall i :: 0 <= i < |packet| && i != HopPlace(view) && !(view.Ipv4? && 10 <= i <= 11) ==>
            after[i] == packet[i]
  {
    var view := Parsed(packet).value;
    var after := Decremented(packet, view);
    DecrementedParses(packet, view);
    var now := Parsed(after).value;
    assert packet[..|packet|] == packet;
    if view.Ipv4? {
      DecrementedV4(packet, view);
    }
    SameEnds(now, view);
    assert Payload(now) == Payload(view);
  }

  // ----- Packets cut short -----

  lemma CutV4(input: seq<Byte>, n: nat)
    requires ParsedV4(input).Ok? && ParsedV4(input).value.headerLen <= n <= |input|
    ensures var view := ParsedV4(input).value;
      ParsedV4(input[..n]) == Ok(view.(bytes := input[..n][..Min(n, view.totalLen)]))
  {
    var view := ParsedV4(input).value;
    SumLocal(input, input[..n], 0, view.headerLen);
  }

  /** With less of the packet at hand the walk ends where it did, or not at all. */
  lemma {:induction false} WalkCut(input: seq<Byte>, available: nat, n: nat, c: Chain, count: nat)
    requires n <= available <= |input| && count <= MAX_EXTENSION_HEADERS && c.end <= n
    requires Walk(input, available, c, count).Ok?
    ensures var whole, cut := Walk(input, available, c, count), Walk(input[..n], n, c, count);
      (cut.Ok? <==> whole.value.end <= n) && (cut.Ok? ==> cut == whole)
    decreases MAX_EXTENSION_HEADERS - count
  {
    if IsExtension(c.nextHeader) {
      var length := NextExtension(input, available, c, count).value;
      var next := Chain(c.end + length, input[c.end], c.fragmentSeen || c.nextHeader == 44);
      if next.end <= n {
        assert NextExtension(input[..n], n, c, count) == Ok(length);
        WalkCut(input, available, n, next, count + 1);
      } else {
        assert NextExtension(input[..n], n, c, count).Err?;
      }
    }
  }

  /** An IPv6 packet cut to `n` octets still parses exactly when its headers fit them. */
  lemma CutV6(input: seq<Byte>, n: nat)
    requires ParsedV6(input).Ok? && 40 <= n <= Min(|input|, ParsedV6(input).value.totalLen)
    ensures ParsedV6(input[..n]).Ok? <==> ParsedV6(input).value.headerLen <= n
    ensures ParsedV6(input[..n]).Ok? ==> ParsedV6(input[..n]) == Ok(ParsedV6(input).value.(bytes := input[..n]))
  {
    var view := ParsedV6(input).value;
    WalkCut(input, Min(|input|, view.totalLen), n, Chain(40, input[6], false), 0);
    assert input[..n][..n] == input[..n];
  }
}
