/** Building the ICMP error that answers a packet which cannot be passed on. */
module IcmpErrors {
  import opened Basics
  import opened Wrappers
  import opened Bytes
  import opened Net
  import opened Checksums
  import opened Packets
  import opened AddressOctets

  const IPV4_QUOTE_LIMIT: nat := 548
  const IPV6_QUOTE_LIMIT: nat := 1_232
  const U16_MAX: nat := 65_535

  datatype IcmpErrorKind = SourcePolicy | NoRoute | HopLimitReached | PacketTooBig(mtu: nat)

  datatype IcmpBuildError = Packet(error: PacketError) | FamilyMismatch | LengthOverflow

  /** Message type and code. */
  function TypeAndCode(family: Family, kind: IcmpErrorKind): (Byte, Byte) {
    if family.V4? then
      match kind
      case SourcePolicy => (3, 13)
      case NoRoute => (3, 0)
      case HopLimitReached => (11, 0)
      case PacketTooBig(_) => (3, 4)
    else
      match kind
      case SourcePolicy => (1, 5)
      case NoRoute => (1, 0)
      case HopLimitReached => (3, 0)
      case PacketTooBig(_) => (2, 0)
  }

  /** The MTU field: clamped to 16 bits for IPv4, and zero in other messages. */
  function MtuField(family: Family, kind: IcmpErrorKind): nat {
    match kind
    case PacketTooBig(mtu) => if family.V4? then Min(mtu, U16_MAX) else mtu
    case _ => 0
  }

  /** The MTU of the source is a `u32`. */
  predicate MtuFits(kind: IcmpErrorKind) {
    kind.PacketTooBig? ==> kind.mtu < 0x1_0000_0000
  }

  // ----- What a built error looks like -----

  /** The checksum at `at` was computed over `begin` up to `end` while it was still zero. */
  predicate Stores(out: seq<Byte>, at: nat, begin: nat, end: nat)
    requires at + 2 <= |out| && begin <= end <= |out|
  {
    Word(out[at], out[at + 1]) == Complement(Sum(out[at := 0][at + 1 := 0], begin, end))
  }

  /** The IPv4 header, its checksum apart: no options, a TTL of 64, protocol ICMP. */
  predicate IpHeaderV4(out: seq<Byte>, source: IpAddr, destination: IpAddr)
    requires source.family == V4 && destination.family == V4
  {
    && |out| >= 20
    && out[0] == 0x45 && out[1] == 0 && Word(out[2], out[3]) == |out|
    && out[4] == 0 && out[5] == 0 && out[6] == 0 && out[7] == 0
    && out[8] == 64 && out[9] == 1
    && HoldsAt(out, 12, AddressBytes(source)) && HoldsAt(out, 16, AddressBytes(destination))
  }

  /** The IPv6 header: a hop limit of 64, next header ICMPv6. */
  predicate IpHeaderV6(out: seq<Byte>, source: IpAddr, destination: IpAddr)
    requires source.family == V6 && destination.family == V6
  {
    && |out| >= 40
    && out[0] == 0x60 && out[1] == 0 && out[2] == 0 && out[3] == 0 && Word(out[4], out[5]) == |out| - 40
    && out[6] == 58 && out[7] == 64
    && HoldsAt(out, 8, AddressBytes(source)) && HoldsAt(out, 24, AddressBytes(destination))
  }

  /** The ICMP message from `at` to the end, its checksum apart. */
  predicate Message(out: seq<Byte>, at: nat, family: Family, kind: IcmpErrorKind, quote: seq<Byte>) {
    && |out| == at + 8 + |quote|
    && (out[at], out[at + 1]) == TypeAndCode(family, kind)
    && HoldsAt(out, at + 4, ToBytes(MtuField(family, kind), 4))
    && HoldsAt(out, at + 8, quote)
  }

  predicate IsErrorV4(out: seq<Byte>, quote: seq<Byte>, source: IpAddr, destination: IpAddr, kind: IcmpErrorKind)
    requires source.family == V4 && destination.family == V4
  {
    && IpHeaderV4(out, source, destination) && Message(out, 20, V4, kind, quote)
    && Stores(out, 10, 0, 20) && Stores(out, 22, 20, |out|)
  }

  /** The pseudo-header of section 8.1 of RFC 8200. */
  function PseudoHeader(source: IpAddr, destination: IpAddr, length: nat): (bytes: seq<Byte>)
    requires source.family == V6 && destination.family == V6
    ensures |bytes| == 40
  {
    AddressBytes(source) + AddressBytes(destination) + ToBytes(length, 4) + [0, 0, 0, 58]
  }

  /** The stored checksum was computed over the pseudo-header and the message while it was still zero. */
  predicate StoresUnder(pseudo: seq<Byte>, out: seq<Byte>)
    requires |pseudo| == 40 && |out| >= 48
  {
    Word(out[42], out[43]) == Complement(Sum(pseudo + out[42 := 0][43 := 0][40..], 0, |out|))
  }

  /** The receiver's check: pseudo-header and message together sum to a checksum of zero. */
  predicate VerifiesUnder(pseudo: seq<Byte>, out: seq<Byte>)
    requires |pseudo| == 40 && |out| >= 40
  {
    Complement(Sum(pseudo + out[40..], 0, |out|)) == 0
  }

  predicate IsErrorV6(out: seq<Byte>, quote: seq<Byte>, source: IpAddr, destination: IpAddr, kind: IcmpErrorKind)
    requires source.family == V6 && destination.family == V6
  {
    && IpHeaderV6(out, source, destination) && Message(out, 40, V6, kind, quote)
    && StoresUnder(PseudoHeader(source, destination, |out| - 40), out)
  }

  function QuoteLength(invoking: seq<Byte>, view: PacketView): nat {
    Min(Min(|invoking|, view.totalLen), if view.Ipv4? then IPV4_QUOTE_LIMIT else IPV6_QUOTE_LIMIT)
  }

  function FamilyOf(view: PacketView): Family {
    if view.Ipv4? then V4 else V6
  }

  /** The error goes back to the source of the packet, quoting as much of it as the limit lets. */
  predicate Answers(out: seq<Byte>, invoking: seq<Byte>, source: IpAddr, kind: IcmpErrorKind) {
    && ParsedPrefix(invoking).Ok?
    && var view := ParsedPrefix(invoking).value;
      && FamilyOf(view) == source.family
      && var quote := invoking[..QuoteLength(invoking, view)];
        if view.Ipv4? then IsErrorV4(out, quote, source, Source(view), kind)
        else IsErrorV6(out, quote, source, Source(view), kind)
  }

  // ----- The builder of the source -----

  /** `copy_from_slice`. */
  method Put(output: array<Byte>, at: nat, part: seq<Byte>)
    requires at + |part| <= output.Length
    modifies output
    ensures HoldsAt(output[..], at, part)
    ensures forall i :: 0 <= i < output.Length && !(at <= i < at + |part|) ==> output[i] == old(output[i])
  {
    for k := 0 to |part|
      invariant forall i :: 0 <= i < k ==> output[at + i] == part[i]
      invariant forall i :: 0 <= i < output.Length && !(at <= i < at + |part|) ==> output[i] == old(output[i])
    {
      output[at + k] := part[k];
    }
  }

  method PutWord(output: array<Byte>, at: nat, word: nat)
    requires at + 2 <= output.Length && word < 0x1_0000
    modifies output
    ensures Word(output[at], output[at + 1]) == word
    ensures forall i :: 0 <= i < output.Length && i != at && i != at + 1 ==> output[i] == old(output[i])
  {
    output[at] := word / 256;
    output[at + 1] := word % 256;
  }

  method BuildError(invoking: seq<Byte>, source: IpAddr, kind: IcmpErrorKind)
    returns (r: Result<seq<Byte>, IcmpBuildError>)
    requires MtuFits(kind)
    ensures ParsedPrefix(invoking).Err? ==> r == Err(Packet(ParsedPrefix(invoking).error))
    ensures ParsedPrefix(invoking).Ok? && FamilyOf(ParsedPrefix(invoking).value) != source.family ==>
              r == Err(FamilyMismatch)
    ensures ParsedPrefix(invoking).Ok? && FamilyOf(ParsedPrefix(invoking).value) == source.family ==>
              r.Ok? && Answers(r.value, invoking, source, kind)
  {
    var parsed := ParsePrefix(invoking);
    if parsed.Err? {
      return Err(Packet(parsed.error));
    }
    var view := parsed.value;
    if FamilyOf(view) != source.family {
      return Err(FamilyMismatch);
    }
    var quote := invoking[..QuoteLength(invoking, view)];
    if view.Ipv4? {
      var out := BuildV4(quote, source, Source(view), kind);
      return Ok(out);
    }
    var out := BuildV6(quote, source, Source(view), kind);
    return Ok(out);
  }

  method BuildV4(quote: seq<Byte>, source: IpAddr, destination: IpAddr, kind: IcmpErrorKind) returns (out: seq<Byte>)
    requires |quote| <= IPV4_QUOTE_LIMIT && source.family == V4 && destination.family == V4
    ensures IsErrorV4(out, quote, source, destination, kind)
  {
    var output := new Byte[28 + |quote|](_ => 0);
    FillHeaderV4(output, source, destination);
    ghost var headed := output[..];
    FillMessageV4(output, kind, quote);
    HeaderV4Local(headed, output[..], source, destination);
    MessageOf(output[..], kind, quote, MtuField(V4, kind));
    StoreMessageSum(output, source, destination, kind, quote);
    ghost var stored := output[..];
    var header := Checksum(output[..20]);
    assert stored[0..20] == stored[..20];
    ChecksumOfPart(stored, 0, 20);
    PutWord(output, 10, header);
    out := output[..];
    assert out[10 := 0][11 := 0] == stored;
    HeaderV4Local(stored, out, source, destination);
    MessageLocal(stored, out, 20, V4, kind, quote);
    SumLocal(stored[22 := 0][23 := 0], out[22 := 0][23 := 0], 20, |out|);
  }

  /** The checksum of the message, over the rest of it. */
  method StoreMessageSum(output: array<Byte>, ghost source: IpAddr, ghost destination: IpAddr,
                         ghost kind: IcmpErrorKind, ghost quote: seq<Byte>)
    requires source.family == V4 && destination.family == V4 && output.Length <= 576
    requires IpHeaderV4(output[..], source, destination) && Message(output[..], 20, V4, kind, quote)
    requires output[10] == 0 && output[11] == 0 && output[22] == 0 && output[23] == 0
    modifies output
    ensures IpHeaderV4(output[..], source, destination) && Message(output[..], 20, V4, kind, quote)
    ensures output[10] == 0 && output[11] == 0 && Stores(output[..], 22, 20, output.Length)
  {
    ghost var blank := output[..];
    assert output[20..] == blank[20..|blank|];
    var message := Checksum(output[20..]);
    ChecksumOfPart(blank, 20, |blank|);
    PutWord(output, 22, message);
    assert output[..][22 := 0][23 := 0] == blank;
    HeaderV4Local(blank, output[..], source, destination);
    MessageLocal(blank, output[..], 20, V4, kind, quote);
  }

  /** The octets of a part sum to what they do where they stand, and never saturate. */
  lemma ChecksumOfPart(input: seq<Byte>, begin: nat, end: nat)
    requires begin <= end <= |input| <= 65_535
    ensures Min(Sum(input[begin..end], 0, end - begin), U32_MAX) == Sum(input, begin, end)
  {
    SumHeld(input[begin..end], input, begin, end - begin);
    SumBound(input, begin, end);
  }

  lemma HeldLocal(a: seq<Byte>, b: seq<Byte>, at: nat, part: seq<Byte>)
    requires HoldsAt(a, at, part) && |a| == |b| && forall i :: at <= i < at + |part| ==> a[i] == b[i]
    ensures HoldsAt(b, at, part)
  {
    forall i | 0 <= i < |part| ensures b[at + i] == part[i] {
      assert a[at + i] == part[i];
    }
  }

  lemma HeaderV4Local(a: seq<Byte>, b: seq<Byte>, source: IpAddr, destination: IpAddr)
    requires source.family == V4 && destination.family == V4 && IpHeaderV4(a, source, destination)
    requires |a| == |b| && forall i :: 0 <= i < 20 && i != 10 && i != 11 ==> a[i] == b[i]
    ensures IpHeaderV4(b, source, destination)
  {
    HeldLocal(a, b, 12, AddressBytes(source));
    HeldLocal(a, b, 16, AddressBytes(destination));
  }

  lemma MessageLocal(a: seq<Byte>, b: seq<Byte>, at: nat, family: Family, kind: IcmpErrorKind, quote: seq<Byte>)
    requires Message(a, at, family, kind, quote)
    requires |a| == |b| && forall i :: at <= i < |a| && i != at + 2 && i != at + 3 ==> a[i] == b[i]
    ensures Message(b, at, family, kind, quote)
  {
  }

  method FillHeaderV4(output: array<Byte>, source: IpAddr, destination: IpAddr)
    requires source.family == V4 && destination.family == V4 && 20 <= output.Length <= U16_MAX
    requires forall i :: 0 <= i < output.Length ==> output[i] == 0
    modifies output
    ensures IpHeaderV4(output[..], source, destination) && output[10] == 0 && output[11] == 0
    ensures forall i :: 20 <= i < output.Length ==> output[i] == 0
  {
    output[0] := 0x45;
    PutWord(output, 2, output.Length);
    output[8] := 64;
    output[9] := 1;
    Put(output, 12, AddressBytes(source));
    Put(output, 16, AddressBytes(destination));
  }

  lemma LowWord(word: nat)
    requires word < 0x1_0000
    ensures ToBytes(word, 4) == [0, 0, word / 256, word % 256]
  {
    var two, one, none := 2, 1, 0;
    assert ToBytes(word, 4) == ToBytes(word / 256, 3) + [word % 256];
    assert ToBytes(word / 256, 3) == ToBytes(word / 256 / 256, two) + [word / 256];
    ZeroOctets(two);
  }

  lemma FieldHeld(out: seq<Byte>, word: nat)
    requires |out| >= 28 && word < 0x1_0000 && out[24] == 0 && out[25] == 0 && Word(out[26], out[27]) == word
    ensures HoldsAt(out, 24, ToBytes(word, 4))
  {
    LowWord(word);
  }

  lemma MessageOf(out: seq<Byte>, kind: IcmpErrorKind, quote: seq<Byte>, field: nat)
    requires |out| == 28 + |quote| && (out[20], out[21]) == TypeAndCode(V4, kind) && HoldsAt(out, 28, quote)
    requires field == MtuField(V4, kind) < 0x1_0000
    requires out[24] == 0 && out[25] == 0 && Word(out[26], out[27]) == field
    ensures Message(out, 20, V4, kind, quote)
  {
    FieldHeld(out, field);
  }

  method FillMessageV4(output: array<Byte>, kind: IcmpErrorKind, quote: seq<Byte>)
    requires output.Length == 28 + |quote| && forall i :: 20 <= i < output.Length ==> output[i] == 0
    modifies output
    ensures (output[20], output[21]) == TypeAndCode(V4, kind) && output[22] == 0 && output[23] == 0
    ensures output[24] == 0 && output[25] == 0 && Word(output[26], output[27]) == MtuField(V4, kind)
    ensures HoldsAt(output[..], 28, quote)
    ensures forall i :: 0 <= i < 20 ==> output[i] == old(output[i])
  {
    var fields := TypeAndCode(V4, kind);
    output[20] := fields.0;
    output[21] := fields.1;
    if kind.PacketTooBig? {
      PutWord(output, 26, Min(kind.mtu, U16_MAX));
    }
    Put(output, 28, quote);
  }

  method BuildV6(quote: seq<Byte>, source: IpAddr, destination: IpAddr, kind: IcmpErrorKind) returns (out: seq<Byte>)
    requires |quote| <= IPV6_QUOTE_LIMIT && source.family == V6 && destination.family == V6 && MtuFits(kind)
    ensures IsErrorV6(out, quote, source, destination, kind)
  {
    var output := new Byte[48 + |quote|](_ => 0);
    FillHeaderV6(output, source, destination);
    ghost var headed := output[..];
    FillMessageV6(output, kind, quote);
    ghost var blank := output[..];
    HeaderV6Local(headed, blank, source, destination);
    var covered := PseudoHeader(source, destination, output.Length - 40) + output[40..];
    var checksum := Checksum(covered);
    SumBound(covered, 0, |covered|);
    PutWord(output, 42, checksum);
    out := output[..];
    assert out[42 := 0][43 := 0] == blank;
    HeaderV6Local(blank, out, source, destination);
    MessageLocal(blank, out, 40, V6, kind, quote);
  }

  lemma HeaderV6Local(a: seq<Byte>, b: seq<Byte>, source: IpAddr, destination: IpAddr)
    requires source.family == V6 && destination.family == V6 && IpHeaderV6(a, source, destination)
    requires |a| == |b| && forall i :: 0 <= i < 40 ==> a[i] == b[i]
    ensures IpHeaderV6(b, source, destination)
  {
    HeldLocal(a, b, 8, AddressBytes(source));
    HeldLocal(a, b, 24, AddressBytes(destination));
  }

  method FillHeaderV6(output: array<Byte>, source: IpAddr, destination: IpAddr)
    requires source.family == V6 && destination.family == V6 && 40 <= output.Length <= U16_MAX
    requires forall i :: 0 <= i < output.Length ==> output[i] == 0
    modifies output
    ensures IpHeaderV6(output[..], source, destination)
    ensures forall i :: 40 <= i < output.Length ==> output[i] == 0
  {
    output[0] := 0x60;
    PutWord(output, 4, output.Length - 40);
    output[6] := 58;
    output[7] := 64;
    Put(output, 8, AddressBytes(source));
    Put(output, 24, AddressBytes(destination));
  }

  method FillMessageV6(output: array<Byte>, kind: IcmpErrorKind, quote: seq<Byte>)
    requires MtuFits(kind) && output.Length == 48 + |quote| && forall i :: 40 <= i < output.Length ==> output[i] == 0
    modifies output
    ensures Message(output[..], 40, V6, kind, quote) && output[42] == 0 && output[43] == 0
    ensures forall i :: 0 <= i < 40 ==> output[i] == old(output[i])
  {
    var fields := TypeAndCode(V6, kind);
    output[40] := fields.0;
    output[41] := fields.1;
    if kind.PacketTooBig? {
      Put(output, 44, ToBytes(kind.mtu, 4));
    } else {
      ZeroOctets(4);
    }
    Put(output, 48, quote);
  }

  lemma {:induction false} ZeroOctets(width: nat)
    ensures forall i :: 0 <= i < width ==> ToBytes(0, width)[i] == 0
  {
    if width > 0 {
      ZeroOctets(width - 1);
    }
  }

  // ----- A built error is a whole packet -----

  lemma StoredVerifies(out: seq<Byte>, at: nat, begin: nat, end: nat)
    requires begin <= at && at + 2 <= end <= |out| && (at - begin) % 2 == 0 && Stores(out, at, begin, end)
    ensures Complement(Sum(out, begin, end)) == 0
  {
    StoredComplementVerifies(out[at := 0][at + 1 := 0], out, begin, at, end);
  }

  lemma SumsVerifyV4(out: seq<Byte>)
    requires |out| >= 28 && Stores(out, 10, 0, 20) && Stores(out, 22, 20, |out|)
    ensures Complement(Sum(out, 0, 20)) == 0 && Complement(Sum(out, 20, |out|)) == 0
  {
    StoredVerifies(out, 10, 0, 20);
    StoredVerifies(out, 22, 20, |out|);
  }

  lemma HeaderV4Parses(out: seq<Byte>, source: IpAddr, destination: IpAddr)
    requires source.family == V4 && destination.family == V4 && IpHeaderV4(out, source, destination)
    requires Complement(Sum(out, 0, 20)) == 0
    ensures Parsed(out) == Ok(Ipv4(out, 20, |out|))
  {
    assert out[..|out|] == out;
  }

  lemma HeaderV4Names(out: seq<Byte>, source: IpAddr, destination: IpAddr)
    requires source.family == V4 && destination.family == V4 && IpHeaderV4(out, source, destination)
    ensures Source(Ipv4(out, 20, |out|)) == source && Destination(Ipv4(out, 20, |out|)) == destination
  {
    AddressRoundTrip(source, out, 12);
    AddressRoundTrip(destination, out, 16);
  }

  /** An IPv4 error parses whole, both its checksums verify, and it fits 576 octets. */
  lemma ErrorV4IsWhole(out: seq<Byte>, quote: seq<Byte>, source: IpAddr, destination: IpAddr, kind: IcmpErrorKind)
    requires source.family == V4 && destination.family == V4 && IsErrorV4(out, quote, source, destination, kind)
    requires |quote| <= IPV4_QUOTE_LIMIT
    ensures Parsed(out) == Ok(Ipv4(out, 20, |out|)) && |out| <= 576
    ensures Source(Parsed(out).value) == source && Destination(Parsed(out).value) == destination
    ensures Protocol(Parsed(out).value) == 1 && Complement(Sum(out, 20, |out|)) == 0
  {
    SumsVerifyV4(out);
    HeaderV4Parses(out, source, destination);
    HeaderV4Names(out, source, destination);
  }

  lemma HeaderV6Parses(out: seq<Byte>, source: IpAddr, destination: IpAddr)
    requires source.family == V6 && destination.family == V6 && IpHeaderV6(out, source, destination)
    ensures Parsed(out) == Ok(Ipv6(out, 40, |out|, 58, false))
  {
    assert out[..|out|] == out;
  }

  lemma HeaderV6Names(out: seq<Byte>, source: IpAddr, destination: IpAddr)
    requires source.family == V6 && destination.family == V6 && IpHeaderV6(out, source, destination)
    ensures Source(Ipv6(out, 40, |out|, 58, false)) == source
    ensures Destination(Ipv6(out, 40, |out|, 58, false)) == destination
  {
    AddressRoundTrip(source, out, 8);
    AddressRoundTrip(destination, out, 24);
  }

  lemma DiffersInWord(pseudo: seq<Byte>, out: seq<Byte>)
    requires |pseudo| == 40 && |out| >= 48
    ensures var blank, covered := pseudo + out[42 := 0][43 := 0][40..], pseudo + out[40..];
      && blank[42] == 0 && blank[43] == 0 && covered[42] == out[42] && covered[43] == out[43]
      && forall i :: 0 <= i < |out| && i != 42 && i != 43 ==> blank[i] == covered[i]
  {
  }

  lemma StoredUnderVerifies(pseudo: seq<Byte>, out: seq<Byte>)
    requires |pseudo| == 40 && |out| >= 48 && StoresUnder(pseudo, out)
    ensures VerifiesUnder(pseudo, out)
  {
    DiffersInWord(pseudo, out);
    StoredComplementVerifies(pseudo + out[42 := 0][43 := 0][40..], pseudo + out[40..], 0, 42, |out|);
  }

  /** An IPv6 error parses whole, its checksum verifies under the pseudo-header, and it fits 1280 octets. */
  lemma ErrorV6IsWhole(out: seq<Byte>, quote: seq<Byte>, source: IpAddr, destination: IpAddr, kind: IcmpErrorKind)
    requires source.family == V6 && destination.family == V6 && IsErrorV6(out, quote, source, destination, kind)
    requires |quote| <= IPV6_QUOTE_LIMIT
    ensures Parsed(out) == Ok(Ipv6(out, 40, |out|, 58, false)) && |out| <= 1280
    ensures Source(Parsed(out).value) == source && Destination(Parsed(out).value) == destination
    ensures VerifiesUnder(PseudoHeader(source, destination, |out| - 40), out)
  {
    StoredUnderVerifies(PseudoHeader(source, destination, |out| - 40), out);
    HeaderV6Parses(out, source, destination);
    HeaderV6Names(out, source, destination);
  }

  // ----- A built error names the packet that invoked it -----

  lemma QuoteFollows(out: seq<Byte>, at: nat, quote: seq<Byte>)
    requires |out| == at + 8 + |quote| && HoldsAt(out, at + 8, quote)
    ensures out[at..][8..] == quote
  {
    forall i | 0 <= i < |quote| ensures out[at..][8..][i] == quote[i] {
      assert out[at + 8 + i] == quote[i];
    }
  }

  predicate SameInvocation(inner: PacketView, view: PacketView)
    requires WellSized(inner) && WellSized(view)
  {
    && inner.Ipv4? == view.Ipv4? && inner.headerLen == view.headerLen && inner.totalLen == view.totalLen
    && Source(inner) == Source(view) && Destination(inner) == Destination(view) && Protocol(inner) == Protocol(view)
  }

  /** What reading an error back makes of its quote. */
  function Named(quote: seq<Byte>): Result<Option<PacketView>, PacketError> {
    match ParsedPrefix(quote)
    case Err(_) => Err(InvalidIcmpInvocation)
    case Ok(invoking) => Ok(Some(invoking))
  }

  lemma InvokingV4(out: seq<Byte>, source: IpAddr, destination: IpAddr, kind: IcmpErrorKind, quote: seq<Byte>)
    requires source.family == V4 && destination.family == V4 && IpHeaderV4(out, source, destination)
    requires Message(out, 20, V4, kind, quote)
    ensures Invoking(Ipv4(out, 20, |out|)) == Named(quote)
  {
    QuoteFollows(out, 20, quote);
  }

  lemma InvokingV6(out: seq<Byte>, kind: IcmpErrorKind, quote: seq<Byte>)
    requires |out| >= 40 && Message(out, 40, V6, kind, quote)
    ensures Invoking(Ipv6(out, 40, |out|, 58, false)) == Named(quote)
  {
    QuoteFollows(out, 40, quote);
  }

  /** Cut to its quote, an IPv4 packet is the same packet. */
  lemma QuoteNamesV4(invoking: seq<Byte>, view: PacketView)
    requires ParsedPrefix(invoking) == Ok(view) && view.Ipv4?
    ensures var named := Named(invoking[..QuoteLength(invoking, view)]);
      named.Ok? && named.value.Some? && WellSized(named.value.value) && SameInvocation(named.value.value, view)
  {
    var n := QuoteLength(invoking, view);
    CutV4(invoking, n);
    SameEnds(ParsedPrefix(invoking[..n]).value, view);
  }

  /** Cut to its quote, an IPv6 packet is the same packet, or none at all when its headers do not fit. */
  lemma QuoteNamesV6(invoking: seq<Byte>, view: PacketView)
    requires ParsedPrefix(invoking) == Ok(view) && view.Ipv6?
    ensures var named := Named(invoking[..QuoteLength(invoking, view)]);
      && (named.Ok? <==> view.headerLen <= IPV6_QUOTE_LIMIT)
      && (named.Ok? ==> named.value.Some? && WellSized(named.value.value) && SameInvocation(named.value.value, view))
  {
    var n := QuoteLength(invoking, view);
    CutV6(invoking, n);
    if view.headerLen <= n {
      SameEnds(ParsedPrefix(invoking[..n]).value, view);
    }
  }

  /** Reading a built IPv4 error back finds the source, destination and protocol of the invoking packet. */
  lemma ErrorV4Names(out: seq<Byte>, invoking: seq<Byte>, source: IpAddr, kind: IcmpErrorKind)
    requires Answers(out, invoking, source, kind) && ParsedPrefix(invoking).value.Ipv4?
    ensures Parsed(out).Ok? && Invoking(Parsed(out).value).Ok? && Invoking(Parsed(out).value).value.Some?
    ensures SameInvocation(Invoking(Parsed(out).value).value.value, ParsedPrefix(invoking).value)
  {
    var view := ParsedPrefix(invoking).value;
    var quote := invoking[..QuoteLength(invoking, view)];
    ErrorV4IsWhole(out, quote, source, Source(view), kind);
    InvokingV4(out, source, Source(view), kind, quote);
    QuoteNamesV4(invoking, view);
  }

  /** For IPv6 it does exactly when the extension headers of the invoking packet fit the quote. */
  lemma ErrorV6Names(out: seq<Byte>, invoking: seq<Byte>, source: IpAddr, kind: IcmpErrorKind)
    requires Answers(out, invoking, source, kind) && ParsedPrefix(invoking).value.Ipv6?
    ensures Parsed(out).Ok?
    ensures Invoking(Parsed(out).value).Ok? <==> ParsedPrefix(invoking).value.headerLen <= IPV6_QUOTE_LIMIT
    ensures Invoking(Parsed(out).value).Ok? ==>
              Invoking(Parsed(out).value).value.Some?
              && SameInvocation(Invoking(Parsed(out).value).value.value, ParsedPrefix(invoking).value)
  {
    var view := ParsedPrefix(invoking).value;
    var quote := invoking[..QuoteLength(invoking, view)];
    ErrorV6IsWhole(out, quote, source, Source(view), kind);
    InvokingV6(out, kind, quote);
    QuoteNamesV6(invoking, view);
  }

  /** A packet with one destination options header of 2048 octets: an error about it names nothing. */
  lemma LongHeadersAreNotNamed() returns (invoking: seq<Byte>)
    ensures ParsedPrefix(invoking).Ok? && ParsedPrefix(invoking).value.Ipv6?
    ensures forall out, source, kind :: Answers(out, invoking, source, kind) ==>
              Parsed(out).Ok? && Invoking(Parsed(out).value).Err?
  {
    invoking := seq(2088, i => if i == 0 then 0x60 else if i == 4 then 8 else if i == 6 then 60
                               else if i == 40 then 59 else if i == 41 then 255 else 0);
    assert Word(invoking[4], invoking[5]) == 2048;
    assert NextExtension(invoking, 2088, Chain(40, 60, false), 0) == Ok(2048);
    assert Walk(invoking, 2088, Chain(2088, 59, false), 1) == Ok(Chain(2088, 59, false));
    assert ParsedV6(invoking) == Ok(Ipv6(invoking[..2088], 2088, 2088, 59, false));
    forall out, source, kind | Answers(out, invoking, source, kind)
      ensures Parsed(out).Ok? && Invoking(Parsed(out).value).Err?
    {
      ErrorV6Names(out, invoking, source, kind);
    }
  }
}
