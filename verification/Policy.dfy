/** What a principal's roles let it reach. */
module Policy {
  import opened Wrappers
  import opened Bytes
  import opened Net
  import opened AddressScope
  import opened RouteRanges

  datatype ProtocolRule = AnyProtocol | Protocol(number: Byte)

  datatype Role = Role(allow: seq<IpNet>, deny: seq<IpNet>, denyPrivate: bool)

  datatype EffectivePolicy = EffectivePolicy(roles: seq<Role>, protocols: seq<ProtocolRule>)

  // ----- One address -----

  predicate InSome(nets: seq<IpNet>, address: IpAddr) {
    exists i :: 0 <= i < |nets| && Contains(nets[i], address)
  }

  predicate DestinationAllowed(role: Role, address: IpAddr) {
    && !(role.denyPrivate && Classify(address) != Global)
    && InSome(role.allow, address)
    && !InSome(role.deny, address)
  }

  predicate AuthorizesDestination(policy: EffectivePolicy, address: IpAddr) {
    exists i :: 0 <= i < |policy.roles| && DestinationAllowed(policy.roles[i], address)
  }

  // ----- A prefix, cheaply, before any resource is taken -----

  predicate NetworksOverlap(a: IpNet, b: IpNet) {
    a.addr.family == b.addr.family && (Contains(a, First(b)) || Contains(b, First(a)))
  }

  predicate ContainsNetwork(container: IpNet, candidate: IpNet) {
    Contains(container, First(candidate)) && Contains(container, Last(candidate))
  }

  predicate EntirelyNonGlobal(prefix: IpNet) {
    && prefix.prefixLen != 0
    && prefix.prefixLen >= (if prefix.addr.family.V4? then 8 else 7)
    && Classify(First(prefix)) != Global
    && Classify(Last(prefix)) != Global
  }

  predicate PrefixAllowed(role: Role, prefix: IpNet) {
    && (exists i :: 0 <= i < |role.allow| && NetworksOverlap(role.allow[i], prefix))
    && !(exists i :: 0 <= i < |role.deny| && ContainsNetwork(role.deny[i], prefix))
    && !(role.denyPrivate && EntirelyNonGlobal(prefix))
  }

  predicate AuthorizesPrefix(policy: EffectivePolicy, prefix: IpNet) {
    exists i :: 0 <= i < |policy.roles| && PrefixAllowed(policy.roles[i], prefix)
  }

  // ----- A whole range -----

  predicate NetworkOverlapsRange(network: IpNet, start: IpAddr, end: IpAddr) {
    && network.addr.family == start.family == end.family
    && (|| Contains(network, start)
        || Contains(network, end)
        || (start.value <= First(network).value && Last(network).value <= end.value))
  }

  /** The blocks of the static list, by first address and prefix length. */
  predicate DefaultDeniedV4(first: nat, len: nat) {
    || (first == 0x0000_0000 && len == 8)
    || (first == 0x0A00_0000 && len == 8)
    || (first == 0x6440_0000 && len == 10)
    || (first == 0x7F00_0000 && len == 8)
    || (first == 0xA9FE_0000 && len == 16)
    || (first == 0xAC10_0000 && len == 12)
    || (first == 0xC000_0000 && len == 24)
    || (first == 0xC000_0200 && len == 24)
    || (first == 0xC0A8_0000 && len == 16)
    || (first == 0xC612_0000 && len == 15)
    || (first == 0xC633_6400 && len == 24)
    || (first == 0xCB00_7100 && len == 24)
    || (first == 0xE000_0000 && len == 4)
    || (first == 0xF000_0000 && len == 4)
  }

  predicate DefaultDeniedV6(first: nat, len: nat) {
    || (first == 0 && len == 128)
    || (first == 1 && len == 128)
    || (first == 0xFC00_0000_0000_0000_0000_0000_0000_0000 && len == 7)
    || (first == 0xFE80_0000_0000_0000_0000_0000_0000_0000 && len == 10)
    || (first == 0xFF00_0000_0000_0000_0000_0000_0000_0000 && len == 8)
    || (first == 0x2001_0DB8_0000_0000_0000_0000_0000_0000 && len == 32)
    || (first == 0x2002_0000_0000_0000_0000_0000_0000_0000 && len == 16)
  }

  predicate DefaultDenied(net: IpNet) {
    if net.addr.family.V4? then DefaultDeniedV4(net.addr.value, net.prefixLen)
    else DefaultDeniedV6(net.addr.value, net.prefixLen)
  }

  ghost predicate DefaultDeniedOverlaps(start: IpAddr, end: IpAddr) {
    exists net :: DefaultDenied(net) && NetworkOverlapsRange(net, start, end)
  }

  ghost predicate RangeAllowed(role: Role, start: IpAddr, end: IpAddr) {
    && (exists i :: 0 <= i < |role.allow| && Contains(role.allow[i], start) && Contains(role.allow[i], end))
    && !(exists i :: 0 <= i < |role.deny| && NetworkOverlapsRange(role.deny[i], start, end))
    && !(role.denyPrivate && DefaultDeniedOverlaps(start, end))
  }

  ghost predicate AuthorizesRange(policy: EffectivePolicy, start: IpAddr, end: IpAddr) {
    exists i :: 0 <= i < |policy.roles| && RangeAllowed(policy.roles[i], start, end)
  }

  method DeniedNetworksV4() returns (networks: seq<IpNet>)
    ensures forall net :: net in networks <==> net.addr.family.V4? && DefaultDenied(net)
  {
    networks := [
      Net(Addr(V4, 0x0000_0000), 8), Net(Addr(V4, 0x0A00_0000), 8), Net(Addr(V4, 0x6440_0000), 10),
      Net(Addr(V4, 0x7F00_0000), 8), Net(Addr(V4, 0xA9FE_0000), 16), Net(Addr(V4, 0xAC10_0000), 12),
      Net(Addr(V4, 0xC000_0000), 24), Net(Addr(V4, 0xC000_0200), 24), Net(Addr(V4, 0xC0A8_0000), 16),
      Net(Addr(V4, 0xC612_0000), 15), Net(Addr(V4, 0xC633_6400), 24), Net(Addr(V4, 0xCB00_7100), 24),
      Net(Addr(V4, 0xE000_0000), 4), Net(Addr(V4, 0xF000_0000), 4)];
  }

  method DeniedNetworksV6() returns (networks: seq<IpNet>)
    ensures forall net :: net in networks <==> net.addr.family.V6? && DefaultDenied(net)
  {
    networks := [
      Net(Addr(V6, 0), 128), Net(Addr(V6, 1), 128),
      Net(Addr(V6, 0xFC00_0000_0000_0000_0000_0000_0000_0000), 7),
      Net(Addr(V6, 0xFE80_0000_0000_0000_0000_0000_0000_0000), 10),
      Net(Addr(V6, 0xFF00_0000_0000_0000_0000_0000_0000_0000), 8),
      Net(Addr(V6, 0x2001_0DB8_0000_0000_0000_0000_0000_0000), 32),
      Net(Addr(V6, 0x2002_0000_0000_0000_0000_0000_0000_0000), 16)];
  }

  /** `default_denied_networks`. */
  method DefaultDeniedNetworks() returns (networks: seq<IpNet>)
    ensures forall net :: net in networks <==> DefaultDenied(net)
  {
    var v4 := DeniedNetworksV4();
    var v6 := DeniedNetworksV6();
    networks := v4 + v6;
  }

  method OverlapsDefaultDenied(start: IpAddr, end: IpAddr) returns (overlaps: bool)
    ensures overlaps == DefaultDeniedOverlaps(start, end)
  {
    var networks := DefaultDeniedNetworks();
    for i := 0 to |networks|
      invariant forall k :: 0 <= k < i ==> !NetworkOverlapsRange(networks[k], start, end)
    {
      if NetworkOverlapsRange(networks[i], start, end) {
        assert networks[i] in networks;
        return true;
      }
    }
    forall net | DefaultDenied(net) ensures !NetworkOverlapsRange(net, start, end) {
      assert net in networks;
    }
    return false;
  }

  /** `authorize_destination_range`. */
  method AuthorizeDestinationRange(policy: EffectivePolicy, start: IpAddr, end: IpAddr) returns (ok: bool)
    ensures ok == AuthorizesRange(policy, start, end)
  {
    for i := 0 to |policy.roles|
      invariant forall k :: 0 <= k < i ==> !RangeAllowed(policy.roles[k], start, end)
    {
      var role := policy.roles[i];
      if (exists k :: 0 <= k < |role.allow| && Contains(role.allow[k], start) && Contains(role.allow[k], end))
         && !exists k :: 0 <= k < |role.deny| && NetworkOverlapsRange(role.deny[k], start, end)
      {
        var overlaps := false;
        if role.denyPrivate {
          overlaps := OverlapsDefaultDenied(start, end);
        }
        if !overlaps {
          return true;
        }
      }
    }
    return false;
  }

  predicate AuthorizesProtocol(policy: EffectivePolicy, protocol: Byte) {
    || IsIcmp(protocol)
    || AnyProtocol in policy.protocols
    || Protocol(protocol) in policy.protocols
  }

  // ----- The prefix check never turns away a prefix with an allowed address -----

  /** The size of a block is a power of two, and its first address a multiple of it. */
  lemma BlockShape(net: IpNet) returns (k: nat, q: nat)
    ensures k == HostBits(net) && Size(net) == Pow2(k) && First(net).value == q * Pow2(k)
    ensures Last(net).value == First(net).value + Pow2(k) - 1
  {
    k := HostBits(net);
    q := ClearedIsMultiple(net.addr.value, k);
  }

  lemma PowersV4()
    ensures Pow2(8) == 0x100 && Pow2(16) == 0x1_0000 && Pow2(17) == 0x2_0000 && Pow2(20) == 0x10_0000
    ensures Pow2(22) == 0x40_0000 && Pow2(24) == 0x100_0000 && Pow2(28) == 0x1000_0000
  {
    Pow2Plus(8, 8, 0x100, 0x100);
    Pow2Plus(16, 1, 0x1_0000, 2);
    Pow2Plus(16, 4, 0x1_0000, 0x10);
    Pow2Plus(20, 2, 0x10_0000, 4);
    Pow2Plus(16, 8, 0x1_0000, 0x100);
    Pow2Plus(20, 8, 0x10_0000, 0x100);
  }

  lemma SizesV4(net: IpNet)
    requires net.addr.family.V4?
    ensures net.prefixLen == 4 ==> Size(net) == 0x1000_0000
    ensures net.prefixLen == 8 ==> Size(net) == 0x100_0000
    ensures net.prefixLen == 10 ==> Size(net) == 0x40_0000
    ensures net.prefixLen == 12 ==> Size(net) == 0x10_0000
    ensures net.prefixLen == 15 ==> Size(net) == 0x2_0000
    ensures net.prefixLen == 16 ==> Size(net) == 0x1_0000
    ensures net.prefixLen == 24 ==> Size(net) == 0x100
  {
    PowersV4();
  }

  /** How many blocks of its size precede a block of the list. */
  function BlockNumberV4(first: nat, len: nat): nat {
    if len == 4 then first / 0x1000_0000
    else if len == 8 then first / 0x100_0000
    else if len == 10 then first / 0x40_0000
    else if len == 12 then first / 0x10_0000
    else if len == 15 then first / 0x2_0000
    else if len == 16 then first / 0x1_0000
    else first / 0x100
  }

  function SpanV4(len: nat): nat {
    if len == 4 then 0x1000_0000
    else if len == 8 then 0x100_0000
    else if len == 10 then 0x40_0000
    else if len == 12 then 0x10_0000
    else if len == 15 then 0x2_0000
    else if len == 16 then 0x1_0000
    else 0x100
  }

  lemma DefaultBoundsV4(net: IpNet)
    requires net.addr.family.V4? && DefaultDenied(net)
    ensures First(net) == net.addr && Last(net).value == net.addr.value + SpanV4(net.prefixLen) - 1
  {
    SizesV4(net);
    BlockBounds(net, Size(net), BlockNumberV4(net.addr.value, net.prefixLen));
  }

  lemma DefaultBlockV4(net: IpNet)
    requires net.addr.family.V4? && DefaultDenied(net)
    ensures First(net) == net.addr && ReservedSpan(First(net).value, Last(net).value)
  {
    DefaultBoundsV4(net);
  }

  /** The intervals the default list is made of. */
  predicate ReservedSpan(first: nat, last: nat) {
    || (first == 0x0000_0000 && last == 0x00FF_FFFF)
    || (first == 0x0A00_0000 && last == 0x0AFF_FFFF)
    || (first == 0x6440_0000 && last == 0x647F_FFFF)
    || (first == 0x7F00_0000 && last == 0x7FFF_FFFF)
    || (first == 0xA9FE_0000 && last == 0xA9FE_FFFF)
    || (first == 0xAC10_0000 && last == 0xAC1F_FFFF)
    || (first == 0xC000_0000 && last == 0xC000_00FF)
    || (first == 0xC000_0200 && last == 0xC000_02FF)
    || (first == 0xC0A8_0000 && last == 0xC0A8_FFFF)
    || (first == 0xC612_0000 && last == 0xC613_FFFF)
    || (first == 0xC633_6400 && last == 0xC633_64FF)
    || (first == 0xCB00_7100 && last == 0xCB00_71FF)
    || (first == 0xE000_0000 && last == 0xEFFF_FFFF)
    || (first == 0xF000_0000 && last == 0xFFFF_FFFF)
  }

  lemma ReservedStartV4(v: nat) returns (first: nat, len: nat)
    requires v < 0x1_0000_0000 && NonGlobalV4(v)
    ensures DefaultDeniedV4(first, len) && first <= v < first + SpanV4(len)
  {
    first, len := 0xF000_0000, 4;
    if v <= 0x00FF_FFFF {
      first, len := 0x0000_0000, 8;
    } else if v <= 0x0AFF_FFFF {
      first, len := 0x0A00_0000, 8;
    } else if v <= 0x647F_FFFF {
      first, len := 0x6440_0000, 10;
    } else if v <= 0x7FFF_FFFF {
      first, len := 0x7F00_0000, 8;
    } else if v <= 0xA9FE_FFFF {
      first, len := 0xA9FE_0000, 16;
    } else if v <= 0xAC1F_FFFF {
      first, len := 0xAC10_0000, 12;
    } else if v <= 0xC000_00FF {
      first, len := 0xC000_0000, 24;
    } else if v <= 0xC000_02FF {
      first, len := 0xC000_0200, 24;
    } else if v <= 0xC0A8_FFFF {
      first, len := 0xC0A8_0000, 16;
    } else if v <= 0xC613_FFFF {
      first, len := 0xC612_0000, 15;
    } else if v <= 0xC633_64FF {
      first, len := 0xC633_6400, 24;
    } else if v <= 0xCB00_71FF {
      first, len := 0xCB00_7100, 24;
    } else if v <= 0xEFFF_FFFF {
      first, len := 0xE000_0000, 4;
    }
  }

  /** The reserved block that holds a non-global IPv4 address. */
  lemma ReservedBlockV4(address: IpAddr) returns (net: IpNet)
    requires address.family.V4? && NonGlobalV4(address.value)
    ensures net.addr.family.V4? && DefaultDenied(net) && Contains(net, address)
  {
    var first, len := ReservedStartV4(address.value);
    net := Net(Addr(V4, first), len);
    DefaultBoundsV4(net);
  }

  /** The default list and the classifier agree on every IPv4 address. */
  lemma DefaultListExactV4(address: IpAddr)
    requires address.family.V4?
    ensures (exists net :: DefaultDenied(net) && Contains(net, address)) <==> Classify(address) != Global
  {
    GlobalExactly(address);
    if NonGlobalV4(address.value) {
      var net := ReservedBlockV4(address);
    }
    forall net | DefaultDenied(net) && Contains(net, address) ensures NonGlobalV4(address.value) {
      DefaultBlockV4(net);
    }
  }

  // ----- The prefix check -----

  /** Every address of `prefix` is non-global. */
  ghost predicate AllNonGlobal(prefix: IpNet) {
    forall address :: Contains(prefix, address) ==> Classify(address) != Global
  }

  /**
    Where an interval with both ends reserved and at most a /8 wide can lead: within one block, or one
    of four widths.
   */
  lemma ReservedEnds(first: nat, last: nat, i: nat, j: nat, k: nat, l: nat)
    requires ReservedSpan(i, j) && ReservedSpan(k, l) && first == i && last == l && first <= last
    requires last - first + 1 <= 0x100_0000
    ensures (i == k && j == l) || last - first + 1 in {0x300, 0xA9_0000, 0xA8_FE00, 0x21_6500}
  {
  }

  lemma NoBlockThatWide(k: nat)
    ensures Pow2(k) !in {0x300, 0xA9_0000, 0xA8_FE00, 0x21_6500}
  {
    PowersV4();
    BetweenPowers(0x300, 9, k);
    BetweenPowers(0xA9_0000, 23, k);
    BetweenPowers(0xA8_FE00, 23, k);
    BetweenPowers(0x21_6500, 21, k);
  }

  /** A block that starts in another and does not lie inside it starts where the other does. */
  lemma FillsFromFirst(prefix: IpNet, net: IpNet)
    requires Contains(net, First(prefix))
    ensures Inside(prefix, net) || First(net) == First(prefix)
  {
    NestedOrDisjoint(prefix, net);
  }

  lemma FillsToLast(prefix: IpNet, net: IpNet)
    requires Contains(net, Last(prefix))
    ensures Inside(prefix, net) || Last(net) == Last(prefix)
  {
    NestedOrDisjoint(prefix, net);
  }

  /** A block that starts in one block and ends in another lies inside one of them, unless it spans both. */
  lemma InsideEither(prefix: IpNet, net: IpNet, other: IpNet)
    requires Contains(net, First(prefix)) && Contains(other, Last(prefix))
    requires First(net) == First(prefix) && Last(other) == Last(prefix) ==> Inside(prefix, net)
    ensures Inside(prefix, net) || Inside(prefix, other)
  {
    FillsFromFirst(prefix, net);
    FillsToLast(prefix, other);
  }

  lemma AtMostSlash8(prefix: IpNet)
    requires prefix.addr.family.V4? && prefix.prefixLen >= 8
    ensures Size(prefix) <= 0x100_0000 && Size(prefix) !in {0x300, 0xA9_0000, 0xA8_FE00, 0x21_6500}
  {
    Pow2Monotone(HostBits(prefix), 24);
    PowersV4();
    NoBlockThatWide(HostBits(prefix));
  }

  /** Two reserved blocks, at one of which it starts and at the other of which it ends, are one. */
  lemma OneReservedBlock(prefix: IpNet, net: IpNet, other: IpNet)
    requires prefix.addr.family.V4? && net.addr.family.V4? && other.addr.family.V4? && prefix.prefixLen >= 8
    requires DefaultDenied(net) && DefaultDenied(other) && First(net) == First(prefix) && Last(other) == Last(prefix)
    ensures Inside(prefix, net)
  {
    DefaultBlockV4(net);
    DefaultBlockV4(other);
    AtMostSlash8(prefix);
    ReservedEnds(First(prefix).value, Last(prefix).value,
                 First(net).value, Last(net).value, First(other).value, Last(other).value);
  }

  /** A block no wider than a /8 that starts and ends in reserved space lies inside one reserved block. */
  lemma BothEndsReservedV4(prefix: IpNet) returns (net: IpNet)
    requires prefix.addr.family.V4? && prefix.prefixLen >= 8
    requires NonGlobalV4(First(prefix).value) && NonGlobalV4(Last(prefix).value)
    ensures net.addr.family.V4? && DefaultDenied(net) && Inside(prefix, net)
  {
    net := ReservedBlockV4(First(prefix));
    var other := ReservedBlockV4(Last(prefix));
    if First(net) == First(prefix) && Last(other) == Last(prefix) {
      OneReservedBlock(prefix, net, other);
    }
    InsideEither(prefix, net, other);
    if !Inside(prefix, net) {
      net := other;
    }
  }

  /** The three parts of 2000::/3 that are set aside, by first and last address. */
  predicate SetAsideSpan(first: nat, last: nat) {
    || (first == 0x2001_0000_0000_0000_0000_0000_0000_0000 && last == 0x2001_01FF_FFFF_FFFF_FFFF_FFFF_FFFF_FFFF)
    || (first == 0x2001_0DB8_0000_0000_0000_0000_0000_0000 && last == 0x2001_0DB8_FFFF_FFFF_FFFF_FFFF_FFFF_FFFF)
    || (first == 0x2002_0000_0000_0000_0000_0000_0000_0000 && last == 0x2002_FFFF_FFFF_FFFF_FFFF_FFFF_FFFF_FFFF)
  }

  predicate SetAsideBlock(first: nat, len: nat) {
    || (first == 0x2001_0000_0000_0000_0000_0000_0000_0000 && len == 23)
    || (first == 0x2001_0DB8_0000_0000_0000_0000_0000_0000 && len == 32)
    || (first == 0x2002_0000_0000_0000_0000_0000_0000_0000 && len == 16)
  }

  lemma PowersV6()
    ensures Pow2(96) == SHIFT_96 && Pow2(105) == SHIFT_105 && Pow2(107) == 0x800 * SHIFT_96
    ensures Pow2(108) == 0x1000 * SHIFT_96 && Pow2(112) == SHIFT_112 && Pow2(113) == 2 * SHIFT_112
    ensures Pow2(118) == SHIFT_118 && Pow2(120) == SHIFT_120 && Pow2(121) == SHIFT_121 && Pow2(125) == SHIFT_125
  {
    Pow2Plus(8, 8, 0x100, 0x100);
    Pow2Plus(16, 16, 0x1_0000, 0x1_0000);
    Pow2Plus(32, 32, 0x1_0000_0000, 0x1_0000_0000);
    Pow2Plus(64, 32, 0x1_0000_0000_0000_0000, 0x1_0000_0000);
    Pow2Plus(96, 9, SHIFT_96, 0x200);
    Pow2Plus(96, 11, SHIFT_96, 0x800);
    Pow2Plus(96, 12, SHIFT_96, 0x1000);
    Pow2Plus(96, 16, SHIFT_96, 0x1_0000);
    Pow2Plus(112, 1, SHIFT_112, 2);
    Pow2Plus(112, 6, SHIFT_112, 0x40);
    Pow2Plus(112, 8, SHIFT_112, 0x100);
    Pow2Plus(112, 9, SHIFT_112, 0x200);
    Pow2Plus(120, 5, SHIFT_120, 0x20);
  }

  lemma SizesV6(net: IpNet)
    requires net.addr.family.V6?
    ensures net.prefixLen == 3 ==> Size(net) == SHIFT_125
    ensures net.prefixLen == 7 ==> Size(net) == SHIFT_121
    ensures net.prefixLen == 8 ==> Size(net) == SHIFT_120
    ensures net.prefixLen == 10 ==> Size(net) == SHIFT_118
    ensures net.prefixLen == 16 ==> Size(net) == SHIFT_112
    ensures net.prefixLen == 23 ==> Size(net) == SHIFT_105
    ensures net.prefixLen == 32 ==> Size(net) == SHIFT_96
    ensures net.prefixLen == 128 ==> Size(net) == 1
  {
    PowersV6();
  }

  /** How many blocks of its size precede a block set aside. */
  function SetAsideNumber(first: nat, len: nat): nat {
    if len == 16 then first / SHIFT_112 else if len == 23 then first / SHIFT_105 else first / SHIFT_96
  }

  lemma SetAsideBlockV6(net: IpNet)
    requires net.addr.family.V6? && SetAsideBlock(net.addr.value, net.prefixLen)
    ensures First(net) == net.addr && SetAsideSpan(First(net).value, Last(net).value)
  {
    SizesV6(net);
    BlockBounds(net, Size(net), SetAsideNumber(net.addr.value, net.prefixLen));
  }

  lemma SetAsideStart(v: nat) returns (first: nat, len: nat, last: nat)
    requires SetAsideV6(v)
    ensures SetAsideBlock(first, len) && first <= v <= last
    ensures forall other :: SetAsideSpan(first, other) ==> other == last
  {
    first, len, last := 0x2002_0000_0000_0000_0000_0000_0000_0000, 16, 0x2002_FFFF_FFFF_FFFF_FFFF_FFFF_FFFF_FFFF;
    if v <= 0x2001_01FF_FFFF_FFFF_FFFF_FFFF_FFFF_FFFF {
      first, len, last := 0x2001_0000_0000_0000_0000_0000_0000_0000, 23, 0x2001_01FF_FFFF_FFFF_FFFF_FFFF_FFFF_FFFF;
    } else if v <= 0x2001_0DB8_FFFF_FFFF_FFFF_FFFF_FFFF_FFFF {
      first, len, last := 0x2001_0DB8_0000_0000_0000_0000_0000_0000, 32, 0x2001_0DB8_FFFF_FFFF_FFFF_FFFF_FFFF_FFFF;
    }
  }

  lemma SetAsideOf(address: IpAddr) returns (net: IpNet)
    requires address.family.V6? && SetAsideV6(address.value)
    ensures net.addr.family.V6? && SetAsideBlock(net.addr.value, net.prefixLen) && Contains(net, address)
  {
    var first, len, last := SetAsideStart(address.value);
    net := Net(Addr(V6, first), len);
    SetAsideBlockV6(net);
  }

  /** The widths between the first address of one part set aside and the last of another. */
  lemma SetAsideEnds(first: nat, last: nat, i: nat, j: nat, k: nat, l: nat)
    requires SetAsideSpan(i, j) && SetAsideSpan(k, l) && first == i && last == l && first <= last
    ensures || (i == k && j == l)
            || last - first + 1 == 0xDB9 * SHIFT_96
            || last - first + 1 == 0x1_F248 * SHIFT_96
            || (last - first + 1 == 2 * SHIFT_112 && first == 0x2001 * SHIFT_112)
  {
  }

  lemma OddMultiple(q: nat)
    ensures q * (2 * SHIFT_112) != 0x2001 * SHIFT_112
  {
  }

  lemma NoBlockSetAside(bits: nat, q: nat)
    ensures Pow2(bits) != 0xDB9 * SHIFT_96 && Pow2(bits) != 0x1_F248 * SHIFT_96
    ensures Pow2(bits) == 2 * SHIFT_112 ==> q * Pow2(bits) != 0x2001 * SHIFT_112
  {
    PowersV6();
    BetweenPowers(0xDB9 * SHIFT_96, 107, bits);
    BetweenPowers(0x1_F248 * SHIFT_96, 112, bits);
    if Pow2(bits) == 2 * SHIFT_112 {
      OddMultiple(q);
    }
  }

  /** A block from the first address of one part set aside to the last of another spans one part. */
  lemma SpansOnePart(prefix: IpNet, i: nat, j: nat, k: nat, l: nat)
    requires prefix.addr.family.V6? && SetAsideSpan(i, j) && SetAsideSpan(k, l)
    requires First(prefix).value == i && Last(prefix).value == l
    ensures i == k && j == l
  {
    var bits, q := BlockShape(prefix);
    SetAsideEnds(i, l, i, j, k, l);
    NoBlockSetAside(bits, q);
  }

  lemma OneSetAsideBlock(prefix: IpNet, net: IpNet, other: IpNet)
    requires prefix.addr.family.V6? && net.addr.family.V6? && other.addr.family.V6?
    requires SetAsideBlock(net.addr.value, net.prefixLen) && SetAsideBlock(other.addr.value, other.prefixLen)
    requires First(net) == First(prefix) && Last(other) == Last(prefix)
    ensures Inside(prefix, net)
  {
    SetAsideBlockV6(net);
    SetAsideBlockV6(other);
    SpansOnePart(prefix, First(net).value, Last(net).value, First(other).value, Last(other).value);
  }

  /** A block inside 2000::/3 that starts and ends in parts set aside lies inside one of them. */
  lemma BothEndsSetAside(prefix: IpNet) returns (net: IpNet)
    requires prefix.addr.family.V6?
    requires SetAsideV6(First(prefix).value) && SetAsideV6(Last(prefix).value)
    ensures net.addr.family.V6? && SetAsideBlock(net.addr.value, net.prefixLen) && Inside(prefix, net)
  {
    net := SetAsideOf(First(prefix));
    var other := SetAsideOf(Last(prefix));
    if First(net) == First(prefix) && Last(other) == Last(prefix) {
      OneSetAsideBlock(prefix, net, other);
    }
    InsideEither(prefix, net, other);
    if !Inside(prefix, net) {
      net := other;
    }
  }

  /** A block of length 7 or more lies inside 2000::/3 or outside it. */
  lemma UnicastOrNot(prefix: IpNet)
    requires prefix.addr.family.V6? && prefix.prefixLen >= 7
    ensures || (GLOBAL_V6_FIRST <= First(prefix).value && Last(prefix).value <= GLOBAL_V6_LAST)
            || Last(prefix).value < GLOBAL_V6_FIRST
            || GLOBAL_V6_LAST < First(prefix).value
  {
    var len := 3;
    var unicast := Net(Addr(V6, GLOBAL_V6_FIRST), len);
    SizesV6(unicast);
    BlockBounds(unicast, SHIFT_125, 1);
    LongerIsInsideOrDisjoint(prefix, unicast);
  }

  lemma BothEndsNonGlobal(prefix: IpNet, address: IpAddr)
    requires prefix.prefixLen >= if prefix.addr.family.V4? then 8 else 7
    requires NonGlobal(First(prefix)) && NonGlobal(Last(prefix)) && Contains(prefix, address)
    ensures NonGlobal(address)
  {
    if prefix.addr.family.V4? {
      var net := BothEndsReservedV4(prefix);
      DefaultBlockV4(net);
    } else {
      UnicastOrNot(prefix);
      if GLOBAL_V6_FIRST <= First(prefix).value <= GLOBAL_V6_LAST {
        var net := BothEndsSetAside(prefix);
        SetAsideBlockV6(net);
      }
    }
  }

  /** Looking at two addresses of a long enough block decides for all of them. */
  lemma EndsDecide(prefix: IpNet)
    requires prefix.prefixLen >= if prefix.addr.family.V4? then 8 else 7
    ensures EntirelyNonGlobal(prefix) <==> AllNonGlobal(prefix)
  {
    GlobalExactly(First(prefix));
    GlobalExactly(Last(prefix));
    assert Contains(prefix, First(prefix)) && Contains(prefix, Last(prefix));
    if EntirelyNonGlobal(prefix) {
      forall address | Contains(prefix, address) ensures Classify(address) != Global {
        BothEndsNonGlobal(prefix, address);
        GlobalExactly(address);
      }
    }
  }

  /** The length guard is needed: both ends of 0.0.0.0/1 are reserved, and 8.8.8.8 lies between them. */
  lemma ShortBlocksNeedTheGuard() returns (prefix: IpNet, address: IpAddr)
    ensures Classify(First(prefix)) != Global && Classify(Last(prefix)) != Global
    ensures Contains(prefix, address) && Classify(address) == Global
  {
    var len := 1;
    prefix, address := Net(Addr(V4, 0), len), Addr(V4, 0x0808_0808);
    PowersV4();
    Pow2Plus(28, 3, 0x1000_0000, 8);
    assert HostBits(prefix) == 31;
    BlockBounds(prefix, 0x8000_0000, 0);
    GlobalExactly(First(prefix));
    GlobalExactly(Last(prefix));
    GlobalExactly(address);
  }

  lemma RoleNeverTooStrict(role: Role, prefix: IpNet, address: IpAddr)
    requires Contains(prefix, address) && DestinationAllowed(role, address)
    ensures PrefixAllowed(role, prefix)
  {
    var i :| 0 <= i < |role.allow| && Contains(role.allow[i], address);
    CommonAddress(role.allow[i], prefix, address);
    assert NetworksOverlap(role.allow[i], prefix);
    forall j | 0 <= j < |role.deny| ensures !ContainsNetwork(role.deny[j], prefix) {
      assert !Contains(role.deny[j], address);
    }
    if prefix.prefixLen >= if prefix.addr.family.V4? then 8 else 7 {
      EndsDecide(prefix);
    }
  }

  /** A prefix is never turned away while the policy allows an address in it. */
  lemma PrefixNeverTooStrict(policy: EffectivePolicy, prefix: IpNet, address: IpAddr)
    requires Contains(prefix, address) && AuthorizesDestination(policy, address)
    ensures AuthorizesPrefix(policy, prefix)
  {
    var i :| 0 <= i < |policy.roles| && DestinationAllowed(policy.roles[i], address);
    RoleNeverTooStrict(policy.roles[i], prefix, address);
  }

  ghost predicate Shares(a: IpNet, b: IpNet) {
    exists address :: Contains(a, address) && Contains(b, address)
  }

  ghost predicate Covers(container: IpNet, candidate: IpNet) {
    forall address :: Contains(candidate, address) ==> Contains(container, address)
  }

  lemma OverlapExactly(a: IpNet, b: IpNet)
    ensures NetworksOverlap(a, b) <==> Shares(a, b)
  {
    BlockInside(a);
    BlockInside(b);
    if NetworksOverlap(a, b) {
      if Contains(a, First(b)) {
        assert Contains(b, First(b));
      } else {
        assert Contains(a, First(a));
      }
    }
    if Shares(a, b) {
      var address :| Contains(a, address) && Contains(b, address);
      CommonAddress(a, b, address);
    }
  }

  lemma CoversExactly(container: IpNet, candidate: IpNet)
    ensures ContainsNetwork(container, candidate) <==> Covers(container, candidate)
  {
    BlockInside(candidate);
    assert Contains(candidate, First(candidate)) && Contains(candidate, Last(candidate));
  }

  /** What the prefix check asks of a role, in terms of the addresses of the prefix. */
  ghost predicate PrefixMeaning(role: Role, prefix: IpNet) {
    && (exists i :: 0 <= i < |role.allow| && Shares(role.allow[i], prefix))
    && (forall i :: 0 <= i < |role.deny| ==> !Covers(role.deny[i], prefix))
    && (role.denyPrivate ==> prefix.prefixLen < (if prefix.addr.family.V4? then 8 else 7) || !AllNonGlobal(prefix))
  }

  lemma RolePrefixExact(role: Role, prefix: IpNet)
    ensures PrefixAllowed(role, prefix) <==> PrefixMeaning(role, prefix)
  {
    forall i | 0 <= i < |role.allow| ensures NetworksOverlap(role.allow[i], prefix) <==> Shares(role.allow[i], prefix) {
      OverlapExactly(role.allow[i], prefix);
    }
    forall i | 0 <= i < |role.deny| ensures ContainsNetwork(role.deny[i], prefix) <==> Covers(role.deny[i], prefix) {
      CoversExactly(role.deny[i], prefix);
    }
    if prefix.prefixLen >= if prefix.addr.family.V4? then 8 else 7 {
      EndsDecide(prefix);
    }
  }

  /**
    A prefix is accepted exactly when one role allows an address in it, denies it through no one network as
    a whole, and, if it refuses private space, finds it either very short or holding a global address.
   */
  lemma PrefixExactly(policy: EffectivePolicy, prefix: IpNet)
    ensures AuthorizesPrefix(policy, prefix) <==>
              exists i :: 0 <= i < |policy.roles| && PrefixMeaning(policy.roles[i], prefix)
  {
    forall i | 0 <= i < |policy.roles|
      ensures PrefixAllowed(policy.roles[i], prefix) <==> PrefixMeaning(policy.roles[i], prefix)
    {
      RolePrefixExact(policy.roles[i], prefix);
    }
  }

  // ----- The range check -----

  predicate Between(start: IpAddr, end: IpAddr, address: IpAddr) {
    start.family == address.family && start.value <= address.value <= end.value
  }

  /** The three-way test is interval intersection. */
  lemma OverlapIsIntersection(network: IpNet, start: IpAddr, end: IpAddr)
    requires start.family == end.family && start.value <= end.value
    ensures NetworkOverlapsRange(network, start, end) <==>
            exists address :: Contains(network, address) && Between(start, end, address)
  {
    if NetworkOverlapsRange(network, start, end) {
      var shared := if Contains(network, start) then start else if Contains(network, end) then end else First(network);
      assert Contains(network, shared) && Between(start, end, shared);
    }
  }

  ghost predicate AllWithin(net: IpNet, start: IpAddr, end: IpAddr) {
    forall a :: Between(start, end, a) ==> Contains(net, a)
  }

  ghost predicate NoneDenied(nets: seq<IpNet>, start: IpAddr, end: IpAddr) {
    forall a :: Between(start, end, a) ==> !InSome(nets, a)
  }

  ghost predicate AllGlobal(start: IpAddr, end: IpAddr) {
    forall a :: Between(start, end, a) ==> Classify(a) == Global
  }

  /** What a role's acceptance of a range says about the addresses in it. */
  ghost predicate RangeMeaning(role: Role, start: IpAddr, end: IpAddr) {
    && (exists i :: 0 <= i < |role.allow| && AllWithin(role.allow[i], start, end))
    && NoneDenied(role.deny, start, end)
    && (role.denyPrivate ==> AllGlobal(start, end))
  }

  lemma AllowCoversRange(net: IpNet, start: IpAddr, end: IpAddr)
    requires start.family == end.family && start.value <= end.value
    ensures Contains(net, start) && Contains(net, end) <==> AllWithin(net, start, end)
  {
    assert Between(start, end, start) && Between(start, end, end);
  }

  lemma DenyMissesRange(nets: seq<IpNet>, start: IpAddr, end: IpAddr)
    requires start.family == end.family && start.value <= end.value
    ensures !(exists i :: 0 <= i < |nets| && NetworkOverlapsRange(nets[i], start, end)) <==>
              NoneDenied(nets, start, end)
  {
    forall i | 0 <= i < |nets|
      ensures NetworkOverlapsRange(nets[i], start, end) <==> exists a :: Contains(nets[i], a) && Between(start, end, a)
    {
      OverlapIsIntersection(nets[i], start, end);
    }
  }

  lemma DefaultDeniedOverlapsExactly(start: IpAddr, end: IpAddr)
    requires start.family == end.family && start.value <= end.value
    ensures DefaultDeniedOverlaps(start, end) <==>
            exists net, a :: DefaultDenied(net) && Contains(net, a) && Between(start, end, a)
  {
    forall net
      ensures NetworkOverlapsRange(net, start, end) <==> exists a :: Contains(net, a) && Between(start, end, a)
    {
      OverlapIsIntersection(net, start, end);
    }
  }

  lemma DefaultDeniedRangeV4(start: IpAddr, end: IpAddr)
    requires start.family == V4 == end.family && start.value <= end.value
    ensures !DefaultDeniedOverlaps(start, end) <==> AllGlobal(start, end)
  {
    DefaultDeniedOverlapsExactly(start, end);
    forall a: IpAddr | a.family.V4?
      ensures (exists net :: DefaultDenied(net) && Contains(net, a)) <==> Classify(a) != Global
    {
      DefaultListExactV4(a);
    }
  }

  lemma AllowExactly(nets: seq<IpNet>, start: IpAddr, end: IpAddr)
    requires start.family == end.family && start.value <= end.value
    ensures (exists i :: 0 <= i < |nets| && Contains(nets[i], start) && Contains(nets[i], end)) <==>
            exists i :: 0 <= i < |nets| && AllWithin(nets[i], start, end)
  {
    forall i | 0 <= i < |nets|
      ensures Contains(nets[i], start) && Contains(nets[i], end) <==> AllWithin(nets[i], start, end)
    {
      AllowCoversRange(nets[i], start, end);
    }
  }

  /** No network of the static list holds an address of the range. */
  ghost predicate NoneListed(start: IpAddr, end: IpAddr) {
    forall net, a :: DefaultDenied(net) && Contains(net, a) ==> !Between(start, end, a)
  }

  lemma ListMissesRange(start: IpAddr, end: IpAddr)
    requires start.family == end.family && start.value <= end.value
    ensures !DefaultDeniedOverlaps(start, end) <==> NoneListed(start, end)
  {
    DefaultDeniedOverlapsExactly(start, end);
  }

  /** What a role's acceptance of a range of either family says about the addresses in it. */
  ghost predicate RangeListed(role: Role, start: IpAddr, end: IpAddr) {
    && (exists i :: 0 <= i < |role.allow| && AllWithin(role.allow[i], start, end))
    && NoneDenied(role.deny, start, end)
    && (role.denyPrivate ==> NoneListed(start, end))
  }

  lemma RoleRangeExact(role: Role, start: IpAddr, end: IpAddr)
    requires start.family == end.family && start.value <= end.value
    ensures RangeAllowed(role, start, end) <==> RangeListed(role, start, end)
  {
    AllowExactly(role.allow, start, end);
    DenyMissesRange(role.deny, start, end);
    ListMissesRange(start, end);
  }

  /**
    A range of either family is accepted exactly when one role allows all of it through one of its networks,
    denies none of it, and, if it refuses private space, finds none of it in the static list.
   */
  lemma RangeExact(policy: EffectivePolicy, start: IpAddr, end: IpAddr)
    requires start.family == end.family && start.value <= end.value
    ensures AuthorizesRange(policy, start, end) <==>
            exists i :: 0 <= i < |policy.roles| && RangeListed(policy.roles[i], start, end)
  {
    forall i | 0 <= i < |policy.roles|
      ensures RangeAllowed(policy.roles[i], start, end) <==> RangeListed(policy.roles[i], start, end)
    {
      RoleRangeExact(policy.roles[i], start, end);
    }
  }

  lemma RoleRangeExactV4(role: Role, start: IpAddr, end: IpAddr)
    requires start.family == V4 == end.family && start.value <= end.value
    ensures RangeAllowed(role, start, end) <==> RangeMeaning(role, start, end)
  {
    AllowExactly(role.allow, start, end);
    DenyMissesRange(role.deny, start, end);
    DefaultDeniedRangeV4(start, end);
  }

  /**
    An IPv4 range is accepted exactly when one role allows all of it through one of its networks, denies
    none of it, and, if it refuses private space, finds every address of it global.
   */
  lemma RangeExactV4(policy: EffectivePolicy, start: IpAddr, end: IpAddr)
    requires start.family == V4 == end.family && start.value <= end.value
    ensures AuthorizesRange(policy, start, end) <==>
            exists i :: 0 <= i < |policy.roles| && RangeMeaning(policy.roles[i], start, end)
  {
    forall i | 0 <= i < |policy.roles|
      ensures RangeAllowed(policy.roles[i], start, end) <==> RangeMeaning(policy.roles[i], start, end)
    {
      RoleRangeExactV4(policy.roles[i], start, end);
    }
  }

  /** Every address of an accepted IPv4 range is one the policy lets packets go to. */
  lemma RangeSoundV4(policy: EffectivePolicy, start: IpAddr, end: IpAddr, address: IpAddr)
    requires start.family == V4 == end.family && AuthorizesRange(policy, start, end)
    requires Between(start, end, address)
    ensures AuthorizesDestination(policy, address)
  {
    RangeExactV4(policy, start, end);
    var i :| 0 <= i < |policy.roles| && RangeMeaning(policy.roles[i], start, end);
    assert DestinationAllowed(policy.roles[i], address);
  }

  // ----- IPv6 ranges -----

  function SpanV6(len: nat): nat {
    if len == 7 then SHIFT_121
    else if len == 8 then SHIFT_120
    else if len == 10 then SHIFT_118
    else if len == 16 then SHIFT_112
    else if len == 32 then SHIFT_96
    else 1
  }

  function BlockNumberV6(first: nat, len: nat): nat {
    if len == 7 then first / SHIFT_121
    else if len == 8 then first / SHIFT_120
    else if len == 10 then first / SHIFT_118
    else if len == 16 then first / SHIFT_112
    else if len == 32 then first / SHIFT_96
    else first
  }

  lemma DefaultBlockV6(net: IpNet)
    requires net.addr.family.V6? && DefaultDenied(net)
    ensures First(net) == net.addr && Last(net).value == net.addr.value + SpanV6(net.prefixLen) - 1
  {
    SizesV6(net);
    BlockBounds(net, Size(net), BlockNumberV6(net.addr.value, net.prefixLen));
  }

  /** Inside 2000::/3 and clear of 2001::/23, the one part of it the static list forgets. */
  predicate ClearOfForgotten(start: IpAddr, end: IpAddr) {
    && GLOBAL_V6_FIRST <= start.value && end.value <= GLOBAL_V6_LAST
    && (|| end.value < 0x2001_0000_0000_0000_0000_0000_0000_0000
        || 0x2001_01FF_FFFF_FFFF_FFFF_FFFF_FFFF_FFFF < start.value)
  }

  lemma ListedPartsMissed(start: IpAddr, end: IpAddr, address: IpAddr)
    requires start.family == V6 == end.family && start.value <= end.value && !DefaultDeniedOverlaps(start, end)
    requires Between(start, end, address) && SetAsideV6(address.value)
    ensures 0x2001_0000_0000_0000_0000_0000_0000_0000 <= address.value <= 0x2001_01FF_FFFF_FFFF_FFFF_FFFF_FFFF_FFFF
  {
    var net := SetAsideOf(address);
    SetAsideBlockV6(net);
    OverlapIsIntersection(net, start, end);
  }

  /**
    For IPv6 the static list is narrower than the classifier. What an accepted range promises is kept by a
    role that refuses private space exactly when the range stays inside 2000::/3 and clear of 2001::/23.
   */
  lemma RangeSoundExactlyV6(role: Role, start: IpAddr, end: IpAddr)
    requires start.family == V6 == end.family && start.value <= end.value && RangeAllowed(role, start, end)
    ensures (forall a :: Between(start, end, a) ==> DestinationAllowed(role, a)) <==>
            !role.denyPrivate || ClearOfForgotten(start, end)
  {
    DenyMissesRange(role.deny, start, end);
    var i :| 0 <= i < |role.allow| && Contains(role.allow[i], start) && Contains(role.allow[i], end);
    AllowCoversRange(role.allow[i], start, end);
    assert Between(start, end, start) && Between(start, end, end);
    GlobalExactly(start);
    GlobalExactly(end);
    if role.denyPrivate {
      if ClearOfForgotten(start, end) {
        forall a | Between(start, end, a) ensures DestinationAllowed(role, a) {
          GlobalExactly(a);
          if SetAsideV6(a.value) {
            ListedPartsMissed(start, end, a);
          }
        }
      } else if GLOBAL_V6_FIRST <= start.value && end.value <= GLOBAL_V6_LAST {
        var low := 0x2001_0000_0000_0000_0000_0000_0000_0000;
        var a := Addr(V6, if start.value < low then low else start.value);
        assert Between(start, end, a);
        GlobalExactly(a);
      }
    }
  }

  /** Some role that accepts an IPv6 range keeps what its acceptance promises. */
  ghost predicate KeptV6(policy: EffectivePolicy, start: IpAddr, end: IpAddr) {
    exists i :: && 0 <= i < |policy.roles| && RangeAllowed(policy.roles[i], start, end)
                && (!policy.roles[i].denyPrivate || ClearOfForgotten(start, end))
  }

  /** Every address of an accepted range is one the policy lets packets go to, for IPv6 when it is kept. */
  lemma RangeSound(policy: EffectivePolicy, start: IpAddr, end: IpAddr, address: IpAddr)
    requires start.family == end.family && AuthorizesRange(policy, start, end) && Between(start, end, address)
    requires start.family.V6? ==> KeptV6(policy, start, end)
    ensures AuthorizesDestination(policy, address)
  {
    if start.family.V4? {
      RangeSoundV4(policy, start, end, address);
    } else {
      var i :| && 0 <= i < |policy.roles| && RangeAllowed(policy.roles[i], start, end)
               && (!policy.roles[i].denyPrivate || ClearOfForgotten(start, end));
      RangeSoundExactlyV6(policy.roles[i], start, end);
      assert DestinationAllowed(policy.roles[i], address);
    }
  }

  /** A role, a range it accepts, and an address of that range it refuses. */
  lemma RangeUnsoundV6() returns (role: Role, address: IpAddr)
    ensures RangeAllowed(role, address, address) && !DestinationAllowed(role, address)
  {
    var len := 0;
    address := Addr(V6, 0x2001_0000_0000_0000_0000_0000_0000_0001);
    var all := Net(Addr(V6, 0), len);
    LimitIsPow2(V6);
    assert HostBits(all) == Width(V6);
    BlockBounds(all, Limit(V6), 0);
    role := Role([all], [], true);
    assert role.allow[0] == all;
    GlobalExactly(address);
    forall net | DefaultDenied(net) ensures !NetworkOverlapsRange(net, address, address) {
      if net.addr.family.V6? {
        DefaultBlockV6(net);
      }
    }
  }
}
