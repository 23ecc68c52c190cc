/** What an IP tunnel was authorized for, and the routes it advertises to the client. */
module IpScope {
  import opened Basics
  import opened Wrappers
  import opened Bytes
  import opened Net
  import opened RouteRanges
  import Policy

  datatype Target = AnyTarget | Prefix(net: IpNet) | Resolved(addresses: seq<IpAddr>)

  datatype ProtocolScope = AnyProtocol | Number(protocol: Byte)

  datatype AuthorizedIpScope = AuthorizedIpScope(target: Target, protocol: ProtocolScope)

  // ----- The routes a configuration may name -----

  /** The order a configuration's neighbouring routes must stand in. */
  predicate RoutePairOk(left: IpNet, right: IpNet) {
    !(|| Version(First(left)) > Version(First(right))
      || (left.addr.family == right.addr.family && First(left).value > First(right).value)
      || (left.addr.family == right.addr.family && Last(left).value >= First(right).value))
  }

  predicate NeighboursOk(routes: seq<IpNet>) {
    forall i :: 0 <= i < |routes| - 1 ==> RoutePairOk(routes[i], routes[i + 1])
  }

  method ValidateAdvertiseRoutes(routes: seq<IpNet>) returns (ok: bool)
    ensures ok <==> NeighboursOk(routes)
  {
    var i := 1;
    while i < |routes|
      invariant 1 <= i
      invariant forall k :: 0 <= k < i - 1 && k < |routes| - 1 ==> RoutePairOk(routes[k], routes[k + 1])
    {
      var left, right := routes[i - 1], routes[i];
      if || Version(First(left)) > Version(First(right))
         || (left.addr.family == right.addr.family && First(left).value > First(right).value)
         || (left.addr.family == right.addr.family && Last(left).value >= First(right).value)
      {
        assert !RoutePairOk(routes[i - 1], routes[i - 1 + 1]);
        return false;
      }
      i := i + 1;
    }
    return true;
  }

  predicate RouteBefore(a: IpNet, b: IpNet) {
    || Version(a.addr) < Version(b.addr)
    || (a.addr.family == b.addr.family && Last(a).value < First(b).value)
  }

  /** Checking neighbours orders and separates every pair. */
  lemma {:induction false} NeighboursSeparateAll(routes: seq<IpNet>, i: nat, j: nat)
    requires NeighboursOk(routes) && i < j < |routes|
    ensures RouteBefore(routes[i], routes[j])
    decreases j
  {
    assert RoutePairOk(routes[j - 1], routes[j - 1 + 1]);
    if i < j - 1 {
      NeighboursSeparateAll(routes, i, j - 1);
    }
  }

  // ----- The advertisement -----

  function NetworkIntersection(left: IpNet, right: IpNet): Option<IpNet> {
    if left.addr.family != right.addr.family then None
    else if Contains(left, First(right)) then Some(right)
    else if Contains(right, First(left)) then Some(left)
    else None
  }

  function Intersections(target: IpNet, configured: seq<IpNet>): seq<IpNet> {
    if configured == [] then []
    else
      var n := |configured| - 1;
      var front := Intersections(target, configured[..n]);
      match NetworkIntersection(target, configured[n])
      case None => front
      case Some(net) => front + [net]
  }

  function HostPrefixes(addresses: seq<IpAddr>): seq<IpNet> {
    seq(|addresses|, i requires 0 <= i < |addresses| => HostPrefix(addresses[i]))
  }

  function Networks(target: Target, configured: seq<IpNet>): seq<IpNet> {
    match target
    case AnyTarget => configured
    case Prefix(net) => Intersections(net, configured)
    case Resolved(addresses) => HostPrefixes(addresses)
  }

  predicate Served(leased: seq<IpNet>, family: Family) {
    exists i :: 0 <= i < |leased| && leased[i].addr.family == family
  }

  function ProtocolNumber(protocol: ProtocolScope): Byte {
    match protocol case AnyProtocol => 0 case Number(p) => p
  }

  function RangeOf(net: IpNet, protocol: Byte): AddressRange {
    AddressRange(First(net), Last(net), protocol)
  }

  function Ranges(networks: seq<IpNet>, leased: seq<IpNet>, protocol: Byte): seq<AddressRange> {
    if networks == [] then []
    else
      var n := |networks| - 1;
      Ranges(networks[..n], leased, protocol)
      + if Served(leased, networks[n].addr.family) then [RangeOf(networks[n], protocol)] else []
  }

  /** The sort key: version, protocol, start. */
  predicate KeyBefore(a: AddressRange, b: AddressRange) {
    || Version(a.start) < Version(b.start)
    || (a.start.family == b.start.family && a.protocol < b.protocol)
    || (a.start.family == b.start.family && a.protocol == b.protocol && a.start.value < b.start.value)
  }

  /** `dedup`: of equal neighbours only one stays. */
  function Deduplicated(ranges: seq<AddressRange>): (kept: seq<AddressRange>)
    ensures kept == [] <==> ranges == []
    ensures ranges != [] ==> kept[|kept| - 1] == ranges[|ranges| - 1]
  {
    if ranges == [] then []
    else
      var n := |ranges| - 1;
      var front := Deduplicated(ranges[..n]);
      if n > 0 && ranges[n - 1] == ranges[n] then front else front + [ranges[n]]
  }

  /** The ranges offered before they are checked. */
  function Offered(scope: AuthorizedIpScope, configured: seq<IpNet>, leased: seq<IpNet>): seq<AddressRange> {
    var ranges := Ranges(Networks(scope.target, configured), leased, ProtocolNumber(scope.protocol));
    Deduplicated(Sorted(KeyBefore, ranges))
  }

  // ----- The passes of the source over its lists -----

  method Intersect(target: IpNet, configured: seq<IpNet>) returns (networks: seq<IpNet>)
    ensures networks == Intersections(target, configured)
  {
    networks := [];
    for i := 0 to |configured|
      invariant networks == Intersections(target, configured[..i])
    {
      assert configured[..i + 1][..i] == configured[..i];
      var net := NetworkIntersection(target, configured[i]);
      if net.Some? {
        networks := networks + [net.value];
      }
    }
    assert configured[..|configured|] == configured;
  }

  method MapToRanges(networks: seq<IpNet>, leased: seq<IpNet>, protocol: Byte) returns (ranges: seq<AddressRange>)
    ensures ranges == Ranges(networks, leased, protocol)
  {
    ranges := [];
    for i := 0 to |networks|
      invariant ranges == Ranges(networks[..i], leased, protocol)
    {
      assert networks[..i + 1][..i] == networks[..i];
      if Served(leased, networks[i].addr.family) {
        ranges := ranges + [RangeOf(networks[i], protocol)];
      }
    }
    assert networks[..|networks|] == networks;
  }

  method SortByKey(ranges: seq<AddressRange>) returns (sorted: seq<AddressRange>)
    ensures sorted == Sorted(KeyBefore, ranges)
  {
    sorted := [];
    for i := 0 to |ranges|
      invariant sorted == Sorted(KeyBefore, ranges[..i])
    {
      assert ranges[..i + 1][..i] == ranges[..i];
      sorted := Placed(KeyBefore, sorted, ranges[i]);
    }
    assert ranges[..|ranges|] == ranges;
  }

  method Deduplicate(ranges: seq<AddressRange>) returns (kept: seq<AddressRange>)
    ensures kept == Deduplicated(ranges)
  {
    kept := [];
    for i := 0 to |ranges|
      invariant kept == Deduplicated(ranges[..i])
    {
      assert ranges[..i + 1][..i] == ranges[..i];
      if kept == [] || kept[|kept| - 1] != ranges[i] {
        kept := kept + [ranges[i]];
      }
    }
    assert ranges[..|ranges|] == ranges;
  }

  method Advertisement(scope: AuthorizedIpScope, configured: seq<IpNet>, leased: seq<IpNet>)
    returns (r: Result<seq<AddressRange>, RouteError>)
    ensures r == match CheckedRanges(Offered(scope, configured, leased))
                 case Ok(_) => Ok(Offered(scope, configured, leased))
                 case Err(error) => Err(error)
  {
    var networks: seq<IpNet>;
    match scope.target {
      case AnyTarget => networks := configured;
      case Prefix(net) => networks := Intersect(net, configured);
      case Resolved(addresses) => networks := HostPrefixes(addresses);
    }
    var ranges := MapToRanges(networks, leased, ProtocolNumber(scope.protocol));
    ranges := SortByKey(ranges);
    ranges := Deduplicate(ranges);
    var checked := ValidateRanges(ranges);
    return match checked case Ok(_) => Ok(ranges) case Err(error) => Err(error);
  }

  /** Keeps the ranges the policy lets packets go to. */
  ghost function PolicyFiltered(policy: Policy.EffectivePolicy, ranges: seq<AddressRange>): seq<AddressRange> {
    if ranges == [] then []
    else
      var n := |ranges| - 1;
      PolicyFiltered(policy, ranges[..n])
      + if Policy.AuthorizesRange(policy, ranges[n].start, ranges[n].end) then [ranges[n]] else []
  }

  /** `route_advertisement`: what the session offers, filtered by policy and checked again. */
  ghost function RouteAdvertisement(scope: AuthorizedIpScope, configured: seq<IpNet>, leased: seq<IpNet>,
                                    policy: Policy.EffectivePolicy): Result<seq<AddressRange>, RouteError>
  {
    var ranges := Offered(scope, configured, leased);
    var _ :- CheckedRanges(ranges);
    var kept := PolicyFiltered(policy, ranges);
    var _ :- CheckedRanges(kept);
    Ok(kept)
  }

  // ----- Sorting and deduplicating equal-or-apart ranges orders them strictly -----

  predicate Apart(a: AddressRange, b: AddressRange) {
    a.start.family == b.start.family ==> a.end.value < b.start.value || b.end.value < a.start.value
  }

  /** One protocol throughout, and any two ranges equal or without an address in common. */
  ghost predicate EqualOrApart(ranges: seq<AddressRange>, protocol: Byte) {
    && (forall r :: r in ranges ==> WellFormed(r) && r.protocol == protocol)
    && forall a, b :: a in ranges && b in ranges ==> a == b || Apart(a, b)
  }

  predicate KeyOrdered(ranges: seq<AddressRange>) {
    forall i, j :: 0 <= i < j < |ranges| ==> !KeyBefore(ranges[j], ranges[i])
  }

  lemma SortingOrders(ranges: seq<AddressRange>)
    ensures KeyOrdered(Sorted(KeyBefore, ranges))
  {
    SortedOrders(KeyBefore, ranges);
    assert Ordered(KeyBefore, Sorted(KeyBefore, ranges));
  }

  lemma {:induction false} DeduplicatedKeeps(ranges: seq<AddressRange>)
    ensures forall r :: r in Deduplicated(ranges) <==> r in ranges
  {
    if ranges != [] {
      var n := |ranges| - 1;
      DeduplicatedKeeps(ranges[..n]);
      assert ranges == ranges[..n] + [ranges[n]];
    }
  }

  lemma AppendedBefore(front: seq<AddressRange>, last: AddressRange)
    requires StrictlyOrdered(front) && forall r :: r in front ==> Before(r, last)
    ensures StrictlyOrdered(front + [last])
  {
    assert forall i :: 0 <= i < |front| ==> front[i] in front;
  }

  lemma {:induction false} DeduplicatedStrict(ranges: seq<AddressRange>, protocol: Byte)
    requires KeyOrdered(ranges) && EqualOrApart(ranges, protocol)
    ensures StrictlyOrdered(Deduplicated(ranges))
  {
    if ranges != [] {
      var n := |ranges| - 1;
      var front := ranges[..n];
      assert forall r :: r in front ==> r in ranges;
      DeduplicatedStrict(front, protocol);
      DeduplicatedKeeps(front);
      if n == 0 || ranges[n - 1] != ranges[n] {
        forall r | r in front ensures Before(r, ranges[n]) {
          LastAfter(ranges, protocol, r);
        }
        AppendedBefore(Deduplicated(front), ranges[n]);
      }
    }
  }

  lemma LastAfter(ranges: seq<AddressRange>, protocol: Byte, r: AddressRange)
    requires |ranges| >= 2 && ranges[|ranges| - 2] != ranges[|ranges| - 1]
    requires KeyOrdered(ranges) && EqualOrApart(ranges, protocol) && r in ranges[..|ranges| - 1]
    ensures Before(r, ranges[|ranges| - 1])
  {
    var n := |ranges| - 1;
    var last, second := ranges[n], ranges[n - 1];
    assert last in ranges && second in ranges && r in ranges;
    var i :| 0 <= i < n && ranges[i] == r;
    assert !KeyBefore(last, r) && !KeyBefore(last, second);
    assert i < n - 1 ==> !KeyBefore(second, r);
  }

  /** Some network of a family served maps to the range. */
  predicate FromNetwork(networks: seq<IpNet>, leased: seq<IpNet>, protocol: Byte, r: AddressRange) {
    exists net :: net in networks && Served(leased, net.addr.family) && r == RangeOf(net, protocol)
  }

  lemma {:induction false} RangesAre(networks: seq<IpNet>, leased: seq<IpNet>, protocol: Byte)
    ensures forall r :: r in Ranges(networks, leased, protocol) <==> FromNetwork(networks, leased, protocol, r)
  {
    if networks != [] {
      var n := |networks| - 1;
      RangesAre(networks[..n], leased, protocol);
      assert networks == networks[..n] + [networks[n]];
      forall r
        ensures FromNetwork(networks, leased, protocol, r) <==>
                || FromNetwork(networks[..n], leased, protocol, r)
                || (Served(leased, networks[n].addr.family) && r == RangeOf(networks[n], protocol))
      {
        if net :| net in networks && Served(leased, net.addr.family) && r == RangeOf(net, protocol) {
          assert net in networks[..n] || net == networks[n];
        }
      }
    }
  }

  // ----- The networks of a scope are equal or disjoint -----

  predicate SameOrDisjoint(a: IpNet, b: IpNet) {
    (First(a) == First(b) && Last(a) == Last(b)) || Disjoint(a, b)
  }

  lemma IntersectionIsInside(target: IpNet, route: IpNet)
    requires NetworkIntersection(target, route).Some?
    ensures Inside(NetworkIntersection(target, route).value, route)
  {
    NestedOrDisjoint(target, route);
  }

  /** The intersection of the target with some configured route. */
  predicate FromRoute(target: IpNet, configured: seq<IpNet>, net: IpNet) {
    exists route :: route in configured && NetworkIntersection(target, route) == Some(net)
  }

  lemma {:induction false} IntersectionsAre(target: IpNet, configured: seq<IpNet>)
    ensures forall net :: net in Intersections(target, configured) <==> FromRoute(target, configured, net)
  {
    if configured != [] {
      var n := |configured| - 1;
      IntersectionsAre(target, configured[..n]);
      assert configured == configured[..n] + [configured[n]];
      forall net
        ensures FromRoute(target, configured, net) <==>
                || FromRoute(target, configured[..n], net)
                || NetworkIntersection(target, configured[n]) == Some(net)
      {
        if route :| route in configured && NetworkIntersection(target, route) == Some(net) {
          assert route in configured[..n] || route == configured[n];
        }
      }
    }
  }

  lemma RoutesDisjoint(configured: seq<IpNet>, i: nat, j: nat)
    requires NeighboursOk(configured) && i < |configured| && j < |configured| && i != j
    ensures Disjoint(configured[i], configured[j])
  {
    if i < j {
      NeighboursSeparateAll(configured, i, j);
    } else {
      NeighboursSeparateAll(configured, j, i);
    }
  }

  lemma NetworksSameOrDisjoint(target: Target, configured: seq<IpNet>, a: IpNet, b: IpNet)
    requires NeighboursOk(configured)
    requires a in Networks(target, configured) && b in Networks(target, configured)
    ensures SameOrDisjoint(a, b)
  {
    match target
    case AnyTarget =>
      var i :| 0 <= i < |configured| && configured[i] == a;
      var j :| 0 <= j < |configured| && configured[j] == b;
      if i != j {
        RoutesDisjoint(configured, i, j);
      }
    case Prefix(net) =>
      IntersectionsAre(net, configured);
      var r :| r in configured && NetworkIntersection(net, r) == Some(a);
      var q :| q in configured && NetworkIntersection(net, q) == Some(b);
      IntersectionIsInside(net, r);
      IntersectionIsInside(net, q);
      var i :| 0 <= i < |configured| && configured[i] == r;
      var j :| 0 <= j < |configured| && configured[j] == q;
      if i != j {
        RoutesDisjoint(configured, i, j);
      }
    case Resolved(addresses) =>
      var i :| 0 <= i < |addresses| && a == HostPrefix(addresses[i]);
      var j :| 0 <= j < |addresses| && b == HostPrefix(addresses[j]);
      HostBlock(addresses[i], addresses[i]);
      HostBlock(addresses[j], addresses[j]);
  }

  lemma RangesOfNetworks(a: IpNet, b: IpNet, protocol: Byte)
    requires SameOrDisjoint(a, b)
    ensures RangeOf(a, protocol) == RangeOf(b, protocol) || Apart(RangeOf(a, protocol), RangeOf(b, protocol))
  {
  }

  lemma RangesEqualOrApart(target: Target, configured: seq<IpNet>, leased: seq<IpNet>, protocol: Byte)
    requires NeighboursOk(configured)
    ensures EqualOrApart(Ranges(Networks(target, configured), leased, protocol), protocol)
  {
    var networks := Networks(target, configured);
    var ranges := Ranges(networks, leased, protocol);
    RangesAre(networks, leased, protocol);
    forall r | r in ranges ensures WellFormed(r) && r.protocol == protocol {
      assert FromNetwork(networks, leased, protocol, r);
    }
    forall a, b | a in ranges && b in ranges ensures a == b || Apart(a, b) {
      var x :| x in networks && a == RangeOf(x, protocol);
      var y :| y in networks && b == RangeOf(y, protocol);
      NetworksSameOrDisjoint(target, configured, x, y);
      RangesOfNetworks(x, y, protocol);
    }
  }

  /** With routes the configuration accepts, what a session offers is always a valid advertisement. */
  lemma OfferedIsValid(scope: AuthorizedIpScope, configured: seq<IpNet>, leased: seq<IpNet>)
    requires NeighboursOk(configured)
    ensures Valid(Offered(scope, configured, leased))
    ensures CheckedRanges(Offered(scope, configured, leased)).Ok?
  {
    var protocol := ProtocolNumber(scope.protocol);
    var ranges := Ranges(Networks(scope.target, configured), leased, protocol);
    RangesEqualOrApart(scope.target, configured, leased, protocol);
    SortingOrders(ranges);
    SortedKeeps(KeyBefore, ranges);
    DeduplicatedStrict(Sorted(KeyBefore, ranges), protocol);
    DeduplicatedKeeps(Sorted(KeyBefore, ranges));
    AcceptedExactly(Offered(scope, configured, leased));
  }

  lemma {:induction false} FilteredPlaces(policy: Policy.EffectivePolicy, ranges: seq<AddressRange>)
    returns (places: seq<nat>)
    ensures |places| == |PolicyFiltered(policy, ranges)|
    ensures forall k :: 0 <= k < |places| ==>
              places[k] < |ranges| && PolicyFiltered(policy, ranges)[k] == ranges[places[k]]
    ensures forall k, l :: 0 <= k < l < |places| ==> places[k] < places[l]
  {
    if ranges == [] {
      places := [];
    } else {
      var n := |ranges| - 1;
      places := FilteredPlaces(policy, ranges[..n]);
      if Policy.AuthorizesRange(policy, ranges[n].start, ranges[n].end) {
        places := places + [n];
      }
    }
  }

  /** Building a session's advertisement never fails, whatever its target, addresses and policy. */
  lemma AdvertisementNeverFails(scope: AuthorizedIpScope, configured: seq<IpNet>, leased: seq<IpNet>,
                                policy: Policy.EffectivePolicy)
    requires NeighboursOk(configured)
    ensures RouteAdvertisement(scope, configured, leased, policy).Ok?
    ensures Valid(RouteAdvertisement(scope, configured, leased, policy).value)
  {
    var ranges := Offered(scope, configured, leased);
    OfferedIsValid(scope, configured, leased);
    var places := FilteredPlaces(policy, ranges);
    SublistValid(ranges, PolicyFiltered(policy, ranges), places);
    AcceptedExactly(PolicyFiltered(policy, ranges));
  }

  lemma {:induction false} FilteredExactly(policy: Policy.EffectivePolicy, ranges: seq<AddressRange>,
                                           range: AddressRange)
    ensures range in PolicyFiltered(policy, ranges) <==>
              range in ranges && Policy.AuthorizesRange(policy, range.start, range.end)
  {
    if ranges != [] {
      var n := |ranges| - 1;
      FilteredExactly(policy, ranges[..n], range);
      assert ranges == ranges[..n] + [ranges[n]];
    }
  }

  /** What is advertised is what the session offers and the policy lets packets go to as a whole. */
  lemma AdvertisedExactly(scope: AuthorizedIpScope, configured: seq<IpNet>, leased: seq<IpNet>,
                          policy: Policy.EffectivePolicy, range: AddressRange)
    requires NeighboursOk(configured)
    ensures RouteAdvertisement(scope, configured, leased, policy).Ok?
    ensures range in RouteAdvertisement(scope, configured, leased, policy).value <==>
              range in Offered(scope, configured, leased) && Policy.AuthorizesRange(policy, range.start, range.end)
  {
    AdvertisementNeverFails(scope, configured, leased, policy);
    FilteredExactly(policy, Offered(scope, configured, leased), range);
  }

  // ----- What the advertisement covers -----

  predicate Covered(ranges: seq<AddressRange>, address: IpAddr) {
    exists r :: r in ranges && RangeContains(r, address)
  }

  /** Sorting and deduplicating neither lose a range nor add one. */
  lemma OfferedAre(scope: AuthorizedIpScope, configured: seq<IpNet>, leased: seq<IpNet>, r: AddressRange)
    ensures r in Offered(scope, configured, leased) <==>
              r in Ranges(Networks(scope.target, configured), leased, ProtocolNumber(scope.protocol))
  {
    var ranges := Ranges(Networks(scope.target, configured), leased, ProtocolNumber(scope.protocol));
    SortedKeeps(KeyBefore, ranges);
    DeduplicatedKeeps(Sorted(KeyBefore, ranges));
  }

  lemma RangesCover(networks: seq<IpNet>, leased: seq<IpNet>, protocol: Byte, address: IpAddr)
    ensures Covered(Ranges(networks, leased, protocol), address) <==>
              Served(leased, address.family) && Policy.InSome(networks, address)
  {
    RangesAre(networks, leased, protocol);
    if i :| 0 <= i < |networks| && Contains(networks[i], address) {
      assert RangeContains(RangeOf(networks[i], protocol), address);
      if Served(leased, address.family) {
        assert FromNetwork(networks, leased, protocol, RangeOf(networks[i], protocol));
      }
    }
    if r :| r in Ranges(networks, leased, protocol) && RangeContains(r, address) {
      var net :| net in networks && Served(leased, net.addr.family) && r == RangeOf(net, protocol);
      assert Contains(net, address);
    }
  }

  lemma OfferedCovers(scope: AuthorizedIpScope, configured: seq<IpNet>, leased: seq<IpNet>, address: IpAddr)
    ensures Covered(Offered(scope, configured, leased), address) <==>
            Served(leased, address.family) && Policy.InSome(Networks(scope.target, configured), address)
  {
    forall r ensures r in Offered(scope, configured, leased) <==>
                     r in Ranges(Networks(scope.target, configured), leased, ProtocolNumber(scope.protocol))
    {
      OfferedAre(scope, configured, leased, r);
    }
    RangesCover(Networks(scope.target, configured), leased, ProtocolNumber(scope.protocol), address);
  }

  /** Nothing outside the configured routes is offered, unless the target was resolved to addresses. */
  lemma OfferedInsideConfigured(scope: AuthorizedIpScope, configured: seq<IpNet>, leased: seq<IpNet>, address: IpAddr)
    requires !scope.target.Resolved? && Covered(Offered(scope, configured, leased), address)
    ensures Policy.InSome(configured, address)
  {
    OfferedCovers(scope, configured, leased, address);
    if scope.target.Prefix? {
      IntersectionsAre(scope.target.net, configured);
      var networks := Networks(scope.target, configured);
      var i :| 0 <= i < |networks| && Contains(networks[i], address);
      assert FromRoute(scope.target.net, configured, networks[i]);
      var route :| route in configured && NetworkIntersection(scope.target.net, route) == Some(networks[i]);
      IntersectionIsInside(scope.target.net, route);
    }
  }

  /**
    No address is advertised that the policy would then refuse. For IPv6 a role must have accepted the range
    that keeps its promise.
   */
  lemma AdvertisedIsAuthorized(scope: AuthorizedIpScope, configured: seq<IpNet>, leased: seq<IpNet>,
                               policy: Policy.EffectivePolicy, range: AddressRange, address: IpAddr)
    requires NeighboursOk(configured) && RouteAdvertisement(scope, configured, leased, policy).Ok?
    requires range in RouteAdvertisement(scope, configured, leased, policy).value
    requires RangeContains(range, address) && (address.family.V6? ==> Policy.KeptV6(policy, range.start, range.end))
    ensures Policy.AuthorizesDestination(policy, address)
  {
    AdvertisedExactly(scope, configured, leased, policy, range);
    AdvertisementNeverFails(scope, configured, leased, policy);
    assert WellFormed(range);
    Policy.RangeSound(policy, range.start, range.end, address);
  }

  /** `destination_matches`: a search of the resolved addresses, which the resolver has sorted. */
  predicate DestinationMatches(scope: AuthorizedIpScope, address: IpAddr) {
    match scope.target
    case AnyTarget => true
    case Prefix(net) => Contains(net, address)
    case Resolved(addresses) => address in addresses
  }

  lemma IntersectionCovers(target: IpNet, route: IpNet, address: IpAddr)
    requires Contains(target, address) && Contains(route, address)
    ensures NetworkIntersection(target, route).Some?
    ensures Contains(NetworkIntersection(target, route).value, address)
  {
    NestedOrDisjoint(target, route);
  }

  /** Every configured address the scope lets packets go to is offered, for the families the client was given. */
  lemma OfferedCoversTarget(scope: AuthorizedIpScope, configured: seq<IpNet>, leased: seq<IpNet>, address: IpAddr)
    requires DestinationMatches(scope, address) && Served(leased, address.family)
    requires scope.target.Resolved? || Policy.InSome(configured, address)
    ensures Covered(Offered(scope, configured, leased), address)
  {
    OfferedCovers(scope, configured, leased, address);
    var networks := Networks(scope.target, configured);
    match scope.target
    case AnyTarget =>
    case Prefix(net) =>
      var j :| 0 <= j < |configured| && Contains(configured[j], address);
      IntersectionCovers(net, configured[j], address);
      IntersectionsAre(net, configured);
      var cut := NetworkIntersection(net, configured[j]).value;
      assert FromRoute(net, configured, cut);
      assert cut in networks;
    case Resolved(addresses) =>
      var i :| 0 <= i < |addresses| && addresses[i] == address;
      HostBlock(address, address);
      assert networks[i] == HostPrefix(address);
  }

  /** A resolved target is offered exactly, in the families the client was given. */
  lemma ResolvedOfferedExactly(scope: AuthorizedIpScope, configured: seq<IpNet>, leased: seq<IpNet>, address: IpAddr)
    requires scope.target.Resolved?
    ensures Covered(Offered(scope, configured, leased), address) <==>
            Served(leased, address.family) && DestinationMatches(scope, address)
  {
    OfferedCovers(scope, configured, leased, address);
    if DestinationMatches(scope, address) && Served(leased, address.family) {
      OfferedCoversTarget(scope, configured, leased, address);
    }
    var networks := Networks(scope.target, configured);
    if i :| 0 <= i < |networks| && Contains(networks[i], address) {
      HostBlock(scope.target.addresses[i], address);
    }
  }

  /**
    The intersection of two blocks is exact unless a wider route starts where the target starts: then the
    whole route is returned.
   */
  lemma IntersectionExactly(target: IpNet, route: IpNet)
    requires NetworkIntersection(target, route).Some?
    ensures (forall a :: Contains(NetworkIntersection(target, route).value, a) <==>
               Contains(target, a) && Contains(route, a)) <==>
            !(First(target) == First(route) && Last(target).value < Last(route).value)
  {
    NestedOrDisjoint(target, route);
    if First(target) == First(route) && Last(target).value < Last(route).value {
      assert Contains(route, Last(route)) && !Contains(target, Last(route));
    }
  }

  /** A configured route of a family the client was given that is wider than the target it starts with. */
  predicate Widens(target: IpNet, route: IpNet, leased: seq<IpNet>) {
    Served(leased, route.addr.family) && First(target) == First(route) && Last(target).value < Last(route).value
  }

  /**
    Nothing is offered that the scope does not match exactly when the target is not a prefix that some
    route widens. Of what it matches, nothing configured is left out either way.
   */
  lemma OfferedMatchesExactly(scope: AuthorizedIpScope, configured: seq<IpNet>, leased: seq<IpNet>)
    ensures (forall a :: Covered(Offered(scope, configured, leased), a) ==> DestinationMatches(scope, a)) <==>
            !(scope.target.Prefix? && exists route :: route in configured && Widens(scope.target.net, route, leased))
  {
    match scope.target
    case AnyTarget =>
    case Resolved(_) =>
      forall a | Covered(Offered(scope, configured, leased), a) ensures DestinationMatches(scope, a) {
        ResolvedOfferedExactly(scope, configured, leased, a);
      }
    case Prefix(target) =>
      if route :| route in configured && Widens(target, route, leased) {
        WidenedIsOffered(scope, configured, leased, route);
      } else {
        forall a | Covered(Offered(scope, configured, leased), a) ensures Contains(target, a) {
          OfferedIsMatched(scope, configured, leased, a);
        }
      }
  }

  lemma WidenedIsOffered(scope: AuthorizedIpScope, configured: seq<IpNet>, leased: seq<IpNet>, route: IpNet)
    requires scope.target.Prefix? && route in configured && Widens(scope.target.net, route, leased)
    ensures Covered(Offered(scope, configured, leased), Last(route)) && !Contains(scope.target.net, Last(route))
  {
    var target := scope.target.net;
    BlockInside(route);
    OfferedCovers(scope, configured, leased, Last(route));
    IntersectionsAre(target, configured);
    assert NetworkIntersection(target, route) == Some(route);
    assert FromRoute(target, configured, route);
    assert route in Networks(scope.target, configured);
  }

  lemma OfferedIsMatched(scope: AuthorizedIpScope, configured: seq<IpNet>, leased: seq<IpNet>, a: IpAddr)
    requires scope.target.Prefix? && Covered(Offered(scope, configured, leased), a)
    requires !exists route :: route in configured && Widens(scope.target.net, route, leased)
    ensures Contains(scope.target.net, a)
  {
    var target, networks := scope.target.net, Networks(scope.target, configured);
    OfferedCovers(scope, configured, leased, a);
    IntersectionsAre(target, configured);
    var i :| 0 <= i < |networks| && Contains(networks[i], a);
    assert FromRoute(target, configured, networks[i]);
    var route :| route in configured && NetworkIntersection(target, route) == Some(networks[i]);
    IntersectionExactly(target, route);
  }

  /** A target, and a route that starts where it does and is wider: the whole route is offered. */
  lemma IntersectionCanWiden() returns (target: IpNet, route: IpNet, address: IpAddr)
    ensures NetworkIntersection(target, route) == Some(route)
    ensures Contains(route, address) && !Contains(target, address)
  {
    var short, long := 8, 16;
    target, route, address := Net(Addr(V4, 0x0A00_0000), long), Net(Addr(V4, 0x0A00_0000), short),
                              Addr(V4, 0x0AFF_FFFF);
    Policy.SizesV4(target);
    Policy.SizesV4(route);
    BlockBounds(target, 0x1_0000, 0xA00);
    BlockBounds(route, 0x100_0000, 0xA);
  }

  /** Tunnels are refused when no leased address is of a family the target has. */
  predicate HasCompatibleAssignment(scope: AuthorizedIpScope, leased: seq<IpNet>) {
    match scope.target
    case AnyTarget => leased != []
    case Prefix(net) => Served(leased, net.addr.family)
    case Resolved(addresses) => exists i :: 0 <= i < |addresses| && Served(leased, addresses[i].family)
  }

  /** The routes a tunnel may be offered something of. */
  predicate Usable(scope: AuthorizedIpScope, route: IpNet, leased: seq<IpNet>) {
    Served(leased, route.addr.family) && (scope.target.Prefix? ==> Policy.NetworksOverlap(scope.target.net, route))
  }

  lemma OffersSomething(scope: AuthorizedIpScope, configured: seq<IpNet>, leased: seq<IpNet>)
    ensures Offered(scope, configured, leased) != [] <==>
              exists net :: net in Networks(scope.target, configured) && Served(leased, net.addr.family)
  {
    var networks, protocol := Networks(scope.target, configured), ProtocolNumber(scope.protocol);
    var ranges := Ranges(networks, leased, protocol);
    RangesAre(networks, leased, protocol);
    if net :| net in networks && Served(leased, net.addr.family) {
      assert FromNetwork(networks, leased, protocol, RangeOf(net, protocol));
    }
    if ranges != [] {
      assert ranges[0] in ranges;
    }
  }

  /**
    A tunnel with a route to offer was found compatible. A compatible one has a route when its target was
    resolved to addresses, and otherwise exactly when some configured route is usable for it.
   */
  lemma CompatibleTunnelsHaveRoutes(scope: AuthorizedIpScope, configured: seq<IpNet>, leased: seq<IpNet>)
    ensures Offered(scope, configured, leased) != [] ==> HasCompatibleAssignment(scope, leased)
    ensures HasCompatibleAssignment(scope, leased) ==>
              (Offered(scope, configured, leased) != [] <==>
               scope.target.Resolved? || exists route :: route in configured && Usable(scope, route, leased))
  {
    OffersSomething(scope, configured, leased);
    var networks := Networks(scope.target, configured);
    match scope.target
    case AnyTarget =>
    case Prefix(net) =>
      IntersectionsAre(net, configured);
      if route :| route in configured && Usable(scope, route, leased) {
        assert FromRoute(net, configured, NetworkIntersection(net, route).value);
      }
    case Resolved(addresses) =>
      if i :| 0 <= i < |addresses| && Served(leased, addresses[i].family) {
        assert networks[i] in networks;
      }
  }
}
