/**
  The registry of live IP sessions and its dispatch index.

  A session handle is shared between the registry and the calls in flight. It is modelled by a handle
  number: what is committed through a handle shows in every stream that holds it.
 */
module IpRegistry {
  import opened Basics
  import opened Wrappers
  import opened Bytes
  import opened Net
  import opened RouteRanges
  import Policy
  import RouteCapsule

  const MAX_REGISTRY_ROUTES: nat := 4_096
  const MAX_SESSION_ROUTES: nat := 256

  datatype SessionKey = SessionKey(connectionId: nat, streamId: nat)

  datatype Session = Session(handle: nat, prefixes: seq<IpNet>, policy: Policy.EffectivePolicy,
                             routes: seq<AddressRange>)

  datatype RegisteredRoute = RegisteredRoute(range: AddressRange, session: SessionKey)

  datatype ControlError =
    | Route(error: RouteError)
    | OutsidePolicy
    | RouteLimit
    | RouteConflict
    | RouteCapacity
    | SessionClosed

  datatype Registry = Registry(
    streams: map<SessionKey, Session>,
    addresses: map<IpAddr, SessionKey>,
    routes: seq<RegisteredRoute>)

  // ----- What a session accepts for itself -----

  predicate RangePermitted(policy: Policy.EffectivePolicy, range: AddressRange) {
    range.protocol != 0 ==> Policy.AuthorizesProtocol(policy, range.protocol)
  }

  ghost predicate WithinPolicy(policy: Policy.EffectivePolicy, ranges: seq<AddressRange>) {
    forall r :: r in ranges ==> RangePermitted(policy, r) && Policy.AuthorizesRange(policy, r.start, r.end)
  }

  /** `validate_routes`: the advertisement a capsule holds, if the session may have it. */
  ghost function ValidatedRoutes(session: Session, value: seq<Byte>): Result<seq<AddressRange>, ControlError> {
    match RouteCapsule.Decoded(value)
    case Err(error) => Err(Route(error))
    case Ok(next) =>
      if |next| > MAX_SESSION_ROUTES then Err(RouteLimit)
      else if !WithinPolicy(session.policy, next) then Err(OutsidePolicy)
      else Ok(next)
  }

  method ValidateRoutes(session: Session, value: seq<Byte>) returns (r: Result<seq<AddressRange>, ControlError>)
    ensures r == ValidatedRoutes(session, value)
  {
    var decoded := RouteCapsule.Decode(value);
    if decoded.Err? {
      return Err(Route(decoded.error));
    }
    var next := decoded.value;
    if |next| > MAX_SESSION_ROUTES {
      return Err(RouteLimit);
    }
    for i := 0 to |next|
      invariant WithinPolicy(session.policy, next[..i])
    {
      var range := next[i];
      assert range in next;
      if !RangePermitted(session.policy, range) {
        return Err(OutsidePolicy);
      }
      var authorized := Policy.AuthorizeDestinationRange(session.policy, range.start, range.end);
      if !authorized {
        return Err(OutsidePolicy);
      }
      assert next[..i + 1] == next[..i] + [range];
    }
    assert next[..|next|] == next;
    return Ok(next);
  }

  predicate Owns(session: Session, address: IpAddr) {
    exists i :: 0 <= i < |session.prefixes| && Contains(session.prefixes[i], address)
  }

  predicate RoutesTo(session: Session, destination: IpAddr, protocol: Byte) {
    exists r :: r in session.routes && Permits(r, destination, protocol)
  }

  /** `reverse_destination_matches`: the session's own answer to a packet from the tunnel side. */
  predicate Accepts(session: Session, destination: IpAddr, protocol: Byte) {
    Owns(session, destination) || RoutesTo(session, destination, protocol)
  }

  // ----- The order of registered routes -----

  /** Lexicographic: IPv6 before IPv4, then protocol, start, end, connection and stream. */
  predicate RankLess(a: RegisteredRoute, b: RegisteredRoute) {
    var fa, fb := Version(a.range.start), Version(b.range.start);
    fa > fb || (fa == fb && (
      a.range.protocol < b.range.protocol || (a.range.protocol == b.range.protocol && (
        a.range.start.value < b.range.start.value || (a.range.start.value == b.range.start.value && (
          Below(a.range.end, b.range.end) || (a.range.end == b.range.end && (
            a.session.connectionId < b.session.connectionId || (a.session.connectionId == b.session.connectionId
              && a.session.streamId < b.session.streamId)))))))))
  }

  lemma RankIsTotal(a: RegisteredRoute, b: RegisteredRoute)
    ensures a == b || RankLess(a, b) || RankLess(b, a)
    ensures !(RankLess(a, b) && RankLess(b, a))
  {
  }

  predicate StrictlyRanked(routes: seq<RegisteredRoute>) {
    forall i, j :: 0 <= i < j < |routes| ==> RankLess(routes[i], routes[j])
  }

  lemma AppendedRanks(front: seq<RegisteredRoute>, last: RegisteredRoute)
    requires StrictlyRanked(front) && forall r :: r in front ==> RankLess(r, last)
    ensures StrictlyRanked(front + [last])
  {
    assert forall i :: 0 <= i < |front| ==> front[i] in front;
  }

  /** Sorting routes that are all different ranks them strictly. */
  lemma SortingRanks(routes: seq<RegisteredRoute>)
    requires Distinct(routes)
    ensures StrictlyRanked(Sorted(RankLess, routes))
  {
    var sorted := Sorted(RankLess, routes);
    SortedOrders(RankLess, routes);
    SortedDistinct(RankLess, routes);
    assert Ordered(RankLess, sorted);
    forall i, j | 0 <= i < j < |sorted| ensures RankLess(sorted[i], sorted[j]) {
      RankIsTotal(sorted[i], sorted[j]);
      assert !RankLess(sorted[j], sorted[i]) && sorted[i] != sorted[j];
    }
  }

  // ----- The operations, on values -----

  function Retained(routes: seq<RegisteredRoute>, key: SessionKey): (r: seq<RegisteredRoute>)
    ensures |r| <= |routes|
  {
    if routes == [] then []
    else
      var n := |routes| - 1;
      Retained(routes[..n], key) + if routes[n].session != key then [routes[n]] else []
  }

  lemma {:induction false} RetainedKeeps(routes: seq<RegisteredRoute>, key: SessionKey)
    ensures forall r :: r in Retained(routes, key) <==> r in routes && r.session != key
  {
    if routes != [] {
      var n := |routes| - 1;
      RetainedKeeps(routes[..n], key);
      assert routes == routes[..n] + [routes[n]];
    }
  }

  lemma {:induction false} RetainedRanks(routes: seq<RegisteredRoute>, key: SessionKey)
    requires StrictlyRanked(routes)
    ensures StrictlyRanked(Retained(routes, key))
  {
    if routes != [] {
      var n := |routes| - 1;
      RetainedRanks(routes[..n], key);
      RetainedKeeps(routes[..n], key);
      if routes[n].session != key {
        forall r | r in Retained(routes[..n], key) ensures RankLess(r, routes[n]) {
          var i :| 0 <= i < n && routes[i] == r;
        }
        AppendedRanks(Retained(routes[..n], key), routes[n]);
      }
    }
  }

  function Tagged(ranges: seq<AddressRange>, key: SessionKey): seq<RegisteredRoute> {
    seq(|ranges|, i requires 0 <= i < |ranges| => RegisteredRoute(ranges[i], key))
  }

  predicate Taken(r: Registry, session: Session) {
    exists i :: 0 <= i < |session.prefixes| && First(session.prefixes[i]) in r.addresses
  }

  /** The addresses of the first `n` prefixes, all pointing at one session. */
  function Claimed(addresses: map<IpAddr, SessionKey>, prefixes: seq<IpNet>, key: SessionKey): map<IpAddr, SessionKey> {
    if prefixes == [] then addresses
    else
      var n := |prefixes| - 1;
      Claimed(addresses, prefixes[..n], key)[First(prefixes[n]) := key]
  }

  /** Some prefix starts at this address. */
  predicate Starts(prefixes: seq<IpNet>, address: IpAddr) {
    exists i :: 0 <= i < |prefixes| && First(prefixes[i]) == address
  }

  lemma StartsSnoc(prefixes: seq<IpNet>, address: IpAddr)
    requires prefixes != []
    ensures Starts(prefixes, address) <==>
              Starts(prefixes[..|prefixes| - 1], address) || First(prefixes[|prefixes| - 1]) == address
  {
    var n := |prefixes| - 1;
    if i :| 0 <= i < |prefixes| && First(prefixes[i]) == address {
      if i < n {
        assert prefixes[..n][i] == prefixes[i];
      }
    }
  }

  lemma {:induction false} ClaimedAre(addresses: map<IpAddr, SessionKey>, prefixes: seq<IpNet>, key: SessionKey,
                                      a: IpAddr)
    ensures a in Claimed(addresses, prefixes, key) <==> a in addresses || Starts(prefixes, a)
    ensures Starts(prefixes, a) ==> Claimed(addresses, prefixes, key)[a] == key
    ensures !Starts(prefixes, a) && a in addresses ==> Claimed(addresses, prefixes, key)[a] == addresses[a]
  {
    if prefixes != [] {
      ClaimedAre(addresses, prefixes[..|prefixes| - 1], key, a);
      StartsSnoc(prefixes, a);
    }
  }

  function Inserted(r: Registry, key: SessionKey, session: Session): (Registry, bool) {
    if key in r.streams || Taken(r, session) then (r, false)
    else (Registry(r.streams[key := session], Claimed(r.addresses, session.prefixes, key), r.routes), true)
  }

  function Forgotten(addresses: map<IpAddr, SessionKey>, key: SessionKey): map<IpAddr, SessionKey> {
    map a | a in addresses && addresses[a] != key :: addresses[a]
  }

  function Removed(r: Registry, key: SessionKey): (Registry, Option<Session>) {
    if key !in r.streams then (r, None)
    else (Registry(r.streams - {key},
                   Forgotten(r.addresses, key),
                   Retained(r.routes, key)),
          Some(r.streams[key]))
  }

  predicate ConflictsElsewhere(routes: seq<RegisteredRoute>, key: SessionKey, next: seq<AddressRange>) {
    exists c, r :: c in next && r in routes && r.session != key && ConflictsWith(c, r.range)
  }

  /** `validate_replacement`. */
  function ReplacementError(r: Registry, key: SessionKey, next: seq<AddressRange>): Option<ControlError> {
    if |Retained(r.routes, key)| + |next| > MAX_REGISTRY_ROUTES then Some(RouteCapacity)
    else if ConflictsElsewhere(r.routes, key, next) then Some(RouteConflict)
    else None
  }

  /** `commit_routes`, seen through every stream that shares the handle. */
  function Committed(streams: map<SessionKey, Session>, handle: nat, next: seq<AddressRange>): map<SessionKey,
                     Session> {
    map k | k in streams :: if streams[k].handle == handle then streams[k].(routes := next) else streams[k]
  }

  /** The second half of `replace_routes`, under the lock. */
  function Replaced(r: Registry, key: SessionKey, handle: nat, next: seq<AddressRange>)
    : (Registry, Result<(), ControlError>)
  {
    if key !in r.streams then (r, Err(SessionClosed))
    else
      match ReplacementError(r, key, next)
      case Some(error) => (r, Err(error))
      case None =>
        (Registry(Committed(r.streams, handle, next), r.addresses,
                  Sorted(RankLess, Retained(r.routes, key) + Tagged(next, key))),
         Ok(()))
  }

  /** What a packet looks like to dispatch: its destination and protocol, and the packet an ICMP error quotes. */
  datatype PacketFacts = PacketFacts(destination: IpAddr, protocol: Byte, invoking: Option<(IpAddr, Byte)>)

  predicate RouteMatches(route: RegisteredRoute, packet: PacketFacts) {
    if IsIcmp(packet.protocol) && packet.invoking.Some?
    then Permits(route.range, packet.invoking.value.0, packet.invoking.value.1)
    else Permits(route.range, packet.destination, packet.protocol)
  }

  function FirstMatch(routes: seq<RegisteredRoute>, packet: PacketFacts): Option<SessionKey> {
    if routes == [] then None
    else if RouteMatches(routes[0], packet) then Some(routes[0].session)
    else FirstMatch(routes[1..], packet)
  }

  function Selected(r: Registry, packet: PacketFacts): Option<SessionKey> {
    if packet.destination in r.addresses then Some(r.addresses[packet.destination])
    else FirstMatch(r.routes, packet)
  }

  // ----- The registry of the source -----

  class IpSessionRegistry {
    var streams: map<SessionKey, Session>
    var addresses: map<IpAddr, SessionKey>
    var routes: seq<RegisteredRoute>

    function Contents(): Registry
      reads this
    {
      Registry(streams, addresses, routes)
    }

    constructor ()
      ensures Contents() == Registry(map[], map[], [])
    {
      streams, addresses, routes := map[], map[], [];
    }

    method Insert(key: SessionKey, session: Session) returns (done: bool)
      modifies this
      ensures (Contents(), done) == Inserted(old(Contents()), key, session)
    {
      if key in streams {
        return false;
      }
      for i := 0 to |session.prefixes|
        invariant forall k :: 0 <= k < i ==> First(session.prefixes[k]) !in addresses
        invariant Contents() == old(Contents())
      {
        if First(session.prefixes[i]) in addresses {
          return false;
        }
      }
      for i := 0 to |session.prefixes|
        invariant addresses == Claimed(old(addresses), session.prefixes[..i], key)
        invariant streams == old(streams) && routes == old(routes)
      {
        assert session.prefixes[..i + 1][..i] == session.prefixes[..i];
        addresses := addresses[First(session.prefixes[i]) := key];
      }
      assert session.prefixes[..|session.prefixes|] == session.prefixes;
      streams := streams[key := session];
      return true;
    }

    method Remove(key: SessionKey) returns (session: Option<Session>)
      modifies this
      ensures (Contents(), session) == Removed(old(Contents()), key)
    {
      if key !in streams {
        return None;
      }
      session := Some(streams[key]);
      streams := streams - {key};
      addresses := Forgotten(addresses, key);
      routes := Retained(routes, key);
    }

    /** The second critical section. A refusal leaves everything as it was. */
    method Replace(key: SessionKey, handle: nat, next: seq<AddressRange>) returns (r: Result<(), ControlError>)
      modifies this
      ensures (Contents(), r) == Replaced(old(Contents()), key, handle, next)
    {
      if key !in streams {
        return Err(SessionClosed);
      }
      var error := ReplacementError(Contents(), key, next);
      if error.Some? {
        return Err(error.value);
      }
      routes := Retained(routes, key);
      routes := routes + Tagged(next, key);
      routes := Sorted(RankLess, routes);
      streams := Committed(streams, handle, next);
      return Ok(());
    }

    /** `replace_routes`: look the session up, validate without the lock, then replace. */
    method ReplaceRoutes(key: SessionKey, value: seq<Byte>) returns (r: Result<(), ControlError>)
      modifies this
      ensures key in old(streams) && ValidatedRoutes(old(streams)[key], value).Ok? ==>
                (Contents(), r) == Replaced(old(Contents()), key, old(streams)[key].handle,
                                            ValidatedRoutes(old(streams)[key], value).value)
      ensures r.Err? ==> Contents() == old(Contents())
      ensures key !in old(streams) ==> r == Err(SessionClosed)
      ensures key in old(streams) && ValidatedRoutes(old(streams)[key], value).Err? ==>
                r == Err(ValidatedRoutes(old(streams)[key], value).error)
    {
      if key !in streams {
        return Err(SessionClosed);
      }
      var session := streams[key];
      var next := ValidateRoutes(session, value);
      if next.Err? {
        return Err(next.error);
      }
      r := Replace(key, session.handle, next.value);
    }

    method SelectSession(packet: PacketFacts) returns (key: Option<SessionKey>)
      ensures key == Selected(Contents(), packet)
    {
      if packet.destination in addresses {
        return Some(addresses[packet.destination]);
      }
      for i := 0 to |routes|
        invariant FirstMatch(routes, packet) == FirstMatch(routes[i..], packet)
      {
        assert routes[i..][1..] == routes[i + 1..];
        if RouteMatches(routes[i], packet) {
          return Some(routes[i].session);
        }
      }
      return None;
    }
  }
}
