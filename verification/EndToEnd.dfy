/** Where the parts meet: what arrives on a stream or in a packet means the same throughout. */
module EndToEnd {
  import opened Wrappers
  import opened Bytes
  import opened Net
  import opened RouteRanges
  import opened IpRegistry
  import opened RegistryRuns
  import Capsules
  import CapsuleDecoder
  import opened ClientPackets
  import IpScope
  import Packets
  import Policy
  import RouteCapsule

  // ----- Advertisements -----

  /** A capsule within its limit arrives whole, however the stream that carries it is cut into chunks. */
  lemma CapsuleArrives(limits: CapsuleDecoder.CapsuleLimits, capsule: Capsules.Capsule, chunks: seq<seq<Byte>>)
    requires Capsules.Encodable(capsule) && CapsuleDecoder.Flatten(chunks) == Capsules.Encoded(capsule)
    requires limits.ValueLimit(capsule.capsuleType).Some?
    requires |capsule.value| <= limits.ValueLimit(capsule.capsuleType).value
    ensures CapsuleDecoder.FeedChunks(limits, CapsuleDecoder.Header([]), chunks)
            == CapsuleDecoder.Progress(CapsuleDecoder.Header([]), [CapsuleDecoder.Complete(capsule)])
  {
    var rest: seq<Capsules.Capsule> := [];
    assert [capsule][1..] == rest;
    assert CapsuleDecoder.EncodedAll(rest) == [] && CapsuleDecoder.EventsOf(limits, rest) == [];
    assert CapsuleDecoder.EncodedAll([capsule]) == Capsules.Encoded(capsule);
    CapsuleDecoder.StreamRoundTrip(limits, [capsule], chunks);
  }

  /** The advertisement a server builds for a session: with configured routes it accepted, there always is one. */
  ghost function Advertised(scope: IpScope.AuthorizedIpScope, configured: seq<IpNet>, leased: seq<IpNet>,
                            policy: Policy.EffectivePolicy): (routes: seq<AddressRange>)
    requires IpScope.NeighboursOk(configured)
    ensures Valid(routes) && IpScope.RouteAdvertisement(scope, configured, leased, policy) == Ok(routes)
  {
    IpScope.AdvertisementNeverFails(scope, configured, leased, policy);
    IpScope.RouteAdvertisement(scope, configured, leased, policy).value
  }

  /** It reaches the client as it was. */
  lemma AdvertisementArrives(scope: IpScope.AuthorizedIpScope, configured: seq<IpNet>, leased: seq<IpNet>,
                             policy: Policy.EffectivePolicy, limits: CapsuleDecoder.CapsuleLimits,
                             capsule: Capsules.Capsule, chunks: seq<seq<Byte>>)
    requires IpScope.NeighboursOk(configured)
    requires capsule.capsuleType == Capsules.ROUTE_ADVERTISEMENT_CAPSULE && |capsule.value| <= limits.maxRouteBytes
    requires capsule.value == RouteCapsule.Encoded(Advertised(scope, configured, leased, policy))
    requires Capsules.Encodable(capsule) && CapsuleDecoder.Flatten(chunks) == Capsules.Encoded(capsule)
    ensures CapsuleDecoder.FeedChunks(limits, CapsuleDecoder.Header([]), chunks).events
            == [CapsuleDecoder.Complete(capsule)]
    ensures RouteCapsule.Decoded(capsule.value) == Ok(Advertised(scope, configured, leased, policy))
  {
    RouteCapsule.RoundTrip(Advertised(scope, configured, leased, policy));
    CapsuleArrives(limits, capsule, chunks);
  }

  /** A session takes over a client's valid advertisement exactly when it is not too long and within policy. */
  lemma AdvertisementAccepted(session: Session, routes: seq<AddressRange>)
    requires Valid(routes)
    ensures ValidatedRoutes(session, RouteCapsule.Encoded(routes)) == Ok(routes) <==>
              |routes| <= MAX_SESSION_ROUTES && WithinPolicy(session.policy, routes)
  {
    RouteCapsule.RoundTrip(routes);
  }

  // ----- Packets and dispatch -----

  /** `dispatch_tun`, up to sending: the session a packet from the tunnel goes to. */
  function Dispatched(r: Registry, packet: seq<Byte>): Option<SessionKey> {
    match Packets.Parsed(packet)
    case Err(_) => None
    case Ok(view) => Selected(r, FactsOf(view))
  }

  /** Any whole packet that quotes none goes to a session exactly when some live session would take it. */
  lemma DispatchOfOctets(r: Registry, packet: seq<Byte>, view: Packets.PacketView)
    requires Coherent(r) && Packets.Parsed(packet) == Ok(view) && Direct(FactsOf(view))
    ensures Dispatched(r, packet).Some? <==>
              exists k :: k in r.streams && Accepts(r.streams[k], Packets.Destination(view), Packets.Protocol(view))
    ensures Dispatched(r, packet).Some? ==>
              Dispatched(r, packet).value in r.streams
              && Accepts(r.streams[Dispatched(r, packet).value], Packets.Destination(view), Packets.Protocol(view))
  {
    DispatchIsExact(r, FactsOf(view));
  }

  lemma SameFacts(a: Packets.PacketView, b: Packets.PacketView)
    requires Packets.WellSized(a) && Packets.WellSized(b)
    requires Packets.Destination(a) == Packets.Destination(b) && Packets.Protocol(a) == Packets.Protocol(b)
    requires Packets.Payload(a) == Packets.Payload(b)
    ensures FactsOf(a) == FactsOf(b)
  {
  }

  /** Taking one from its hop limit does not change which session a packet belongs to. */
  lemma HopLimitDoesNotSteer(r: Registry, packet: seq<Byte>)
    requires Packets.Parsed(packet).Ok? && Packets.HopLimit(Packets.Parsed(packet).value) > 1
    ensures Dispatched(r, Packets.Decremented(packet, Packets.Parsed(packet).value)) == Dispatched(r, packet)
  {
    Packets.DecrementKeepsPacket(packet);
    var view := Packets.Parsed(packet).value;
    SameFacts(Packets.Parsed(Packets.Decremented(packet, view)).value, view);
  }
}
