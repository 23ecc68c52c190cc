/** What a session makes of packets from its client and from the tunnel, and the errors it sends back. */
module ClientPackets {
  import opened Wrappers
  import opened Bytes
  import opened Net
  import opened RouteRanges
  import opened IcmpErrors
  import IpRegistry
  import IpScope
  import Packets
  import Policy
  import RegistryRuns

  datatype DropReason = Malformed | Oversized | SourceAddress | Destination | Protocol

  /** A session handle: the session the registry holds, and what only the checks of packets read. */
  datatype Handle = Handle(session: IpRegistry.Session, scope: IpScope.AuthorizedIpScope, mtu: nat)

  /** The configuration's least MTU, in the 32 bits of the source. */
  predicate Configured(h: Handle) {
    1280 <= h.mtu < 0x1_0000_0000
  }

  predicate Reachable(h: Handle, address: IpAddr) {
    IpScope.DestinationMatches(h.scope, address) && Policy.AuthorizesDestination(h.session.policy, address)
  }

  predicate Speaks(h: Handle, protocol: Byte) {
    && (|| IsIcmp(protocol) || h.scope.protocol.AnyProtocol?
        || (h.scope.protocol.Number? && h.scope.protocol.protocol == protocol))
    && Policy.AuthorizesProtocol(h.session.policy, protocol)
  }

  // ----- The checks of the source -----

  function FromClient(h: Handle, view: Packets.PacketView): Result<(), DropReason>
    requires Packets.WellSized(view)
  {
    if !IpRegistry.Owns(h.session, Packets.Source(view)) then Err(SourceAddress)
    else if !Reachable(h, Packets.Destination(view)) then Err(Destination)
    else if !Speaks(h, Packets.Protocol(view)) then Err(Protocol)
    else Ok(())
  }

  /** The packet an ICMP error quotes must be one the client could have sent. */
  function FromTun(h: Handle, view: Packets.PacketView): Result<(), DropReason>
    requires Packets.WellSized(view)
  {
    var address, protocol := Packets.Destination(view), Packets.Protocol(view);
    if !IpRegistry.Accepts(h.session, address, protocol) then Err(Destination)
    else if IsIcmp(protocol) && Packets.Invoking(view).Err? then Err(Malformed)
    else if IsIcmp(protocol) && Packets.Invoking(view).value.Some? then
      FromClient(h, Packets.Invoking(view).value.value)
    else if !Reachable(h, Packets.Source(view)) then Err(SourceAddress)
    else if !Speaks(h, protocol) then Err(Protocol)
    else Ok(())
  }

  /** `validate` of a packet from the client. */
  function Validated(h: Handle, payload: seq<Byte>): Result<(), DropReason> {
    if payload == [] || |payload| > h.mtu then Err(Oversized)
    else
      match Packets.Parsed(payload)
      case Err(_) => Err(Malformed)
      case Ok(view) => FromClient(h, view)
  }

  /** The kind of error a refusal is reported as; a malformed packet is not reported. */
  function KindOf(h: Handle, reason: DropReason): Option<IcmpErrorKind> {
    match reason
    case Destination => Some(NoRoute)
    case Protocol => Some(NoRoute)
    case SourceAddress => Some(SourcePolicy)
    case Oversized => Some(PacketTooBig(h.mtu))
    case Malformed => None
  }

  /** `find` of an assigned address of a family. */
  method SourceFor(h: Handle, family: Family) returns (source: Option<IpAddr>)
    ensures source.None? ==> forall i :: 0 <= i < |h.session.prefixes| ==> h.session.prefixes[i].addr.family != family
    ensures source.Some? ==> exists i :: 0 <= i < |h.session.prefixes| && source.value == First(h.session.prefixes[i])
    ensures source.Some? ==> source.value.family == family
  {
    for i := 0 to |h.session.prefixes|
      invariant forall k :: 0 <= k < i ==> h.session.prefixes[k].addr.family != family
    {
      if h.session.prefixes[i].addr.family == family {
        return Some(First(h.session.prefixes[i]));
      }
    }
    return None;
  }

  /** The source may be told: its address is the session's own, and the refusal is one that is reported. */
  predicate Tells(h: Handle, payload: seq<Byte>, reason: DropReason) {
    && KindOf(h, reason).Some? && Packets.ParsedPrefix(payload).Ok?
    && IpRegistry.Owns(h.session, Packets.Source(Packets.ParsedPrefix(payload).value))
  }

  /** An error that answers `payload` as `kind`, whole, within the MTU, from the session to its own client. */
  ghost predicate Reports(h: Handle, payload: seq<Byte>, kind: IcmpErrorKind, error: seq<Byte>) {
    && Packets.Parsed(error).Ok? && 0 < |error| <= h.mtu
    && (exists i :: && 0 <= i < |h.session.prefixes|
                    && Packets.Source(Packets.Parsed(error).value) == First(h.session.prefixes[i])
                    && Answers(error, payload, First(h.session.prefixes[i]), kind))
    && Packets.ParsedPrefix(payload).Ok?
    && Packets.Destination(Packets.Parsed(error).value) == Packets.Source(Packets.ParsedPrefix(payload).value)
    && IpRegistry.Owns(h.session, Packets.Destination(Packets.Parsed(error).value))
  }

  lemma BuiltErrorReports(h: Handle, payload: seq<Byte>, kind: IcmpErrorKind, error: seq<Byte>, i: nat)
    requires Configured(h) && i < |h.session.prefixes| && Answers(error, payload, First(h.session.prefixes[i]), kind)
    requires IpRegistry.Owns(h.session, Packets.Source(Packets.ParsedPrefix(payload).value))
    ensures Reports(h, payload, kind, error)
  {
    var view := Packets.ParsedPrefix(payload).value;
    var quote := payload[..QuoteLength(payload, view)];
    if view.Ipv4? {
      ErrorV4IsWhole(error, quote, First(h.session.prefixes[i]), Packets.Source(view), kind);
    } else {
      ErrorV6IsWhole(error, quote, First(h.session.prefixes[i]), Packets.Source(view), kind);
    }
  }

  /**
    `enqueue_forwarding_error`, up to the client's queue. When the client may be told at all, an address of
    its family is always found, building the error never fails, and it is never too large to send.
   */
  method ForwardingError(h: Handle, payload: seq<Byte>, reason: DropReason) returns (error: Option<seq<Byte>>)
    requires Configured(h)
    ensures error.Some? <==> Tells(h, payload, reason)
    ensures error.Some? ==> Reports(h, payload, KindOf(h, reason).value, error.value)
  {
    var kind := KindOf(h, reason);
    if kind.None? {
      return None;
    }
    var parsed := Packets.ParsePrefix(payload);
    if parsed.Err? {
      return None;
    }
    var sender := Packets.Source(parsed.value);
    if !IpRegistry.Owns(h.session, sender) {
      return None;
    }
    var source := SourceFor(h, sender.family);
    if source.None? {
      return None;
    }
    var built := BuildError(payload, source.value, kind.value);
    if built.Err? {
      return None;
    }
    ghost var i :| 0 <= i < |h.session.prefixes| && source.value == First(h.session.prefixes[i]);
    BuiltErrorReports(h, payload, kind.value, built.value, i);
    if built.value == [] || |built.value| > h.mtu {
      return None;
    }
    return Some(built.value);
  }

  /**
    Which refusals the client hears of: a packet from its own address that is too long, or that goes where
    it may not.
   */
  predicate Told(h: Handle, payload: seq<Byte>) {
    && Packets.ParsedPrefix(payload).Ok?
    && IpRegistry.Owns(h.session, Packets.Source(Packets.ParsedPrefix(payload).value))
    && (|| |payload| > h.mtu
        || (Packets.Parsed(payload).Ok?
            && !(Reachable(h, Packets.Destination(Packets.Parsed(payload).value))
                 && Speaks(h, Packets.Protocol(Packets.Parsed(payload).value)))))
  }

  /**
    `try_send`, up to the rate limit: the verdict, and the error the client is sent. Of a source that is not
    its own the client never hears, although there is a kind of error for that.
   */
  method TrySend(h: Handle, payload: seq<Byte>) returns (verdict: Result<(), DropReason>, error: Option<seq<Byte>>)
    requires Configured(h)
    ensures verdict == Validated(h, payload)
    ensures error.Some? <==> Told(h, payload)
    ensures error.Some? ==>
              && verdict.Err? && KindOf(h, verdict.error) in {Some(NoRoute), Some(PacketTooBig(h.mtu))}
              && Reports(h, payload, KindOf(h, verdict.error).value, error.value)
  {
    if payload == [] || |payload| > h.mtu {
      verdict := Err(Oversized);
    } else {
      var parsed := Packets.ParsePrefix(payload);
      verdict := if parsed.Err? || parsed.value.totalLen != |payload| then Err(Malformed)
                 else FromClient(h, parsed.value);
    }
    error := None;
    if verdict.Err? {
      error := ForwardingError(h, payload, verdict.error);
    }
  }

  // ----- Answers find their way back -----

  /** What dispatch sees of a packet; an ICMP error whose quote does not parse counts as quoting nothing. */
  function FactsOf(view: Packets.PacketView): IpRegistry.PacketFacts
    requires Packets.WellSized(view)
  {
    var invoking := Packets.Invoking(view);
    IpRegistry.PacketFacts(
      Packets.Destination(view), Packets.Protocol(view),
      if invoking.Ok? && invoking.value.Some?
      then Some((Packets.Destination(invoking.value.value), Packets.Protocol(invoking.value.value)))
      else None)
  }

  /**
    The answer to a packet the session let through, from where that went to where it came from, is
    dispatched to the same session and let through by it.
   */
  lemma RepliesComeBack(r: IpRegistry.Registry, k: IpRegistry.SessionKey, h: Handle, sent: Packets.PacketView,
                        reply: Packets.PacketView)
    requires RegistryRuns.Coherent(r) && k in r.streams && r.streams[k] == h.session
    requires Packets.WellSized(sent) && FromClient(h, sent).Ok?
    requires Packets.WellSized(reply) && Packets.Invoking(reply) == Ok(None)
    requires Packets.Source(reply) == Packets.Destination(sent) && Packets.Destination(reply) == Packets.Source(sent)
    requires Packets.Protocol(reply) == Packets.Protocol(sent)
    ensures IpRegistry.Selected(r, FactsOf(reply)) == Some(k)
    ensures FromTun(h, reply).Ok?
  {
    RegistryRuns.OwnerComesFirst(r, k, FactsOf(reply));
  }

  /** So is an ICMP error, from anywhere, that quotes a packet the session let through. */
  lemma ErrorsComeBack(r: IpRegistry.Registry, k: IpRegistry.SessionKey, h: Handle, sent: Packets.PacketView,
                       error: Packets.PacketView)
    requires RegistryRuns.Coherent(r) && k in r.streams && r.streams[k] == h.session
    requires Packets.WellSized(sent) && FromClient(h, sent).Ok?
    requires Packets.WellSized(error) && Packets.Destination(error) == Packets.Source(sent)
    requires Packets.Invoking(error).Ok? && Packets.Invoking(error).value.Some?
    requires SameInvocation(Packets.Invoking(error).value.value, sent)
    ensures IpRegistry.Selected(r, FactsOf(error)) == Some(k)
    ensures FromTun(h, error).Ok?
  {
    RegistryRuns.OwnerComesFirst(r, k, FactsOf(error));
  }
}
