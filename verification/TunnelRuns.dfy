/**
  The address pools and the session registry over the lives of tunnels: a tunnel leases its addresses, is
  registered with them, and gives them back only once it is registered no more.
 */
module TunnelRuns {
  import opened Wrappers
  import opened Net
  import opened IpRegistry
  import AddressPools
  import Policy
  import RegistryRuns

  datatype Phase = Opening | Registered | Closing

  /** The stream a tunnel serves, and its leases by number. */
  datatype Tunnel = Tunnel(key: SessionKey, leases: seq<nat>, phase: Phase)

  datatype World = World(registry: RegistryRuns.World, pools: AddressPools.World, tunnels: map<nat, Tunnel>)

  /** Each event is one critical section, of the registry or of one pool, or a change of a tunnel's own. */
  datatype Event =
    | Open(tunnel: nat, key: SessionKey)
    | Take(tunnel: nat, family: Family, lease: nat, outcome: Option<IpAddr>)
    | Insert(tunnel: nat, handle: nat, policy: Policy.EffectivePolicy)
    | Fail(tunnel: nat)
    | Control(event: RegistryRuns.Event)
    | Remove(tunnel: nat)
    | Drop(tunnel: nat)

  predicate In(w: World, tunnel: nat, phase: Phase) {
    tunnel in w.tunnels && w.tunnels[tunnel].phase == phase
  }

  function WithPhase(w: World, tunnel: nat, phase: Phase): map<nat, Tunnel>
    requires tunnel in w.tunnels
  {
    w.tunnels[tunnel := w.tunnels[tunnel].(phase := phase)]
  }

  predicate AllLive(leases: seq<nat>, live: map<nat, IpAddr>) {
    forall i :: 0 <= i < |leases| ==> leases[i] in live
  }

  /** What a session made of these leases is assigned. */
  function PrefixesOf(leases: seq<nat>, live: map<nat, IpAddr>): (prefixes: seq<IpNet>)
    requires AllLive(leases, live)
    ensures |prefixes| == |leases| && forall i :: 0 <= i < |leases| ==> prefixes[i] == HostPrefix(live[leases[i]])
  {
    seq(|leases|, i requires 0 <= i < |leases| => HostPrefix(live[leases[i]]))
  }

  function NewSession(w: World, tunnel: nat, handle: nat, policy: Policy.EffectivePolicy): Session
    requires tunnel in w.tunnels && AllLive(w.tunnels[tunnel].leases, w.pools.leases)
  {
    Session(handle, PrefixesOf(w.tunnels[tunnel].leases, w.pools.leases), policy, [])
  }

  /** A key is new to the server, as connection and stream numbers are. */
  predicate Unused(w: World, key: SessionKey) {
    key !in w.registry.keys && forall t :: t in w.tunnels ==> w.tunnels[t].key != key
  }

  ghost predicate Opens(w: World, tunnel: nat, key: SessionKey, v: World) {
    tunnel !in w.tunnels && Unused(w, key) && v == w.(tunnels := w.tunnels[tunnel := Tunnel(key, [], Opening)])
  }

  /** A pool's section; a pool that is exhausted gives nothing. */
  ghost predicate Takes(w: World, tunnel: nat, family: Family, lease: nat, outcome: Option<IpAddr>, v: World) {
    && In(w, tunnel, Opening)
    && AddressPools.Step(w.pools, AddressPools.Take(family, lease, outcome), v.pools)
    && v.registry == w.registry
    && v.tunnels == if outcome.None? then w.tunnels
                    else w.tunnels[tunnel := Tunnel(w.tunnels[tunnel].key, w.tunnels[tunnel].leases + [lease], Opening)]
  }

  ghost predicate Inserts(w: World, tunnel: nat, handle: nat, policy: Policy.EffectivePolicy, v: World) {
    && In(w, tunnel, Opening) && w.tunnels[tunnel].leases != []
    && AllLive(w.tunnels[tunnel].leases, w.pools.leases)
    && var insert := RegistryRuns.Insert(w.tunnels[tunnel].key, NewSession(w, tunnel, handle, policy));
       && RegistryRuns.Allowed(w.registry, insert)
       && v == World(RegistryRuns.Next(w.registry, insert), w.pools, WithPhase(w, tunnel, Registered))
  }

  ghost predicate Controls(w: World, e: RegistryRuns.Event, v: World) {
    && (e.LookUp? || e.Replace?) && RegistryRuns.Allowed(w.registry, e)
    && v == w.(registry := RegistryRuns.Next(w.registry, e))
  }

  ghost predicate Removes(w: World, tunnel: nat, v: World) {
    && In(w, tunnel, Registered)
    && v == World(RegistryRuns.Next(w.registry, RegistryRuns.Remove(w.tunnels[tunnel].key)), w.pools,
                  WithPhase(w, tunnel, Closing))
  }

  /** A closing tunnel gives back one lease. */
  ghost predicate Drops(w: World, tunnel: nat, v: World) {
    && In(w, tunnel, Closing) && w.tunnels[tunnel].leases != []
    && var t := w.tunnels[tunnel];
       && AddressPools.Step(w.pools, AddressPools.Drop(t.leases[0]), v.pools)
       && v.registry == w.registry && v.tunnels == w.tunnels[tunnel := Tunnel(t.key, t.leases[1..], Closing)]
  }

  ghost predicate Step(w: World, e: Event, v: World) {
    match e
    case Open(tunnel, key) => Opens(w, tunnel, key, v)
    case Take(tunnel, family, lease, outcome) => Takes(w, tunnel, family, lease, outcome, v)
    case Insert(tunnel, handle, policy) => Inserts(w, tunnel, handle, policy, v)
    case Fail(tunnel) => In(w, tunnel, Opening) && v == w.(tunnels := WithPhase(w, tunnel, Closing))
    case Control(event) => Controls(w, event, v)
    case Remove(tunnel) => Removes(w, tunnel, v)
    case Drop(tunnel) => Drops(w, tunnel, v)
  }

  ghost predicate Initial(w: World) {
    w.registry == RegistryRuns.EMPTY && AddressPools.Initial(w.pools) && w.tunnels == map[]
  }

  ghost predicate Run(first: World, events: seq<Event>, w: World)
    decreases |events|
  {
    if events == [] then w == first
    else
      var n := |events| - 1;
      exists v :: Run(first, events[..n], v) && Step(v, events[n], w)
  }

  // ----- What every run keeps -----

  predicate LeasesLive(tunnels: map<nat, Tunnel>, live: map<nat, IpAddr>) {
    forall t :: t in tunnels ==> AllLive(tunnels[t].leases, live)
  }

  /** No lease is held twice. */
  predicate LeasesApart(tunnels: map<nat, Tunnel>) {
    forall t, u, i, j :: (&& t in tunnels && u in tunnels
                          && 0 <= i < |tunnels[t].leases| && 0 <= j < |tunnels[u].leases|
                          && tunnels[t].leases[i] == tunnels[u].leases[j]) ==> t == u && i == j
  }

  predicate KeysApart(tunnels: map<nat, Tunnel>) {
    forall t, u :: t in tunnels && u in tunnels && tunnels[t].key == tunnels[u].key ==> t == u
  }

  predicate OpeningUnused(tunnels: map<nat, Tunnel>, keys: set<SessionKey>) {
    forall t :: t in tunnels && tunnels[t].phase == Opening ==> tunnels[t].key !in keys
  }

  /** A live session is that of a registered tunnel, made of the leases the tunnel still holds. */
  predicate BackedBy(tunnels: map<nat, Tunnel>, live: map<nat, IpAddr>, k: SessionKey, prefixes: seq<IpNet>) {
    exists t :: && t in tunnels && tunnels[t].phase == Registered && tunnels[t].key == k
                && AllLive(tunnels[t].leases, live) && prefixes == PrefixesOf(tunnels[t].leases, live)
  }

  predicate Backed(streams: map<SessionKey, Session>, tunnels: map<nat, Tunnel>, live: map<nat, IpAddr>) {
    forall k :: k in streams ==> BackedBy(tunnels, live, k, streams[k].prefixes)
  }

  predicate TunnelsSound(w: World) {
    && LeasesLive(w.tunnels, w.pools.leases) && LeasesApart(w.tunnels)
    && KeysApart(w.tunnels) && OpeningUnused(w.tunnels, w.registry.keys)
    && Backed(w.registry.registry.streams, w.tunnels, w.pools.leases)
  }

  ghost predicate Inv(w: World) {
    RegistryRuns.Inv(w.registry) && AddressPools.Inv(w.pools) && TunnelsSound(w)
  }

  /** A session stays backed when its tunnel is as it was and so are the leases it holds. */
  lemma StillBacked(tunnels: map<nat, Tunnel>, live: map<nat, IpAddr>, after: map<nat, Tunnel>, left: map<nat, IpAddr>,
                    k: SessionKey, prefixes: seq<IpNet>)
    requires BackedBy(tunnels, live, k, prefixes)
    requires forall t :: t in tunnels && tunnels[t].phase == Registered && tunnels[t].key == k ==>
               t in after && after[t] == tunnels[t]
    requires forall t, i :: t in tunnels && tunnels[t].phase == Registered && 0 <= i < |tunnels[t].leases|
                            && tunnels[t].leases[i] in live ==>
               tunnels[t].leases[i] in left && left[tunnels[t].leases[i]] == live[tunnels[t].leases[i]]
    ensures BackedBy(after, left, k, prefixes)
  {
    var t :| && t in tunnels && tunnels[t].phase == Registered && tunnels[t].key == k
             && AllLive(tunnels[t].leases, live) && prefixes == PrefixesOf(tunnels[t].leases, live);
    assert prefixes == PrefixesOf(after[t].leases, left);
  }

  lemma TakeKeepsLeases(tunnels: map<nat, Tunnel>, live: map<nat, IpAddr>, tunnel: nat, lease: nat, a: IpAddr)
    requires LeasesLive(tunnels, live) && LeasesApart(tunnels) && tunnel in tunnels && lease !in live
    ensures var after := tunnels[tunnel := tunnels[tunnel].(leases := tunnels[tunnel].leases + [lease])];
      LeasesLive(after, live[lease := a]) && LeasesApart(after)
  {
    assert forall t, i :: t in tunnels && 0 <= i < |tunnels[t].leases| ==> tunnels[t].leases[i] in live;
  }

  lemma TakeKeepsTunnels(w: World, tunnel: nat, family: Family, lease: nat, a: IpAddr, v: World)
    requires TunnelsSound(w) && Takes(w, tunnel, family, lease, Some(a), v)
    ensures TunnelsSound(v)
  {
    TakeKeepsLeases(w.tunnels, w.pools.leases, tunnel, lease, a);
    forall k | k in v.registry.registry.streams
      ensures BackedBy(v.tunnels, v.pools.leases, k, v.registry.registry.streams[k].prefixes)
    {
      StillBacked(w.tunnels, w.pools.leases, v.tunnels, v.pools.leases, k, w.registry.registry.streams[k].prefixes);
    }
  }

  lemma TakeKeepsInv(w: World, tunnel: nat, family: Family, lease: nat, outcome: Option<IpAddr>, v: World)
    requires Inv(w) && Takes(w, tunnel, family, lease, outcome, v)
    ensures Inv(v)
  {
    AddressPools.StepKeepsInv(w.pools, AddressPools.Take(family, lease, outcome), v.pools);
    if outcome.Some? {
      TakeKeepsTunnels(w, tunnel, family, lease, outcome.value, v);
    }
  }

  lemma DropKeepsLeases(tunnels: map<nat, Tunnel>, live: map<nat, IpAddr>, tunnel: nat)
    requires LeasesLive(tunnels, live) && LeasesApart(tunnels) && tunnel in tunnels && tunnels[tunnel].leases != []
    ensures var after := tunnels[tunnel := tunnels[tunnel].(leases := tunnels[tunnel].leases[1..])];
      LeasesLive(after, live - {tunnels[tunnel].leases[0]}) && LeasesApart(after)
  {
    var t := tunnels[tunnel];
    var after := tunnels[tunnel := t.(leases := t.leases[1..])];
    forall u, i | u in after && 0 <= i < |after[u].leases|
      ensures after[u].leases[i] in live && after[u].leases[i] != t.leases[0]
    {
      if u == tunnel {
        assert after[u].leases[i] == t.leases[i + 1];
      }
    }
    forall u, x, i, j | u in after && x in after && 0 <= i < |after[u].leases| && 0 <= j < |after[x].leases|
                        && after[u].leases[i] == after[x].leases[j]
      ensures u == x && i == j
    {
      var p, q := if u == tunnel then i + 1 else i, if x == tunnel then j + 1 else j;
      assert tunnels[u].leases[p] == tunnels[x].leases[q];
    }
  }

  lemma DropKeepsTunnels(w: World, tunnel: nat, v: World)
    requires TunnelsSound(w) && Drops(w, tunnel, v)
    ensures TunnelsSound(v)
  {
    DropKeepsLeases(w.tunnels, w.pools.leases, tunnel);
    forall k | k in v.registry.registry.streams
      ensures BackedBy(v.tunnels, v.pools.leases, k, v.registry.registry.streams[k].prefixes)
    {
      StillBacked(w.tunnels, w.pools.leases, v.tunnels, v.pools.leases, k, w.registry.registry.streams[k].prefixes);
    }
  }

  lemma DropKeepsInv(w: World, tunnel: nat, v: World)
    requires Inv(w) && Drops(w, tunnel, v)
    ensures Inv(v)
  {
    AddressPools.StepKeepsInv(w.pools, AddressPools.Drop(w.tunnels[tunnel].leases[0]), v.pools);
    DropKeepsTunnels(w, tunnel, v);
  }

  lemma NewSessionStarts(w: World, tunnel: nat, handle: nat, policy: Policy.EffectivePolicy, i: nat)
    requires tunnel in w.tunnels && AllLive(w.tunnels[tunnel].leases, w.pools.leases)
    requires i < |w.tunnels[tunnel].leases|
    ensures var prefixes := NewSession(w, tunnel, handle, policy).prefixes;
      First(prefixes[i]) == w.pools.leases[w.tunnels[tunnel].leases[i]] && RegistryRuns.HostsOnly(prefixes)
  {
    var a := w.pools.leases[w.tunnels[tunnel].leases[i]];
    HostBlock(a, a);
  }

  /** The registered tunnel, and its lease, behind an address of the index. */
  lemma ClaimIsBacked(w: World, a: IpAddr) returns (t: nat, j: nat)
    requires Inv(w) && a in w.registry.registry.addresses
    ensures In(w, t, Registered) && j < |w.tunnels[t].leases|
    ensures w.tunnels[t].leases[j] in w.pools.leases && w.pools.leases[w.tunnels[t].leases[j]] == a
  {
    var r, live := w.registry.registry, w.pools.leases;
    var k := r.addresses[a];
    assert Starts(r.streams[k].prefixes, a);
    assert BackedBy(w.tunnels, live, k, r.streams[k].prefixes);
    t :| && t in w.tunnels && w.tunnels[t].phase == Registered && w.tunnels[t].key == k
         && AllLive(w.tunnels[t].leases, live) && r.streams[k].prefixes == PrefixesOf(w.tunnels[t].leases, live);
    j :| 0 <= j < |r.streams[k].prefixes| && First(r.streams[k].prefixes[j]) == a;
    HostBlock(live[w.tunnels[t].leases[j]], a);
  }

  lemma HoldersDiffer(w: World, t: nat, i: nat, u: nat, j: nat)
    requires Inv(w) && t in w.tunnels && u in w.tunnels && t != u
    requires i < |w.tunnels[t].leases| && j < |w.tunnels[u].leases|
    ensures w.tunnels[t].leases[i] in w.pools.leases && w.tunnels[u].leases[j] in w.pools.leases
    ensures w.pools.leases[w.tunnels[t].leases[i]] != w.pools.leases[w.tunnels[u].leases[j]]
  {
  }

  /** An address a tunnel that is opening has leased is in no live session's name. */
  lemma LeasedIsUnclaimed(w: World, tunnel: nat, i: nat)
    requires Inv(w) && In(w, tunnel, Opening) && i < |w.tunnels[tunnel].leases|
    ensures w.tunnels[tunnel].leases[i] in w.pools.leases
    ensures w.pools.leases[w.tunnels[tunnel].leases[i]] !in w.registry.registry.addresses
  {
    assert AllLive(w.tunnels[tunnel].leases, w.pools.leases);
    forall a | a in w.registry.registry.addresses ensures a != w.pools.leases[w.tunnels[tunnel].leases[i]] {
      var t, j := ClaimIsBacked(w, a);
      HoldersDiffer(w, tunnel, i, t, j);
    }
  }

  /** So inserting the session of an opening tunnel is never refused, whether it leased one address or two. */
  lemma InsertIsNeverRefused(w: World, tunnel: nat, handle: nat, policy: Policy.EffectivePolicy)
    requires Inv(w) && In(w, tunnel, Opening)
    ensures AllLive(w.tunnels[tunnel].leases, w.pools.leases)
    ensures Inserted(w.registry.registry, w.tunnels[tunnel].key, NewSession(w, tunnel, handle, policy)).1
  {
    var session := NewSession(w, tunnel, handle, policy);
    forall i | 0 <= i < |session.prefixes| ensures First(session.prefixes[i]) !in w.registry.registry.addresses {
      NewSessionStarts(w, tunnel, handle, policy, i);
      LeasedIsUnclaimed(w, tunnel, i);
    }
  }

  lemma RegisteringBacks(streams: map<SessionKey, Session>, tunnels: map<nat, Tunnel>, live: map<nat, IpAddr>,
                         tunnel: nat, session: Session)
    requires Backed(streams, tunnels, live) && tunnel in tunnels && tunnels[tunnel].phase == Opening
    requires AllLive(tunnels[tunnel].leases, live) && session.prefixes == PrefixesOf(tunnels[tunnel].leases, live)
    ensures Backed(streams[tunnels[tunnel].key := session],
                   tunnels[tunnel := tunnels[tunnel].(phase := Registered)], live)
  {
    var key, after := tunnels[tunnel].key, tunnels[tunnel := tunnels[tunnel].(phase := Registered)];
    assert after[tunnel].phase == Registered && AllLive(after[tunnel].leases, live);
    assert BackedBy(after, live, key, session.prefixes);
    forall k | k in streams && k != key ensures BackedBy(after, live, k, streams[k].prefixes) {
      StillBacked(tunnels, live, after, live, k, streams[k].prefixes);
    }
  }

  lemma RegisteringKeeps(tunnels: map<nat, Tunnel>, live: map<nat, IpAddr>, keys: set<SessionKey>, tunnel: nat)
    requires LeasesLive(tunnels, live) && LeasesApart(tunnels) && KeysApart(tunnels) && OpeningUnused(tunnels, keys)
    requires tunnel in tunnels
    ensures var after := tunnels[tunnel := tunnels[tunnel].(phase := Registered)];
      && LeasesLive(after, live) && LeasesApart(after)
      && KeysApart(after) && OpeningUnused(after, keys + {tunnels[tunnel].key})
  {
  }

  lemma InsertedStreams(r: Registry, key: SessionKey, session: Session)
    requires Inserted(r, key, session).1
    ensures Inserted(r, key, session).0.streams == r.streams[key := session]
  {
  }

  lemma InsertKeepsTunnels(w: World, tunnel: nat, handle: nat, policy: Policy.EffectivePolicy, v: World)
    requires TunnelsSound(w) && Inserts(w, tunnel, handle, policy, v)
    requires Inserted(w.registry.registry, w.tunnels[tunnel].key, NewSession(w, tunnel, handle, policy)).1
    ensures TunnelsSound(v)
  {
    var session := NewSession(w, tunnel, handle, policy);
    InsertedStreams(w.registry.registry, w.tunnels[tunnel].key, session);
    RegisteringKeeps(w.tunnels, w.pools.leases, w.registry.keys, tunnel);
    RegisteringBacks(w.registry.registry.streams, w.tunnels, w.pools.leases, tunnel, session);
  }

  lemma InsertKeepsInv(w: World, tunnel: nat, handle: nat, policy: Policy.EffectivePolicy, v: World)
    requires Inv(w) && Inserts(w, tunnel, handle, policy, v)
    ensures Inv(v)
  {
    InsertIsNeverRefused(w, tunnel, handle, policy);
    InsertKeepsTunnels(w, tunnel, handle, policy, v);
    RegistryRuns.InsertKeepsInv(w.registry, w.tunnels[tunnel].key, NewSession(w, tunnel, handle, policy));
  }

  lemma RemoveKeepsTunnels(w: World, tunnel: nat, v: World)
    requires TunnelsSound(w) && Removes(w, tunnel, v)
    ensures TunnelsSound(v)
  {
    var streams, left := w.registry.registry.streams, v.registry.registry.streams;
    forall k | k in left ensures BackedBy(v.tunnels, v.pools.leases, k, left[k].prefixes) {
      assert k != w.tunnels[tunnel].key && left[k] == streams[k];
      StillBacked(w.tunnels, w.pools.leases, v.tunnels, v.pools.leases, k, streams[k].prefixes);
    }
  }

  lemma RemoveKeepsInv(w: World, tunnel: nat, v: World)
    requires Inv(w) && Removes(w, tunnel, v)
    ensures Inv(v)
  {
    RegistryRuns.RemoveKeepsInv(w.registry, w.tunnels[tunnel].key);
    RemoveKeepsTunnels(w, tunnel, v);
  }

  /** Replacing routes leaves the sessions and what they are assigned alone. */
  lemma ControlKeepsPrefixes(w: RegistryRuns.World, e: RegistryRuns.Event)
    requires (e.LookUp? || e.Replace?) && RegistryRuns.Allowed(w, e)
    ensures var v := RegistryRuns.Next(w, e);
      && v.keys == w.keys && v.registry.streams.Keys == w.registry.streams.Keys
      && forall k :: k in w.registry.streams ==> v.registry.streams[k].prefixes == w.registry.streams[k].prefixes
  {
  }

  lemma ControlKeepsInv(w: World, e: RegistryRuns.Event, v: World)
    requires Inv(w) && Controls(w, e, v)
    ensures Inv(v)
  {
    RegistryRuns.StepKeepsInv(w.registry, e);
    ControlKeepsPrefixes(w.registry, e);
  }

  lemma OpenKeepsTunnels(w: World, tunnel: nat, key: SessionKey, v: World)
    requires TunnelsSound(w) && Opens(w, tunnel, key, v)
    ensures TunnelsSound(v)
  {
    var streams := w.registry.registry.streams;
    forall k | k in streams ensures BackedBy(v.tunnels, v.pools.leases, k, streams[k].prefixes) {
      StillBacked(w.tunnels, w.pools.leases, v.tunnels, v.pools.leases, k, streams[k].prefixes);
    }
  }

  lemma FailKeepsTunnels(w: World, tunnel: nat)
    requires TunnelsSound(w) && In(w, tunnel, Opening)
    ensures TunnelsSound(w.(tunnels := WithPhase(w, tunnel, Closing)))
  {
    var streams, after := w.registry.registry.streams, WithPhase(w, tunnel, Closing);
    forall k | k in streams ensures BackedBy(after, w.pools.leases, k, streams[k].prefixes) {
      StillBacked(w.tunnels, w.pools.leases, after, w.pools.leases, k, streams[k].prefixes);
    }
  }

  lemma StepKeepsInv(w: World, e: Event, v: World)
    requires Inv(w) && Step(w, e, v)
    ensures Inv(v)
  {
    match e
    case Open(tunnel, key) => OpenKeepsTunnels(w, tunnel, key, v);
    case Take(tunnel, family, lease, outcome) => TakeKeepsInv(w, tunnel, family, lease, outcome, v);
    case Insert(tunnel, handle, policy) => InsertKeepsInv(w, tunnel, handle, policy, v);
    case Fail(tunnel) => FailKeepsTunnels(w, tunnel);
    case Control(event) => ControlKeepsInv(w, event, v);
    case Remove(tunnel) => RemoveKeepsInv(w, tunnel, v);
    case Drop(tunnel) => DropKeepsInv(w, tunnel, v);
  }

  lemma {:induction false} RunsKeepInv(first: World, events: seq<Event>, w: World)
    requires Initial(first) && Run(first, events, w)
    ensures Inv(w)
    decreases |events|
  {
    if events != [] {
      var n := |events| - 1;
      var v :| Run(first, events[..n], v) && Step(v, events[n], w);
      RunsKeepInv(first, events[..n], v);
      StepKeepsInv(v, events[n], w);
    } else {
      AddressPools.RunsKeepInv(first.pools, [], w.pools);
      RegistryRuns.RunsStayCoherent([], w.registry);
    }
  }

  // ----- What that means -----

  /** Over every run, what a live session is assigned is leased, and to its own tunnel, which is registered. */
  lemma SessionsAreBacked(first: World, events: seq<Event>, w: World, k: SessionKey, i: nat)
    requires Initial(first) && Run(first, events, w) && k in w.registry.registry.streams
    requires i < |w.registry.registry.streams[k].prefixes|
    ensures exists t, lease :: && t in w.tunnels && w.tunnels[t].phase == Registered && w.tunnels[t].key == k
                               && lease in w.tunnels[t].leases && lease in w.pools.leases
                               && w.registry.registry.streams[k].prefixes[i] == HostPrefix(w.pools.leases[lease])
  {
    RunsKeepInv(first, events, w);
    var streams, live := w.registry.registry.streams, w.pools.leases;
    assert BackedBy(w.tunnels, live, k, streams[k].prefixes);
    var t :| && t in w.tunnels && w.tunnels[t].phase == Registered && w.tunnels[t].key == k
             && AllLive(w.tunnels[t].leases, live) && streams[k].prefixes == PrefixesOf(w.tunnels[t].leases, live);
    assert w.tunnels[t].leases[i] in w.tunnels[t].leases;
  }

  /** Over every run, registering a tunnel that leased its addresses never conflicts with a live session. */
  lemma NoRegistryConflict(first: World, events: seq<Event>, w: World, tunnel: nat, handle: nat,
                           policy: Policy.EffectivePolicy, v: World)
    requires Initial(first) && Run(first, events, w) && Inserts(w, tunnel, handle, policy, v)
    ensures w.tunnels[tunnel].key in v.registry.registry.streams
    ensures v.registry.registry.streams[w.tunnels[tunnel].key] == NewSession(w, tunnel, handle, policy)
  {
    RunsKeepInv(first, events, w);
    InsertIsNeverRefused(w, tunnel, handle, policy);
  }

  /** Over every run, a lease belongs to one tunnel at most, and to one place in it. */
  lemma OneHolder(first: World, events: seq<Event>, w: World, t: nat, u: nat, i: nat, j: nat)
    requires Initial(first) && Run(first, events, w) && t in w.tunnels && u in w.tunnels
    requires i < |w.tunnels[t].leases| && j < |w.tunnels[u].leases|
    ensures AllLive(w.tunnels[t].leases, w.pools.leases) && AllLive(w.tunnels[u].leases, w.pools.leases)
    ensures w.pools.leases[w.tunnels[t].leases[i]] == w.pools.leases[w.tunnels[u].leases[j]] ==> t == u && i == j
  {
    RunsKeepInv(first, events, w);
  }

  // ----- Nothing leaks -----

  /** Some tunnel still holds the lease. */
  predicate HeldBySome(tunnels: map<nat, Tunnel>, lease: nat) {
    exists t :: t in tunnels && lease in tunnels[t].leases
  }

  predicate AllHeld(w: World) {
    forall lease :: lease in w.pools.leases ==> HeldBySome(w.tunnels, lease)
  }

  /** A lease stays held while its holder keeps it. */
  lemma StillHeld(tunnels: map<nat, Tunnel>, after: map<nat, Tunnel>, lease: nat)
    requires HeldBySome(tunnels, lease)
    requires forall t :: t in tunnels && lease in tunnels[t].leases ==> t in after && lease in after[t].leases
    ensures HeldBySome(after, lease)
  {
    var t :| t in tunnels && lease in tunnels[t].leases;
    assert t in after && lease in after[t].leases;
  }

  lemma TakeKeepsHeld(w: World, tunnel: nat, family: Family, lease: nat, outcome: Option<IpAddr>, v: World)
    requires AllHeld(w) && Takes(w, tunnel, family, lease, outcome, v)
    ensures AllHeld(v)
  {
    if outcome.Some? {
      forall l | l in v.pools.leases ensures HeldBySome(v.tunnels, l) {
        if l == lease {
          assert tunnel in v.tunnels && lease in v.tunnels[tunnel].leases;
        } else {
          StillHeld(w.tunnels, v.tunnels, l);
        }
      }
    }
  }

  lemma DropKeepsHeld(w: World, tunnel: nat, v: World)
    requires AllHeld(w) && Drops(w, tunnel, v)
    ensures AllHeld(v)
  {
    var t := w.tunnels[tunnel];
    assert t.leases == [t.leases[0]] + t.leases[1..];
    forall l | l in v.pools.leases ensures HeldBySome(v.tunnels, l) {
      StillHeld(w.tunnels, v.tunnels, l);
    }
  }

  lemma OthersKeepHeld(w: World, e: Event, v: World)
    requires AllHeld(w) && Step(w, e, v) && !e.Take? && !e.Drop?
    ensures AllHeld(v)
  {
    forall l | l in v.pools.leases ensures HeldBySome(v.tunnels, l) {
      StillHeld(w.tunnels, v.tunnels, l);
    }
  }

  /** Over every run, every live lease is held by some tunnel, which will give it back when it closes. */
  lemma {:induction false} NothingLeaks(first: World, events: seq<Event>, w: World)
    requires Initial(first) && Run(first, events, w)
    ensures AllHeld(w)
    decreases |events|
  {
    if events != [] {
      var n := |events| - 1;
      var v :| Run(first, events[..n], v) && Step(v, events[n], w);
      NothingLeaks(first, events[..n], v);
      match events[n]
      case Take(tunnel, family, lease, outcome) => TakeKeepsHeld(v, tunnel, family, lease, outcome, w);
      case Drop(tunnel) => DropKeepsHeld(v, tunnel, w);
      case _ => OthersKeepHeld(v, events[n], w);
    }
  }

  /** Once every tunnel has given its leases back, every pool is as free as it was at the start. */
  lemma AllGivenBack(first: World, events: seq<Event>, w: World, family: Family)
    requires Initial(first) && Run(first, events, w) && family in w.pools.pools
    requires forall t :: t in w.tunnels ==> w.tunnels[t].leases == []
    ensures w.pools.leases == map[] && w.pools.pools[family].leased == {}
  {
    NothingLeaks(first, events, w);
    RunsKeepInv(first, events, w);
    assert forall lease :: !HeldBySome(w.tunnels, lease);
    assert AddressPools.Tracks(w.pools.pools[family], w.pools.leases, family);
  }
}
