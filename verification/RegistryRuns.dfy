/** What every run of the registry keeps, and what dispatch through its index means. */
module RegistryRuns {
  import opened Basics
  import opened Wrappers
  import opened Bytes
  import opened Net
  import opened RouteRanges
  import opened IpRegistry
  import Policy
  import RouteCapsule

  // ----- Coherence -----

  /** The address index holds the first addresses of the live sessions' prefixes, and nothing else. */
  ghost predicate AddressesCoherent(streams: map<SessionKey, Session>, addresses: map<IpAddr, SessionKey>) {
    && (forall a :: a in addresses ==> addresses[a] in streams && Starts(streams[addresses[a]].prefixes, a))
    && (forall k, a :: k in streams && Starts(streams[k].prefixes, a) ==> a in addresses && addresses[a] == k)
  }

  /** A live session's slice of the route list is its committed advertisement. */
  ghost predicate RoutesCoherent(streams: map<SessionKey, Session>, routes: seq<RegisteredRoute>) {
    && (forall x :: x in routes ==> x.session in streams && x.range in streams[x.session].routes)
    && (forall k, range :: k in streams && range in streams[k].routes ==> RegisteredRoute(range, k) in routes)
  }

  predicate Conflicting(x: RegisteredRoute, y: RegisteredRoute) {
    x != y && ConflictsWith(x.range, y.range)
  }

  predicate ConflictFree(routes: seq<RegisteredRoute>) {
    forall x, y :: x in routes && y in routes ==> !Conflicting(x, y)
  }

  /** The address pool hands out host prefixes only. */
  predicate HostsOnly(prefixes: seq<IpNet>) {
    forall i :: 0 <= i < |prefixes| ==> prefixes[i] == HostPrefix(prefixes[i].addr)
  }

  /** The committed advertisement is valid and within the session's policy. */
  ghost predicate Sound(session: Session) {
    HostsOnly(session.prefixes) && Valid(session.routes) && WithinPolicy(session.policy, session.routes)
  }

  ghost predicate SessionsSound(streams: map<SessionKey, Session>) {
    forall k :: k in streams ==> Sound(streams[k])
  }

  predicate HandlesDistinct(streams: map<SessionKey, Session>) {
    forall j, k :: j in streams && k in streams && streams[j].handle == streams[k].handle ==> j == k
  }

  ghost predicate Coherent(r: Registry) {
    && AddressesCoherent(r.streams, r.addresses) && RoutesCoherent(r.streams, r.routes)
    && SessionsSound(r.streams) && HandlesDistinct(r.streams)
    && ConflictFree(r.routes) && StrictlyRanked(r.routes) && |r.routes| <= MAX_REGISTRY_ROUTES
  }

  // ----- Insert -----

  lemma InsertKeepsAddresses(r: Registry, key: SessionKey, session: Session)
    requires AddressesCoherent(r.streams, r.addresses) && Inserted(r, key, session).1
    ensures AddressesCoherent(r.streams[key := session], Claimed(r.addresses, session.prefixes, key))
  {
    var streams, addresses := r.streams[key := session], Claimed(r.addresses, session.prefixes, key);
    forall a | a in addresses
      ensures addresses[a] in streams && Starts(streams[addresses[a]].prefixes, a)
    {
      ClaimedAre(r.addresses, session.prefixes, key, a);
    }
    forall k, a | k in streams && Starts(streams[k].prefixes, a)
      ensures a in addresses && addresses[a] == k
    {
      ClaimedAre(r.addresses, session.prefixes, key, a);
    }
  }

  lemma InsertKeepsSessions(streams: map<SessionKey, Session>, routes: seq<RegisteredRoute>, key: SessionKey,
                            session: Session)
    requires RoutesCoherent(streams, routes) && SessionsSound(streams) && HandlesDistinct(streams)
    requires key !in streams && session.routes == [] && HostsOnly(session.prefixes)
    requires forall k :: k in streams ==> streams[k].handle != session.handle
    ensures RoutesCoherent(streams[key := session], routes)
    ensures SessionsSound(streams[key := session]) && HandlesDistinct(streams[key := session])
  {
  }

  lemma InsertKeepsCoherent(r: Registry, key: SessionKey, session: Session)
    requires Coherent(r) && session.routes == [] && HostsOnly(session.prefixes)
    requires forall k :: k in r.streams ==> r.streams[k].handle != session.handle
    ensures Coherent(Inserted(r, key, session).0)
  {
    if Inserted(r, key, session).1 {
      InsertKeepsAddresses(r, key, session);
      InsertKeepsSessions(r.streams, r.routes, key, session);
    }
  }

  // ----- Remove -----

  lemma RemoveKeepsAddresses(r: Registry, key: SessionKey)
    requires AddressesCoherent(r.streams, r.addresses) && key in r.streams
    ensures AddressesCoherent(Removed(r, key).0.streams, Removed(r, key).0.addresses)
  {
    var s := Removed(r, key).0;
    forall a | a in s.addresses ensures s.addresses[a] in s.streams && Starts(s.streams[s.addresses[a]].prefixes, a) {
      assert a in r.addresses && r.addresses[a] == s.addresses[a];
    }
    forall k, a | k in s.streams && Starts(s.streams[k].prefixes, a) ensures a in s.addresses && s.addresses[a] == k {
      assert k in r.streams && r.streams[k] == s.streams[k];
    }
  }

  lemma RemoveKeepsSessions(streams: map<SessionKey, Session>, key: SessionKey)
    requires SessionsSound(streams) && HandlesDistinct(streams)
    ensures SessionsSound(streams - {key}) && HandlesDistinct(streams - {key})
  {
  }

  lemma RemoveKeepsRoutes(r: Registry, key: SessionKey)
    requires Coherent(r) && key in r.streams
    ensures RoutesCoherent(r.streams - {key}, Retained(r.routes, key))
    ensures ConflictFree(Retained(r.routes, key)) && StrictlyRanked(Retained(r.routes, key))
  {
    RetainedKeeps(r.routes, key);
    RetainedRanks(r.routes, key);
  }

  lemma RemoveKeepsCoherent(r: Registry, key: SessionKey)
    requires Coherent(r)
    ensures Coherent(Removed(r, key).0)
  {
    if key in r.streams {
      RemoveKeepsAddresses(r, key);
      RemoveKeepsSessions(r.streams, key);
      RemoveKeepsRoutes(r, key);
    }
  }

  // ----- Replace -----

  /** The call may go on: the session under the key is still the one it looked up. */
  ghost predicate MayReplace(r: Registry, key: SessionKey, handle: nat, next: seq<AddressRange>) {
    && Valid(next)
    && (forall k :: k in r.streams && r.streams[k].handle == handle ==> k == key)
    && (key in r.streams ==> r.streams[key].handle == handle && WithinPolicy(r.streams[key].policy, next))
  }

  lemma TaggedAre(next: seq<AddressRange>, key: SessionKey)
    ensures forall x: RegisteredRoute :: x in Tagged(next, key) <==> x.session == key && x.range in next
  {
    forall x: RegisteredRoute | x.session == key && x.range in next ensures x in Tagged(next, key) {
      var i :| 0 <= i < |next| && next[i] == x.range;
      assert Tagged(next, key)[i] == x;
    }
  }

  /** Two ranges of a valid advertisement are one range, or do not conflict. */
  lemma ValidMembers(next: seq<AddressRange>, a: AddressRange, b: AddressRange)
    requires Valid(next) && a in next && b in next && a != b
    ensures !ConflictsWith(a, b)
  {
    var i :| 0 <= i < |next| && next[i] == a;
    var j :| 0 <= j < |next| && next[j] == b;
    NoConflicts(next, i, j);
  }

  lemma ConflictIsSymmetric(a: AddressRange, b: AddressRange)
    ensures ConflictsWith(a, b) <==> ConflictsWith(b, a)
  {
  }

  lemma ReplacedRoutesAre(r: Registry, key: SessionKey, next: seq<AddressRange>)
    ensures forall x :: x in Sorted(RankLess, Retained(r.routes, key) + Tagged(next, key)) <==>
              (x in r.routes && x.session != key) || (x.session == key && x.range in next)
  {
    RetainedKeeps(r.routes, key);
    TaggedAre(next, key);
    SortedKeeps(RankLess, Retained(r.routes, key) + Tagged(next, key));
  }

  lemma ReplacedConflictFree(r: Registry, key: SessionKey, next: seq<AddressRange>)
    requires ConflictFree(r.routes) && Valid(next) && !ConflictsElsewhere(r.routes, key, next)
    ensures ConflictFree(Sorted(RankLess, Retained(r.routes, key) + Tagged(next, key)))
  {
    var routes := Sorted(RankLess, Retained(r.routes, key) + Tagged(next, key));
    ReplacedRoutesAre(r, key, next);
    forall x, y | x in routes && y in routes && x != y ensures !ConflictsWith(x.range, y.range) {
      ConflictIsSymmetric(x.range, y.range);
      if x.session == key && y.session == key {
        ValidMembers(next, x.range, y.range);
      } else if x.session != key && y.session != key {
        assert !Conflicting(x, y);
      }
    }
  }

  lemma RankedDistinct(routes: seq<RegisteredRoute>)
    requires StrictlyRanked(routes)
    ensures Distinct(routes)
  {
    forall i, j | 0 <= i < j < |routes| ensures routes[i] != routes[j] {
      assert RankLess(routes[i], routes[j]);
    }
  }

  lemma TaggedDistinct(next: seq<AddressRange>, key: SessionKey)
    requires Valid(next)
    ensures Distinct(Tagged(next, key))
  {
    var added := Tagged(next, key);
    forall i, j | 0 <= i < j < |added| ensures added[i] != added[j] {
      assert next[j] in next;
      assert Before(next[i], next[j]);
    }
  }

  lemma ReplacedDistinct(r: Registry, key: SessionKey, next: seq<AddressRange>)
    requires StrictlyRanked(r.routes) && Valid(next)
    ensures Distinct(Retained(r.routes, key) + Tagged(next, key))
  {
    RetainedRanks(r.routes, key);
    RetainedKeeps(r.routes, key);
    RankedDistinct(Retained(r.routes, key));
    TaggedDistinct(next, key);
    TaggedAre(next, key);
    ConcatDistinct(Retained(r.routes, key), Tagged(next, key));
  }

  lemma CommittedAre(r: Registry, key: SessionKey, handle: nat, next: seq<AddressRange>)
    requires key in r.streams && MayReplace(r, key, handle, next)
    ensures Committed(r.streams, handle, next) == r.streams[key := r.streams[key].(routes := next)]
  {
  }

  lemma ReplaceKeepsRoutes(r: Registry, key: SessionKey, next: seq<AddressRange>)
    requires RoutesCoherent(r.streams, r.routes) && key in r.streams
    ensures RoutesCoherent(r.streams[key := r.streams[key].(routes := next)],
                           Sorted(RankLess, Retained(r.routes, key) + Tagged(next, key)))
  {
    ReplacedRoutesAre(r, key, next);
  }

  lemma ReplaceKeepsAddresses(streams: map<SessionKey, Session>, addresses: map<IpAddr, SessionKey>,
                              key: SessionKey, session: Session)
    requires AddressesCoherent(streams, addresses) && key in streams && session.prefixes == streams[key].prefixes
    ensures AddressesCoherent(streams[key := session], addresses)
  {
    var after := streams[key := session];
    forall k | k in after ensures k in streams && after[k].prefixes == streams[k].prefixes {
    }
  }

  lemma ReplaceKeepsSessions(streams: map<SessionKey, Session>, key: SessionKey, session: Session)
    requires SessionsSound(streams) && HandlesDistinct(streams)
    requires key in streams && Sound(session) && session.handle == streams[key].handle
    ensures SessionsSound(streams[key := session]) && HandlesDistinct(streams[key := session])
  {
  }

  lemma ReplaceKeepsCoherent(r: Registry, key: SessionKey, handle: nat, next: seq<AddressRange>)
    requires Coherent(r) && MayReplace(r, key, handle, next)
    ensures Coherent(Replaced(r, key, handle, next).0)
  {
    if key in r.streams && ReplacementError(r, key, next).None? {
      CommittedAre(r, key, handle, next);
      ReplaceKeepsRoutes(r, key, next);
      assert Sound(r.streams[key]);
      ReplaceKeepsAddresses(r.streams, r.addresses, key, r.streams[key].(routes := next));
      ReplaceKeepsSessions(r.streams, key, r.streams[key].(routes := next));
      ReplacedConflictFree(r, key, next);
      ReplacedDistinct(r, key, next);
      SortingRanks(Retained(r.routes, key) + Tagged(next, key));
    }
  }

  // ----- When calls succeed, and what they undo -----

  lemma OwnersAreIndexed(r: Registry, k: SessionKey, address: IpAddr)
    requires Coherent(r) && k in r.streams
    ensures Owns(r.streams[k], address) <==> address in r.addresses && r.addresses[address] == k
  {
    var prefixes := r.streams[k].prefixes;
    assert Sound(r.streams[k]);
    if Owns(r.streams[k], address) {
      var i :| 0 <= i < |prefixes| && Contains(prefixes[i], address);
      HostBlock(prefixes[i].addr, address);
      assert First(prefixes[i]) == address;
      assert Starts(prefixes, address);
    }
    if address in r.addresses && r.addresses[address] == k {
      var i :| 0 <= i < |prefixes| && First(prefixes[i]) == address;
      BlockInside(prefixes[i]);
    }
  }

  /** Insert succeeds exactly when the key is free and no live session owns the start of a prefix. */
  lemma InsertExactly(r: Registry, key: SessionKey, session: Session)
    requires Coherent(r)
    ensures Inserted(r, key, session).1 <==>
              key !in r.streams
              && forall k, i :: k in r.streams && 0 <= i < |session.prefixes| ==>
                   !Owns(r.streams[k], First(session.prefixes[i]))
    ensures !Inserted(r, key, session).1 ==> Inserted(r, key, session).0 == r
  {
    forall k, i | k in r.streams && 0 <= i < |session.prefixes|
      ensures Owns(r.streams[k], First(session.prefixes[i])) <==>
              First(session.prefixes[i]) in r.addresses && r.addresses[First(session.prefixes[i])] == k
    {
      OwnersAreIndexed(r, k, First(session.prefixes[i]));
    }
  }

  lemma {:induction false} RetainedAll(routes: seq<RegisteredRoute>, key: SessionKey)
    requires forall x :: x in routes ==> x.session != key
    ensures Retained(routes, key) == routes
  {
    if routes != [] {
      var n := |routes| - 1;
      assert routes == routes[..n] + [routes[n]];
      RetainedAll(routes[..n], key);
    }
  }

  lemma ForgetUndoesClaim(addresses: map<IpAddr, SessionKey>, prefixes: seq<IpNet>, key: SessionKey)
    requires forall a :: a in addresses ==> addresses[a] != key && !Starts(prefixes, a)
    ensures Forgotten(Claimed(addresses, prefixes, key), key) == addresses
  {
    var claimed := Claimed(addresses, prefixes, key);
    forall a | a in claimed
      ensures claimed[a] != key <==> a in addresses
      ensures a in addresses ==> claimed[a] == addresses[a]
    {
      ClaimedAre(addresses, prefixes, key, a);
    }
    forall a | a in addresses ensures a in claimed {
      ClaimedAre(addresses, prefixes, key, a);
    }
  }

  lemma DropUndoesAdd(streams: map<SessionKey, Session>, key: SessionKey, session: Session)
    requires key !in streams
    ensures streams[key := session] - {key} == streams
  {
  }

  /** Removing a session that was just inserted gives back the registry from before, and the session. */
  lemma RemoveUndoesInsert(r: Registry, key: SessionKey, session: Session)
    requires Coherent(r) && Inserted(r, key, session).1
    ensures Removed(Inserted(r, key, session).0, key) == (r, Some(session))
  {
    RetainedAll(r.routes, key);
    DropUndoesAdd(r.streams, key, session);
    assert forall a :: a in r.addresses ==> !Starts(session.prefixes, a);
    ForgetUndoesClaim(r.addresses, session.prefixes, key);
  }

  /** Another live session has committed a route that conflicts. */
  ghost predicate ClashesWithOthers(streams: map<SessionKey, Session>, key: SessionKey, next: seq<AddressRange>) {
    exists k, c, x :: k in streams && k != key && c in next && x in streams[k].routes && ConflictsWith(c, x)
  }

  lemma ClashesAreIndexed(r: Registry, key: SessionKey, next: seq<AddressRange>)
    requires RoutesCoherent(r.streams, r.routes)
    ensures ConflictsElsewhere(r.routes, key, next) <==> ClashesWithOthers(r.streams, key, next)
  {
    if c, x :| c in next && x in r.routes && x.session != key && ConflictsWith(c, x.range) {
      assert x.range in r.streams[x.session].routes;
    }
    if k, c, x :| k in r.streams && k != key && c in next && x in r.streams[k].routes && ConflictsWith(c, x) {
      assert RegisteredRoute(x, k) in r.routes;
    }
  }

  /**
    Replace succeeds exactly when the session lives, there is room, and nothing of another live session
    conflicts; then only that session's advertisement changed. Otherwise nothing did.
   */
  lemma ReplaceExactly(r: Registry, key: SessionKey, handle: nat, next: seq<AddressRange>)
    requires Coherent(r) && MayReplace(r, key, handle, next)
    ensures var (after, outcome) := Replaced(r, key, handle, next);
      && (outcome.Ok? <==> key in r.streams && !ClashesWithOthers(r.streams, key, next)
                           && |Retained(r.routes, key)| + |next| <= MAX_REGISTRY_ROUTES)
      && (outcome.Err? ==> after == r)
      && (outcome.Ok? ==> after.streams == r.streams[key := r.streams[key].(routes := next)]
                          && after.addresses == r.addresses)
  {
    ClashesAreIndexed(r, key, next);
    if key in r.streams {
      CommittedAre(r, key, handle, next);
    }
  }

  // ----- Runs -----

  /** A call to `replace_routes` between its two critical sections. */
  datatype Call = Call(key: SessionKey, handle: nat, next: seq<AddressRange>)

  datatype World = World(registry: Registry, keys: set<SessionKey>, handles: set<nat>, calls: map<nat, Call>)

  datatype Event =
    | Insert(key: SessionKey, session: Session)
    | Remove(key: SessionKey)
    | LookUp(call: nat, key: SessionKey, value: seq<Byte>)
    | Replace(call: nat)

  /**
    What the callers promise: a key is not used again once its session is gone, and a session is inserted
    with a handle of its own, host prefixes and no routes.
   */
  predicate Allowed(w: World, e: Event) {
    match e
    case Insert(key, session) =>
      && (key !in w.keys || key in w.registry.streams)
      && session.handle !in w.handles && session.routes == [] && HostsOnly(session.prefixes)
    case Remove(_) => true
    case LookUp(call, _, _) => call !in w.calls
    case Replace(call) => call in w.calls
  }

  ghost function Next(w: World, e: Event): World
    requires Allowed(w, e)
  {
    match e
    case Insert(key, session) =>
      w.(registry := Inserted(w.registry, key, session).0, keys := w.keys + {key},
          handles := w.handles + {session.handle})
    case Remove(key) => w.(registry := Removed(w.registry, key).0)
    case LookUp(call, key, value) =>
      if key !in w.registry.streams then w
      else
        (match ValidatedRoutes(w.registry.streams[key], value)
         case Err(_) => w
         case Ok(next) => w.(calls := w.calls[call := Call(key, w.registry.streams[key].handle, next)]))
    case Replace(call) =>
      var c := w.calls[call];
      w.(registry := Replaced(w.registry, c.key, c.handle, c.next).0, calls := w.calls - {call})
  }

  const EMPTY: World := World(Registry(map[], map[], []), {}, {}, map[])

  ghost predicate Run(events: seq<Event>, w: World)
    decreases |events|
  {
    if events == [] then w == EMPTY
    else
      var n := |events| - 1;
      exists v :: Run(events[..n], v) && Allowed(v, events[n]) && w == Next(v, events[n])
  }

  ghost predicate CallSound(w: World, c: Call) {
    && c.key in w.keys && c.handle in w.handles
    && MayReplace(w.registry, c.key, c.handle, c.next)
  }

  ghost predicate Inv(w: World) {
    && Coherent(w.registry)
    && (forall k :: k in w.registry.streams ==> k in w.keys && w.registry.streams[k].handle in w.handles)
    && (forall call :: call in w.calls ==> CallSound(w, w.calls[call]))
  }

  /** A call in flight stays sound while the session it goes on with is the same, or gone. */
  lemma CallStaysSound(w: World, v: World, c: Call)
    requires CallSound(w, c) && c.key in v.keys && c.handle in v.handles
    requires forall k :: k in v.registry.streams && v.registry.streams[k].handle == c.handle ==>
               k in w.registry.streams && w.registry.streams[k].handle == c.handle
    requires c.key in v.registry.streams ==>
               && c.key in w.registry.streams
               && v.registry.streams[c.key].handle == w.registry.streams[c.key].handle
               && v.registry.streams[c.key].policy == w.registry.streams[c.key].policy
    ensures CallSound(v, c)
  {
  }

  lemma InsertKeepsCall(w: World, key: SessionKey, session: Session, c: Call)
    requires CallSound(w, c) && Allowed(w, Insert(key, session))
    ensures CallSound(Next(w, Insert(key, session)), c)
  {
    CallStaysSound(w, Next(w, Insert(key, session)), c);
  }

  lemma ReplaceKeepsCall(w: World, call: nat, c: Call)
    requires CallSound(w, c) && call in w.calls && CallSound(w, w.calls[call])
    ensures CallSound(Next(w, Replace(call)), c)
  {
    CallStaysSound(w, Next(w, Replace(call)), c);
  }

  lemma InsertKeepsInv(w: World, key: SessionKey, session: Session)
    requires Inv(w) && Allowed(w, Insert(key, session))
    ensures Inv(Next(w, Insert(key, session)))
  {
    InsertKeepsCoherent(w.registry, key, session);
    var v := Next(w, Insert(key, session));
    forall call | call in v.calls ensures CallSound(v, v.calls[call]) {
      InsertKeepsCall(w, key, session, w.calls[call]);
    }
  }

  lemma RemoveKeepsInv(w: World, key: SessionKey)
    requires Inv(w)
    ensures Inv(Next(w, Remove(key)))
  {
    RemoveKeepsCoherent(w.registry, key);
    var v := Next(w, Remove(key));
    forall call | call in v.calls ensures CallSound(v, v.calls[call]) {
      assert CallSound(w, w.calls[call]);
    }
  }

  lemma ValidatedIsValid(session: Session, value: seq<Byte>)
    requires ValidatedRoutes(session, value).Ok?
    ensures Valid(ValidatedRoutes(session, value).value)
    ensures WithinPolicy(session.policy, ValidatedRoutes(session, value).value)
    ensures |ValidatedRoutes(session, value).value| <= MAX_SESSION_ROUTES
  {
    RouteCapsule.EncodingIsUnique(value);
  }

  lemma LookUpKeepsInv(w: World, call: nat, key: SessionKey, value: seq<Byte>)
    requires Inv(w) && Allowed(w, LookUp(call, key, value))
    ensures Inv(Next(w, LookUp(call, key, value)))
  {
    if key in w.registry.streams && ValidatedRoutes(w.registry.streams[key], value).Ok? {
      ValidatedIsValid(w.registry.streams[key], value);
      var v := Next(w, LookUp(call, key, value));
      forall c | c in v.calls ensures CallSound(v, v.calls[c]) {
        if c != call {
          assert CallSound(w, w.calls[c]);
        }
      }
    }
  }

  lemma ReplaceKeepsInv(w: World, call: nat)
    requires Inv(w) && Allowed(w, Replace(call))
    ensures Inv(Next(w, Replace(call)))
  {
    var c := w.calls[call];
    assert CallSound(w, c);
    ReplaceKeepsCoherent(w.registry, c.key, c.handle, c.next);
    var v := Next(w, Replace(call));
    forall d | d in v.calls ensures CallSound(v, v.calls[d]) {
      ReplaceKeepsCall(w, call, w.calls[d]);
    }
  }

  lemma StepKeepsInv(w: World, e: Event)
    requires Inv(w) && Allowed(w, e)
    ensures Inv(Next(w, e))
  {
    match e
    case Insert(key, session) => InsertKeepsInv(w, key, session);
    case Remove(key) => RemoveKeepsInv(w, key);
    case LookUp(call, key, value) => LookUpKeepsInv(w, call, key, value);
    case Replace(call) => ReplaceKeepsInv(w, call);
  }

  /** The registry is coherent after any run, however the two halves of replacements interleave with the rest. */
  lemma {:induction false} RunsStayCoherent(events: seq<Event>, w: World)
    requires Run(events, w)
    ensures Inv(w)
    decreases |events|
  {
    if events != [] {
      var n := |events| - 1;
      var v :| Run(events[..n], v) && Allowed(v, events[n]) && w == Next(v, events[n]);
      RunsStayCoherent(events[..n], v);
      StepKeepsInv(v, events[n]);
    }
  }

  /** In the list as it stands, no two places hold conflicting routes. */
  lemma PlacesDoNotConflict(r: Registry, i: nat, j: nat)
    requires Coherent(r) && i < |r.routes| && j < |r.routes| && i != j
    ensures !ConflictsWith(r.routes[i].range, r.routes[j].range)
  {
    assert r.routes[i] in r.routes && r.routes[j] in r.routes;
    if i < j {
      assert RankLess(r.routes[i], r.routes[j]);
    } else {
      assert RankLess(r.routes[j], r.routes[i]);
    }
    assert !Conflicting(r.routes[i], r.routes[j]);
  }

  /**
    Every address of every registered route is one its session's policy lets packets go to. For IPv6 a role
    must have accepted the route that keeps its promise.
   */
  lemma RegisteredRoutesAuthorized(r: Registry, x: RegisteredRoute, address: IpAddr)
    requires Coherent(r) && x in r.routes && RangeContains(x.range, address)
    ensures x.session in r.streams
    ensures (address.family.V6? ==> Policy.KeptV6(r.streams[x.session].policy, x.range.start, x.range.end)) ==>
              Policy.AuthorizesDestination(r.streams[x.session].policy, address)
  {
    var session := r.streams[x.session];
    assert x.range in session.routes && Sound(session);
    assert WellFormed(x.range);
    if address.family.V6? ==> Policy.KeptV6(session.policy, x.range.start, x.range.end) {
      Policy.RangeSound(session.policy, x.range.start, x.range.end, address);
    }
  }

  // ----- Dispatch -----

  lemma {:induction false} FirstMatchFinds(routes: seq<RegisteredRoute>, packet: PacketFacts)
    ensures FirstMatch(routes, packet).None? <==> forall x :: x in routes ==> !RouteMatches(x, packet)
    ensures FirstMatch(routes, packet).Some? ==>
              exists x :: x in routes && RouteMatches(x, packet) && x.session == FirstMatch(routes, packet).value
  {
    if routes != [] {
      FirstMatchFinds(routes[1..], packet);
      assert routes == [routes[0]] + routes[1..];
    }
  }

  /** The packet is matched by what it carries itself, not by a packet it quotes. */
  predicate Direct(packet: PacketFacts) {
    !(IsIcmp(packet.protocol) && packet.invoking.Some?)
  }

  lemma RouteOwnersAreIndexed(r: Registry, packet: PacketFacts)
    requires Coherent(r) && Direct(packet)
    ensures FirstMatch(r.routes, packet).Some? <==>
            exists k :: k in r.streams && RoutesTo(r.streams[k], packet.destination, packet.protocol)
    ensures FirstMatch(r.routes, packet).Some? ==>
              FirstMatch(r.routes, packet).value in r.streams
              && RoutesTo(r.streams[FirstMatch(r.routes, packet).value], packet.destination, packet.protocol)
  {
    FirstMatchFinds(r.routes, packet);
    if k :| k in r.streams && RoutesTo(r.streams[k], packet.destination, packet.protocol) {
      var range :| range in r.streams[k].routes && Permits(range, packet.destination, packet.protocol);
      assert RouteMatches(RegisteredRoute(range, k), packet);
    }
  }

  /**
    The index agrees with asking every session: a session is chosen exactly when some live session's own
    check would take the packet, and the one chosen is such a session.
   */
  lemma DispatchIsExact(r: Registry, packet: PacketFacts)
    requires Coherent(r) && Direct(packet)
    ensures Selected(r, packet).Some? <==>
            exists k :: k in r.streams && Accepts(r.streams[k], packet.destination, packet.protocol)
    ensures Selected(r, packet).Some? ==>
              Selected(r, packet).value in r.streams
              && Accepts(r.streams[Selected(r, packet).value], packet.destination, packet.protocol)
  {
    RouteOwnersAreIndexed(r, packet);
    forall k | k in r.streams
      ensures Owns(r.streams[k], packet.destination) <==>
              packet.destination in r.addresses && r.addresses[packet.destination] == k
    {
      OwnersAreIndexed(r, k, packet.destination);
    }
    if packet.destination in r.addresses {
      assert Accepts(r.streams[r.addresses[packet.destination]], packet.destination, packet.protocol);
    }
  }

  lemma MatchingRoutesConflict(a: AddressRange, b: AddressRange, destination: IpAddr, protocol: Byte)
    requires !IsIcmp(protocol) && Permits(a, destination, protocol) && Permits(b, destination, protocol)
    ensures ConflictsWith(a, b)
  {
  }

  /** Two sessions never both have a route for a packet that is not ICMP. */
  lemma AtMostOneRoutes(r: Registry, j: SessionKey, k: SessionKey, destination: IpAddr, protocol: Byte)
    requires Coherent(r) && j in r.streams && k in r.streams && !IsIcmp(protocol)
    requires RoutesTo(r.streams[j], destination, protocol) && RoutesTo(r.streams[k], destination, protocol)
    ensures j == k
  {
    var a :| a in r.streams[j].routes && Permits(a, destination, protocol);
    var b :| b in r.streams[k].routes && Permits(b, destination, protocol);
    MatchingRoutesConflict(a, b, destination, protocol);
    assert !Conflicting(RegisteredRoute(a, j), RegisteredRoute(b, k));
  }

  /** Nor do two sessions ever own one address. */
  lemma AtMostOneOwns(r: Registry, j: SessionKey, k: SessionKey, destination: IpAddr)
    requires Coherent(r) && j in r.streams && k in r.streams
    requires Owns(r.streams[j], destination) && Owns(r.streams[k], destination)
    ensures j == k
  {
    OwnersAreIndexed(r, j, destination);
    OwnersAreIndexed(r, k, destination);
  }

  /** The owner of an address gets its packets, whatever routes others have. */
  lemma OwnerComesFirst(r: Registry, k: SessionKey, packet: PacketFacts)
    requires Coherent(r) && k in r.streams && Owns(r.streams[k], packet.destination)
    ensures Selected(r, packet) == Some(k)
  {
    OwnersAreIndexed(r, k, packet.destination);
  }

  predicate RoutesQuoted(session: Session, packet: PacketFacts)
    requires packet.invoking.Some?
  {
    RoutesTo(session, packet.invoking.value.0, packet.invoking.value.1)
  }

  lemma QuotingIndex(r: Registry, packet: PacketFacts)
    requires Coherent(r) && !Direct(packet)
    ensures Selected(r, packet).Some? <==>
            exists k :: k in r.streams && (Owns(r.streams[k], packet.destination) || RoutesQuoted(r.streams[k], packet))
    ensures Selected(r, packet).Some? ==>
              var k := Selected(r, packet).value;
              && k in r.streams
              && (if packet.destination in r.addresses then Owns(r.streams[k], packet.destination)
                  else RoutesQuoted(r.streams[k], packet))
  {
    forall k | k in r.streams
      ensures Owns(r.streams[k], packet.destination) <==>
              packet.destination in r.addresses && r.addresses[packet.destination] == k
    {
      OwnersAreIndexed(r, k, packet.destination);
    }
    FirstMatchFinds(r.routes, packet);
    if k :| k in r.streams && RoutesQuoted(r.streams[k], packet) {
      var range :| range in r.streams[k].routes && Permits(range, packet.invoking.value.0, packet.invoking.value.1);
      assert RouteMatches(RegisteredRoute(range, k), packet);
    }
  }

  /** Some live session has a route for the quoted packet, and one for the error's own destination. */
  ghost predicate RoutesBothWays(r: Registry, packet: PacketFacts)
    requires packet.invoking.Some?
  {
    exists k :: && k in r.streams && RoutesQuoted(r.streams[k], packet)
                && RoutesTo(r.streams[k], packet.destination, packet.protocol)
  }

  /** The route of least rank among those that match a packet. */
  ghost predicate LeastMatch(routes: seq<RegisteredRoute>, packet: PacketFacts, x: RegisteredRoute) {
    && x in routes && RouteMatches(x, packet)
    && forall y :: y in routes && RouteMatches(y, packet) ==> y == x || RankLess(x, y)
  }

  /** In a ranked list the first match is the match of least rank. */
  lemma {:induction false} FirstMatchIsLeast(routes: seq<RegisteredRoute>, packet: PacketFacts)
    returns (x: RegisteredRoute)
    requires StrictlyRanked(routes) && FirstMatch(routes, packet).Some?
    ensures LeastMatch(routes, packet, x) && x.session == FirstMatch(routes, packet).value
  {
    if RouteMatches(routes[0], packet) {
      x := routes[0];
      forall y | y in routes && y != x ensures RankLess(x, y) {
        var i :| 0 <= i < |routes| && routes[i] == y;
      }
    } else {
      x := FirstMatchIsLeast(routes[1..], packet);
      assert routes == [routes[0]] + routes[1..];
    }
  }

  /** The route of least rank for the quoted packet is of a session that has one for the error's destination. */
  ghost predicate LeastRoutesBoth(r: Registry, packet: PacketFacts) {
    exists x :: && LeastMatch(r.routes, packet, x) && x.session in r.streams
                && RoutesTo(r.streams[x.session], packet.destination, packet.protocol)
  }

  /**
    For an ICMP error the index follows the quoted packet while the session's own check looks at the outer
    destination. A session is chosen exactly when one owns the destination or routes the quoted packet. The
    chosen session takes the error exactly when some session owns its destination, or the route of least rank
    for the quoted packet is of a session that also routes the error. When the quoted packet is not itself
    ICMP, rank does not matter: some session must route both.
   */
  lemma QuotingDispatch(r: Registry, packet: PacketFacts)
    requires Coherent(r) && !Direct(packet)
    ensures Selected(r, packet).Some? <==>
            exists k :: k in r.streams && (Owns(r.streams[k], packet.destination) || RoutesQuoted(r.streams[k], packet))
    ensures Selected(r, packet).Some? ==> Selected(r, packet).value in r.streams
    ensures Selected(r, packet).Some? ==>
              (Accepts(r.streams[Selected(r, packet).value], packet.destination, packet.protocol) <==>
               packet.destination in r.addresses || LeastRoutesBoth(r, packet))
    ensures Selected(r, packet).Some? && !IsIcmp(packet.invoking.value.1) ==>
              (Accepts(r.streams[Selected(r, packet).value], packet.destination, packet.protocol) <==>
               packet.destination in r.addresses || RoutesBothWays(r, packet))
  {
    QuotingIndex(r, packet);
    if Selected(r, packet).Some? && packet.destination !in r.addresses {
      var k := Selected(r, packet).value;
      OwnersAreIndexed(r, k, packet.destination);
      LeastDecides(r, packet, k);
      if !IsIcmp(packet.invoking.value.1) && RoutesBothWays(r, packet) {
        var j :| && j in r.streams && RoutesQuoted(r.streams[j], packet)
                 && RoutesTo(r.streams[j], packet.destination, packet.protocol);
        AtMostOneRoutes(r, j, k, packet.invoking.value.0, packet.invoking.value.1);
      }
    }
  }

  lemma LeastDecides(r: Registry, packet: PacketFacts, k: SessionKey)
    requires Coherent(r) && FirstMatch(r.routes, packet) == Some(k) && k in r.streams
    ensures LeastRoutesBoth(r, packet) <==> RoutesTo(r.streams[k], packet.destination, packet.protocol)
  {
    var x := FirstMatchIsLeast(r.routes, packet);
    forall y | LeastMatch(r.routes, packet, y) ensures y == x {
      RankIsTotal(x, y);
    }
  }

  // ----- A run that ends in disagreement -----

  lemma RunGoesOn(events: seq<Event>, v: World, e: Event)
    requires Run(events, v) && Allowed(v, e)
    ensures Run(events + [e], Next(v, e))
  {
    var all := events + [e];
    var n := |all| - 1;
    assert all[..n] == events && all[n] == e;
    assert Run(all[..n], v) && Allowed(v, all[n]);
  }

  /** A first session is registered. */
  lemma FirstInsert(key: SessionKey, session: Session) returns (w: World)
    requires session.routes == [] && HostsOnly(session.prefixes)
    ensures Run([] + [Insert(key, session)], w) && w.calls == map[]
    ensures w.registry == Registry(map[key := session], Claimed(map[], session.prefixes, key), [])
  {
    RunGoesOn([], EMPTY, Insert(key, session));
    w := Next(EMPTY, Insert(key, session));
  }

  lemma OneRangeValidates(session: Session, range: AddressRange) returns (value: seq<Byte>)
    requires WellFormed(range) && WithinPolicy(session.policy, [range])
    ensures ValidatedRoutes(session, value) == Ok([range])
  {
    assert Valid([range]);
    value := RouteCapsule.Encoded([range]);
    RouteCapsule.RoundTrip([range]);
  }

  lemma ReplacedOnly(key: SessionKey, session: Session, addresses: map<IpAddr, SessionKey>, range: AddressRange)
    ensures Replaced(Registry(map[key := session], addresses, []), key, session.handle, [range]).0
         == Registry(map[key := session.(routes := [range])], addresses, [RegisteredRoute(range, key)])
  {
    var kept := Retained([], key);
    var added := Tagged([range], key);
    assert kept + added == [RegisteredRoute(range, key)];
    SortedOne(RegisteredRoute(range, key));
    assert Committed(map[key := session], session.handle, [range]) == map[key := session.(routes := [range])];
  }

  lemma SortedOne(x: RegisteredRoute)
    ensures Sorted(RankLess, [x]) == [x]
  {
    var none, one: seq<RegisteredRoute> := [], [x];
    assert one[..|one| - 1] == none && one[|one| - 1] == x;
    assert Sorted(RankLess, none) == none && Placed(RankLess, none, x) == [x];
    assert Sorted(RankLess, one) == Placed(RankLess, Sorted(RankLess, none), x);
  }

  /** The session then advertises one range. */
  lemma OneRouteRun(key: SessionKey, session: Session, range: AddressRange) returns (events: seq<Event>, w: World)
    requires session.routes == [] && HostsOnly(session.prefixes)
    requires WellFormed(range) && WithinPolicy(session.policy, [range])
    ensures Run(events, w)
    ensures w.registry == Registry(map[key := session.(routes := [range])], Claimed(map[], session.prefixes, key),
                                   [RegisteredRoute(range, key)])
  {
    var v := FirstInsert(key, session);
    var value := OneRangeValidates(session, range);
    var inserted, find, replace := [] + [Insert(key, session)], LookUp(0, key, value), Replace(0);
    RunGoesOn(inserted, v, find);
    var u := Next(v, find);
    RunGoesOn(inserted + [find], u, replace);
    events, w := inserted + [find] + [replace], Next(u, replace);
    ReplacedOnly(key, session, v.registry.addresses, range);
  }

  lemma OpenPolicyAllows(start: IpAddr, end: IpAddr) returns (policy: Policy.EffectivePolicy)
    requires start.family == V4 && end.family == V4 && AtMost(start, end)
    ensures Policy.AuthorizesRange(policy, start, end)
    ensures forall protocol :: Policy.AuthorizesProtocol(policy, protocol)
  {
    var ones := 0;
    var everything := Net(Addr(V4, 0), ones);
    var role := Policy.Role([everything], [], false);
    policy := Policy.EffectivePolicy([role], [Policy.AnyProtocol]);
    LimitIsPow2(V4);
    BlockBounds(everything, Limit(V4), 0);
    assert Policy.RangeAllowed(role, start, end) by {
      assert role.allow[0] == everything;
    }
    assert policy.roles[0] == role;
  }

  /**
    A run of one session with an address and a route of its own, at whose end an ICMP error is sent to that
    session although its own check refuses it.
   */
  lemma QuotingCanDisagree() returns (events: seq<Event>, w: World, k: SessionKey, packet: PacketFacts)
    ensures Run(events, w) && k in w.registry.streams && |w.registry.streams[k].prefixes| == 1
    ensures Selected(w.registry, packet) == Some(k)
    ensures !Accepts(w.registry.streams[k], packet.destination, packet.protocol)
  {
    var start, end := Addr(V4, 0x0808_0800), Addr(V4, 0x0808_08FF);
    var range, own, other := AddressRange(start, end, 17), Addr(V4, 0x0A00_0001), Addr(V4, 0x0101_0101);
    var policy := OpenPolicyAllows(start, end);
    var session := Session(0, [HostPrefix(own)], policy, []);
    k := SessionKey(0, 0);
    events, w := OneRouteRun(k, session, range);
    packet := PacketFacts(other, 1, Some((start, 17)));
    OwnAddressOnly(own, other, k);
    assert RouteMatches(w.registry.routes[0], packet);
  }

  lemma OwnAddressOnly(own: IpAddr, other: IpAddr, k: SessionKey)
    requires own != other
    ensures other !in Claimed(map[], [HostPrefix(own)], k) && !Contains(HostPrefix(own), other)
  {
    HostBlock(own, other);
    HostBlock(own, own);
    ClaimedAre(map[], [HostPrefix(own)], k, other);
  }
}
