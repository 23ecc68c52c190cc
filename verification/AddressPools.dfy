/** The pools that lease one address of each family to a session. */
module AddressPools {
  import opened Basics
  import opened Wrappers
  import opened Net

  // ----- The bounds -----

  /** The first and the last address to lease: not the network address, nor an IPv4 broadcast address. */
  function UsableBounds(network: IpNet): (nat, int) {
    var first, last := First(network).value, Last(network).value;
    if network.addr.family.V4? && network.prefixLen < 31 then (first + 1, last - 1)
    else if network.addr.family.V6? && first < last then (first + 1, last)
    else (first, last)
  }

  lemma SizeAtLeast(network: IpNet, bits: nat)
    requires bits <= HostBits(network)
    ensures Size(network) >= Pow2(bits)
  {
    Pow2Monotone(bits, HostBits(network));
  }

  /** There is always an address to lease, the bounds are addresses of the block, and their span fits 128 bits. */
  lemma BoundsAreUsable(network: IpNet)
    ensures var (low, high) := UsableBounds(network);
      && First(network).value <= low <= high <= Last(network).value < Limit(network.addr.family)
      && high - low + 1 < 0x1_0000_0000_0000_0000_0000_0000_0000_0000
  {
    BlockInside(network);
    if network.addr.family.V4? && network.prefixLen < 31 {
      var bits := 2;
      SizeAtLeast(network, bits);
      assert Pow2(bits) == 2 * Pow2(bits - 1);
    }
  }

  // ----- The pool as a value -----

  /** `next` is where the next scan begins. */
  datatype Pool = Pool(network: IpNet, first: nat, last: nat, next: nat, leased: set<IpAddr>)

  function NewPool(network: IpNet): (p: Pool)
    ensures Valid(p)
  {
    BoundsAreUsable(network);
    var (low, high) := UsableBounds(network);
    Pool(network, low, high, low, {})
  }

  predicate Usable(p: Pool, address: IpAddr) {
    address.family == p.network.addr.family && p.first <= address.value <= p.last
  }

  predicate Valid(p: Pool) {
    && p.first <= p.next <= p.last < Limit(p.network.addr.family)
    && p.last - p.first + 1 < 0x1_0000_0000_0000_0000_0000_0000_0000_0000
    && forall a :: a in p.leased ==> Usable(p, a)
  }

  /** The address the scan looks at after `value`. */
  function Following(p: Pool, value: nat): nat {
    if value == p.last then p.first else value + 1
  }

  /** How many steps of the scan lead from where it begins to an address. */
  function Steps(p: Pool, end: nat): int {
    if p.next <= end then end - p.next else p.last - p.first + 1 - (p.next - end)
  }

  ghost predicate Exhausted(p: Pool) {
    forall a :: Usable(p, a) ==> a in p.leased
  }

  /** Every usable address fewer than `steps` away is leased. */
  ghost predicate LeasedBefore(p: Pool, steps: int) {
    forall b :: Usable(p, b) && Steps(p, b.value) < steps ==> b in p.leased
  }

  /** `a` is the first free address in cyclic order, and `q` is `p` once it was leased. */
  ghost predicate LeasesFirstFree(p: Pool, q: Pool, a: IpAddr) {
    && Usable(p, a) && a !in p.leased && LeasedBefore(p, Steps(p, a.value))
    && q == p.(next := Following(p, a.value), leased := p.leased + {a})
  }

  ghost predicate LeaseOutcome(p: Pool, q: Pool, outcome: Option<IpAddr>) {
    match outcome
    case None => Exhausted(p) && q == p
    case Some(a) => LeasesFirstFree(p, q, a)
  }

  function Released(p: Pool, a: IpAddr): Pool {
    p.(leased := p.leased - {a})
  }

  // ----- A pool with fewer leases than addresses has a free one -----

  function Between(family: Family, low: nat, high: nat): set<IpAddr>
    requires high < Limit(family)
  {
    set x | low <= x <= high :: Addr(family, x)
  }

  lemma BetweenNext(family: Family, low: nat, high: nat)
    requires low < high < Limit(family)
    ensures |Between(family, low, high)| == |Between(family, low, high - 1)| + 1
  {
    var last: IpAddr := Addr(family, high);
    assert last !in Between(family, low, high - 1);
    assert Between(family, low, high) == Between(family, low, high - 1) + {last};
  }

  lemma {:induction false} BetweenSize(family: Family, low: nat, high: nat)
    requires low <= high < Limit(family)
    ensures |Between(family, low, high)| == high - low + 1
    decreases high
  {
    if low == high {
      var only: IpAddr := Addr(family, high);
      assert Between(family, low, high) == {only};
    } else {
      BetweenSize(family, low, high - 1);
      BetweenNext(family, low, high);
    }
  }

  lemma SameSize(a: set<IpAddr>, b: set<IpAddr>)
    requires a <= b && |a| == |b|
    ensures a == b
  {
    if x :| x in b && x !in a {
      SubsetSize(a, b - {x});
    }
  }

  /** Comparing the number of leases with the span decides whether every address is taken. */
  lemma CountDecidesExhaustion(p: Pool)
    requires Valid(p)
    ensures |p.leased| >= p.last - p.first + 1 <==> Exhausted(p)
  {
    var all := Between(p.network.addr.family, p.first, p.last);
    BetweenSize(p.network.addr.family, p.first, p.last);
    assert p.leased <= all;
    SubsetSize(p.leased, all);
    if Exhausted(p) {
      SubsetSize(all, p.leased);
    } else if |p.leased| == |all| {
      SameSize(p.leased, all);
    }
  }

  // ----- The pool of the source -----

  class AddressPool {
    const network: IpNet
    const first: nat
    const last: nat
    var next: nat
    var leased: set<IpAddr>

    function Value(): Pool
      reads this
    {
      Pool(network, first, last, next, leased)
    }

    constructor (net: IpNet)
      ensures Value() == NewPool(net)
    {
      BoundsAreUsable(net);
      network := net;
      var bounds := UsableBounds(net);
      first, last := bounds.0, bounds.1;
      next, leased := bounds.0, {};
    }

    method Lease() returns (lease: Option<(IpAddr, IpNet)>)
      requires Valid(Value())
      modifies this
      ensures Valid(Value())
      ensures LeaseOutcome(old(Value()), Value(), if lease.Some? then Some(lease.value.0) else None)
      ensures lease.Some? ==> lease.value.1 == HostPrefix(lease.value.0)
    {
      CountDecidesExhaustion(Value());
      if first > last {
        return None;
      }
      var span := last - first + 1;
      if |leased| >= span {
        return None;
      }
      ghost var start := Value();
      ghost var free :| Usable(start, free) && free !in leased;
      while true
        invariant first <= next <= last && leased == start.leased
        invariant Steps(start, next) <= Steps(start, free.value)
        invariant LeasedBefore(start, Steps(start, next))
        decreases Steps(start, free.value) - Steps(start, next)
      {
        var candidate := next;
        next := if candidate == last then first else candidate + 1;
        var address: IpAddr := Addr(network.addr.family, candidate);
        if address !in leased {
          leased := leased + {address};
          return Some((address, HostPrefix(address)));
        }
        OneStepFurther(start, candidate, address, free);
      }
    }

    method Release(address: IpAddr)
      requires Valid(Value())
      modifies this`leased
      ensures Valid(Value()) && Value() == Released(old(Value()), address)
    {
      leased := leased - {address};
    }
  }

  lemma OneStepFurther(p: Pool, candidate: nat, address: IpAddr, free: IpAddr)
    requires p.first <= p.next <= p.last && Usable(p, free) && free !in p.leased
    requires address.family == p.network.addr.family && address.value == candidate && Usable(p, address)
    requires address in p.leased && Steps(p, candidate) <= Steps(p, free.value) && LeasedBefore(p, Steps(p, candidate))
    ensures Steps(p, Following(p, candidate)) == Steps(p, candidate) + 1 <= Steps(p, free.value)
    ensures LeasedBefore(p, Steps(p, candidate) + 1)
  {
  }

  // ----- Both families -----

  /** `AddressPoolSet`: a session leases one address of each configured family that has one left. */
  class AddressPoolSet {
    const ipv4: AddressPool?
    const ipv6: AddressPool?

    ghost predicate Sound()
      reads this, ipv4, ipv6
    {
      && (ipv4 != null ==> Valid(ipv4.Value()) && ipv4.network.addr.family == V4)
      && (ipv6 != null ==> Valid(ipv6.Value()) && ipv6.network.addr.family == V6)
    }

    constructor (v4: Option<IpNet>, v6: Option<IpNet>)
      requires v4.Some? ==> v4.value.addr.family == V4
      requires v6.Some? ==> v6.value.addr.family == V6
      ensures Sound()
      ensures (ipv4 != null <==> v4.Some?) && (ipv4 != null ==> ipv4.Value() == NewPool(v4.value))
      ensures (ipv6 != null <==> v6.Some?) && (ipv6 != null ==> ipv6.Value() == NewPool(v6.value))
    {
      var p4: AddressPool? := null;
      if v4.Some? {
        p4 := new AddressPool(v4.value);
      }
      var p6: AddressPool? := null;
      if v6.Some? {
        p6 := new AddressPool(v6.value);
      }
      ipv4, ipv6 := p4, p6;
    }

    /** The leases taken, or nothing when no family had one. */
    method Lease() returns (leases: seq<(IpAddr, IpNet)>)
      requires Sound()
      modifies ipv4, ipv6
      ensures Sound()
      ensures forall i :: 0 <= i < |leases| ==> leases[i].1 == HostPrefix(leases[i].0)
      ensures var v4 := if ipv4 == null || Exhausted(old(ipv4.Value())) then 0 else 1;
        && (ipv4 != null ==>
              LeaseOutcome(old(ipv4.Value()), ipv4.Value(),
                           if v4 == 1 && leases != [] then Some(leases[0].0) else None))
        && (ipv6 != null ==>
              LeaseOutcome(old(ipv6.Value()), ipv6.Value(), if |leases| > v4 then Some(leases[v4].0) else None))
        && v4 <= |leases| <= v4 + 1 && (ipv6 == null ==> |leases| == v4)
    {
      leases := [];
      if ipv4 != null {
        var lease := ipv4.Lease();
        if lease.Some? {
          leases := leases + [lease.value];
        }
      }
      if ipv6 != null {
        var lease := ipv6.Lease();
        if lease.Some? {
          leases := leases + [lease.value];
        }
      }
    }
  }

  // ----- Runs -----

  /** Two pools, and the leases that live: each was taken from the pool of its family. */
  datatype World = World(pools: map<Family, Pool>, leases: map<nat, IpAddr>)

  datatype Event = Take(family: Family, lease: nat, outcome: Option<IpAddr>) | Drop(lease: nat)

  ghost predicate Takes(w: World, family: Family, lease: nat, outcome: Option<IpAddr>, v: World) {
    && family in w.pools && lease !in w.leases && family in v.pools
    && LeaseOutcome(w.pools[family], v.pools[family], outcome)
    && v == World(w.pools[family := v.pools[family]],
                  if outcome.Some? then w.leases[lease := outcome.value] else w.leases)
  }

  ghost predicate Drops(w: World, lease: nat, v: World) {
    && lease in w.leases && w.leases[lease].family in w.pools
    && var family := w.leases[lease].family;
       v == World(w.pools[family := Released(w.pools[family], w.leases[lease])], w.leases - {lease})
  }

  ghost predicate Step(w: World, e: Event, v: World) {
    match e
    case Take(family, lease, outcome) => Takes(w, family, lease, outcome, v)
    case Drop(lease) => Drops(w, lease, v)
  }

  /** Every pool new, for its own family, and nothing leased. */
  ghost predicate Initial(w: World) {
    && w.leases == map[]
    && forall f :: f in w.pools ==> w.pools[f] == NewPool(w.pools[f].network) && w.pools[f].network.addr.family == f
  }

  ghost predicate Run(first: World, events: seq<Event>, w: World)
    decreases |events|
  {
    if events == [] then w == first
    else
      var n := |events| - 1;
      exists v :: Run(first, events[..n], v) && Step(v, events[n], w)
  }

  predicate IsLive(leases: map<nat, IpAddr>, a: IpAddr) {
    exists i :: i in leases && leases[i] == a
  }

  /** A pool's leased set holds the addresses of the live leases of its family, no more and no fewer. */
  ghost predicate Tracks(p: Pool, leases: map<nat, IpAddr>, family: Family) {
    && p.network.addr.family == family && Valid(p)
    && forall a: IpAddr :: a in p.leased <==> a.family == family && IsLive(leases, a)
  }

  predicate AllDistinct(leases: map<nat, IpAddr>) {
    forall i, j :: i in leases && j in leases && leases[i] == leases[j] ==> i == j
  }

  ghost predicate Inv(w: World) {
    && AllDistinct(w.leases)
    && (forall f :: f in w.pools ==> Tracks(w.pools[f], w.leases, f))
    && (forall i :: i in w.leases ==> w.leases[i].family in w.pools)
  }

  lemma LiveAfterTake(leases: map<nat, IpAddr>, lease: nat, taken: IpAddr, a: IpAddr)
    requires lease !in leases
    ensures IsLive(leases[lease := taken], a) <==> IsLive(leases, a) || a == taken
  {
    var after := leases[lease := taken];
    assert lease in after && after[lease] == taken;
    if i :| i in leases && leases[i] == a {
      assert i in after && after[i] == a;
    }
  }

  lemma LiveAfterDrop(leases: map<nat, IpAddr>, lease: nat, a: IpAddr)
    requires lease in leases && AllDistinct(leases)
    ensures IsLive(leases - {lease}, a) <==> IsLive(leases, a) && a != leases[lease]
  {
    if i :| i in leases && leases[i] == a && a != leases[lease] {
      assert i in leases - {lease} && (leases - {lease})[i] == a;
    }
  }

  lemma LeasedIsValid(p: Pool, q: Pool, a: IpAddr)
    requires Valid(p) && LeasesFirstFree(p, q, a)
    ensures Valid(q) && q.network == p.network
  {
  }

  /** The pool of the family of the lease gains its address; any other keeps what it had. */
  lemma TracksAfterTake(p: Pool, q: Pool, leases: map<nat, IpAddr>, family: Family, lease: nat, a: IpAddr)
    requires Tracks(p, leases, family) && lease !in leases
    requires if a.family == family then LeasesFirstFree(p, q, a) else q == p
    ensures Tracks(q, leases[lease := a], family)
  {
    if a.family == family {
      LeasedIsValid(p, q, a);
    }
    forall b: IpAddr ensures IsLive(leases[lease := a], b) <==> IsLive(leases, b) || b == a {
      LiveAfterTake(leases, lease, a, b);
    }
  }

  lemma TracksAfterDrop(p: Pool, leases: map<nat, IpAddr>, family: Family, lease: nat)
    requires Tracks(p, leases, family) && lease in leases && AllDistinct(leases)
    ensures Tracks(if leases[lease].family == family then Released(p, leases[lease]) else p, leases - {lease}, family)
  {
    forall b: IpAddr ensures IsLive(leases - {lease}, b) <==> IsLive(leases, b) && b != leases[lease] {
      LiveAfterDrop(leases, lease, b);
    }
  }

  lemma TakeKeepsInv(w: World, family: Family, lease: nat, a: IpAddr, v: World)
    requires Inv(w) && Takes(w, family, lease, Some(a), v)
    ensures Inv(v)
  {
    assert Tracks(w.pools[family], w.leases, family);
    assert !IsLive(w.leases, a);
    forall f | f in v.pools ensures Tracks(v.pools[f], v.leases, f) {
      TracksAfterTake(w.pools[f], v.pools[f], w.leases, f, lease, a);
    }
  }

  lemma DropKeepsInv(w: World, lease: nat, v: World)
    requires Inv(w) && Drops(w, lease, v)
    ensures Inv(v)
  {
    forall f | f in v.pools ensures Tracks(v.pools[f], v.leases, f) {
      TracksAfterDrop(w.pools[f], w.leases, f, lease);
    }
  }

  lemma StepKeepsInv(w: World, e: Event, v: World)
    requires Inv(w) && Step(w, e, v)
    ensures Inv(v)
  {
    match e
    case Take(family, lease, outcome) =>
      if outcome.Some? {
        TakeKeepsInv(w, family, lease, outcome.value, v);
      } else {
        assert v.pools == w.pools;
      }
    case Drop(lease) => DropKeepsInv(w, lease, v);
  }

  lemma {:induction false} RunsKeepInv(first: World, events: seq<Event>, w: World)
    requires Initial(first) && Run(first, events, w)
    ensures Inv(w)
    decreases |events|
  {
    if events != [] {
      var n := |events| - 1;
      var v :| Run(first, events[..n], v) && Step(v, events[n], w);
      RunsKeepInv(first, events[..n], v);
      StepKeepsInv(v, events[n], w);
    }
  }

  lemma {:induction false} PoolsStay(first: World, events: seq<Event>, w: World, f: Family)
    requires Run(first, events, w)
    ensures f in w.pools <==> f in first.pools
    ensures f in w.pools ==> w.pools[f] == first.pools[f].(next := w.pools[f].next, leased := w.pools[f].leased)
    decreases |events|
  {
    if events != [] {
      var n := |events| - 1;
      var v :| Run(first, events[..n], v) && Step(v, events[n], w);
      PoolsStay(first, events[..n], v, f);
    }
  }

  /** Over any run: live leases are distinct, and each is an address its pool could lease from the start. */
  lemma LeasesAreDistinct(first: World, events: seq<Event>, w: World, i: nat, j: nat)
    requires Initial(first) && Run(first, events, w) && i in w.leases && j in w.leases
    ensures i != j ==> w.leases[i] != w.leases[j]
    ensures w.leases[i].family in first.pools && Usable(first.pools[w.leases[i].family], w.leases[i])
  {
    RunsKeepInv(first, events, w);
    var family := w.leases[i].family;
    PoolsStay(first, events, w, family);
    assert Tracks(w.pools[family], w.leases, family);
    assert IsLive(w.leases, w.leases[i]);
  }

  /** What a pool counts as leased are the live leases of its family, no more and no fewer. */
  lemma LeasesAreTracked(first: World, events: seq<Event>, w: World, family: Family, a: IpAddr)
    requires Initial(first) && Run(first, events, w) && family in first.pools
    ensures family in w.pools
    ensures a in w.pools[family].leased <==> a.family == family && exists i :: i in w.leases && w.leases[i] == a
  {
    RunsKeepInv(first, events, w);
    PoolsStay(first, events, w, family);
    assert Tracks(w.pools[family], w.leases, family);
  }

  /** A pool refuses exactly when live leases hold every usable address. */
  lemma RefusedExactly(first: World, events: seq<Event>, w: World, family: Family, lease: nat,
                       outcome: Option<IpAddr>, v: World)
    requires Initial(first) && Run(first, events, w) && Takes(w, family, lease, outcome, v)
    ensures outcome.None? <==> forall a :: Usable(w.pools[family], a) ==> IsLive(w.leases, a)
  {
    RunsKeepInv(first, events, w);
    assert Tracks(w.pools[family], w.leases, family);
    assert forall a :: Usable(w.pools[family], a) ==> a.family == family;
  }

  /** The first free address is one address: nothing is left open in what a lease returns. */
  lemma LeaseIsDetermined(p: Pool, q: Pool, r: Pool, a: IpAddr, b: IpAddr)
    requires Valid(p) && LeasesFirstFree(p, q, a) && LeasesFirstFree(p, r, b)
    ensures a == b && q == r
  {
    assert !(Steps(p, a.value) < Steps(p, b.value));
    assert !(Steps(p, b.value) < Steps(p, a.value));
  }
}
