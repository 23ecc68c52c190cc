/** IP addresses and CIDR blocks, as `std::net` and `ipnet` define them. */
module Net {

  datatype Family = V4 | V6

  function Width(family: Family): nat {
    if family.V4? then 32 else 128
  }

  /** One more than the largest address of a family. */
  function Limit(family: Family): nat {
    if family.V4? then 0x1_0000_0000 else 0x1_0000_0000_0000_0000_0000_0000_0000_0000
  }

  datatype RawAddr = Addr(family: Family, value: nat)
  type IpAddr = a: RawAddr | a.value < Limit(a.family) witness Addr(V4, 0)

  function Version(address: IpAddr): nat {
    if address.family.V4? then 4 else 6
  }

  /** The order `IpAddr` derives: every IPv4 address before every IPv6 address. */
  predicate AtMost(a: IpAddr, b: IpAddr) {
    Version(a) < Version(b) || (a.family == b.family && a.value <= b.value)
  }

  predicate Below(a: IpAddr, b: IpAddr) {
    AtMost(a, b) && a != b
  }

  function Pow2(k: nat): (p: nat)
    ensures p > 0
  {
    if k == 0 then 1 else 2 * Pow2(k - 1)
  }

  lemma {:induction false} Pow2Sum(j: nat, k: nat)
    ensures Pow2(j + k) == Pow2(j) * Pow2(k)
  {
    if j > 0 {
      Pow2Sum(j - 1, k);
      DoubleProduct(Pow2(j), Pow2(j - 1), Pow2(k));
    }
  }

  lemma DoubleProduct(p: nat, half: nat, q: nat)
    requires p == 2 * half
    ensures p * q == 2 * (half * q)
  {
  }

  lemma Pow2Square(k: nat, p: nat)
    requires Pow2(k) == p
    ensures Pow2(2 * k) == p * p
  {
    Pow2Sum(k, k);
  }

  lemma LimitIsPow2(family: Family)
    ensures Pow2(Width(family)) == Limit(family)
  {
    Pow2Square(1, 2);
    Pow2Square(2, 4);
    Pow2Square(4, 0x10);
    Pow2Square(8, 0x100);
    Pow2Square(16, 0x1_0000);
    Pow2Square(32, 0x1_0000_0000);
    Pow2Square(64, 0x1_0000_0000_0000_0000);
  }

  lemma MulAtMost(x: nat, y: nat, z: nat)
    requires x <= y
    ensures x * z <= y * z
  {
  }

  lemma MulSum(x: nat, y: nat, z: nat)
    ensures (x + y) * z == x * z + y * z
  {
  }

  lemma Pow2Plus(j: nat, k: nat, p: nat, q: nat)
    requires Pow2(j) == p && Pow2(k) == q
    ensures Pow2(j + k) == p * q
  {
    Pow2Sum(j, k);
  }

  lemma {:induction false} Pow2Monotone(j: nat, k: nat)
    requires j <= k
    ensures Pow2(j) <= Pow2(k)
  {
    if j < k {
      Pow2Monotone(j, k - 1);
    }
  }

  /** A number strictly between neighbouring powers of two is no power of two. */
  lemma BetweenPowers(n: nat, j: nat, k: nat)
    requires Pow2(j) < n < Pow2(j + 1)
    ensures Pow2(k) != n
  {
    if k <= j {
      Pow2Monotone(k, j);
    } else {
      Pow2Monotone(j + 1, k);
    }
  }

  datatype RawNet = Net(addr: IpAddr, prefixLen: nat)
  /** An address with a prefix length; host bits may be set, as in `ipnet`. */
  type IpNet = n: RawNet | n.prefixLen <= Width(n.addr.family) witness Net(Addr(V4, 0), 0)

  /** The number of addresses in a block. */
  function Size(net: IpNet): (size: nat)
    ensures size > 0
  {
    Pow2(Width(net.addr.family) - net.prefixLen)
  }

  /** `value` with its low `bits` bits cleared. */
  function ClearLow(value: nat, bits: nat): (r: nat)
    ensures r <= value < r + Pow2(bits)
  {
    if bits == 0 then value else 2 * ClearLow(value / 2, bits - 1)
  }

  lemma {:induction false} ClearedIsMultiple(value: nat, bits: nat) returns (q: nat)
    ensures ClearLow(value, bits) == q * Pow2(bits)
  {
    if bits == 0 {
      q := value;
    } else {
      q := ClearedIsMultiple(value / 2, bits - 1);
      DoubledMultiple(q, Pow2(bits), Pow2(bits - 1));
    }
  }

  lemma DoubledMultiple(q: nat, p: nat, half: nat)
    requires p == 2 * half
    ensures 2 * (q * half) == q * p
  {
  }

  function HostBits(net: IpNet): nat {
    Width(net.addr.family) - net.prefixLen
  }

  /** `network()`: the first address of the block, its host bits cleared. */
  function First(net: IpNet): (a: IpAddr)
    ensures a.family == net.addr.family
    ensures a.value <= net.addr.value < a.value + Size(net)
  {
    Addr(net.addr.family, ClearLow(net.addr.value, HostBits(net)))
  }

  /** A block that starts inside a space of `whole` blocks ends inside it. */
  lemma BlockFits(q: nat, size: nat, whole: nat)
    requires q * size < whole * size
    ensures q * size + size <= whole * size
  {
    if whole <= q {
      MulAtMost(whole, q, size);
    }
    MulSum(q, 1, size);
    MulAtMost(q + 1, whole, size);
  }

  lemma BlockInside(net: IpNet)
    ensures First(net).value + Size(net) <= Limit(net.addr.family)
  {
    var q := ClearedIsMultiple(net.addr.value, HostBits(net));
    LimitIsPow2(net.addr.family);
    Pow2Sum(net.prefixLen, Width(net.addr.family) - net.prefixLen);
    BlockFits(q, Size(net), Pow2(net.prefixLen));
  }

  /** `broadcast()`: the last address of the block. */
  function Last(net: IpNet): (a: IpAddr)
    ensures a.family == net.addr.family
  {
    BlockInside(net);
    Addr(net.addr.family, First(net).value + Size(net) - 1)
  }

  lemma {:induction false} ClearedMultiple(q: nat, bits: nat)
    ensures ClearLow(q * Pow2(bits), bits) == q * Pow2(bits)
  {
    if bits > 0 {
      var half := q * Pow2(bits - 1);
      DoubledMultiple(q, Pow2(bits), Pow2(bits - 1));
      assert 2 * half / 2 == half;
      ClearedMultiple(q, bits - 1);
    }
  }

  /** The bounds of a block given by its first address. */
  lemma BlockBounds(net: IpNet, size: nat, q: nat)
    requires Size(net) == size && net.addr.value == q * size
    ensures First(net) == net.addr && Last(net).value == net.addr.value + size - 1
  {
    ClearedMultiple(q, HostBits(net));
  }

  /** `contains(&address)`. */
  predicate Contains(net: IpNet, address: IpAddr) {
    net.addr.family == address.family && First(net).value <= address.value <= Last(net).value
  }

  predicate Aligned(net: IpNet) {
    First(net) == net.addr
  }

  function HostPrefix(address: IpAddr): (net: IpNet) {
    Net(address, Width(address.family))
  }

  /** A host prefix holds its one address. */
  lemma HostBlock(address: IpAddr, other: IpAddr)
    ensures Aligned(HostPrefix(address)) && Last(HostPrefix(address)) == address
    ensures Contains(HostPrefix(address), other) <==> other == address
  {
    assert Size(HostPrefix(address)) == 1;
  }

  predicate Inside(inner: IpNet, outer: IpNet) {
    && inner.addr.family == outer.addr.family
    && First(outer).value <= First(inner).value
    && Last(inner).value <= Last(outer).value
  }

  predicate Disjoint(a: IpNet, b: IpNet) {
    a.addr.family == b.addr.family ==> Last(a).value < First(b).value || Last(b).value < First(a).value
  }

  /** A block at a multiple of its size lies within or outside any larger block at a multiple of its own. */
  lemma SmallerIsInsideOrOutside(x: nat, size: nat, y: nat, factor: nat)
    ensures || (y * (factor * size) <= x * size && x * size + size <= y * (factor * size) + factor * size)
            || x * size + size <= y * (factor * size)
            || y * (factor * size) + factor * size <= x * size
  {
    var t := y * factor;
    assert y * (factor * size) == t * size;
    MulSum(x, 1, size);
    MulSum(t, factor, size);
    if x < t {
      MulAtMost(x + 1, t, size);
    } else if x < t + factor {
      MulAtMost(x + 1, t + factor, size);
      MulAtMost(t, x, size);
    } else {
      MulAtMost(t + factor, x, size);
    }
  }

  lemma LongerIsInsideOrDisjoint(a: IpNet, b: IpNet)
    requires a.addr.family == b.addr.family && a.prefixLen >= b.prefixLen
    ensures Inside(a, b) || Disjoint(a, b)
  {
    var x := ClearedIsMultiple(a.addr.value, HostBits(a));
    var y := ClearedIsMultiple(b.addr.value, HostBits(b));
    var factor := Pow2(a.prefixLen - b.prefixLen);
    Pow2Sum(a.prefixLen - b.prefixLen, Width(a.addr.family) - a.prefixLen);
    SmallerIsInsideOrOutside(x, Size(a), y, factor);
  }

  /** Two CIDR blocks are nested or disjoint. */
  lemma NestedOrDisjoint(a: IpNet, b: IpNet)
    ensures Inside(a, b) || Inside(b, a) || Disjoint(a, b)
  {
    if a.addr.family == b.addr.family {
      if a.prefixLen >= b.prefixLen {
        LongerIsInsideOrDisjoint(a, b);
      } else {
        LongerIsInsideOrDisjoint(b, a);
      }
    }
  }

  /** Of two blocks that share an address, one holds the first address of the other. */
  lemma CommonAddress(a: IpNet, b: IpNet, address: IpAddr)
    requires Contains(a, address) && Contains(b, address)
    ensures Contains(a, First(b)) || Contains(b, First(a))
  {
    NestedOrDisjoint(a, b);
  }
}
