/** IP addresses as they stand in packets and capsules: 4 or 16 octets, most significant first. */
module AddressOctets {
  import opened Bytes
  import opened Net

  function Octets(family: Family): nat {
    if family.V4? then 4 else 16
  }

  lemma LimitIsPow256(family: Family)
    ensures Pow256(Octets(family)) == Limit(family)
  {
    Pow256Square(1, 0x100);
    Pow256Square(2, 0x1_0000);
    Pow256Square(4, 0x1_0000_0000);
    Pow256Square(8, 0x1_0000_0000_0000_0000);
  }

  function AddressBytes(address: IpAddr): (bytes: seq<Byte>)
    ensures |bytes| == Octets(address.family)
  {
    ToBytes(address.value, Octets(address.family))
  }

  /** The address whose octets stand at `at`. */
  function AddressFrom(family: Family, value: seq<Byte>, at: nat): IpAddr
    requires at + Octets(family) <= |value|
  {
    LimitIsPow256(family);
    FoldedBound(0, value, at, at + Octets(family), 1);
    Addr(family, Folded(0, value, at, at + Octets(family)))
  }

  lemma AddressRoundTrip(address: IpAddr, value: seq<Byte>, at: nat)
    requires HoldsAt(value, at, AddressBytes(address))
    ensures AddressFrom(address.family, value, at) == address
  {
    LimitIsPow256(address.family);
    ToThenFrom(address.value, Octets(address.family));
    FoldedHeld(AddressBytes(address), value, at);
  }

  lemma AddressBytesHeld(family: Family, value: seq<Byte>, at: nat)
    requires at + Octets(family) <= |value|
    ensures HoldsAt(value, at, AddressBytes(AddressFrom(family, value, at)))
  {
    var part := value[at..at + Octets(family)];
    FoldedHeld(part, value, at);
    FromThenTo(part);
  }
}
