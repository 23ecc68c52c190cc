/** Which addresses count as globally routable. */
module AddressScope {
  import opened Net

  datatype AddressClass =
    | Global
    | Unspecified
    | Loopback
    | Private
    | Shared
    | LinkLocal
    | Multicast
    | Documentation
    | Reserved
    | Broadcast

  function Classify(address: IpAddr): AddressClass {
    if address.family.V4? then ClassifyV4(address.value) else ClassifyV6(address.value)
  }

  /** `value & mask == base & mask`: a prefix mask clears the bits below its lowest set bit. */
  predicate InRange(value: nat, base: nat, mask: nat)
    requires mask < 0x1_0000_0000
  {
    var block := 0x1_0000_0000 - mask;
    value - value % block == base - base % block
  }

  function ClassifyV4(value: nat): AddressClass {
    if value == 0xFFFF_FFFF then Broadcast
    else if value == 0 then Unspecified
    else if value / 0x100_0000 == 127 then Loopback
    else if || value / 0x100_0000 == 10
            || value / 0x10_0000 == 0xAC1
            || value / 0x1_0000 == 0xC0A8
            || InRange(value, 0xC0A8_0000, 0xFFFF_0000) then Private
    else if InRange(value, 0x6440_0000, 0xFFC0_0000) then Shared
    else if value / 0x1_0000 == 0xA9FE then LinkLocal
    else if 224 <= value / 0x100_0000 <= 239 then Multicast
    else if || InRange(value, 0xC000_0000, 0xFFFF_FF00)
            || InRange(value, 0xC000_0200, 0xFFFF_FF00)
            || InRange(value, 0xC633_6400, 0xFFFF_FF00)
            || InRange(value, 0xCB00_7100, 0xFFFF_FF00) then Documentation
    else if || InRange(value, 0x0000_0000, 0xFF00_0000)
            || InRange(value, 0xC612_0000, 0xFFFE_0000)
            || value >= 0xF000_0000 then Reserved
    else Global
  }

  /** Powers of two by which IPv6 addresses are shifted: 128 less the number of bits compared. */
  const SHIFT_125: nat := 0x2000_0000_0000_0000_0000_0000_0000_0000
  const SHIFT_121: nat := 0x0200_0000_0000_0000_0000_0000_0000_0000
  const SHIFT_120: nat := 0x0100_0000_0000_0000_0000_0000_0000_0000
  const SHIFT_118: nat := 0x0040_0000_0000_0000_0000_0000_0000_0000
  const SHIFT_112: nat := 0x0001_0000_0000_0000_0000_0000_0000_0000
  const SHIFT_105: nat := 0x0000_0200_0000_0000_0000_0000_0000_0000
  const SHIFT_96: nat := 0x0000_0001_0000_0000_0000_0000_0000_0000
  const SHIFT_32: nat := 0x1_0000_0000

  /** `value >> shift == base`. */
  predicate Prefixed(value: nat, base: nat, shifted: nat)
    requires shifted > 0
  {
    value / shifted == base
  }

  function ClassifyV6(value: nat): AddressClass {
    if value == 0 then Unspecified
    else if value == 1 then Loopback
    else if Prefixed(value, 0x7e, SHIFT_121) || Prefixed(value, 0x3fa, SHIFT_118) then
      if Prefixed(value, 0x3fa, SHIFT_118) then LinkLocal else Private
    else if Prefixed(value, 0xff, SHIFT_120) then Multicast
    else if Prefixed(value, 0x2001_0db8, SHIFT_96) then Documentation
    else if Prefixed(value, 0, SHIFT_32) || Prefixed(value, 0xffff, SHIFT_32) then Reserved
    else if Prefixed(value, 0x10_0080, SHIFT_105) || Prefixed(value, 0x2002, SHIFT_112) then Reserved
    else if Prefixed(value, 0x1, SHIFT_125) then Global
    else Reserved
  }

  // ----- The same by intervals -----

  predicate NonGlobalV4(value: nat) {
    || value <= 0x00FF_FFFF
    || 0x0A00_0000 <= value <= 0x0AFF_FFFF
    || 0x6440_0000 <= value <= 0x647F_FFFF
    || 0x7F00_0000 <= value <= 0x7FFF_FFFF
    || 0xA9FE_0000 <= value <= 0xA9FE_FFFF
    || 0xAC10_0000 <= value <= 0xAC1F_FFFF
    || 0xC000_0000 <= value <= 0xC000_00FF
    || 0xC000_0200 <= value <= 0xC000_02FF
    || 0xC0A8_0000 <= value <= 0xC0A8_FFFF
    || 0xC612_0000 <= value <= 0xC613_FFFF
    || 0xC633_6400 <= value <= 0xC633_64FF
    || 0xCB00_7100 <= value <= 0xCB00_71FF
    || 0xE000_0000 <= value
  }

  const GLOBAL_V6_FIRST: nat := 0x2000_0000_0000_0000_0000_0000_0000_0000
  const GLOBAL_V6_LAST: nat := 0x3FFF_FFFF_FFFF_FFFF_FFFF_FFFF_FFFF_FFFF

  /** The parts of 2000::/3 set aside: 2001::/23, 2001:db8::/32 and 2002::/16. */
  predicate SetAsideV6(value: nat) {
    || 0x2001_0000_0000_0000_0000_0000_0000_0000 <= value <= 0x2001_01FF_FFFF_FFFF_FFFF_FFFF_FFFF_FFFF
    || 0x2001_0DB8_0000_0000_0000_0000_0000_0000 <= value <= 0x2001_0DB8_FFFF_FFFF_FFFF_FFFF_FFFF_FFFF
    || 0x2002_0000_0000_0000_0000_0000_0000_0000 <= value <= 0x2002_FFFF_FFFF_FFFF_FFFF_FFFF_FFFF_FFFF
  }

  predicate NonGlobalV6(value: nat) {
    value < GLOBAL_V6_FIRST || value > GLOBAL_V6_LAST || SetAsideV6(value)
  }

  lemma RangeIsInterval(value: nat, base: nat, mask: nat)
    requires mask < 0x1_0000_0000 && base % (0x1_0000_0000 - mask) == 0
    ensures InRange(value, base, mask) <==> base <= value < base + (0x1_0000_0000 - mask)
  {
    var block := 0x1_0000_0000 - mask;
    MultipleBelow(value, base, block);
  }

  /** The multiple of `block` at or below `value` is `base` exactly when `value` lies in the block at `base`. */
  lemma MultipleBelow(value: nat, base: nat, block: nat)
    requires block > 0 && base % block == 0
    ensures value - value % block == base <==> base <= value < base + block
  {
    var q, b := value / block, base / block;
    assert value == q * block + value % block && base == b * block;
    if q < b {
      MulAtMost(q + 1, b, block);
      MulSum(q, 1, block);
    } else if q > b {
      MulAtMost(b + 1, q, block);
      MulSum(b, 1, block);
    }
  }

  lemma V4Exactly(value: nat)
    requires value < 0x1_0000_0000
    ensures ClassifyV4(value) != Global <==> NonGlobalV4(value)
  {
    RangeIsInterval(value, 0xC0A8_0000, 0xFFFF_0000);
    RangeIsInterval(value, 0x6440_0000, 0xFFC0_0000);
    RangeIsInterval(value, 0xC000_0000, 0xFFFF_FF00);
    RangeIsInterval(value, 0xC000_0200, 0xFFFF_FF00);
    RangeIsInterval(value, 0xC633_6400, 0xFFFF_FF00);
    RangeIsInterval(value, 0xCB00_7100, 0xFFFF_FF00);
    RangeIsInterval(value, 0x0000_0000, 0xFF00_0000);
    RangeIsInterval(value, 0xC612_0000, 0xFFFE_0000);
  }

  lemma V6Exactly(value: nat)
    requires value < Limit(V6)
    ensures ClassifyV6(value) != Global <==> NonGlobalV6(value)
  {
  }

  predicate NonGlobal(address: IpAddr) {
    if address.family.V4? then NonGlobalV4(address.value) else NonGlobalV6(address.value)
  }

  /** The classifier's verdict, as a set of intervals. */
  lemma GlobalExactly(address: IpAddr)
    ensures Classify(address) != Global <==> NonGlobal(address)
  {
    if address.family.V4? {
      V4Exactly(address.value);
    } else {
      V6Exactly(address.value);
    }
  }
}
