/** The one's-complement checksum of RFC 1071. */
module Checksums {
  import opened Basics
  import opened Bytes

  function Word(high: nat, low: nat): nat {
    256 * high + low
  }

  /** What the octet at an even or odd place adds to a sum of big-endian 16-bit words. */
  function Weight(place: nat, octet: Byte): nat {
    if place % 2 == 0 then Word(octet, 0) else octet
  }

  /** The sum of the words from `begin` up to `end`; an odd last octet is the high half of a word. */
  function Sum(input: seq<Byte>, begin: nat, end: nat): nat
    requires begin <= end <= |input|
    decreases |input|, end
  {
    if begin == end then 0 else Sum(input, begin, end - 1) + Weight(end - 1 - begin, input[end - 1])
  }

  // ----- Folding the carries -----

  /** The carries folded in until 16 bits are left. */
  function Fold(sum: nat): (r: nat)
    ensures r < 0x1_0000 && r <= sum
  {
    if sum < 0x1_0000 then sum else Fold(sum % 0x1_0000 + sum / 0x1_0000)
  }

  lemma AddMultiple(x: nat, h: nat)
    ensures (x + 65535 * h) % 65535 == x % 65535
  {
  }

  lemma SplitWord(sum: nat)
    ensures sum % 0x1_0000 + sum / 0x1_0000 + 65535 * (sum / 0x1_0000) == sum
  {
  }

  /** Folding keeps the sum modulo 65535, and reaches zero only from zero. */
  lemma {:induction false} FoldKeeps(sum: nat)
    ensures Fold(sum) % 65535 == sum % 65535
    ensures Fold(sum) == 0 <==> sum == 0
  {
    if sum >= 0x1_0000 {
      SplitWord(sum);
      FoldKeeps(sum % 0x1_0000 + sum / 0x1_0000);
      AddMultiple(sum % 0x1_0000 + sum / 0x1_0000, sum / 0x1_0000);
    }
  }

  function Complement(sum: nat): (c: nat)
    ensures c < 0x1_0000
  {
    65535 - Fold(sum)
  }

  lemma Congruent(a: nat, b: nat)
    requires a >= b && a % 65535 == b % 65535
    ensures (a - b + 65535) % 65535 == 0
  {
  }

  /** A word is zero modulo 65535 only as 0 or 65535, so a sum folds to 65535 when it is a positive multiple. */
  lemma FoldsFull(sum: nat)
    ensures Fold(sum) == 65535 <==> sum > 0 && sum % 65535 == 0
  {
    FoldKeeps(sum);
  }

  /** Adding the complement of a sum to it makes the complement of the whole zero. */
  lemma ComplementCancels(sum: nat)
    ensures Complement(sum + Complement(sum)) == 0
  {
    FoldKeeps(sum);
    Congruent(sum, Fold(sum));
    FoldsFull(sum + Complement(sum));
  }

  // ----- Sums -----

  lemma {:induction false} SumLocal(a: seq<Byte>, b: seq<Byte>, begin: nat, end: nat)
    requires begin <= end <= |a| && end <= |b|
    requires forall i :: begin <= i < end ==> a[i] == b[i]
    ensures Sum(a, begin, end) == Sum(b, begin, end)
    decreases end
  {
    if begin < end {
      SumLocal(a, b, begin, end - 1);
    }
  }

  lemma {:induction false} SumHeld(part: seq<Byte>, input: seq<Byte>, at: nat, n: nat)
    requires HoldsAt(input, at, part) && n <= |part|
    ensures Sum(part, 0, n) == Sum(input, at, at + n)
  {
    if n > 0 {
      SumHeld(part, input, at, n - 1);
      assert part[n - 1] == input[at + (n - 1)];
    }
  }

  /** Octets that were zero are given a value at a word boundary. */
  lemma {:induction false} SumWithWord(a: seq<Byte>, b: seq<Byte>, begin: nat, at: nat, end: nat)
    requires begin <= at && at + 2 <= end <= |a| == |b| && (at - begin) % 2 == 0
    requires a[at] == 0 && a[at + 1] == 0 && forall i :: begin <= i < end && i != at && i != at + 1 ==> a[i] == b[i]
    ensures Sum(b, begin, end) == Sum(a, begin, end) + Word(b[at], b[at + 1])
    decreases end
  {
    if end == at + 2 {
      SumLocal(a, b, begin, at);
      SumOfTwo(a, begin, at);
      SumOfTwo(b, begin, at);
    } else {
      SumWithWord(a, b, begin, at, end - 1);
    }
  }

  lemma SumOfTwo(a: seq<Byte>, begin: nat, at: nat)
    requires begin <= at && at + 2 <= |a| && (at - begin) % 2 == 0
    ensures Sum(a, begin, at + 2) == Sum(a, begin, at) + Word(a[at], a[at + 1])
  {
    assert (at + 1 - begin) % 2 == 1;
    assert Sum(a, begin, at + 1) == Sum(a, begin, at) + Word(a[at], 0);
  }

  lemma {:induction false} SumBound(a: seq<Byte>, begin: nat, end: nat)
    requires begin <= end <= |a|
    ensures Sum(a, begin, end) <= 65280 * (end - begin)
    decreases end
  {
    if begin < end {
      SumBound(a, begin, end - 1);
    }
  }

  /** What is stored at `at` is the complement of the rest: the whole sums to a checksum of zero. */
  lemma StoredComplementVerifies(a: seq<Byte>, b: seq<Byte>, begin: nat, at: nat, end: nat)
    requires begin <= at && at + 2 <= end <= |a| == |b| && (at - begin) % 2 == 0
    requires a[at] == 0 && a[at + 1] == 0 && forall i :: begin <= i < end && i != at && i != at + 1 ==> a[i] == b[i]
    requires Word(b[at], b[at + 1]) == Complement(Sum(a, begin, end))
    ensures Complement(Sum(b, begin, end)) == 0
  {
    SumWithWord(a, b, begin, at, end);
    ComplementCancels(Sum(a, begin, end));
  }

  // ----- The loops of the source -----

  const U32_MAX: nat := 0xFFFF_FFFF

  /** The carry loop terminates with the folded sum. */
  method FoldCarries(total: nat) returns (word: nat)
    ensures word == Fold(total)
  {
    var sum := total;
    while sum / 0x1_0000 != 0
      invariant Fold(sum) == Fold(total)
      decreases sum
    {
      sum := sum % 0x1_0000 + sum / 0x1_0000;
    }
    return sum;
  }

  /** `checksum` of the ICMP builder: the words of the whole input, added with saturation. */
  method Checksum(input: seq<Byte>) returns (c: nat)
    ensures c == Complement(Min(Sum(input, 0, |input|), U32_MAX))
  {
    var sum := 0;
    var i := 0;
    while i < |input|
      invariant i % 2 == 0 || i == |input|
      invariant i <= |input| && sum == Min(Sum(input, 0, i), U32_MAX)
    {
      if i + 1 < |input| {
        SumOfTwo(input, 0, i);
        sum := Min(sum + Word(input[i], input[i + 1]), U32_MAX);
        i := i + 2;
      } else {
        sum := Min(sum + Word(input[i], 0), U32_MAX);
        i := i + 1;
      }
    }
    var word := FoldCarries(sum);
    return 65535 - word;
  }

  /** `header_checksum`: whole words first, then the odd octet; the sum must fit 32 bits. */
  method HeaderChecksum(header: seq<Byte>) returns (c: nat)
    requires Sum(header, 0, |header|) <= U32_MAX
    ensures c == Complement(Sum(header, 0, |header|))
  {
    var sum := 0;
    var i := 0;
    while i + 2 <= |header|
      invariant i <= |header| && i % 2 == 0 && sum == Sum(header, 0, i)
    {
      SumOfTwo(header, 0, i);
      sum := sum + Word(header[i], header[i + 1]);
      i := i + 2;
    }
    if |header| % 2 == 1 {
      sum := sum + Word(header[|header| - 1], 0);
    }
    var word := FoldCarries(sum);
    return 65535 - word;
  }
}
