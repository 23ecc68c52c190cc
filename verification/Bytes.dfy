/** Octets and the big-endian numbers they spell. */
module Bytes {

  type Byte = b: int | 0 <= b < 256

  /** The number of values `k` octets can spell. */
  function Pow256(k: nat): (p: nat)
    ensures p > 0
  {
    if k == 0 then 1 else 256 * Pow256(k - 1)
  }

  /** The number a big-endian octet string spells. */
  function FromBytes(bytes: seq<Byte>): (n: nat)
    ensures n < Pow256(|bytes|)
  {
    if bytes == [] then 0 else FromBytes(bytes[..|bytes| - 1]) * 256 + bytes[|bytes| - 1]
  }

  /** The low `width` octets of `n`, most significant first. */
  function ToBytes(n: nat, width: nat): (bytes: seq<Byte>)
    ensures |bytes| == width
  {
    if width == 0 then [] else ToBytes(n / 256, width - 1) + [n % 256]
  }

  lemma {:induction false} ToThenFrom(n: nat, width: nat)
    requires n < Pow256(width)
    ensures FromBytes(ToBytes(n, width)) == n
  {
    if width > 0 {
      ToThenFrom(n / 256, width - 1);
      assert ToBytes(n, width)[..width - 1] == ToBytes(n / 256, width - 1);
    }
  }

  lemma {:induction false} FromThenTo(bytes: seq<Byte>)
    ensures ToBytes(FromBytes(bytes), |bytes|) == bytes
  {
    if bytes != [] {
      var front := bytes[..|bytes| - 1];
      FromThenTo(front);
      assert FromBytes(bytes) / 256 == FromBytes(front);
      assert bytes == front + [bytes[|bytes| - 1]];
    }
  }

  lemma AppendOctet(bytes: seq<Byte>, octet: Byte)
    ensures FromBytes(bytes + [octet]) == FromBytes(bytes) * 256 + octet
  {
    assert (bytes + [octet])[..|bytes|] == bytes;
  }

  /** `start`, with the octets at `begin` up to `end` shifted in behind it. */
  function Folded(start: nat, input: seq<Byte>, begin: nat, end: nat): nat
    requires begin <= end <= |input|
    decreases |input|, end
  {
    if begin == end then start else Folded(start, input, begin, end - 1) * 256 + input[end - 1]
  }

  lemma {:induction false} FoldedIsFromBytes(front: seq<Byte>, input: seq<Byte>, begin: nat, end: nat)
    requires begin <= end <= |input|
    ensures Folded(FromBytes(front), input, begin, end) == FromBytes(front + input[begin..end])
    decreases end
  {
    if begin == end {
      assert front + input[begin..end] == front;
    } else {
      FoldedIsFromBytes(front, input, begin, end - 1);
      AppendOctet(front + input[begin..end - 1], input[end - 1]);
      assert front + input[begin..end] == front + input[begin..end - 1] + [input[end - 1]];
    }
  }

  lemma {:induction false} FoldedBound(start: nat, input: seq<Byte>, begin: nat, end: nat, limit: nat)
    requires begin <= end <= |input| && start < limit
    ensures Folded(start, input, begin, end) < limit * Pow256(end - begin)
    decreases end
  {
    if begin < end {
      FoldedBound(start, input, begin, end - 1, limit);
      OctetProduct(Pow256(end - begin), Pow256(end - 1 - begin), limit);
    }
  }

  lemma {:induction false} FoldedAtLeast(start: nat, input: seq<Byte>, begin: nat, end: nat)
    requires begin <= end <= |input|
    ensures start * Pow256(end - begin) <= Folded(start, input, begin, end)
    decreases end
  {
    if begin < end {
      FoldedAtLeast(start, input, begin, end - 1);
      OctetProduct(Pow256(end - begin), Pow256(end - 1 - begin), start);
    }
  }

  /** `part` stands in `input` at `at`. */
  predicate HoldsAt(input: seq<Byte>, at: nat, part: seq<Byte>) {
    at + |part| <= |input| && forall i :: 0 <= i < |part| ==> input[at + i] == part[i]
  }

  lemma HoldsBoth(input: seq<Byte>, at: nat, a: seq<Byte>, b: seq<Byte>)
    ensures HoldsAt(input, at, a + b) <==> HoldsAt(input, at, a) && HoldsAt(input, at + |a|, b)
  {
    if HoldsAt(input, at, a + b) {
      assert forall i :: 0 <= i < |a| ==> a[i] == (a + b)[i];
      assert forall i :: 0 <= i < |b| ==> b[i] == (a + b)[|a| + i];
    }
  }

  /** The number the octets of `part` spell, where `part` stands in `input`. */
  lemma FoldedHeld(part: seq<Byte>, input: seq<Byte>, at: nat)
    requires HoldsAt(input, at, part)
    ensures Folded(0, input, at, at + |part|) == FromBytes(part)
  {
    FoldedIsFromBytes([], input, at, at + |part|);
    assert [] + input[at..at + |part|] == part;
  }

  /** Only the octets themselves matter, not where they stand. */
  lemma {:induction false} FoldedLocal(start: nat, part: seq<Byte>, low: nat, high: nat, input: seq<Byte>, at: nat)
    requires HoldsAt(input, at, part) && low <= high <= |part|
    ensures Folded(start, input, at + low, at + high) == Folded(start, part, low, high)
    decreases high
  {
    if low < high {
      FoldedLocal(start, part, low, high - 1, input, at);
      assert part[high - 1] == input[at + (high - 1)];
    }
  }

  /** A string is its first octet with the others shifted in behind it. */
  lemma FirstThenRest(bytes: seq<Byte>)
    requires bytes != []
    ensures Folded(bytes[0], bytes, 1, |bytes|) == FromBytes(bytes)
  {
    AppendOctet([], bytes[0]);
    assert [] + [bytes[0]] == [bytes[0]];
    FoldedIsFromBytes([bytes[0]], bytes, 1, |bytes|);
    assert [bytes[0]] + bytes[1..|bytes|] == bytes;
  }

  lemma {:induction false} FoldedIgnoresFirst(start: nat, bytes: seq<Byte>, first: Byte, end: nat)
    requires 1 <= end <= |bytes|
    ensures Folded(start, bytes[0 := first], 1, end) == Folded(start, bytes, 1, end)
  {
    if end > 1 {
      FoldedIgnoresFirst(start, bytes, first, end - 1);
    }
  }

  lemma {:induction false} Pow256Sum(j: nat, k: nat)
    ensures Pow256(j + k) == Pow256(j) * Pow256(k)
  {
    if j > 0 {
      Pow256Sum(j - 1, k);
      OctetProduct(Pow256(j), Pow256(j - 1), Pow256(k));
    }
  }

  lemma OctetProduct(p: nat, part: nat, q: nat)
    requires p == 256 * part
    ensures p * q == 256 * (part * q)
  {
  }

  lemma Pow256Square(k: nat, p: nat)
    requires Pow256(k) == p
    ensures Pow256(2 * k) == p * p
  {
    Pow256Sum(k, k);
  }

  /** A number below `c` in its leading place has a leading octet below `c`. */
  lemma {:induction false} LeadingOctetBound(n: nat, width: nat, c: nat)
    requires width > 0 && c <= 256 && n < c * Pow256(width - 1)
    ensures ToBytes(n, width)[0] < c
  {
    if width == 1 {
      assert ToBytes(n / 256, 0) == [];
    } else {
      var p := Pow256(width - 2);
      assert n / 256 < c * p by {
        assert c * (256 * p) == 256 * (c * p);
      }
      LeadingOctetBound(n / 256, width - 1, c);
    }
  }

  /** A growable octet buffer that callers hand out for writing. */
  class ByteBuffer {
    var bytes: seq<Byte>

    constructor ()
      ensures bytes == []
    {
      bytes := [];
    }

    method Extend(more: seq<Byte>)
      modifies this
      ensures bytes == old(bytes) + more
    {
      bytes := bytes + more;
    }
  }
}
