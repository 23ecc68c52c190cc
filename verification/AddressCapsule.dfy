/** The values of ADDRESS_ASSIGN and ADDRESS_REQUEST capsules: sections 4.7.1 and 4.7.2 of RFC 9484. */
module AddressCapsule {
  import opened Basics
  import opened Wrappers
  import opened Bytes
  import opened Net
  import Varint
  import opened AddressOctets

  const MAX_ENTRIES: nat := 256

  /** An assigned or a requested address: the two capsules share one layout. */
  datatype Entry = Entry(requestId: nat, prefix: IpNet)

  datatype AddressError =
    | VarInt(error: Varint.VarIntError)
    | Truncated
    | IpVersion(version: Byte)
    | PrefixLength(prefix: Byte, bits: nat)
    | HostBitsSet
    | ZeroRequestId
    | DuplicateRequestId(requestId: nat)
    | TooManyEntries
    | EmptyRequest

  function PrefixSize(family: Family): nat {
    2 + Octets(family)
  }

  // ----- Encoding -----

  function EncodedPrefix(prefix: IpNet): (bytes: seq<Byte>)
    ensures |bytes| == PrefixSize(prefix.addr.family)
  {
    [if prefix.addr.family.V4? then 4 else 6] + AddressBytes(prefix.addr) + [prefix.prefixLen]
  }

  function EncodedEntry(entry: Entry): seq<Byte>
    requires entry.requestId <= Varint.MAX_VARINT
  {
    Varint.Encoded(entry.requestId) + EncodedPrefix(entry.prefix)
  }

  predicate IdsFit(entries: seq<Entry>) {
    forall i :: 0 <= i < |entries| ==> entries[i].requestId <= Varint.MAX_VARINT
  }

  predicate Encodable(entries: seq<Entry>) {
    |entries| <= MAX_ENTRIES && IdsFit(entries)
  }

  function Encoded(entries: seq<Entry>): seq<Byte>
    requires IdsFit(entries)
  {
    if entries == [] then [] else EncodedEntry(entries[0]) + Encoded(entries[1..])
  }

  lemma {:induction false} EncodedSnoc(entries: seq<Entry>, entry: Entry)
    requires IdsFit(entries)
    requires entry.requestId <= Varint.MAX_VARINT
    ensures Encoded(entries + [entry]) == Encoded(entries) + EncodedEntry(entry)
  {
    if entries == [] {
      assert entries + [entry] == [entry];
      assert Encoded([]) == [];
    } else {
      assert (entries + [entry])[1..] == entries[1..] + [entry];
      EncodedSnoc(entries[1..], entry);
    }
  }

  lemma EncodedNext(entries: seq<Entry>, i: nat)
    requires i < |entries| && IdsFit(entries[..i]) && entries[i].requestId <= Varint.MAX_VARINT
    ensures IdsFit(entries[..i + 1])
    ensures Encoded(entries[..i + 1]) == Encoded(entries[..i]) + EncodedEntry(entries[i])
  {
    assert entries[..i + 1] == entries[..i] + [entries[i]];
    EncodedSnoc(entries[..i], entries[i]);
  }

  method WriteEntry(entry: Entry, output: ByteBuffer) returns (r: Result<(), AddressError>)
    modifies output
    ensures r.Ok? <==> entry.requestId <= Varint.MAX_VARINT
    ensures r.Ok? ==> output.bytes == old(output.bytes) + EncodedEntry(entry)
    ensures r.Err? ==> output.bytes == old(output.bytes) && r.error == VarInt(Varint.Overflow)
  {
    var scratch := new Byte[8](_ => 0);
    var length := Varint.Encode(entry.requestId, scratch);
    if length.Err? {
      return Err(VarInt(length.error));
    }
    output.Extend(scratch[..length.value]);
    output.Extend(EncodedPrefix(entry.prefix));
    return Ok(());
  }

  /** Writes entries until one is refused; what precedes it stays written. */
  method EncodeEntries(entries: seq<Entry>, output: ByteBuffer) returns (r: Result<(), AddressError>)
    modifies output
    ensures r.Ok? <==> Encodable(entries)
    ensures r.Ok? ==> output.bytes == old(output.bytes) + Encoded(entries)
    ensures r.Err? ==> r.error == TooManyEntries || r.error == VarInt(Varint.Overflow)
    ensures r.Err? ==> old(output.bytes) <= output.bytes
  {
    var count := 0;
    for i := 0 to |entries|
      invariant count == i <= MAX_ENTRIES
      invariant IdsFit(entries[..i]) && output.bytes == old(output.bytes) + Encoded(entries[..i])
    {
      count := count + 1;
      if count > MAX_ENTRIES {
        return Err(TooManyEntries);
      }
      r := WriteEntry(entries[i], output);
      if r.Err? {
        return;
      }
      EncodedNext(entries, i);
    }
    assert entries[..|entries|] == entries;
    return Ok(());
  }

  predicate DistinctIds(entries: seq<Entry>) {
    forall i, j :: 0 <= i < j < |entries| ==> entries[i].requestId != entries[j].requestId
  }

  predicate FreshIds(entries: seq<Entry>, seen: set<nat>) {
    && DistinctIds(entries)
    && forall i :: 0 <= i < |entries| ==> entries[i].requestId != 0 && entries[i].requestId !in seen
  }

  /** A request must name something, under identifiers that are distinct and not zero. */
  method EncodeRequest(entries: seq<Entry>, output: ByteBuffer) returns (r: Result<(), AddressError>)
    modifies output
    ensures r.Ok? <==> entries != [] && FreshIds(entries, {}) && Encodable(entries)
    ensures r.Ok? ==> output.bytes == old(output.bytes) + Encoded(entries)
    ensures entries == [] || !FreshIds(entries, {}) ==> output.bytes == old(output.bytes)
  {
    if entries == [] {
      return Err(EmptyRequest);
    }
    var ids: set<nat> := {};
    for i := 0 to |entries|
      invariant FreshIds(entries[..i], {})
      invariant forall id :: id in ids <==> exists k :: 0 <= k < i && entries[k].requestId == id
      invariant output.bytes == old(output.bytes)
    {
      var id := entries[i].requestId;
      if id == 0 {
        return Err(ZeroRequestId);
      }
      if id in ids {
        return Err(DuplicateRequestId(id));
      }
      ids := ids + {id};
    }
    assert entries[..|entries|] == entries;
    r := EncodeEntries(entries, output);
  }

  // ----- Decoding -----

  /** The prefix that stands at `at`. */
  function ParsedPrefix(value: seq<Byte>, at: nat): (r: Result<IpNet, AddressError>)
    requires at <= |value|
    ensures r.Ok? ==> at + PrefixSize(r.value.addr.family) <= |value|
  {
    if at == |value| then Err(Truncated)
    else if value[at] != 4 && value[at] != 6 then Err(IpVersion(value[at]))
    else
      var family := if value[at] == 4 then V4 else V6;
      var width := Octets(family);
      if |value| < at + PrefixSize(family) then Err(Truncated)
      else
        var prefix := value[at + 1 + width];
        if prefix > Width(family) then Err(PrefixLength(prefix, Width(family)))
        else
          var net := Net(AddressFrom(family, value, at + 1), prefix);
          if First(net) != net.addr then Err(HostBitsSet) else Ok(net)
  }

  /** The entry that stands at `at`, and where it ends. */
  function EntryAt(value: seq<Byte>, at: nat): (r: Result<(Entry, nat), AddressError>)
    requires at <= |value|
    ensures r.Ok? ==> at < r.value.1 <= |value| && IdAt(value, at) == Ok(r.value.0.requestId)
  {
    match Varint.DecodedAt(value, at)
    case Err(error) => Err(VarInt(error))
    case Ok((id, consumed)) =>
      var prefix :- ParsedPrefix(value, at + consumed);
      Ok((Entry(id, prefix), at + consumed + PrefixSize(prefix.addr.family)))
  }

  function IdAt(value: seq<Byte>, at: nat): Result<nat, AddressError>
    requires at <= |value|
  {
    match Varint.DecodedAt(value, at)
    case Err(error) => Err(VarInt(error))
    case Ok((id, _)) => Ok(id)
  }

  /** The assignments from `at` to the end, put after those that came before. */
  function AssignedFrom(value: seq<Byte>, at: nat, before: seq<Entry>): Result<seq<Entry>, AddressError>
    requires at <= |value|
    decreases |value| - at
  {
    if at == |value| then Ok(before)
    else
      var (entry, next) :- EntryAt(value, at);
      if |before| == MAX_ENTRIES then Err(TooManyEntries) else AssignedFrom(value, next, before + [entry])
  }

  function DecodedAssign(value: seq<Byte>): Result<seq<Entry>, AddressError> {
    AssignedFrom(value, 0, [])
  }

  /** The entry at `at`, if its identifier is not zero and not among those in `seen`. */
  function FreshAt(value: seq<Byte>, at: nat, seen: set<nat>): (r: Result<(Entry, nat), AddressError>)
    requires at <= |value|
    ensures r.Ok? ==> at < r.value.1 <= |value| && r.value.0.requestId != 0 && r.value.0.requestId !in seen
  {
    var id :- IdAt(value, at);
    if id == 0 then Err(ZeroRequestId)
    else if id in seen then Err(DuplicateRequestId(id))
    else EntryAt(value, at)
  }

  /** The requests from `at` to the end, put after those that came before, whose identifiers are in `seen`. */
  function RequestedFrom(value: seq<Byte>, at: nat, seen: set<nat>, before: seq<Entry>)
    : Result<seq<Entry>, AddressError>
    requires at <= |value|
    decreases |value| - at
  {
    if at == |value| then Ok(before)
    else
      var (entry, next) :- FreshAt(value, at, seen);
      if |before| == MAX_ENTRIES then Err(TooManyEntries)
      else RequestedFrom(value, next, seen + {entry.requestId}, before + [entry])
  }

  function DecodedRequest(value: seq<Byte>): Result<seq<Entry>, AddressError> {
    var entries :- RequestedFrom(value, 0, {}, []);
    if entries == [] then Err(EmptyRequest) else Ok(entries)
  }

  method DecodeAssign(value: seq<Byte>) returns (r: Result<seq<Entry>, AddressError>)
    ensures r == DecodedAssign(value)
  {
    var offset := 0;
    var entries: seq<Entry> := [];
    while offset < |value|
      invariant offset <= |value| && |entries| <= MAX_ENTRIES
      invariant DecodedAssign(value) == AssignedFrom(value, offset, entries)
    {
      var entry := EntryAt(value, offset);
      if entry.Err? {
        return Err(entry.error);
      }
      entries := entries + [entry.value.0];
      offset := entry.value.1;
      if |entries| > MAX_ENTRIES {
        return Err(TooManyEntries);
      }
    }
    return Ok(entries);
  }

  /** The loop body up to where the entry is kept. */
  method DecodeOne(value: seq<Byte>, offset: nat, ids: set<nat>) returns (r: Result<(Entry, nat), AddressError>)
    requires offset <= |value|
    ensures r == FreshAt(value, offset, ids)
  {
    var id := IdAt(value, offset);
    if id.Err? {
      return Err(id.error);
    }
    if id.value == 0 {
      return Err(ZeroRequestId);
    }
    if id.value in ids {
      return Err(DuplicateRequestId(id.value));
    }
    return EntryAt(value, offset);
  }

  method DecodeRequest(value: seq<Byte>) returns (r: Result<seq<Entry>, AddressError>)
    ensures r == DecodedRequest(value)
  {
    var offset := 0;
    var entries: seq<Entry> := [];
    var ids: set<nat> := {};
    while offset < |value|
      invariant offset <= |value| && |entries| <= MAX_ENTRIES
      invariant RequestedFrom(value, 0, {}, []) == RequestedFrom(value, offset, ids, entries)
    {
      var entry := DecodeOne(value, offset, ids);
      if entry.Err? {
        return Err(entry.error);
      }
      ids := ids + {entry.value.0.requestId};
      entries := entries + [entry.value.0];
      offset := entry.value.1;
      if |entries| > MAX_ENTRIES {
        return Err(TooManyEntries);
      }
    }
    return if entries == [] then Err(EmptyRequest) else Ok(entries);
  }

  // ----- Round trips -----

  lemma ParsedPrefixHeld(prefix: IpNet, value: seq<Byte>, at: nat)
    requires HoldsAt(value, at, EncodedPrefix(prefix))
    ensures ParsedPrefix(value, at) == if Aligned(prefix) then Ok(prefix) else Err(HostBitsSet)
  {
    var first := [if prefix.addr.family.V4? then 4 else 6];
    var address := AddressBytes(prefix.addr);
    HoldsBoth(value, at, first + address, [prefix.prefixLen]);
    HoldsBoth(value, at, first, address);
    AddressRoundTrip(prefix.addr, value, at + 1);
    assert value[at + 0] == first[0];
    assert value[at + |first + address| + 0] == [prefix.prefixLen][0];
  }

  lemma EntryFrom(value: seq<Byte>, at: nat, id: nat, length: nat, prefix: IpNet)
    requires at <= |value| && Varint.DecodedAt(value, at) == Ok((id, length))
    requires ParsedPrefix(value, at + length) == if Aligned(prefix) then Ok(prefix) else Err(HostBitsSet)
    ensures IdAt(value, at) == Ok(id)
    ensures EntryAt(value, at) ==
            if Aligned(prefix) then Ok((Entry(id, prefix), at + length + PrefixSize(prefix.addr.family)))
            else Err(HostBitsSet)
  {
  }

  lemma EntryHeld(entry: Entry, value: seq<Byte>, at: nat)
    requires entry.requestId <= Varint.MAX_VARINT && HoldsAt(value, at, EncodedEntry(entry))
    ensures IdAt(value, at) == Ok(entry.requestId)
    ensures EntryAt(value, at) ==
            if Aligned(entry.prefix) then Ok((entry, at + |EncodedEntry(entry)|)) else Err(HostBitsSet)
  {
    var id := Varint.Encoded(entry.requestId);
    HoldsBoth(value, at, id, EncodedPrefix(entry.prefix));
    Varint.RoundTrip(entry.requestId, value, at);
    ParsedPrefixHeld(entry.prefix, value, at + |id|);
    EntryFrom(value, at, entry.requestId, |id|, entry.prefix);
  }

  predicate AllAligned(entries: seq<Entry>) {
    forall i :: 0 <= i < |entries| ==> Aligned(entries[i].prefix)
  }

  /** `entries` fill `value` from `at` to the end. */
  predicate Fills(entries: seq<Entry>, value: seq<Byte>, at: nat)
    requires IdsFit(entries)
  {
    HoldsAt(value, at, Encoded(entries)) && at + |Encoded(entries)| == |value|
  }

  lemma FillsRest(entries: seq<Entry>, value: seq<Byte>, at: nat)
    requires IdsFit(entries) && entries != [] && Fills(entries, value, at)
    ensures HoldsAt(value, at, EncodedEntry(entries[0]))
    ensures Fills(entries[1..], value, at + |EncodedEntry(entries[0])|)
  {
    HoldsBoth(value, at, EncodedEntry(entries[0]), Encoded(entries[1..]));
  }

  /** At `at` stands this entry, up to `next`. */
  predicate Reads(value: seq<Byte>, at: nat, entry: Entry, next: nat) {
    && at < next <= |value| && IdAt(value, at) == Ok(entry.requestId)
    && EntryAt(value, at) == if Aligned(entry.prefix) then Ok((entry, next)) else Err(HostBitsSet)
  }

  /** Where each entry begins, and where the last one ends. */
  ghost predicate Laid(entries: seq<Entry>, value: seq<Byte>, places: seq<nat>) {
    && |places| == |entries| + 1 && places[|entries|] == |value|
    && forall k :: 0 <= k < |entries| ==> Reads(value, places[k], entries[k], places[k + 1])
  }

  lemma FirstReads(entries: seq<Entry>, value: seq<Byte>, at: nat) returns (next: nat)
    requires IdsFit(entries) && entries != [] && Fills(entries, value, at)
    ensures Reads(value, at, entries[0], next) && Fills(entries[1..], value, next)
  {
    next := at + |EncodedEntry(entries[0])|;
    FillsRest(entries, value, at);
    EntryHeld(entries[0], value, at);
  }

  lemma LaidFirst(entries: seq<Entry>, value: seq<Byte>, at: nat, rest: seq<nat>)
    requires entries != [] && Laid(entries[1..], value, rest) && Reads(value, at, entries[0], rest[0])
    ensures Laid(entries, value, [at] + rest)
  {
    var places := [at] + rest;
    forall k | 0 <= k < |entries| ensures Reads(value, places[k], entries[k], places[k + 1]) {
      if k > 0 {
        assert Reads(value, rest[k - 1], entries[1..][k - 1], rest[k]);
      }
    }
  }

  lemma {:induction false} FilledIsLaid(entries: seq<Entry>, value: seq<Byte>, at: nat) returns (places: seq<nat>)
    requires IdsFit(entries) && Fills(entries, value, at)
    ensures Laid(entries, value, places) && places[0] == at
    decreases |entries|
  {
    if entries == [] {
      places := [at];
    } else {
      var next := FirstReads(entries, value, at);
      var rest := FilledIsLaid(entries[1..], value, next);
      LaidFirst(entries, value, at, rest);
      places := [at] + rest;
    }
  }

  lemma {:induction false} AssignedHeld(entries: seq<Entry>, value: seq<Byte>, places: seq<nat>, k: nat)
    requires k <= |entries| <= MAX_ENTRIES && AllAligned(entries) && Laid(entries, value, places)
    requires places[k] <= |value|
    ensures AssignedFrom(value, places[k], entries[..k]) == Ok(entries)
    decreases |entries| - k
  {
    if k < |entries| {
      assert Reads(value, places[k], entries[k], places[k + 1]);
      AssignedHeld(entries, value, places, k + 1);
      assert entries[..k + 1] == entries[..k] + [entries[k]];
    } else {
      assert entries[..k] == entries;
    }
  }

  lemma {:induction false} UnalignedRefused(entries: seq<Entry>, value: seq<Byte>, places: seq<nat>,
                                            before: seq<Entry>, bad: nat)
    requires |before| <= bad < |entries| <= MAX_ENTRIES
    requires !Aligned(entries[bad].prefix) && Laid(entries, value, places) && places[|before|] <= |value|
    ensures AssignedFrom(value, places[|before|], before) == Err(HostBitsSet)
    decreases bad - |before|
  {
    var k := |before|;
    assert Reads(value, places[k], entries[k], places[k + 1]);
    if k < bad && Aligned(entries[k].prefix) {
      UnalignedRefused(entries, value, places, before + [entries[k]], bad);
    }
  }

  /** An assignment list comes back whole exactly when no prefix in it has host bits set. */
  lemma AssignRoundTrip(entries: seq<Entry>)
    requires Encodable(entries)
    ensures DecodedAssign(Encoded(entries)) == if AllAligned(entries) then Ok(entries) else Err(HostBitsSet)
  {
    var places := FilledIsLaid(entries, Encoded(entries), 0);
    if AllAligned(entries) {
      assert entries[..0] == [];
      AssignedHeld(entries, Encoded(entries), places, 0);
    } else {
      var bad :| 0 <= bad < |entries| && !Aligned(entries[bad].prefix);
      UnalignedRefused(entries, Encoded(entries), places, [], bad);
    }
  }

  lemma FreshRest(entries: seq<Entry>, k: nat, seen: set<nat>)
    requires k < |entries| && FreshIds(entries[k..], seen)
    ensures entries[k].requestId != 0 && entries[k].requestId !in seen
    ensures FreshIds(entries[k + 1..], seen + {entries[k].requestId})
  {
    var rest := entries[k..];
    assert rest[0] == entries[k] && rest[1..] == entries[k + 1..];
  }

  lemma {:induction false} RequestedHeld(entries: seq<Entry>, value: seq<Byte>, places: seq<nat>, k: nat,
                                         seen: set<nat>)
    requires k <= |entries| <= MAX_ENTRIES && AllAligned(entries) && Laid(entries, value, places)
    requires places[k] <= |value| && FreshIds(entries[k..], seen)
    ensures RequestedFrom(value, places[k], seen, entries[..k]) == Ok(entries)
    decreases |entries| - k
  {
    if k < |entries| {
      assert Reads(value, places[k], entries[k], places[k + 1]);
      FreshRest(entries, k, seen);
      RequestedHeld(entries, value, places, k + 1, seen + {entries[k].requestId});
      assert entries[..k + 1] == entries[..k] + [entries[k]];
    } else {
      assert entries[..k] == entries;
    }
  }

  /** Every request the encoder lets through is read back as it was, when its prefixes are aligned. */
  lemma RequestRoundTrip(entries: seq<Entry>)
    requires Encodable(entries) && entries != [] && AllAligned(entries) && FreshIds(entries, {})
    ensures DecodedRequest(Encoded(entries)) == Ok(entries)
  {
    var places := FilledIsLaid(entries, Encoded(entries), 0);
    assert entries[0..] == entries && entries[..0] == [];
    RequestedHeld(entries, Encoded(entries), places, 0, {});
  }

  lemma EntryIsSound(value: seq<Byte>, at: nat)
    requires at <= |value| && EntryAt(value, at).Ok?
    ensures Aligned(EntryAt(value, at).value.0.prefix)
    ensures EntryAt(value, at).value.0.requestId <= Varint.MAX_VARINT
  {
    Varint.OnlyTruncationFails(value, at);
  }

  /** What a decoder has gathered so far, the identifiers being in `seen`. */
  predicate Gathered(entries: seq<Entry>, seen: set<nat>) {
    && |entries| <= MAX_ENTRIES && IdsFit(entries) && AllAligned(entries) && FreshIds(entries, {})
    && forall i :: 0 <= i < |entries| ==> entries[i].requestId in seen
  }

  lemma GatheredMore(entries: seq<Entry>, seen: set<nat>, entry: Entry)
    requires Gathered(entries, seen) && |entries| < MAX_ENTRIES && entry.requestId !in seen
    requires 0 < entry.requestId <= Varint.MAX_VARINT && Aligned(entry.prefix)
    ensures Gathered(entries + [entry], seen + {entry.requestId})
  {
  }

  lemma {:induction false} RequestsAreSound(value: seq<Byte>, at: nat, seen: set<nat>, before: seq<Entry>)
    returns (all: set<nat>)
    requires at <= |value| && Gathered(before, seen) && RequestedFrom(value, at, seen, before).Ok?
    ensures Gathered(RequestedFrom(value, at, seen, before).value, all)
    decreases |value| - at
  {
    if at == |value| {
      all := seen;
    } else {
      EntryIsSound(value, at);
      var (entry, next) := EntryAt(value, at).value;
      GatheredMore(before, seen, entry);
      all := RequestsAreSound(value, next, seen + {entry.requestId}, before + [entry]);
    }
  }

  /**
    An accepted request names between one and 256 aligned prefixes under distinct nonzero identifiers, and
    survives being written out again.
   */
  lemma AcceptedRequests(value: seq<Byte>)
    requires DecodedRequest(value).Ok?
    ensures var entries := DecodedRequest(value).value;
            && 1 <= |entries| <= MAX_ENTRIES
            && IdsFit(entries) && AllAligned(entries) && FreshIds(entries, {})
            && DecodedRequest(Encoded(entries)) == Ok(entries)
  {
    var all := RequestsAreSound(value, 0, {}, []);
    RequestRoundTrip(DecodedRequest(value).value);
  }

  // ----- The assignments a session holds -----

  class AddressAssignments {
    var entries: seq<Entry>

    constructor ()
      ensures entries == []
    {
      entries := [];
    }

    /** All or nothing, as for routes. */
    method Replace(value: seq<Byte>) returns (r: Result<(), AddressError>)
      modifies this
      ensures match DecodedAssign(value)
              case Ok(next) => r == Ok(()) && entries == next
              case Err(error) => r == Err(error) && entries == old(entries)
    {
      var next := DecodeAssign(value);
      if next.Err? {
        return Err(next.error);
      }
      entries := next.value;
      return Ok(());
    }
  }
}
