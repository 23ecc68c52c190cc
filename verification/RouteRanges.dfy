/** Address ranges of a route advertisement and the order RFC 9484, section 4.7.3, puts on them. */
module RouteRanges {
  import opened Wrappers
  import opened Bytes
  import opened Net

  datatype AddressRange = AddressRange(start: IpAddr, end: IpAddr, protocol: Byte)

  predicate IsIcmp(protocol: Byte) {
    protocol == 1 || protocol == 58
  }

  predicate RangeContains(range: AddressRange, address: IpAddr) {
    range.start.family == address.family && AtMost(range.start, address) && AtMost(address, range.end)
  }

  predicate Permits(range: AddressRange, address: IpAddr, protocol: Byte) {
    RangeContains(range, address) && (range.protocol == 0 || range.protocol == protocol || IsIcmp(protocol))
  }

  predicate Overlaps(a: AddressRange, b: AddressRange) {
    a.start.family == b.start.family && AtMost(a.start, b.end) && AtMost(b.start, a.end)
  }

  predicate ConflictsWith(a: AddressRange, b: AddressRange) {
    Overlaps(a, b) && (a.protocol == 0 || b.protocol == 0 || a.protocol == b.protocol)
  }

  datatype RouteError =
    | Truncated
    | IpVersion(version: Byte)
    | MixedFamilies
    | ReversedRange
    | Unordered
    | Overlap
    | WildcardOverlap

  // ----- The check as the source orders it -----

  function RangeError(range: AddressRange): Option<RouteError> {
    if range.start.family != range.end.family then Some(MixedFamilies)
    else if !AtMost(range.start, range.end) then Some(ReversedRange)
    else None
  }

  function PairError(previous: AddressRange, current: AddressRange): Option<RouteError> {
    var p, c := Version(previous.start), Version(current.start);
    if || p > c
       || (p == c && previous.protocol > current.protocol)
       || (p == c && previous.protocol == current.protocol && !AtMost(previous.start, current.start))
    then Some(Unordered)
    else if p == c && previous.protocol == current.protocol && AtMost(current.start, previous.end) then Some(Overlap)
    else None
  }

  /** The error of the first range that has one. */
  function FirstRangeError(ranges: seq<AddressRange>): Option<RouteError> {
    if ranges == [] then None
    else if RangeError(ranges[0]).Some? then RangeError(ranges[0])
    else FirstRangeError(ranges[1..])
  }

  /** The error of the first pair of neighbours that has one. */
  function FirstPairError(ranges: seq<AddressRange>): Option<RouteError> {
    if |ranges| < 2 then None
    else if PairError(ranges[0], ranges[1]).Some? then PairError(ranges[0], ranges[1])
    else FirstPairError(ranges[1..])
  }

  ghost predicate WildcardClash(ranges: seq<AddressRange>) {
    exists w, s :: w in ranges && s in ranges && w.protocol == 0 && s.protocol != 0 && Overlaps(w, s)
  }

  ghost function CheckedRanges(ranges: seq<AddressRange>): Result<(), RouteError> {
    match FirstRangeError(ranges)
    case Some(error) => Err(error)
    case None =>
      match FirstPairError(ranges)
      case Some(error) => Err(error)
      case None => if WildcardClash(ranges) then Err(WildcardOverlap) else Ok(())
  }

  // ----- What an accepted list is -----

  predicate WellFormed(range: AddressRange) {
    range.start.family == range.end.family && range.start.value <= range.end.value
  }

  /** Earlier by version, then protocol, then address, with no address in common. */
  predicate Before(a: AddressRange, b: AddressRange) {
    || Version(a.start) < Version(b.start)
    || (a.start.family == b.start.family && a.protocol < b.protocol)
    || (a.start.family == b.start.family && a.protocol == b.protocol && a.end.value < b.start.value)
  }

  predicate StrictlyOrdered(ranges: seq<AddressRange>) {
    forall i, j :: 0 <= i < j < |ranges| ==> Before(ranges[i], ranges[j])
  }

  ghost predicate Valid(ranges: seq<AddressRange>) {
    && (forall r :: r in ranges ==> WellFormed(r))
    && StrictlyOrdered(ranges)
    && !WildcardClash(ranges)
  }

  lemma {:induction false} RangeErrorsExact(ranges: seq<AddressRange>)
    ensures FirstRangeError(ranges).None? <==> forall r :: r in ranges ==> WellFormed(r)
  {
    if ranges != [] {
      RangeErrorsExact(ranges[1..]);
      assert forall r :: r in ranges <==> r == ranges[0] || r in ranges[1..];
      assert RangeError(ranges[0]).None? <==> WellFormed(ranges[0]);
    }
  }

  /** Looking at neighbours is enough: the order and the gaps carry over to every pair. */
  lemma {:induction false} PairErrorsExact(ranges: seq<AddressRange>)
    requires forall r :: r in ranges ==> WellFormed(r)
    ensures FirstPairError(ranges).None? <==> StrictlyOrdered(ranges)
  {
    if |ranges| >= 2 {
      var rest := ranges[1..];
      PairErrorsExact(rest);
      assert forall r :: r in rest ==> r in ranges;
      assert WellFormed(ranges[0]) && WellFormed(ranges[1]);
      assert PairError(ranges[0], ranges[1]).None? <==> Before(ranges[0], ranges[1]);
      if StrictlyOrdered(ranges) {
        forall i, j | 0 <= i < j < |rest| ensures Before(rest[i], rest[j]) {
          assert Before(ranges[i + 1], ranges[j + 1]);
        }
      }
      if StrictlyOrdered(rest) && Before(ranges[0], ranges[1]) {
        forall i, j | 0 <= i < j < |ranges| ensures Before(ranges[i], ranges[j]) {
          assert ranges[j] == rest[j - 1];
          if i > 0 {
            assert Before(rest[i - 1], rest[j - 1]);
          } else if j > 1 {
            assert Before(rest[0], rest[j - 1]);
          }
        }
      }
    }
  }

  /** A list is accepted exactly when it is well formed, strictly ordered and free of wildcard clashes. */
  lemma AcceptedExactly(ranges: seq<AddressRange>)
    ensures CheckedRanges(ranges).Ok? <==> Valid(ranges)
  {
    RangeErrorsExact(ranges);
    if FirstRangeError(ranges).None? {
      PairErrorsExact(ranges);
    }
  }

  /** No two ranges of an accepted list conflict, however far apart they stand. */
  lemma NoConflicts(ranges: seq<AddressRange>, i: nat, j: nat)
    requires Valid(ranges) && i < |ranges| && j < |ranges| && i != j
    ensures !ConflictsWith(ranges[i], ranges[j])
  {
    var a, b := ranges[i], ranges[j];
    assert a in ranges && b in ranges;
    assert WellFormed(a) && WellFormed(b);
    if i < j {
      assert Before(a, b);
    } else {
      assert Before(b, a);
    }
    assert a.protocol == 0 && b.protocol != 0 ==> !Overlaps(a, b);
    assert b.protocol == 0 && a.protocol != 0 ==> !Overlaps(b, a);
  }

  /** What a filter leaves of an accepted list is accepted. */
  lemma SublistValid(ranges: seq<AddressRange>, kept: seq<AddressRange>, places: seq<nat>)
    requires Valid(ranges) && |kept| == |places|
    requires forall k :: 0 <= k < |kept| ==> places[k] < |ranges| && kept[k] == ranges[places[k]]
    requires forall k, l :: 0 <= k < l < |kept| ==> places[k] < places[l]
    ensures Valid(kept)
  {
    assert forall r :: r in kept ==> r in ranges;
    forall k, l | 0 <= k < l < |kept| ensures Before(kept[k], kept[l]) {
      assert Before(ranges[places[k]], ranges[places[l]]);
    }
  }

  // ----- The source's loops -----

  /** The wildcard ranges of one family, in order. */
  function Wildcards(ranges: seq<AddressRange>, family: Family): seq<AddressRange> {
    if ranges == [] then []
    else
      var last := ranges[|ranges| - 1];
      Wildcards(ranges[..|ranges| - 1], family)
      + if last.start.family == family && last.protocol == 0 then [last] else []
  }

  lemma {:induction false} WildcardsAre(ranges: seq<AddressRange>, family: Family)
    ensures forall r :: r in Wildcards(ranges, family) <==> r in ranges && r.start.family == family && r.protocol == 0
  {
    if ranges != [] {
      var n := |ranges| - 1;
      WildcardsAre(ranges[..n], family);
      assert ranges == ranges[..n] + [ranges[n]];
    }
  }

  /** All but the last of an ordered list are ordered, and before the last. */
  lemma FrontOrdered(front: seq<AddressRange>, last: AddressRange)
    requires StrictlyOrdered(front + [last])
    ensures StrictlyOrdered(front) && forall r :: r in front ==> Before(r, last)
  {
    var ranges := front + [last];
    forall i, j | 0 <= i < j < |front| ensures Before(front[i], front[j]) {
      assert Before(ranges[i], ranges[j]);
    }
    forall r | r in front ensures Before(r, last) {
      var i :| 0 <= i < |front| && front[i] == r;
      assert Before(ranges[i], ranges[|front|]);
    }
  }

  /** Each ends before any later one starts. */
  predicate OneAfterAnother(ranges: seq<AddressRange>) {
    forall i, j :: 0 <= i < j < |ranges| ==> ranges[i].end.value < ranges[j].start.value
  }

  lemma AppendedAfter(front: seq<AddressRange>, last: AddressRange)
    requires OneAfterAnother(front) && forall r :: r in front ==> r.end.value < last.start.value
    ensures OneAfterAnother(front + [last])
  {
    assert forall i :: 0 <= i < |front| ==> front[i] in front;
  }

  lemma {:induction false} WildcardsApart(ranges: seq<AddressRange>, family: Family)
    requires StrictlyOrdered(ranges)
    ensures OneAfterAnother(Wildcards(ranges, family))
  {
    if ranges != [] {
      var n := |ranges| - 1;
      assert ranges == ranges[..n] + [ranges[n]];
      FrontOrdered(ranges[..n], ranges[n]);
      WildcardsApart(ranges[..n], family);
      WildcardsAre(ranges[..n], family);
      if ranges[n].start.family == family && ranges[n].protocol == 0 {
        AppendedAfter(Wildcards(ranges[..n], family), ranges[n]);
      }
    }
  }

  /** `partition_point`: how many leading ranges end before `start`. */
  method PartitionPoint(ranges: seq<AddressRange>, start: IpAddr) returns (p: nat)
    requires forall i, j :: 0 <= i < j < |ranges| && Below(ranges[j].end, start) ==> Below(ranges[i].end, start)
    ensures p <= |ranges|
    ensures forall i :: 0 <= i < p ==> Below(ranges[i].end, start)
    ensures forall i :: p <= i < |ranges| ==> !Below(ranges[i].end, start)
  {
    var low, high := 0, |ranges|;
    while low < high
      invariant 0 <= low <= high <= |ranges|
      invariant forall i :: 0 <= i < low ==> Below(ranges[i].end, start)
      invariant forall i :: high <= i < |ranges| ==> !Below(ranges[i].end, start)
    {
      var middle := (low + high) / 2;
      if Below(ranges[middle].end, start) {
        low := middle + 1;
      } else {
        high := middle;
      }
    }
    p := low;
  }

  /** One binary search decides whether any wildcard range of an ordered family meets `range`. */
  method MeetsWildcard(wildcards: seq<AddressRange>, range: AddressRange) returns (meets: bool)
    requires WellFormed(range)
    requires forall w :: w in wildcards ==> WellFormed(w) && w.start.family == range.start.family
    requires forall i, j :: 0 <= i < j < |wildcards| ==> wildcards[i].end.value < wildcards[j].start.value
    ensures meets <==> exists w :: w in wildcards && Overlaps(w, range)
  {
    assert forall i :: 0 <= i < |wildcards| ==> wildcards[i] in wildcards;
    var p := PartitionPoint(wildcards, range.start);
    meets := p < |wildcards| && AtMost(wildcards[p].start, range.end);
    if meets {
      assert Overlaps(wildcards[p], range);
    } else {
      forall w | w in wildcards ensures !Overlaps(w, range) {
        var i :| 0 <= i < |wildcards| && wildcards[i] == w;
        if p < i {
          assert wildcards[p].end.value < wildcards[i].start.value;
        }
      }
    }
  }

  method CheckEach(ranges: seq<AddressRange>) returns (error: Option<RouteError>)
    ensures error == FirstRangeError(ranges)
  {
    for i := 0 to |ranges|
      invariant FirstRangeError(ranges) == FirstRangeError(ranges[i..])
    {
      assert ranges[i..][1..] == ranges[i + 1..];
      if ranges[i].start.family != ranges[i].end.family {
        return Some(MixedFamilies);
      }
      if !AtMost(ranges[i].start, ranges[i].end) {
        return Some(ReversedRange);
      }
    }
    return None;
  }

  method CheckNeighbours(ranges: seq<AddressRange>) returns (error: Option<RouteError>)
    ensures error == FirstPairError(ranges)
  {
    var i := 1;
    while i < |ranges|
      invariant 1 <= i <= |ranges| + 1
      invariant FirstPairError(ranges) == FirstPairError(ranges[i - 1..])
    {
      assert ranges[i - 1..][1..] == ranges[i..];
      error := PairError(ranges[i - 1], ranges[i]);
      if error.Some? {
        return;
      }
      i := i + 1;
    }
    return None;
  }

  predicate ClashIn(ranges: seq<AddressRange>, family: Family, w: AddressRange, s: AddressRange) {
    && w in ranges && s in ranges && s.start.family == family
    && w.protocol == 0 && s.protocol != 0 && Overlaps(w, s)
  }

  method CheckWildcards(ranges: seq<AddressRange>, family: Family) returns (clash: bool)
    requires (forall r :: r in ranges ==> WellFormed(r)) && StrictlyOrdered(ranges)
    ensures clash <==> exists w, s :: ClashIn(ranges, family, w, s)
  {
    var wildcards := Wildcards(ranges, family);
    WildcardsAre(ranges, family);
    WildcardsApart(ranges, family);
    for i := 0 to |ranges|
      invariant forall w, s :: ClashIn(ranges, family, w, s) ==> s !in ranges[..i]
    {
      assert ranges[..i + 1] == ranges[..i] + [ranges[i]];
      if ranges[i].start.family == family && ranges[i].protocol != 0 {
        var meets := MeetsWildcard(wildcards, ranges[i]);
        if meets {
          var w :| w in wildcards && Overlaps(w, ranges[i]);
          assert ClashIn(ranges, family, w, ranges[i]);
          return true;
        }
      }
    }
    assert ranges[..|ranges|] == ranges;
    return false;
  }

  method ValidateRanges(ranges: seq<AddressRange>) returns (r: Result<(), RouteError>)
    ensures r == CheckedRanges(ranges)
  {
    var error := CheckEach(ranges);
    if error.Some? {
      return Err(error.value);
    }
    error := CheckNeighbours(ranges);
    if error.Some? {
      return Err(error.value);
    }
    RangeErrorsExact(ranges);
    PairErrorsExact(ranges);
    var clash := CheckWildcards(ranges, V4);
    if !clash {
      clash := CheckWildcards(ranges, V6);
    }
    assert WildcardClash(ranges) <==>
        (exists w, s :: ClashIn(ranges, V4, w, s)) || (exists w, s :: ClashIn(ranges, V6, w, s)) by {
      assert forall w, s :: w in ranges && s in ranges && w.protocol == 0 && s.protocol != 0 && Overlaps(w, s) ==>
          ClashIn(ranges, V4, w, s) || ClashIn(ranges, V6, w, s);
      assert forall w, s, f :: ClashIn(ranges, f, w, s) ==> Overlaps(w, s);
    }
    return if clash then Err(WildcardOverlap) else Ok(());
  }
}
