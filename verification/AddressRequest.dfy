/** How a session answers an ADDRESS_REQUEST: what it assigns, what it rejects, and what it volunteers. */
module AddressRequest {
  import opened Basics
  import opened Wrappers
  import opened Bytes
  import opened Net
  import opened AddressCapsule
  import Varint

  const MAX_ADDRESS_REQUESTS: nat := 256

  // ----- Picking an assignment -----

  /** `same_family` and, for a preferred assignment, the requested prefix holds its address. */
  predicate Suits(candidate: IpNet, requested: IpNet, preferred: bool) {
    && candidate.addr.family == requested.addr.family
    && (preferred ==> Contains(requested, First(candidate)))
  }

  /** The first free assignment at or after `at` that suits. */
  function FirstSuiting(held: seq<IpNet>, taken: set<nat>, requested: IpNet, preferred: bool, at: nat): (r: Option<nat>)
    ensures r.Some? ==>
              at <= r.value < |held| && r.value !in taken && Suits(held[r.value], requested, preferred)
    ensures forall i :: at <= i < (if r.Some? then r.value else |held|) ==>
              i in taken || !Suits(held[i], requested, preferred)
    decreases |held| - at
  {
    if at >= |held| then None
    else if at !in taken && Suits(held[at], requested, preferred) then Some(at)
    else FirstSuiting(held, taken, requested, preferred, at + 1)
  }

  /** `preferred_assignment`, or else `family_assignment`. */
  function Pick(held: seq<IpNet>, taken: set<nat>, requested: IpNet): (r: Option<nat>)
    ensures r.Some? ==> r.value < |held| && r.value !in taken && Suits(held[r.value], requested, false)
  {
    match FirstSuiting(held, taken, requested, true, 0)
    case Some(i) => Some(i)
    case None => FirstSuiting(held, taken, requested, false, 0)
  }

  function AsSet(pick: Option<nat>): set<nat> {
    if pick.Some? then {pick.value} else {}
  }

  /** The assignments that went to the first `n` requests. */
  function Taken(held: seq<IpNet>, requests: seq<Entry>, n: nat): (taken: set<nat>)
    requires n <= |requests|
    decreases |requests|, n, 0
  {
    if n == 0 then {} else Taken(held, requests, n - 1) + AsSet(PickFor(held, requests, n - 1))
  }

  function PickFor(held: seq<IpNet>, requests: seq<Entry>, k: nat): (r: Option<nat>)
    requires k < |requests|
    ensures r.Some? ==> r.value < |held| && r.value !in Taken(held, requests, k)
    decreases |requests|, k, 1
  {
    Pick(held, Taken(held, requests, k), requests[k].prefix)
  }

  /** The first `n` indices, without those taken, in order. */
  function Untaken(taken: set<nat>, n: nat): (r: seq<nat>)
    ensures forall i: nat :: i in r <==> i < n && i !in taken
    ensures forall j :: 0 <= j < |r| ==> r[j] < n
    ensures forall j, k :: 0 <= j < k < |r| ==> r[j] < r[k]
  {
    if n == 0 then []
    else
      var front := Untaken(taken, n - 1);
      assert forall j :: 0 <= j < |front| ==> front[j] in front;
      if n - 1 in taken then front else front + [n - 1]
  }

  function Volunteered(held: seq<IpNet>, requests: seq<Entry>): (r: seq<nat>)
    ensures forall i: nat :: i in r <==> i < |held| && i !in Taken(held, requests, |requests|)
    ensures forall j, k :: 0 <= j < k < |r| ==> r[j] < r[k]
  {
    Untaken(Taken(held, requests, |requests|), |held|)
  }

  function ResponseSize(held: seq<IpNet>, requests: seq<Entry>): nat {
    |requests| + |Volunteered(held, requests)|
  }

  /** Where entry `p` of the response comes from: an assignment, or none for a rejection. */
  function Source(held: seq<IpNet>, requests: seq<Entry>, p: nat): (source: Option<nat>)
    requires p < ResponseSize(held, requests)
    ensures source.Some? ==> source.value < |held|
    ensures p >= |requests| ==> source.Some?
  {
    if p < |requests| then PickFor(held, requests, p)
    else
      assert Volunteered(held, requests)[p - |requests|] in Volunteered(held, requests);
      Some(Volunteered(held, requests)[p - |requests|])
  }

  /** The unspecified address of the requested family, as a host prefix. */
  function Rejection(requested: IpNet): IpNet {
    HostPrefix(Addr(requested.addr.family, 0))
  }

  function Answer(held: seq<IpNet>, request: Entry, pick: Option<nat>): Entry
    requires pick.Some? ==> pick.value < |held|
  {
    Entry(request.requestId, if pick.Some? then held[pick.value] else Rejection(request.prefix))
  }

  /** The entries of the response. */
  function Response(held: seq<IpNet>, requests: seq<Entry>): (entries: seq<Entry>)
    ensures |entries| == ResponseSize(held, requests)
  {
    seq(ResponseSize(held, requests), p requires 0 <= p < ResponseSize(held, requests) =>
      if p < |requests| then Answer(held, requests[p], Source(held, requests, p))
      else Entry(0, held[Source(held, requests, p).value]))
  }

  // ----- The session -----

  predicate Repeats(requests: seq<Entry>, seen: set<nat>) {
    exists k :: 0 <= k < |requests| && requests[k].requestId in seen
  }

  function IdsOf(requests: seq<Entry>): set<nat> {
    set k | 0 <= k < |requests| :: requests[k].requestId
  }

  /** The call succeeds on these requests, given the ids already answered. */
  predicate Answerable(held: seq<IpNet>, seen: set<nat>, requests: seq<Entry>) {
    |requests| <= MAX_ADDRESS_REQUESTS && !Repeats(requests, seen) && Encodable(Response(held, requests))
  }

  class RequestingSession {
    const held: seq<IpNet>
    var requestIds: set<nat>

    constructor (prefixes: seq<IpNet>)
      ensures held == prefixes && requestIds == {}
    {
      held, requestIds := prefixes, {};
    }

    /** The loop that picks or rejects for each request. */
    method AnswerAll(requests: seq<Entry>) returns (entries: seq<Entry>, used: seq<bool>)
      ensures |entries| == |requests|
      ensures forall p :: 0 <= p < |requests| ==> entries[p] == Answer(held, requests[p], PickFor(held, requests, p))
      ensures Flags(used, |held|, Taken(held, requests, |requests|))
    {
      used := seq(|held|, _ => false);
      entries := [];
      for k := 0 to |requests|
        invariant |entries| == k && Flags(used, |held|, Taken(held, requests, k))
        invariant forall p :: 0 <= p < k ==> entries[p] == Answer(held, requests[p], PickFor(held, requests, p))
      {
        var entry;
        entry, used := AnswerOne(requests[k], used, Taken(held, requests, k));
        entries := entries + [entry];
      }
    }

    method AnswerOne(request: Entry, used: seq<bool>, ghost taken: set<nat>) returns (entry: Entry, after: seq<bool>)
      requires Flags(used, |held|, taken)
      ensures entry == Answer(held, request, Pick(held, taken, request.prefix))
      ensures Flags(after, |held|, taken + AsSet(Pick(held, taken, request.prefix)))
    {
      var pick := PickUnused(held, used, request.prefix, taken);
      FlagsAfter(used, |held|, taken, pick);
      after := if pick.Some? then used[pick.value := true] else used;
      entry := Answer(held, request, pick);
    }

    /** The assignments nobody asked for follow, with request id 0. */
    method Respond(requests: seq<Entry>) returns (entries: seq<Entry>)
      ensures entries == Response(held, requests)
    {
      var used: seq<bool>;
      entries, used := AnswerAll(requests);
      ghost var taken, answers := Taken(held, requests, |requests|), entries;
      for i := 0 to |held|
        invariant entries == answers + Unasked(held, Untaken(taken, i))
      {
        if !used[i] {
          entries := entries + [Entry(0, held[i])];
        }
      }
    }

    method AddressRequestCapsule(requests: seq<Entry>) returns (r: Result<seq<Byte>, AddressError>)
      modifies this
      ensures r.Ok? <==> Answerable(held, old(requestIds), requests)
      ensures r.Ok? ==> r.value == Encoded(Response(held, requests))
      ensures requestIds == if r.Ok? then old(requestIds) + IdsOf(requests) else old(requestIds)
      ensures |requests| > MAX_ADDRESS_REQUESTS ==> r == Err(TooManyEntries)
      ensures |requests| <= MAX_ADDRESS_REQUESTS && Repeats(requests, old(requestIds)) ==>
                r.Err? && r.error.DuplicateRequestId? && r.error.requestId in IdsOf(requests) * old(requestIds)
    {
      if |requests| > MAX_ADDRESS_REQUESTS {
        return Err(TooManyEntries);
      }
      for k := 0 to |requests|
        invariant forall j :: 0 <= j < k ==> requests[j].requestId !in requestIds
      {
        if requests[k].requestId in requestIds {
          return Err(DuplicateRequestId(requests[k].requestId));
        }
      }
      var entries := Respond(requests);
      var output := new ByteBuffer();
      var written := EncodeEntries(entries, output);
      if written.Err? {
        return Err(written.error);
      }
      requestIds := requestIds + IdsOf(requests);
      return Ok(output.bytes);
    }
  }

  predicate Flags(used: seq<bool>, count: nat, taken: set<nat>) {
    |used| == count && forall i :: 0 <= i < count ==> (used[i] <==> i in taken)
  }

  lemma FlagsAfter(used: seq<bool>, count: nat, taken: set<nat>, pick: Option<nat>)
    requires Flags(used, count, taken) && (pick.Some? ==> pick.value < count)
    ensures Flags(if pick.Some? then used[pick.value := true] else used, count, taken + AsSet(pick))
  {
  }

  function Unasked(held: seq<IpNet>, indices: seq<nat>): seq<Entry>
    requires forall j :: 0 <= j < |indices| ==> indices[j] < |held|
  {
    seq(|indices|, j requires 0 <= j < |indices| => Entry(0, held[indices[j]]))
  }

  /** `position` over the `used` flags: a preferred assignment first, then any of the family. */
  method PickUnused(held: seq<IpNet>, used: seq<bool>, requested: IpNet, ghost taken: set<nat>)
    returns (pick: Option<nat>)
    requires Flags(used, |held|, taken)
    ensures pick == Pick(held, taken, requested)
  {
    pick := FirstUnused(held, used, requested, true, taken);
    if pick.None? {
      pick := FirstUnused(held, used, requested, false, taken);
    }
  }

  method FirstUnused(held: seq<IpNet>, used: seq<bool>, requested: IpNet, preferred: bool, ghost taken: set<nat>)
    returns (pick: Option<nat>)
    requires Flags(used, |held|, taken)
    ensures pick == FirstSuiting(held, taken, requested, preferred, 0)
  {
    for i := 0 to |held|
      invariant FirstSuiting(held, taken, requested, preferred, 0) == FirstSuiting(held, taken, requested, preferred, i)
    {
      if !used[i] && Suits(held[i], requested, preferred) {
        return Some(i);
      }
    }
    return None;
  }

  // ----- What a response means -----

  /** Each request is answered once, in order, in its family; what follows carries no request id. */
  lemma AnsweredInOrder(held: seq<IpNet>, requests: seq<Entry>, p: nat)
    requires p < |Response(held, requests)|
    ensures p < |requests| ==>
              && Response(held, requests)[p].requestId == requests[p].requestId
              && Response(held, requests)[p].prefix.addr.family == requests[p].prefix.addr.family
    ensures p >= |requests| ==> Response(held, requests)[p].requestId == 0
  {
  }

  /** One of the first `n` requests got assignment `i`. */
  ghost predicate WentOut(held: seq<IpNet>, requests: seq<Entry>, n: nat, i: nat)
    requires n <= |requests|
  {
    exists k :: 0 <= k < n && PickFor(held, requests, k) == Some(i)
  }

  lemma {:induction false} TakenAre(held: seq<IpNet>, requests: seq<Entry>, n: nat, i: nat)
    requires n <= |requests|
    ensures i in Taken(held, requests, n) <==> WentOut(held, requests, n, i)
  {
    if n > 0 {
      TakenAre(held, requests, n - 1, i);
      if WentOut(held, requests, n, i) {
        var k :| 0 <= k < n && PickFor(held, requests, k) == Some(i);
        if k < n - 1 {
          assert WentOut(held, requests, n - 1, i);
        }
      } else {
        assert PickFor(held, requests, n - 1) != Some(i);
      }
    }
  }

  /** A request is rejected exactly when every assignment of its family went to the requests before it. */
  lemma RejectedExactly(held: seq<IpNet>, requests: seq<Entry>, k: nat)
    requires k < |requests|
    ensures Source(held, requests, k).None? <==>
            forall i :: 0 <= i < |held| && held[i].addr.family == requests[k].prefix.addr.family ==>
              WentOut(held, requests, k, i)
    ensures Source(held, requests, k).None? ==> Response(held, requests)[k].prefix == Rejection(requests[k].prefix)
  {
    forall i | 0 <= i < |held|
      ensures i in Taken(held, requests, k) <==> WentOut(held, requests, k, i)
    {
      TakenAre(held, requests, k, i);
    }
    assert forall i :: 0 <= i < |held| && held[i].addr.family == requests[k].prefix.addr.family ==>
      Suits(held[i], requests[k].prefix, false);
  }

  /** When a free assignment lies in the requested prefix, the request gets the first such one. */
  lemma PreferenceIsKept(held: seq<IpNet>, requests: seq<Entry>, k: nat, i: nat)
    requires k < |requests| && i < |held| && Suits(held[i], requests[k].prefix, true)
    requires !WentOut(held, requests, k, i)
    ensures Source(held, requests, k).Some? && Source(held, requests, k).value <= i
    ensures Suits(held[Source(held, requests, k).value], requests[k].prefix, true)
  {
    TakenAre(held, requests, k, i);
  }

  lemma OneSource(held: seq<IpNet>, requests: seq<Entry>, i: nat, p: nat, q: nat)
    requires p < q < ResponseSize(held, requests)
    requires Source(held, requests, p) == Some(i)
    ensures Source(held, requests, q) != Some(i)
  {
    if p < |requests| {
      var n := if q < |requests| then q else |requests|;
      assert WentOut(held, requests, n, i);
      TakenAre(held, requests, n, i);
      if q >= |requests| {
        assert Volunteered(held, requests)[q - |requests|] in Volunteered(held, requests);
      }
    }
  }

  /** A response carries every assignment at exactly one place; every other entry is a rejection. */
  lemma EveryAssignmentOnce(held: seq<IpNet>, requests: seq<Entry>, i: nat) returns (place: nat)
    requires i < |held|
    ensures place < |Response(held, requests)| && Response(held, requests)[place].prefix == held[i]
    ensures forall p :: 0 <= p < |Response(held, requests)| ==> (Source(held, requests, p) == Some(i) <==> p == place)
  {
    TakenAre(held, requests, |requests|, i);
    if k :| 0 <= k < |requests| && PickFor(held, requests, k) == Some(i) {
      place := k;
    } else {
      var rest := Volunteered(held, requests);
      assert i in rest;
      var j :| 0 <= j < |rest| && rest[j] == i;
      place := |requests| + j;
    }
    assert Source(held, requests, place) == Some(i);
    forall p | 0 <= p < ResponseSize(held, requests) && p != place ensures Source(held, requests, p) != Some(i) {
      if p < place {
        if Source(held, requests, p) == Some(i) {
          OneSource(held, requests, i, p, place);
        }
      } else {
        OneSource(held, requests, i, place, p);
      }
    }
  }

  /** The client reads back exactly the response: what the pool assigns never has host bits set. */
  lemma ClientReadsResponse(held: seq<IpNet>, seen: set<nat>, requests: seq<Entry>)
    requires forall i :: 0 <= i < |held| ==> Aligned(held[i])
    requires Answerable(held, seen, requests)
    ensures DecodedAssign(Encoded(Response(held, requests))) == Ok(Response(held, requests))
  {
    var response := Response(held, requests);
    forall k | 0 <= k < |response| ensures Aligned(response[k].prefix) {
      if k < |requests| && Source(held, requests, k).None? {
        HostBlock(Addr(requests[k].prefix.addr.family, 0), Addr(requests[k].prefix.addr.family, 0));
      }
    }
    AssignRoundTrip(response);
  }

  // ----- How much room a response needs -----

  function CountHeld(held: seq<IpNet>, family: Family): nat {
    if held == [] then 0
    else
      var n := |held| - 1;
      CountHeld(held[..n], family) + if held[n].addr.family == family then 1 else 0
  }

  /** How many of the first `n` requests are of a family. */
  function CountAsked(requests: seq<Entry>, n: nat, family: Family): nat
    requires n <= |requests|
  {
    if n == 0 then 0
    else CountAsked(requests, n - 1, family) + if requests[n - 1].prefix.addr.family == family then 1 else 0
  }

  /** How many assignments of a family are taken. */
  function CountTaken(held: seq<IpNet>, taken: set<nat>, family: Family): nat {
    if held == [] then 0
    else
      var n := |held| - 1;
      CountTaken(held[..n], taken, family) + if n in taken && held[n].addr.family == family then 1 else 0
  }

  lemma {:induction false} TakesOne(held: seq<IpNet>, taken: set<nat>, i: nat, family: Family)
    requires i !in taken
    ensures CountTaken(held, taken + {i}, family) ==
            CountTaken(held, taken, family) + if i < |held| && held[i].addr.family == family then 1 else 0
  {
    if held != [] {
      TakesOne(held[..|held| - 1], taken, i, family);
    }
  }

  lemma {:induction false} NothingTaken(held: seq<IpNet>, family: Family)
    ensures CountTaken(held, {}, family) == 0
  {
    if held != [] {
      NothingTaken(held[..|held| - 1], family);
    }
  }

  lemma {:induction false} TakenAtMostHeld(held: seq<IpNet>, taken: set<nat>, family: Family)
    ensures CountTaken(held, taken, family) <= CountHeld(held, family)
    ensures (forall i :: 0 <= i < |held| && held[i].addr.family == family ==> i in taken) ==>
              CountTaken(held, taken, family) == CountHeld(held, family)
  {
    if held != [] {
      TakenAtMostHeld(held[..|held| - 1], taken, family);
    }
  }

  lemma PickedNone(held: seq<IpNet>, requests: seq<Entry>, k: nat)
    requires k < |requests| && PickFor(held, requests, k).None?
    ensures forall i :: 0 <= i < |held| && held[i].addr.family == requests[k].prefix.addr.family ==>
              i in Taken(held, requests, k)
  {
    forall i | 0 <= i < |held| && held[i].addr.family == requests[k].prefix.addr.family
      ensures i in Taken(held, requests, k)
    {
      assert Suits(held[i], requests[k].prefix, false);
    }
  }

  lemma PickedOne(held: seq<IpNet>, requests: seq<Entry>, k: nat, family: Family)
    requires k < |requests| && PickFor(held, requests, k).Some?
    ensures CountTaken(held, Taken(held, requests, k + 1), family) ==
            CountTaken(held, Taken(held, requests, k), family)
            + if requests[k].prefix.addr.family == family then 1 else 0
  {
    TakesOne(held, Taken(held, requests, k), PickFor(held, requests, k).value, family);
  }

  /** A request takes one more assignment of its family, if there is one. */
  lemma TakenNext(held: seq<IpNet>, requests: seq<Entry>, k: nat, family: Family)
    requires k < |requests|
    ensures CountTaken(held, Taken(held, requests, k + 1), family) ==
            if requests[k].prefix.addr.family == family
            then Min(CountHeld(held, family), CountTaken(held, Taken(held, requests, k), family) + 1)
            else CountTaken(held, Taken(held, requests, k), family)
  {
    TakenAtMostHeld(held, Taken(held, requests, k + 1), family);
    if PickFor(held, requests, k).Some? {
      PickedOne(held, requests, k, family);
    } else {
      PickedNone(held, requests, k);
      TakenAtMostHeld(held, Taken(held, requests, k), family);
      assert Taken(held, requests, k) + {} == Taken(held, requests, k);
    }
  }

  /** Of each family as many assignments went out as there are, or as were asked for. */
  lemma {:induction false} TakenByFamily(held: seq<IpNet>, requests: seq<Entry>, n: nat, family: Family)
    requires n <= |requests|
    ensures CountTaken(held, Taken(held, requests, n), family) ==
            Min(CountHeld(held, family), CountAsked(requests, n, family))
  {
    if n == 0 {
      NothingTaken(held, family);
    } else {
      TakenByFamily(held, requests, n - 1, family);
      TakenNext(held, requests, n - 1, family);
    }
  }

  lemma {:induction false} UntakenCount(held: seq<IpNet>, taken: set<nat>)
    ensures |Untaken(taken, |held|)| + CountTaken(held, taken, V4) + CountTaken(held, taken, V6) == |held|
  {
    if held != [] {
      UntakenCount(held[..|held| - 1], taken);
    }
  }

  lemma {:induction false} BothFamilies(held: seq<IpNet>)
    ensures CountHeld(held, V4) + CountHeld(held, V6) == |held|
  {
    if held != [] {
      BothFamilies(held[..|held| - 1]);
    }
  }

  /** The assignments of a family that no request is there for. */
  function Excess(held: seq<IpNet>, requests: seq<Entry>, family: Family): nat {
    CountHeld(held, family) - Min(CountHeld(held, family), CountAsked(requests, |requests|, family))
  }

  /** What is volunteered is, in each family, what is held beyond what was asked for. */
  lemma VolunteeredCount(held: seq<IpNet>, requests: seq<Entry>)
    ensures |Volunteered(held, requests)| == Excess(held, requests, V4) + Excess(held, requests, V6)
  {
    UntakenCount(held, Taken(held, requests, |requests|));
    TakenByFamily(held, requests, |requests|, V4);
    TakenByFamily(held, requests, |requests|, V6);
    BothFamilies(held);
  }

  /**
    Fresh requests are answered exactly when what is held beyond what they ask for, family by family, still
    fits beside the answers.
   */
  lemma RoomForVolunteered(held: seq<IpNet>, seen: set<nat>, requests: seq<Entry>)
    requires |requests| <= MAX_ADDRESS_REQUESTS && IdsFit(requests) && !Repeats(requests, seen)
    ensures Answerable(held, seen, requests) <==>
              |requests| + Excess(held, requests, V4) + Excess(held, requests, V6) <= MAX_ENTRIES
  {
    VolunteeredCount(held, requests);
    var response := Response(held, requests);
    forall p | 0 <= p < |response| ensures response[p].requestId <= Varint.MAX_VARINT {
      AnsweredInOrder(held, requests, p);
    }
  }

  lemma {:induction false} NoneAsked(requests: seq<Entry>, n: nat, family: Family)
    requires n <= |requests| && forall k :: 0 <= k < |requests| ==> requests[k].prefix.addr.family != family
    ensures CountAsked(requests, n, family) == 0
  {
    if n > 0 {
      NoneAsked(requests, n - 1, family);
    }
  }

  /** A list of the permitted length that is refused: all of one family, and an address of the other is held. */
  lemma FullListIsRefused() returns (held: seq<IpNet>, requests: seq<Entry>)
    ensures |held| == 2 && |requests| == MAX_ADDRESS_REQUESTS && IdsFit(requests) && FreshIds(requests, {})
    ensures !Answerable(held, {}, requests)
  {
    var v4, v6 := HostPrefix(Addr(V4, 0x0A00_0001)), HostPrefix(Addr(V6, 1));
    held := [v4, v6];
    requests := seq(MAX_ADDRESS_REQUESTS, k requires 0 <= k => Entry(k + 1, v4));
    NoneAsked(requests, |requests|, V6);
    assert held[..1][..0] == [] && CountHeld(held[..1], V6) == 0;
    RoomForVolunteered(held, {}, requests);
  }

  // ----- Over the life of a session -----

  /** The ids answered once `calls` have been made, in order. */
  function Seen(held: seq<IpNet>, calls: seq<seq<Entry>>): set<nat> {
    if calls == [] then {}
    else
      var n := |calls| - 1;
      var seen := Seen(held, calls[..n]);
      if Answerable(held, seen, calls[n]) then seen + IdsOf(calls[n]) else seen
  }

  predicate Accepted(held: seq<IpNet>, calls: seq<seq<Entry>>, j: nat)
    requires j < |calls|
  {
    Answerable(held, Seen(held, calls[..j]), calls[j])
  }

  lemma {:induction false} SeenCovers(held: seq<IpNet>, calls: seq<seq<Entry>>, j: nat)
    requires j < |calls| && Accepted(held, calls, j)
    ensures IdsOf(calls[j]) <= Seen(held, calls)
    decreases |calls|
  {
    var n := |calls| - 1;
    if j < n {
      assert calls[..n][..j] == calls[..j];
      SeenCovers(held, calls[..n], j);
    }
  }

  /** No request id is ever answered by two calls. */
  lemma AnsweredOnce(held: seq<IpNet>, calls: seq<seq<Entry>>, j: nat, k: nat)
    requires j < k < |calls| && Accepted(held, calls, j) && Accepted(held, calls, k)
    ensures IdsOf(calls[j]) !! IdsOf(calls[k])
  {
    assert calls[..k][..j] == calls[..j];
    SeenCovers(held, calls[..k], j);
  }
}
