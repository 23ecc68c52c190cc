/**
  The incremental capsule decoder: sections 3.2 and 3.3 of RFC 9297.

  `Feed` says what the decoder does octet by octet, `OneShot` parses a whole input at once without any
  decoder state, and `Decoder.Push` is the chunk-at-a-time loop of the source.
 */
module CapsuleDecoder {
  import opened Wrappers
  import opened Bytes
  import opened Capsules
  import Varint

  datatype CapsuleLimits = CapsuleLimits(maxDatagramBytes: nat, maxAddressBytes: nat, maxRouteBytes: nat) {
    function ValueLimit(capsuleType: nat): Option<nat> {
      if capsuleType == DATAGRAM_CAPSULE then Some(maxDatagramBytes)
      else if capsuleType == ADDRESS_ASSIGN_CAPSULE || capsuleType == ADDRESS_REQUEST_CAPSULE then Some(maxAddressBytes)
      else if capsuleType == ROUTE_ADVERTISEMENT_CAPSULE then Some(maxRouteBytes)
      else None
    }

    function Largest(): nat {
      var m := if maxDatagramBytes > maxAddressBytes then maxDatagramBytes else maxAddressBytes;
      if m > maxRouteBytes then m else maxRouteBytes
    }
  }

  datatype SkipReason = UnknownType | Oversized

  datatype DecodeEvent =
    | Complete(capsule: Capsule)
    | Skipped(capsuleType: nat, length: nat, reason: SkipReason)

  datatype DecoderError = VarInt(error: Varint.VarIntError) | Truncated

  datatype Disposition = Buffer(bytes: seq<Byte>) | Skip(reason: SkipReason)

  datatype State =
    | Header(bytes: seq<Byte>)
    | Value(capsuleType: nat, length: nat, remaining: nat, disposition: Disposition)

  datatype Progress = Progress(state: State, events: seq<DecodeEvent>)

  // ----- The reference parser -----

  /** What a whole capsule is reported as. */
  function EventOf(limits: CapsuleLimits, capsuleType: nat, value: seq<Byte>): DecodeEvent {
    match limits.ValueLimit(capsuleType)
    case None => Skipped(capsuleType, |value|, UnknownType)
    case Some(limit) =>
      if |value| > limit then Skipped(capsuleType, |value|, Oversized) else Complete(Capsule(capsuleType, value))
  }

  /** Every whole capsule of `input`, and the octets after the last of them. */
  function OneShot(limits: CapsuleLimits, input: seq<Byte>): (seq<DecodeEvent>, seq<Byte>) {
    match ParseHeader(input)
    case None => ([], input)
    case Some((capsuleType, length, size)) =>
      HeaderFits(input);
      if |input| < size + length then ([], input)
      else
        var (events, rest) := OneShot(limits, input[size + length..]);
        ([EventOf(limits, capsuleType, input[size..size + length])] + events, rest)
  }

  // ----- The decoder, octet by octet -----

  function Opened(limits: CapsuleLimits, capsuleType: nat, length: nat): State {
    match limits.ValueLimit(capsuleType)
    case None => Value(capsuleType, length, length, Skip(UnknownType))
    case Some(limit) =>
      if length > limit then Value(capsuleType, length, length, Skip(Oversized))
      else Value(capsuleType, length, length, Buffer([]))
  }

  function FinishedEvent(state: State): DecodeEvent
    requires state.Value?
  {
    match state.disposition
    case Buffer(bytes) => Complete(Capsule(state.capsuleType, bytes))
    case Skip(reason) => Skipped(state.capsuleType, state.length, reason)
  }

  /** A value that lacks nothing is reported at once. */
  function Settled(state: State): Progress {
    if state.Value? && state.remaining == 0 then Progress(Header([]), [FinishedEvent(state)])
    else Progress(state, [])
  }

  /** The value state after `chunk`, which it must still have room for. */
  function Taken(state: State, chunk: seq<Byte>): State
    requires state.Value? && |chunk| <= state.remaining
  {
    match state.disposition
    case Buffer(bytes) => state.(remaining := state.remaining - |chunk|, disposition := Buffer(bytes + chunk))
    case Skip(_) => state.(remaining := state.remaining - |chunk|)
  }

  function Step(limits: CapsuleLimits, state: State, octet: Byte): Progress
    requires state.Value? ==> state.remaining > 0
  {
    match state
    case Header(bytes) =>
      (match ParseHeader(bytes + [octet])
       case None => Progress(Header(bytes + [octet]), [])
       case Some((capsuleType, length, _)) => Settled(Opened(limits, capsuleType, length)))
    case Value(_, _, _, _) => Settled(Taken(state, [octet]))
  }

  function Feed(limits: CapsuleLimits, state: State, input: seq<Byte>): (p: Progress)
    requires state.Value? ==> state.remaining > 0
    ensures p.state.Value? ==> p.state.remaining > 0
    decreases |input|
  {
    if input == [] then Progress(state, [])
    else
      var first := Step(limits, state, input[0]);
      var rest := Feed(limits, first.state, input[1..]);
      Progress(rest.state, first.events + rest.events)
  }

  /** Goes on feeding from where an earlier input left off. */
  function Then(limits: CapsuleLimits, done: Progress, input: seq<Byte>): Progress
    requires done.state.Value? ==> done.state.remaining > 0
  {
    var rest := Feed(limits, done.state, input);
    Progress(rest.state, done.events + rest.events)
  }

  function FeedChunks(limits: CapsuleLimits, state: State, chunks: seq<seq<Byte>>): Progress
    requires state.Value? ==> state.remaining > 0
    decreases |chunks|
  {
    if chunks == [] then Progress(state, [])
    else
      var first := Feed(limits, state, chunks[0]);
      var rest := FeedChunks(limits, first.state, chunks[1..]);
      Progress(rest.state, first.events + rest.events)
  }

  function Flatten(chunks: seq<seq<Byte>>): seq<Byte> {
    if chunks == [] then [] else chunks[0] + Flatten(chunks[1..])
  }

  // ----- Splitting the input changes nothing -----

  lemma {:induction false} FeedConcat(limits: CapsuleLimits, state: State, a: seq<Byte>, b: seq<Byte>)
    requires state.Value? ==> state.remaining > 0
    ensures Feed(limits, state, a + b) == Then(limits, Feed(limits, state, a), b)
    decreases |a|
  {
    if a == [] {
      assert a + b == b;
    } else {
      assert (a + b)[1..] == a[1..] + b;
      var first := Step(limits, state, a[0]);
      FeedConcat(limits, first.state, a[1..], b);
      var middle := Feed(limits, first.state, a[1..]);
      var last := Feed(limits, middle.state, b);
      assert first.events + (middle.events + last.events) == (first.events + middle.events) + last.events;
    }
  }

  /** However an input is cut into pieces, the events and the final state are those of the whole. */
  lemma {:induction false} ChunkingIndependence(limits: CapsuleLimits, state: State, chunks: seq<seq<Byte>>)
    requires state.Value? ==> state.remaining > 0
    ensures FeedChunks(limits, state, chunks) == Feed(limits, state, Flatten(chunks))
    decreases |chunks|
  {
    if chunks != [] {
      FeedConcat(limits, state, chunks[0], Flatten(chunks[1..]));
      ChunkingIndependence(limits, Feed(limits, state, chunks[0]).state, chunks[1..]);
    }
  }

  // ----- The decoder is the one-shot parser -----

  /** Not even one whole capsule. */
  predicate Unfinished(rest: seq<Byte>) {
    ParseHeader(rest).Some? ==>
      ParseHeader(rest).value.2 <= |rest| < ParseHeader(rest).value.2 + ParseHeader(rest).value.1
  }

  /** The state in which octets that are not a whole capsule leave a fresh decoder. */
  function Residue(limits: CapsuleLimits, rest: seq<Byte>): State
    requires Unfinished(rest)
  {
    match ParseHeader(rest)
    case None => Header(rest)
    case Some((capsuleType, length, size)) => Taken(Opened(limits, capsuleType, length), rest[size..])
  }

  lemma {:induction false} FeedPartialHeader(limits: CapsuleLimits, start: seq<Byte>, more: seq<Byte>)
    requires ParseHeader(start + more).None?
    ensures Feed(limits, Header(start), more) == Progress(Header(start + more), [])
    decreases |more|
  {
    if more == [] {
      assert start + more == start;
    } else {
      var next := start + [more[0]];
      assert next + more[1..] == start + more;
      if ParseHeader(next).Some? {
        HeaderPrefixDecides(next, more[1..]);
      }
      FeedPartialHeader(limits, next, more[1..]);
    }
  }

  lemma {:induction false} FeedValue(limits: CapsuleLimits, state: State, chunk: seq<Byte>)
    requires state.Value? && |chunk| <= state.remaining && state.remaining > 0
    ensures Feed(limits, state, chunk) == Settled(Taken(state, chunk))
    decreases |chunk|
  {
    if chunk == [] {
      assert state.disposition.Buffer? ==> state.disposition.bytes + chunk == state.disposition.bytes;
    } else {
      var next := Taken(state, chunk[..1]);
      assert chunk[..1] == [chunk[0]];
      assert chunk[..1] + chunk[1..] == chunk;
      if |chunk| == 1 {
        assert chunk == [chunk[0]];
        assert Feed(limits, Step(limits, state, chunk[0]).state, chunk[1..]).events == [];
      } else {
        FeedValue(limits, next, chunk[1..]);
        assert state.disposition.Buffer? ==>
            state.disposition.bytes + chunk == (state.disposition.bytes + chunk[..1]) + chunk[1..];
      }
    }
  }

  lemma FeedOne(limits: CapsuleLimits, state: State, octet: Byte)
    requires state.Value? ==> state.remaining > 0
    ensures Feed(limits, state, [octet]) == Step(limits, state, octet)
  {
    var p := Step(limits, state, octet);
    assert [octet][1..] == [];
    assert Feed(limits, p.state, []) == Progress(p.state, []);
    assert p.events + [] == p.events;
  }

  lemma FeedLastOfHeader(limits: CapsuleLimits, front: seq<Byte>, last: Byte, capsuleType: nat, length: nat, size: nat)
    requires ParseHeader(front).None? && ParseHeader(front + [last]) == Some((capsuleType, length, size))
    ensures Feed(limits, Header([]), front + [last]) == Settled(Opened(limits, capsuleType, length))
  {
    assert [] + front == front;
    FeedPartialHeader(limits, [], front);
    FeedConcat(limits, Header([]), front, [last]);
    FeedOne(limits, Header(front), last);
  }

  lemma FeedWholeHeader(limits: CapsuleLimits, input: seq<Byte>)
    requires ParseHeader(input).Some? && ParseHeader(input).value.2 == |input|
    ensures Feed(limits, Header([]), input) ==
            Settled(Opened(limits, ParseHeader(input).value.0, ParseHeader(input).value.1))
  {
    HeaderFits(input);
    var n := |input| - 1;
    HeaderIsExact(input, n);
    assert input == input[..n] + [input[n]];
    var (capsuleType, length, size) := ParseHeader(input).value;
    FeedLastOfHeader(limits, input[..n], input[n], capsuleType, length, size);
  }

  /** What one more octet does to a decoder that is reading a header. */
  lemma FeedHeader(limits: CapsuleLimits, bytes: seq<Byte>, octet: Byte)
    requires ValidState(limits, Header(bytes))
    ensures Feed(limits, Header(bytes), [octet]) ==
            if ParseHeader(bytes + [octet]).None? then Progress(Header(bytes + [octet]), [])
            else Settled(Opened(limits, ParseHeader(bytes + [octet]).value.0, ParseHeader(bytes + [octet]).value.1))
    ensures ValidState(limits, Feed(limits, Header(bytes), [octet]).state)
    ensures ParseHeader(bytes + [octet]).None? ==> |bytes| < 15
  {
    FeedOne(limits, Header(bytes), octet);
    StepKeepsValid(limits, Header(bytes), octet);
    if ParseHeader(bytes + [octet]).None? {
      SixteenOctetsSuffice(bytes + [octet]);
    }
  }

  /** A header and all of its value, one after the other. */
  lemma FeedBoth(limits: CapsuleLimits, head: seq<Byte>, value: seq<Byte>, capsuleType: nat)
    requires Feed(limits, Header([]), head) == Settled(Opened(limits, capsuleType, |value|))
    ensures Feed(limits, Header([]), head + value) == Progress(Header([]), [EventOf(limits, capsuleType, value)])
  {
    FeedConcat(limits, Header([]), head, value);
    if value != [] {
      FeedValue(limits, Opened(limits, capsuleType, |value|), value);
      assert [] + value == value;
    }
  }

  /** Fed one whole capsule, a fresh decoder reports it and is fresh again. */
  lemma FeedWholeCapsule(limits: CapsuleLimits, input: seq<Byte>)
    requires ParseHeader(input).Some?
    requires ParseHeader(input).value.2 + ParseHeader(input).value.1 == |input|
    ensures ParseHeader(input).value.2 <= |input|
    ensures Feed(limits, Header([]), input) ==
            Progress(Header([]), [EventOf(limits, ParseHeader(input).value.0, input[ParseHeader(input).value.2..])])
  {
    var (capsuleType, length, size) := ParseHeader(input).value;
    HeaderIsExact(input, size);
    FeedWholeHeader(limits, input[..size]);
    assert input == input[..size] + input[size..];
    FeedBoth(limits, input[..size], input[size..], capsuleType);
  }

  /** Fed a capsule that lacks octets, a fresh decoder reports nothing and holds what it got. */
  lemma FeedPartialCapsule(limits: CapsuleLimits, input: seq<Byte>)
    requires Unfinished(input)
    ensures Feed(limits, Header([]), input) == Progress(Residue(limits, input), [])
  {
    if ParseHeader(input).None? {
      assert [] + input == input;
      FeedPartialHeader(limits, [], input);
    } else {
      var (capsuleType, length, size) := ParseHeader(input).value;
      var head, value := input[..size], input[size..];
      var begun := Opened(limits, capsuleType, length);
      assert input == head + value;
      HeaderIsExact(input, size);
      FeedWholeHeader(limits, head);
      FeedConcat(limits, Header([]), head, value);
      FeedValue(limits, begun, value);
      assert Feed(limits, Header([]), head) == Progress(begun, []);
    }
  }

  /**
    The decoder refines the parser: fed any octets, it reports exactly the whole capsules among them and
    is left holding exactly the octets that follow.
   */
  lemma {:induction false} RefinesOneShot(limits: CapsuleLimits, input: seq<Byte>)
    ensures var (events, rest) := OneShot(limits, input);
            Unfinished(rest) && Feed(limits, Header([]), input) == Progress(Residue(limits, rest), events)
    decreases |input|
  {
    if ParseHeader(input).None? {
      FeedPartialCapsule(limits, input);
    } else {
      HeaderFits(input);
      var (capsuleType, length, size) := ParseHeader(input).value;
      if |input| < size + length {
        FeedPartialCapsule(limits, input);
      } else {
        var first, rest := input[..size + length], input[size + length..];
        assert input == first + rest;
        assert first[size..] == input[size..size + length];
        HeaderIsExact(input, size + length);
        FeedWholeCapsule(limits, first);
        FeedConcat(limits, Header([]), first, rest);
        RefinesOneShot(limits, rest);
      }
    }
  }

  // ----- What every reachable state keeps -----

  predicate ValidState(limits: CapsuleLimits, state: State) {
    match state
    case Header(bytes) => ParseHeader(bytes).None?
    case Value(capsuleType, length, remaining, disposition) =>
      && 0 < remaining <= length
      && match disposition
         case Buffer(bytes) =>
           && limits.ValueLimit(capsuleType).Some?
           && |bytes| + remaining == length <= limits.ValueLimit(capsuleType).value
         case Skip(UnknownType) => limits.ValueLimit(capsuleType).None?
         case Skip(Oversized) => limits.ValueLimit(capsuleType).Some? && length > limits.ValueLimit(capsuleType).value
  }

  lemma {:induction false} FeedKeepsValid(limits: CapsuleLimits, state: State, input: seq<Byte>)
    requires ValidState(limits, state)
    ensures ValidState(limits, Feed(limits, state, input).state)
    decreases |input|
  {
    if input != [] {
      StepKeepsValid(limits, state, input[0]);
      FeedKeepsValid(limits, Step(limits, state, input[0]).state, input[1..]);
    }
  }

  lemma StepKeepsValid(limits: CapsuleLimits, state: State, octet: Byte)
    requires ValidState(limits, state)
    ensures ValidState(limits, Step(limits, state, octet).state)
  {
    match state
    case Header(bytes) =>
      if ParseHeader(bytes + [octet]).Some? {
        var (capsuleType, length, _) := ParseHeader(bytes + [octet]).value;
        OpenedIsValid(limits, capsuleType, length);
      }
    case Value(_, _, _, _) => TakenIsValid(limits, state, [octet]);
  }

  lemma OpenedIsValid(limits: CapsuleLimits, capsuleType: nat, length: nat)
    ensures ValidState(limits, Settled(Opened(limits, capsuleType, length)).state)
  {
    NoHeaderInNothing();
  }

  lemma TakenIsValid(limits: CapsuleLimits, state: State, chunk: seq<Byte>)
    requires state.Value? && ValidState(limits, state) && |chunk| <= state.remaining
    ensures ValidState(limits, Settled(Taken(state, chunk)).state)
  {
    NoHeaderInNothing();
  }

  lemma NoHeaderInNothing()
    ensures ParseHeader([]).None?
  {
  }

  function BufferedLength(state: State): nat {
    match state
    case Header(bytes) => |bytes|
    case Value(_, _, _, Buffer(bytes)) => |bytes|
    case Value(_, _, _, Skip(_)) => 0
  }

  /** No run of chunks makes a decoder hold more than a header or one value within its limit. */
  lemma BufferingIsBounded(limits: CapsuleLimits, chunks: seq<seq<Byte>>)
    ensures var state := FeedChunks(limits, Header([]), chunks).state;
            BufferedLength(state) <= if limits.Largest() > 15 then limits.Largest() else 15
  {
    var state := FeedChunks(limits, Header([]), chunks).state;
    ChunkingIndependence(limits, Header([]), chunks);
    FeedKeepsValid(limits, Header([]), Flatten(chunks));
    if state.Header? {
      SixteenOctetsSuffice(state.bytes);
    }
  }

  // ----- Encoding, then decoding -----

  function EncodedAll(capsules: seq<Capsule>): seq<Byte>
    requires forall c <- capsules :: Encodable(c)
  {
    if capsules == [] then [] else Encoded(capsules[0]) + EncodedAll(capsules[1..])
  }

  function EventsOf(limits: CapsuleLimits, capsules: seq<Capsule>): seq<DecodeEvent> {
    if capsules == [] then []
    else [EventOf(limits, capsules[0].capsuleType, capsules[0].value)] + EventsOf(limits, capsules[1..])
  }

  lemma {:induction false} OneShotOfEncoded(limits: CapsuleLimits, capsules: seq<Capsule>)
    requires forall c <- capsules :: Encodable(c)
    ensures OneShot(limits, EncodedAll(capsules)) == (EventsOf(limits, capsules), [])
  {
    if capsules != [] {
      var first, rest := capsules[0], EncodedAll(capsules[1..]);
      OneShotOfEncoded(limits, capsules[1..]);
      EncodedHeader(first, rest);
      var wire := Encoded(first) + rest;
      var size := |Varint.Encoded(first.capsuleType) + Varint.Encoded(|first.value|)|;
      assert wire[size..size + |first.value|] == first.value;
      assert wire[size + |first.value|..] == rest;
    }
  }

  /**
    A stream of encoded capsules, cut anywhere, comes back capsule for capsule: each of a known type and
    within its limit intact, each other one reported as skipped with its type and length.
   */
  lemma StreamRoundTrip(limits: CapsuleLimits, capsules: seq<Capsule>, chunks: seq<seq<Byte>>)
    requires forall c <- capsules :: Encodable(c)
    requires Flatten(chunks) == EncodedAll(capsules)
    ensures FeedChunks(limits, Header([]), chunks) == Progress(Header([]), EventsOf(limits, capsules))
  {
    ChunkingIndependence(limits, Header([]), chunks);
    RefinesOneShot(limits, EncodedAll(capsules));
    OneShotOfEncoded(limits, capsules);
  }

  // ----- The decoder of the source -----

  /** Feeding `rest` from `state` completes what feeding `input` from `before` began. */
  ghost predicate Resumed(limits: CapsuleLimits, before: State, input: seq<Byte>, state: State,
                          events: seq<DecodeEvent>, rest: seq<Byte>)
  {
    && (before.Value? ==> before.remaining > 0)
    && (state.Value? ==> state.remaining > 0)
    && Feed(limits, before, input) == Then(limits, Progress(state, events), rest)
  }

  lemma ResumeFirst(limits: CapsuleLimits, before: State, input: seq<Byte>)
    requires before.Value? ==> before.remaining > 0
    ensures Resumed(limits, before, input, before, [], input)
  {
    assert [] + Feed(limits, before, input).events == Feed(limits, before, input).events;
  }

  lemma ResumeLast(limits: CapsuleLimits, before: State, input: seq<Byte>, state: State, events: seq<DecodeEvent>)
    requires Resumed(limits, before, input, state, events, [])
    ensures Feed(limits, before, input) == Progress(state, events)
  {
    assert events + [] == events;
  }

  lemma ThenBoth(limits: CapsuleLimits, done: Progress, chunk: seq<Byte>, after: seq<Byte>, p: Progress)
    requires done.state.Value? ==> done.state.remaining > 0
    requires Feed(limits, done.state, chunk) == p
    ensures Then(limits, done, chunk + after) == Then(limits, Progress(p.state, done.events + p.events), after)
  {
    FeedConcat(limits, done.state, chunk, after);
    var q := Feed(limits, p.state, after);
    assert done.events + (p.events + q.events) == (done.events + p.events) + q.events;
  }

  lemma ResumeAfter(limits: CapsuleLimits, before: State, input: seq<Byte>, state: State,
                    events: seq<DecodeEvent>, rest: seq<Byte>, consumed: nat, p: Progress)
    requires Resumed(limits, before, input, state, events, rest) && consumed <= |rest|
    requires Feed(limits, state, rest[..consumed]) == p
    ensures Resumed(limits, before, input, p.state, events + p.events, rest[consumed..])
  {
    assert rest == rest[..consumed] + rest[consumed..];
    ThenBoth(limits, Progress(state, events), rest[..consumed], rest[consumed..], p);
  }

  class Decoder {
    const limits: CapsuleLimits
    const header: array<Byte>
    var headerLength: nat
    var value: Option<State>

    ghost predicate Valid()
      reads this, header
    {
      && header.Length == 16
      && headerLength <= 15
      && (value.Some? ==> value.value.Value? && headerLength == 0)
      && ValidState(limits, Current())
    }

    /** The state the fields stand for. */
    ghost function Current(): State
      requires headerLength <= header.Length
      reads this, header
    {
      if value.Some? then value.value else Header(header[..headerLength])
    }

    constructor (limits: CapsuleLimits)
      ensures Valid() && fresh(header)
      ensures this.limits == limits && Current() == Header([])
    {
      this.limits := limits;
      header := new Byte[16](_ => 0);
      headerLength := 0;
      value := None;
    }

    /** Consumes one chunk. It never fails, and it does to the state what feeding each octet would. */
    method Push(input: seq<Byte>) returns (r: Result<seq<DecodeEvent>, DecoderError>)
      requires Valid()
      modifies this, header
      ensures Valid()
      ensures r.Ok?
      ensures Progress(Current(), r.value) == Feed(limits, old(Current()), input)
    {
      var events: seq<DecodeEvent> := [];
      var rest := input;
      ghost var before := Current();
      ResumeFirst(limits, before, input);
      while rest != []
        invariant Valid()
        invariant Resumed(limits, before, input, Current(), events, rest)
        decreases |rest|
      {
        ghost var entry := Current();
        var consumed, event := PushSome(rest);
        var more := if event.Some? then [event.value] else [];
        ResumeAfter(limits, before, input, entry, events, rest, consumed, Progress(Current(), more));
        events := events + more;
        rest := rest[consumed..];
      }
      ResumeLast(limits, before, input, Current(), events);
      return Ok(events);
    }

    /** Takes one octet of a header, or what the chunk holds of a value. */
    method PushSome(rest: seq<Byte>) returns (consumed: nat, event: Option<DecodeEvent>)
      requires Valid() && rest != []
      modifies this, header
      ensures Valid() && 0 < consumed <= |rest|
      ensures Progress(Current(), if event.Some? then [event.value] else [])
           == Feed(limits, old(Current()), rest[..consumed])
    {
      consumed := 1;
      match value {
        case None =>
          event := PushHeader(rest[0]);
          assert rest[..1] == [rest[0]];
        case Some(state) =>
          consumed := if state.remaining < |rest| then state.remaining else |rest|;
          event := PushValue(rest[..consumed]);
      }
    }

    /** Stores one header octet, and opens the value when it completes the header. */
    method PushHeader(octet: Byte) returns (event: Option<DecodeEvent>)
      requires Valid() && value.None?
      modifies this, header
      ensures Valid()
      ensures Progress(Current(), if event.Some? then [event.value] else []) == Feed(limits, old(Current()), [octet])
    {
      ghost var before := Current();
      header[headerLength] := octet;
      headerLength := headerLength + 1;
      assert header[..headerLength] == before.bytes + [octet];
      FeedHeader(limits, before.bytes, octet);
      var parsed := HeaderComplete();
      if parsed.Some? {
        headerLength := 0;
        value := Some(Opened(limits, parsed.value.0, parsed.value.1));
        event := FinishValue();
      } else {
        event := None;
      }
    }

    /** Takes as much of a value as a chunk holds. */
    method PushValue(chunk: seq<Byte>) returns (event: Option<DecodeEvent>)
      requires Valid() && value.Some? && 0 < |chunk| <= value.value.remaining
      modifies this`value
      ensures Valid()
      ensures Progress(Current(), if event.Some? then [event.value] else []) == Feed(limits, old(Current()), chunk)
    {
      FeedValue(limits, value.value, chunk);
      FeedKeepsValid(limits, value.value, chunk);
      value := Some(Taken(value.value, chunk));
      event := FinishValue();
    }

    /** Reads the two integers of a header from the octets gathered so far. */
    method HeaderComplete() returns (r: Option<(nat, nat, nat)>)
      requires headerLength <= header.Length
      ensures r == ParseHeader(header[..headerLength])
    {
      ghost var gathered := header[..headerLength];
      var kind := Varint.Decode(header[..headerLength]);
      if kind.Err? {
        return None;
      }
      var length := Varint.Decode(header[kind.value.1..headerLength]);
      Varint.TailDecodes(gathered, kind.value.1);
      assert gathered[kind.value.1..] == header[kind.value.1..headerLength];
      if length.Err? {
        return None;
      }
      return Some((kind.value.0, length.value.0, kind.value.1 + length.value.1));
    }

    /** Reports a value that lacks nothing and goes back to reading a header. */
    method FinishValue() returns (event: Option<DecodeEvent>)
      requires value.Some? && value.value.Value? && headerLength == 0
      modifies this`value
      ensures value == if old(value.value).remaining == 0 then None else old(value)
      ensures var settled := Settled(old(value.value));
              settled.state == (if value.Some? then value.value else Header([]))
              && settled.events == (if event.Some? then [event.value] else [])
    {
      if value.value.remaining != 0 {
        return None;
      }
      event := Some(FinishedEvent(value.value));
      value := None;
    }

    /** Succeeds exactly between capsules. */
    method Finish() returns (r: Result<(), DecoderError>)
      requires Valid()
      ensures r.Ok? <==> Current() == Header([])
      ensures r.Err? ==> r.error == Truncated
    {
      if value.None? && headerLength == 0 {
        return Ok(());
      }
      return Err(Truncated);
    }

    method BufferedLen() returns (n: nat)
      requires Valid()
      ensures n == BufferedLength(Current())
      ensures n <= if limits.Largest() > 15 then limits.Largest() else 15
    {
      match value
      case None => n := headerLength;
      case Some(state) => n := match state.disposition case Buffer(bytes) => |bytes| case Skip(_) => 0;
    }
  }

  /** At the end of a stream the decoder is content exactly when no octets follow the last whole capsule. */
  lemma FinishMeansWholeCapsules(limits: CapsuleLimits, chunks: seq<seq<Byte>>)
    ensures FeedChunks(limits, Header([]), chunks).state == Header([]) <==>
            OneShot(limits, Flatten(chunks)).1 == []
  {
    ChunkingIndependence(limits, Header([]), chunks);
    RefinesOneShot(limits, Flatten(chunks));
  }
}
