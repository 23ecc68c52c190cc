/** The token bucket that limits the bytes of a session in each direction. */
module TokenBuckets {
  import opened Basics

  const U64: nat := 0x1_0000_0000_0000_0000
  const NANOS_PER_SECOND: nat := 1_000_000_000

  /** Times are nanoseconds of a monotonic clock; `rate` is in bytes a second. */
  datatype Bucket = Bucket(tokens: nat, rate: nat, burst: nat, last: nat)

  /** The nanoseconds since the last call, as a `u64`. */
  function Waited(last: nat, now: nat): nat {
    Min(if now < last then 0 else now - last, U64 - 1)
  }

  function Earned(rate: nat, nanos: nat): nat {
    rate * nanos / NANOS_PER_SECOND
  }

  /** The cast to `u64` keeps the low 64 bits. */
  function Replenished(rate: nat, nanos: nat): nat {
    Earned(rate, nanos) % U64
  }

  function Available(b: Bucket, now: nat): nat {
    Min(Min(b.tokens + Replenished(b.rate, Waited(b.last, now)), U64 - 1), b.burst)
  }

  /** One call: the clock is read once for the time waited and again for the new stamp. */
  datatype Call = Call(amount: nat, checked: nat, stamped: nat)

  predicate Admits(b: Bucket, call: Call) {
    call.amount <= Available(b, call.checked)
  }

  function After(b: Bucket, call: Call): Bucket {
    var tokens := Available(b, call.checked);
    b.(tokens := if Admits(b, call) then tokens - call.amount else tokens, last := call.stamped)
  }

  class TokenBucket {
    var tokens: nat
    var rate: nat
    var burst: nat
    var last: nat

    function Value(): Bucket
      reads this
    {
      Bucket(tokens, rate, burst, last)
    }

    constructor (bytesPerSecond: nat, burstBytes: nat, now: nat)
      ensures Value() == Bucket(burstBytes, bytesPerSecond, burstBytes, now)
    {
      tokens, rate, burst, last := burstBytes, bytesPerSecond, burstBytes, now;
    }

    method Allow(call: Call) returns (admitted: bool)
      modifies this
      ensures admitted == Admits(old(Value()), call)
      ensures Value() == After(old(Value()), call)
    {
      var elapsed := if call.checked < last then 0 else call.checked - last;
      var nanos := Min(elapsed, U64 - 1);
      var replenished := rate * nanos / NANOS_PER_SECOND % U64;
      tokens := Min(Min(tokens + replenished, U64 - 1), burst);
      last := call.stamped;
      if tokens < call.amount {
        return false;
      }
      tokens := tokens - call.amount;
      return true;
    }
  }

  // ----- Runs -----

  /** The clock never goes back, within a call or from one call to the next. */
  predicate Ordered(last: nat, calls: seq<Call>)
    decreases |calls|
  {
    calls != [] ==>
      && last <= calls[0].checked <= calls[0].stamped
      && Ordered(calls[0].stamped, calls[1..])
  }

  function Final(b: Bucket, calls: seq<Call>): Bucket
    decreases |calls|
  {
    if calls == [] then b else Final(After(b, calls[0]), calls[1..])
  }

  /** The bytes one call lets through. */
  function Took(b: Bucket, call: Call): nat {
    if Admits(b, call) then call.amount else 0
  }

  function Admitted(b: Bucket, calls: seq<Call>): nat
    decreases |calls|
  {
    if calls == [] then 0 else Took(b, calls[0]) + Admitted(After(b, calls[0]), calls[1..])
  }

  lemma FloorAtMost(n: nat, m: nat)
    requires m <= n / NANOS_PER_SECOND
    ensures m * NANOS_PER_SECOND <= n
  {
  }

  lemma ModAtMost(n: nat, m: nat)
    requires m > 0
    ensures n % m <= n
  {
  }

  lemma Wider(rate: nat, a: nat, b: nat)
    requires a <= b
    ensures rate * a <= rate * b
  {
  }

  lemma Spread(rate: nat, a: nat, b: nat)
    ensures rate * (a + b) == rate * a + rate * b
  {
  }

  /** Flooring, truncation and saturation only ever lose tokens. */
  lemma RefillAtMost(b: Bucket, now: nat)
    requires b.last <= now
    ensures Available(b, now) * NANOS_PER_SECOND <= b.tokens * NANOS_PER_SECOND + b.rate * (now - b.last)
    ensures Available(b, now) <= b.burst
  {
    var nanos := Waited(b.last, now);
    var got := Replenished(b.rate, nanos);
    ModAtMost(Earned(b.rate, nanos), U64);
    FloorAtMost(b.rate * nanos, got);
    Wider(b.rate, nanos, now - b.last);
  }

  /** What is admitted never exceeds what there was and what the time since earned. */
  lemma {:induction false} AdmittedAtMost(b: Bucket, calls: seq<Call>)
    requires Ordered(b.last, calls) && calls != []
    ensures b.last <= calls[|calls| - 1].checked
    ensures Admitted(b, calls) * NANOS_PER_SECOND
              <= b.tokens * NANOS_PER_SECOND + b.rate * (calls[|calls| - 1].checked - b.last)
    decreases |calls|
  {
    var c := calls[0];
    RefillAtMost(b, c.checked);
    if |calls| > 1 {
      AdmittedAtMost(After(b, c), calls[1..]);
      var last := calls[|calls| - 1];
      Wider(b.rate, last.checked - c.stamped, last.checked - c.checked);
      Spread(b.rate, c.checked - b.last, last.checked - c.checked);
    }
  }

  /** The bucket as it is right after the refill of a call. */
  function Refilled(b: Bucket, now: nat): Bucket {
    b.(tokens := Available(b, now), last := now)
  }

  /** Refilling again at the same time adds nothing. */
  lemma RefilledOnce(b: Bucket, call: Call)
    ensures Took(Refilled(b, call.checked), call) == Took(b, call)
    ensures After(Refilled(b, call.checked), call) == After(b, call)
    ensures Refilled(b, call.checked).tokens <= b.burst
  {
    assert b.rate * 0 == 0;
  }

  lemma OrderedFromFirst(b: Bucket, calls: seq<Call>)
    requires Ordered(b.last, calls) && calls != []
    ensures Ordered(calls[0].checked, calls)
  {
  }

  lemma RefilledAdmits(b: Bucket, calls: seq<Call>) returns (tokens: nat)
    requires calls != []
    ensures tokens <= b.burst
    ensures Admitted(b.(tokens := tokens, last := calls[0].checked), calls) == Admitted(b, calls)
  {
    RefilledOnce(b, calls[0]);
    tokens := Available(b, calls[0].checked);
  }

  /**
    Between any two calls, the first and the last of `calls`, the bytes admitted are at most the burst and
    what the rate earns in the time between them.
   */
  lemma RateIsKept(b: Bucket, calls: seq<Call>)
    requires Ordered(b.last, calls) && calls != []
    ensures calls[0].checked <= calls[|calls| - 1].checked
    ensures Admitted(b, calls) * NANOS_PER_SECOND
              <= b.burst * NANOS_PER_SECOND + b.rate * (calls[|calls| - 1].checked - calls[0].checked)
  {
    var tokens := RefilledAdmits(b, calls);
    OrderedFromFirst(b, calls);
    AdmittedAtMost(b.(tokens := tokens, last := calls[0].checked), calls);
  }

  lemma {:induction false} BurstIsKept(b: Bucket, calls: seq<Call>)
    requires b.tokens <= b.burst
    ensures Final(b, calls).tokens <= b.burst && Final(b, calls).burst == b.burst && Final(b, calls).rate == b.rate
    decreases |calls|
  {
    if calls != [] {
      BurstIsKept(After(b, calls[0]), calls[1..]);
    }
  }

  // ----- What is lost -----

  /** A bucket that neither truncates nor saturates. */
  function Ideal(b: Bucket, now: nat): nat
    requires b.last <= now
  {
    Min(b.tokens + Earned(b.rate, now - b.last), b.burst)
  }

  lemma EarnedMonotone(rate: nat, a: nat, b: nat)
    requires a <= b
    ensures Earned(rate, a) <= Earned(rate, b)
  {
    Wider(rate, a, b);
    FloorMonotone(rate * a, rate * b);
  }

  lemma FloorMonotone(m: nat, n: nat)
    requires m <= n
    ensures m / NANOS_PER_SECOND <= n / NANOS_PER_SECOND
  {
  }

  lemma ModExact(n: nat, m: nat)
    requires m > 0
    ensures n % m == n <==> n < m
  {
  }

  /** Full anyway, or nothing earned was truncated or lost to the cap on the wait. */
  predicate Faithful(b: Bucket, now: nat)
    requires b.last <= now
  {
    || b.tokens + Replenished(b.rate, Waited(b.last, now)) >= b.burst
    || (Earned(b.rate, Waited(b.last, now)) < U64
        && Earned(b.rate, Waited(b.last, now)) == Earned(b.rate, now - b.last))
  }

  /**
    The bucket holds what an ideal one would exactly when it is full anyway, or when what was earned fits
    64 bits and the cap on the wait cost nothing.
   */
  lemma RefillIsExact(b: Bucket, now: nat)
    requires b.last <= now && b.burst < U64
    ensures Available(b, now) == Ideal(b, now) <==> Faithful(b, now)
  {
    var nanos := Waited(b.last, now);
    EarnedMonotone(b.rate, nanos, now - b.last);
    ModAtMost(Earned(b.rate, nanos), U64);
    ModExact(Earned(b.rate, nanos), U64);
  }

  /** Then a call is let through exactly when an ideal bucket has enough, and takes its amount or nothing. */
  lemma AdmissionIsExact(b: Bucket, call: Call)
    requires b.last <= call.checked && b.burst < U64 && Faithful(b, call.checked)
    ensures Admits(b, call) <==> call.amount <= Ideal(b, call.checked)
    ensures After(b, call).tokens + Took(b, call) == Ideal(b, call.checked)
  {
    RefillIsExact(b, call.checked);
  }

  /** A rate whose two seconds earn exactly 2^64 bytes: the truncated refill is nothing. */
  lemma RefillCanVanish() returns (b: Bucket, now: nat)
    ensures b.rate < U64 && b.burst < U64 && b.last <= now
    ensures Available(b, now) == 0 && Ideal(b, now) == b.burst == 1
  {
    b, now := Bucket(0, 0x8000_0000_0000_0000, 1, 0), 2_000_000_000;
  }

  /** Every call comes before a whole byte has been earned since the stamp of the one before. */
  predicate Hurried(rate: nat, last: nat, calls: seq<Call>)
    decreases |calls|
  {
    calls != [] ==>
      && rate * Waited(last, calls[0].checked) < NANOS_PER_SECOND
      && Hurried(rate, calls[0].stamped, calls[1..])
  }

  lemma NothingEarned(b: Bucket, now: nat)
    requires b.tokens <= b.burst < U64 && b.rate * Waited(b.last, now) < NANOS_PER_SECOND
    ensures Available(b, now) == b.tokens
  {
    var n := b.rate * Waited(b.last, now);
    assert n / NANOS_PER_SECOND == 0;
  }

  /** Calls in such quick succession never refill the bucket, however long they go on. */
  lemma {:induction false} HurriedCallsStarve(b: Bucket, calls: seq<Call>)
    requires b.tokens <= b.burst < U64 && Hurried(b.rate, b.last, calls)
    ensures Admitted(b, calls) + Final(b, calls).tokens == b.tokens
    decreases |calls|
  {
    if calls != [] {
      NothingEarned(b, calls[0].checked);
      HurriedCallsStarve(After(b, calls[0]), calls[1..]);
    }
  }

  /** Three calls in three milliseconds, at a thousand bytes a second: nothing is ever earned. */
  lemma HurriedBucketStarves() returns (b: Bucket, calls: seq<Call>)
    ensures b.tokens <= b.burst < U64 && Ordered(b.last, calls) && Hurried(b.rate, b.last, calls)
    ensures calls != [] && b.rate * (calls[|calls| - 1].checked - b.last) >= 2 * NANOS_PER_SECOND
    ensures Admitted(b, calls) == 0 && Final(b, calls).tokens == 0
  {
    var first, second, third := Call(1, 999_999, 999_999), Call(1, 1_999_998, 1_999_998), Call(1, 2_999_997, 2_999_997);
    b, calls := Bucket(0, 1_000, 1_000, 0), [first, second, third];
    var none: seq<Call> := [];
    assert calls[1..] == [second, third] && [second, third][1..] == [third] && [third][1..] == none;
    assert Ordered(1_999_998, [third]) && Ordered(999_999, [second, third]);
    assert Hurried(1_000, 1_999_998, [third]) && Hurried(1_000, 999_999, [second, third]);
    HurriedCallsStarve(b, calls);
  }

  // ----- How much can be lost otherwise -----

  /** No refill is truncated, capped or cut off by a full bucket. */
  predicate Smooth(b: Bucket, calls: seq<Call>)
    decreases |calls|
  {
    calls != [] ==>
      && b.last <= calls[0].checked < b.last + U64
      && b.tokens + Earned(b.rate, calls[0].checked - b.last) <= b.burst
      && Smooth(After(b, calls[0]), calls[1..])
  }

  /** The time between the two clock reads of every call but the last. */
  function Gaps(calls: seq<Call>): int {
    if |calls| < 2 then 0 else calls[0].stamped - calls[0].checked + Gaps(calls[1..])
  }

  lemma FloorAbove(n: nat)
    ensures (n / NANOS_PER_SECOND + 1) * NANOS_PER_SECOND > n
  {
  }

  lemma SmoothRefill(b: Bucket, call: Call)
    requires b.burst < U64 && b.last <= call.checked < b.last + U64
    requires b.tokens + Earned(b.rate, call.checked - b.last) <= b.burst
    ensures After(b, call).tokens + Took(b, call) == b.tokens + Earned(b.rate, call.checked - b.last)
    ensures (b.tokens + Earned(b.rate, call.checked - b.last) + 1) * NANOS_PER_SECOND
              > b.tokens * NANOS_PER_SECOND + b.rate * (call.checked - b.last)
  {
    var earned := Earned(b.rate, call.checked - b.last);
    ModExact(earned, U64);
    FloorAbove(b.rate * (call.checked - b.last));
  }

  /** Adding up the first call and the rest, with the products of the rate as parameters. */
  lemma LossAdds(tokens: nat, earned: nat, left: nat, took: nat, final: nat, admitted: nat, n: nat,
                 waited: int, gap: int, gaps: int, rest: int)
    requires left + took == tokens + earned
    requires (tokens + earned + 1) * NANOS_PER_SECOND > tokens * NANOS_PER_SECOND + waited
    requires (final + admitted + n) * NANOS_PER_SECOND + gaps > left * NANOS_PER_SECOND + rest
    ensures (final + (took + admitted) + (n + 1)) * NANOS_PER_SECOND + (gap + gaps)
              > tokens * NANOS_PER_SECOND + (waited + gap + rest)
  {
  }

  lemma SpreadThree(rate: nat, a: nat, b: nat, c: nat)
    ensures rate * (a + b + c) == rate * a + rate * b + rate * c
  {
    Spread(rate, a + b, c);
    Spread(rate, a, b);
  }

  /**
    Otherwise a bucket earns almost what an ideal one would: tokens and admitted bytes together fall short of
    it by less than a byte a call, besides what is earned between the two clock reads of each call.
   */
  lemma {:induction false} LossIsBounded(b: Bucket, calls: seq<Call>)
    requires b.burst < U64 && calls != [] && Ordered(b.last, calls) && Smooth(b, calls)
    ensures b.last <= calls[|calls| - 1].checked && Gaps(calls) >= 0
    ensures (Final(b, calls).tokens + Admitted(b, calls) + |calls|) * NANOS_PER_SECOND + b.rate * Gaps(calls)
              > b.tokens * NANOS_PER_SECOND + b.rate * (calls[|calls| - 1].checked - b.last)
    decreases |calls|
  {
    var c := calls[0];
    SmoothRefill(b, c);
    if |calls| > 1 {
      var a, rest, last := After(b, c), calls[1..], calls[|calls| - 1];
      LossIsBounded(a, rest);
      LossAdds(b.tokens, Earned(b.rate, c.checked - b.last), a.tokens, Took(b, c), Final(a, rest).tokens,
               Admitted(a, rest), |rest|, b.rate * (c.checked - b.last), b.rate * (c.stamped - c.checked),
               b.rate * Gaps(rest), b.rate * (last.checked - c.stamped));
      SpreadThree(b.rate, c.checked - b.last, c.stamped - c.checked, last.checked - c.stamped);
      Spread(b.rate, c.stamped - c.checked, Gaps(rest));
    }
  }
}
