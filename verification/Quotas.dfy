/**
  Per-principal quotas: how many tunnels are live at once, and how many start in a minute.

  An acquire is several critical sections, on two locks, with anything in between: it enters the active
  count, then asks the minute window, and backs out of the count when the window refuses.
 */
module Quotas {
  import opened Basics
  import opened Wrappers

  /** Nanoseconds of a monotonic clock. */
  const MINUTE: nat := 60_000_000_000

  type Principal = string

  datatype Limits = Limits(active: nat, perMinute: nat)

  datatype Window = Window(started: nat, count: nat)

  /** The clock reads of the window section: on creating it, on checking it, on restarting it. */
  datatype Clock = Clock(created: nat, checked: nat, restarted: nat)

  predicate InOrder(clock: Clock) {
    clock.created <= clock.checked <= clock.restarted
  }

  function Count(active: map<Principal, nat>, p: Principal): nat {
    if p in active then active[p] else 0
  }

  // ----- The critical sections, on values -----

  /** Leaves the entry behind even when it refuses. */
  function Entered(active: map<Principal, nat>, p: Principal, limit: nat): (map<Principal, nat>, bool) {
    var count := Count(active, p);
    if count >= limit then (active[p := count], false) else (active[p := count + 1], true)
  }

  predicate Expired(window: Window, now: nat) {
    now >= window.started + MINUTE
  }

  function Found(windows: map<Principal, Window>, p: Principal): Option<Window> {
    if p in windows then Some(windows[p]) else None
  }

  function OrNew(window: Option<Window>, clock: Clock): Window {
    if window.Some? then window.value else Window(clock.created, 0)
  }

  /** The window once it was created or restarted as needed. */
  function Current(window: Option<Window>, clock: Clock): Window {
    if Expired(OrNew(window, clock), clock.checked) then Window(clock.restarted, 0) else OrNew(window, clock)
  }

  predicate Grants(window: Option<Window>, perMinute: nat, clock: Clock) {
    Current(window, clock).count < perMinute
  }

  function Asked(window: Option<Window>, perMinute: nat, clock: Clock): Window {
    var current := Current(window, clock);
    if Grants(window, perMinute, clock) then current.(count := current.count + 1) else current
  }

  function SaturatingPred(n: nat): nat {
    if n == 0 then 0 else n - 1
  }

  function BackedOut(active: map<Principal, nat>, p: Principal): map<Principal, nat> {
    if p in active then active[p := SaturatingPred(active[p])] else active
  }

  function Released(active: map<Principal, nat>, p: Principal): map<Principal, nat> {
    if p !in active then active
    else if SaturatingPred(active[p]) == 0 then active - {p}
    else active[p := SaturatingPred(active[p])]
  }

  // ----- The state of the source -----

  class QuotaState {
    var active: map<Principal, nat>
    var windows: map<Principal, Window>

    constructor ()
      ensures active == map[] && windows == map[]
    {
      active, windows := map[], map[];
    }

    method Enter(principal: Principal, limit: nat) returns (entered: bool)
      modifies this`active
      ensures (active, entered) == Entered(old(active), principal, limit)
    {
      var count := if principal in active then active[principal] else 0;
      active := active[principal := count];
      if count >= limit {
        return false;
      }
      active := active[principal := count + 1];
      assert active == old(active)[principal := count + 1];
      return true;
    }

    method AskWindow(principal: Principal, perMinute: nat, clock: Clock) returns (granted: bool)
      modifies this`windows
      ensures granted == Grants(Found(old(windows), principal), perMinute, clock)
      ensures windows == old(windows)[principal := Asked(Found(old(windows), principal), perMinute, clock)]
    {
      if principal !in windows {
        windows := windows[principal := Window(clock.created, 0)];
      }
      if Expired(windows[principal], clock.checked) {
        windows := windows[principal := Window(clock.restarted, 0)];
      }
      var window := windows[principal];
      if window.count >= perMinute {
        return false;
      }
      windows := windows[principal := window.(count := window.count + 1)];
      return true;
    }

    method BackOut(principal: Principal)
      modifies this`active
      ensures active == BackedOut(old(active), principal)
    {
      if principal in active {
        active := active[principal := SaturatingPred(active[principal])];
      }
    }

    /** A permit is dropped. */
    method Release(principal: Principal)
      modifies this`active
      ensures active == Released(old(active), principal)
    {
      if principal in active {
        active := active[principal := SaturatingPred(active[principal])];
        if active[principal] == 0 {
          active := active - {principal};
        }
      }
    }
  }

  // ----- Runs -----

  /** A call to acquire between its sections, or the permit it returned. */
  datatype Call = Asking(principal: Principal) | Refused(principal: Principal) | Holding(principal: Principal)

  /** The windows one principal had: when each started, and when it granted. */
  datatype History = History(starts: seq<nat>, grants: seq<seq<nat>>)

  datatype World = World(
    active: map<Principal, nat>, windows: map<Principal, Window>, calls: map<nat, Call>, now: nat,
    history: map<Principal, History>)

  const IDLE: World := World(map[], map[], map[], 0, map[])

  datatype Event =
    | Enter(call: nat, principal: Principal)
    | Ask(call: nat, clock: Clock)
    | BackOut(call: nat)
    | Release(call: nat)

  predicate Allowed(limits: map<Principal, Limits>, w: World, e: Event) {
    match e
    case Enter(call, principal) => call !in w.calls && principal in limits
    case Ask(call, clock) =>
      && call in w.calls && w.calls[call].Asking? && w.calls[call].principal in limits
      && InOrder(clock) && w.now <= clock.created
    case BackOut(call) => call in w.calls && w.calls[call].Refused?
    case Release(call) => call in w.calls && w.calls[call].Holding?
  }

  function Past(w: World, p: Principal): History {
    if p in w.history then w.history[p] else History([], [])
  }

  predicate Fresh(window: Option<Window>, clock: Clock) {
    window.None? || Expired(OrNew(window, clock), clock.checked)
  }

  function GrantTime(window: Option<Window>, clock: Clock): nat {
    if Expired(OrNew(window, clock), clock.checked) then clock.restarted else clock.checked
  }

  function Opened(past: History, start: nat): History {
    History(past.starts + [start], past.grants + [[]])
  }

  function Granted(past: History, time: nat): History {
    if past.grants == [] then past
    else
      var n := |past.grants| - 1;
      past.(grants := past.grants[n := past.grants[n] + [time]])
  }

  function Recorded(past: History, window: Option<Window>, perMinute: nat, clock: Clock): History {
    var begun := if Fresh(window, clock) then Opened(past, Current(window, clock).started) else past;
    if Grants(window, perMinute, clock) then Granted(begun, GrantTime(window, clock)) else begun
  }

  function Next(limits: map<Principal, Limits>, w: World, e: Event): World
    requires Allowed(limits, w, e)
  {
    match e
    case Enter(call, p) =>
      var (active, entered) := Entered(w.active, p, limits[p].active);
      w.(active := active, calls := if entered then w.calls[call := Asking(p)] else w.calls)
    case Ask(call, clock) =>
      var p := w.calls[call].principal;
      var window := Found(w.windows, p);
      w.(windows := w.windows[p := Asked(window, limits[p].perMinute, clock)],
         calls := w.calls[call := if Grants(window, limits[p].perMinute, clock) then Holding(p) else Refused(p)],
         now := clock.restarted,
         history := w.history[p := Recorded(Past(w, p), window, limits[p].perMinute, clock)])
    case BackOut(call) => w.(active := BackedOut(w.active, w.calls[call].principal), calls := w.calls - {call})
    case Release(call) => w.(active := Released(w.active, w.calls[call].principal), calls := w.calls - {call})
  }

  ghost predicate Run(limits: map<Principal, Limits>, events: seq<Event>, w: World)
    decreases |events|
  {
    if events == [] then w == IDLE
    else
      var n := |events| - 1;
      exists v :: Run(limits, events[..n], v) && Allowed(limits, v, events[n]) && w == Next(limits, v, events[n])
  }

  // ----- The active count -----

  /** The calls of a principal that have entered: in flight, or holding a permit. */
  function InFlightOrLive(calls: map<nat, Call>, p: Principal): set<nat> {
    set call | call in calls && calls[call].principal == p
  }

  function Live(calls: map<nat, Call>, p: Principal): set<nat> {
    set call | call in calls && calls[call].principal == p && calls[call].Holding?
  }

  predicate Counted(active: map<Principal, nat>, calls: map<nat, Call>, p: Principal) {
    Count(active, p) == |InFlightOrLive(calls, p)|
  }

  lemma CallAdded(calls: map<nat, Call>, call: nat, c: Call, p: Principal)
    requires call !in calls
    ensures |InFlightOrLive(calls[call := c], p)| == |InFlightOrLive(calls, p)| + if c.principal == p then 1 else 0
  {
    assert InFlightOrLive(calls[call := c], p) == InFlightOrLive(calls, p) + if c.principal == p then {call} else {};
  }

  lemma CallChanged(calls: map<nat, Call>, call: nat, c: Call, p: Principal)
    requires call in calls && calls[call].principal == c.principal
    ensures InFlightOrLive(calls[call := c], p) == InFlightOrLive(calls, p)
  {
  }

  lemma CallEnded(calls: map<nat, Call>, call: nat, p: Principal)
    requires call in calls
    ensures |InFlightOrLive(calls, p)| ==
            |InFlightOrLive(calls - {call}, p)| + if calls[call].principal == p then 1 else 0
  {
    assert InFlightOrLive(calls, p) ==
           InFlightOrLive(calls - {call}, p) + if calls[call].principal == p then {call} else {};
  }

  lemma StepKeepsCounted(limits: map<Principal, Limits>, w: World, e: Event, p: Principal)
    requires Allowed(limits, w, e) && forall q :: Counted(w.active, w.calls, q)
    ensures Counted(Next(limits, w, e).active, Next(limits, w, e).calls, p)
  {
    assert Counted(w.active, w.calls, p);
    match e
    case Enter(call, principal) => CallAdded(w.calls, call, Asking(principal), p);
    case Ask(call, clock) => CallChanged(w.calls, call, Next(limits, w, e).calls[call], p);
    case BackOut(call) => CallEnded(w.calls, call, p);
    case Release(call) => CallEnded(w.calls, call, p);
  }

  /** A decrement never meets a count that is zero or gone. */
  lemma NothingSaturates(w: World, call: nat)
    requires call in w.calls && forall q :: Counted(w.active, w.calls, q)
    ensures w.calls[call].principal in w.active && w.active[w.calls[call].principal] > 0
  {
    var p := w.calls[call].principal;
    assert Counted(w.active, w.calls, p);
    assert call in InFlightOrLive(w.calls, p);
  }

  // ----- The minute windows -----

  predicate Spaced(starts: seq<nat>) {
    forall i :: 0 < i < |starts| ==> starts[i - 1] + MINUTE <= starts[i]
  }

  predicate WithinMinute(start: nat, times: seq<nat>) {
    forall j :: 0 <= j < |times| ==> start <= times[j] < start + MINUTE
  }

  /** Windows start a minute apart or more, and each grants at most `most` times, within its minute. */
  predicate Orderly(h: History, most: nat) {
    && |h.starts| == |h.grants| && Spaced(h.starts)
    && forall i :: 0 <= i < |h.starts| ==> WithinMinute(h.starts[i], h.grants[i]) && |h.grants[i]| <= most
  }

  /** The window of the state is the last of the history. */
  predicate Matches(window: Option<Window>, h: History, now: nat) {
    && |h.starts| == |h.grants|
    && (window.None? <==> h.starts == [])
    && (window.Some? ==>
          window.value == Window(h.starts[|h.starts| - 1], |h.grants[|h.starts| - 1]|) && window.value.started <= now)
  }

  lemma OpenedIsOrderly(h: History, most: nat, start: nat)
    requires Orderly(h, most) && (h.starts != [] ==> h.starts[|h.starts| - 1] + MINUTE <= start)
    ensures Orderly(Opened(h, start), most)
  {
  }

  lemma GrantedIsOrderly(h: History, most: nat, time: nat)
    requires Orderly(h, most) && h.starts != []
    requires var n := |h.starts| - 1; |h.grants[n]| < most && h.starts[n] <= time < h.starts[n] + MINUTE
    ensures Orderly(Granted(h, time), most)
  {
  }

  lemma AskKeepsOrder(window: Option<Window>, h: History, perMinute: nat, now: nat, clock: Clock)
    requires Orderly(h, perMinute) && Matches(window, h, now) && InOrder(clock) && now <= clock.created
    ensures Orderly(Recorded(h, window, perMinute, clock), perMinute)
    ensures Matches(Some(Asked(window, perMinute, clock)), Recorded(h, window, perMinute, clock), clock.restarted)
  {
    var begun := if Fresh(window, clock) then Opened(h, Current(window, clock).started) else h;
    if Fresh(window, clock) {
      OpenedIsOrderly(h, perMinute, Current(window, clock).started);
    }
    assert Matches(Some(Current(window, clock)), begun, clock.restarted);
    if Grants(window, perMinute, clock) {
      GrantedIsOrderly(begun, perMinute, GrantTime(window, clock));
    }
  }

  function InInterval(times: seq<nat>, begin: nat): (n: nat)
    ensures n <= |times|
  {
    if times == [] then 0
    else
      InInterval(times[..|times| - 1], begin) + if begin <= times[|times| - 1] < begin + MINUTE then 1 else 0
  }

  /** The grants of the first `n` windows in the minute from `begin`, its end excluded. */
  function GrantsIn(h: History, n: nat, begin: nat): nat
    requires n <= |h.grants|
  {
    if n == 0 then 0 else GrantsIn(h, n - 1, begin) + InInterval(h.grants[n - 1], begin)
  }

  lemma {:induction false} NoneInInterval(times: seq<nat>, start: nat, begin: nat)
    requires WithinMinute(start, times) && (start + MINUTE <= begin || begin + MINUTE <= start)
    ensures InInterval(times, begin) == 0
  {
    if times != [] {
      NoneInInterval(times[..|times| - 1], start, begin);
    }
  }

  lemma {:induction false} AtMostTwoWindows(h: History, most: nat, n: nat, begin: nat)
    requires Orderly(h, most) && n <= |h.starts|
    ensures n == 0 || h.starts[n - 1] + MINUTE <= begin ==> GrantsIn(h, n, begin) == 0
    ensures n > 0 && h.starts[n - 1] <= begin ==> GrantsIn(h, n, begin) <= most
    ensures GrantsIn(h, n, begin) <= 2 * most
  {
    if n > 0 {
      AtMostTwoWindows(h, most, n - 1, begin);
      var start, times := h.starts[n - 1], h.grants[n - 1];
      assert WithinMinute(start, times);
      if start + MINUTE <= begin || begin + MINUTE <= start {
        NoneInInterval(times, start, begin);
      }
      assert n > 1 ==> h.starts[n - 2] + MINUTE <= start;
    }
  }

  // ----- What holds in every run -----

  ghost predicate Inv(limits: map<Principal, Limits>, w: World) {
    && (forall p :: Counted(w.active, w.calls, p))
    && (forall p :: p in w.active && w.active[p] > 0 ==> p in limits && w.active[p] <= limits[p].active)
    && (forall p :: Matches(Found(w.windows, p), Past(w, p), w.now))
    && (forall p :: p in w.history ==> p in limits && Orderly(w.history[p], limits[p].perMinute))
  }

  lemma AskKeepsHistories(limits: map<Principal, Limits>, w: World, call: nat, clock: Clock)
    requires Inv(limits, w) && Allowed(limits, w, Ask(call, clock))
    ensures var v := Next(limits, w, Ask(call, clock));
      && (forall p :: Matches(Found(v.windows, p), Past(v, p), v.now))
      && (forall p :: p in v.history ==> p in limits && Orderly(v.history[p], limits[p].perMinute))
  {
    var p := w.calls[call].principal;
    assert Matches(Found(w.windows, p), Past(w, p), w.now);
    AskKeepsOrder(Found(w.windows, p), Past(w, p), limits[p].perMinute, w.now, clock);
    var v := Next(limits, w, Ask(call, clock));
    forall q ensures Matches(Found(v.windows, q), Past(v, q), v.now) {
      assert Matches(Found(w.windows, q), Past(w, q), w.now);
    }
  }

  lemma StepKeepsInv(limits: map<Principal, Limits>, w: World, e: Event)
    requires Inv(limits, w) && Allowed(limits, w, e)
    ensures Inv(limits, Next(limits, w, e))
  {
    var v := Next(limits, w, e);
    forall p ensures Counted(v.active, v.calls, p) {
      StepKeepsCounted(limits, w, e, p);
    }
    if e.Ask? {
      AskKeepsHistories(limits, w, e.call, e.clock);
    } else {
      forall p ensures Matches(Found(v.windows, p), Past(v, p), v.now) {
        assert Matches(Found(w.windows, p), Past(w, p), w.now);
      }
    }
  }

  lemma {:induction false} RunsKeepInv(limits: map<Principal, Limits>, events: seq<Event>, w: World)
    requires Run(limits, events, w)
    ensures Inv(limits, w)
    decreases |events|
  {
    if events != [] {
      var n := |events| - 1;
      var v :| Run(limits, events[..n], v) && Allowed(limits, v, events[n]) && w == Next(limits, v, events[n]);
      RunsKeepInv(limits, events[..n], v);
      StepKeepsInv(limits, v, events[n]);
    }
  }

  /** Live permits never exceed the limit, and the count is permits and calls in flight together. */
  lemma PermitsAreBounded(limits: map<Principal, Limits>, events: seq<Event>, w: World, p: Principal)
    requires Run(limits, events, w) && p in limits
    ensures Count(w.active, p) == |InFlightOrLive(w.calls, p)|
    ensures |Live(w.calls, p)| <= limits[p].active
  {
    RunsKeepInv(limits, events, w);
    assert Counted(w.active, w.calls, p);
    SubsetSize(Live(w.calls, p), InFlightOrLive(w.calls, p));
  }

  /** Any half-open minute sees at most twice the limit of grants, whenever it begins. */
  lemma GrantsAreBounded(limits: map<Principal, Limits>, events: seq<Event>, w: World, p: Principal, begin: nat)
    requires Run(limits, events, w) && p in limits
    ensures GrantsIn(Past(w, p), |Past(w, p).grants|, begin) <= 2 * limits[p].perMinute
  {
    RunsKeepInv(limits, events, w);
    assert Orderly(Past(w, p), limits[p].perMinute);
    assert Matches(Found(w.windows, p), Past(w, p), w.now);
    AtMostTwoWindows(Past(w, p), limits[p].perMinute, |Past(w, p).starts|, begin);
  }

  /** In no run does a decrement saturate. */
  lemma DecrementsAreExact(limits: map<Principal, Limits>, events: seq<Event>, w: World, e: Event)
    requires Run(limits, events, w) && Allowed(limits, w, e) && (e.BackOut? || e.Release?)
    ensures var p := w.calls[e.call].principal;
      && Count(w.active, p) > 0
      && Count(Next(limits, w, e).active, p) == Count(w.active, p) - 1
  {
    RunsKeepInv(limits, events, w);
    NothingSaturates(w, e.call);
  }

  /** A call enters exactly when fewer than the limit are in flight or live. */
  lemma EntersExactly(limits: map<Principal, Limits>, w: World, call: nat, p: Principal)
    requires Inv(limits, w) && Allowed(limits, w, Enter(call, p))
    ensures call in Next(limits, w, Enter(call, p)).calls <==> |InFlightOrLive(w.calls, p)| < limits[p].active
  {
    assert Counted(w.active, w.calls, p);
  }

  /** A window that began less than a minute ago and has granted all it may. */
  predicate WindowFull(h: History, most: nat, now: nat) {
    |h.starts| == |h.grants| && h.starts != []
    && now < h.starts[|h.starts| - 1] + MINUTE && |h.grants[|h.starts| - 1]| >= most
  }

  /** A call that entered gets its permit exactly when the limit is not zero and the current window not full. */
  lemma GrantedExactly(limits: map<Principal, Limits>, w: World, call: nat, clock: Clock)
    requires Inv(limits, w) && Allowed(limits, w, Ask(call, clock))
    ensures var p := w.calls[call].principal;
      Next(limits, w, Ask(call, clock)).calls[call].Holding? <==>
      limits[p].perMinute > 0 && !WindowFull(Past(w, p), limits[p].perMinute, clock.checked)
  {
    var p := w.calls[call].principal;
    assert Matches(Found(w.windows, p), Past(w, p), w.now);
  }

  /** Left alone, a refused call leaves every count as it found it, and the principal's live permits. */
  lemma RefusalLeavesCounts(active: map<Principal, nat>, p: Principal, limit: nat, q: Principal)
    requires Entered(active, p, limit).1
    ensures Count(BackedOut(Entered(active, p, limit).0, p), q) == Count(active, q)
    ensures Count(Released(Entered(active, p, limit).0, p), q) == Count(active, q)
  {
  }

  // ----- Twice the limit, or one less -----

  lemma RunGoesOn(limits: map<Principal, Limits>, events: seq<Event>, v: World, e: Event)
    requires Run(limits, events, v) && Allowed(limits, v, e)
    ensures Run(limits, events + [e], Next(limits, v, e))
  {
    var all := events + [e];
    var n := |all| - 1;
    assert all[..n] == events && all[n] == e;
    assert Run(limits, all[..n], v) && Allowed(limits, v, all[n]);
  }

  lemma OneGrant(past: History, start: nat, time: nat)
    requires |past.starts| == |past.grants|
    ensures Granted(Opened(past, start), time) == History(past.starts + [start], past.grants + [[time]])
  {
    var none: seq<nat> := [];
    assert none + [time] == [time];
    assert (past.grants + [none])[|past.grants| := [time]] == past.grants + [[time]];
  }

  lemma EnterStep(limits: map<Principal, Limits>, events: seq<Event>, v: World, call: nat, p: Principal)
    returns (w: World)
    requires Run(limits, events, v) && call !in v.calls && p in limits && Count(v.active, p) < limits[p].active
    ensures Run(limits, events + [Enter(call, p)], w) && w.calls == v.calls[call := Asking(p)]
    ensures w.active == v.active[p := Count(v.active, p) + 1]
    ensures w.windows == v.windows && w.history == v.history && w.now == v.now
  {
    RunGoesOn(limits, events, v, Enter(call, p));
    w := Next(limits, v, Enter(call, p));
  }

  /** A call that asks when its window is new or has expired is granted, and opens a window. */
  lemma AskStep(limits: map<Principal, Limits>, events: seq<Event>, v: World, call: nat, clock: Clock)
    returns (w: World)
    requires Run(limits, events, v) && Allowed(limits, v, Ask(call, clock)) && |Past(v, v.calls[call].principal).starts|
             == |Past(v, v.calls[call].principal).grants|
    requires var p := v.calls[call].principal; Fresh(Found(v.windows, p), clock) && limits[p].perMinute > 0
    ensures Run(limits, events + [Ask(call, clock)], w) && w.now == clock.restarted && w.active == v.active
    ensures var (p, past) := (v.calls[call].principal, Past(v, v.calls[call].principal));
      && w.windows == v.windows[p := Window(Current(Found(v.windows, p), clock).started, 1)]
      && w.calls == v.calls[call := Holding(p)]
      && Past(w, p) == History(past.starts + [Current(Found(v.windows, p), clock).started],
                               past.grants + [[GrantTime(Found(v.windows, p), clock)]])
  {
    var p := v.calls[call].principal;
    RunGoesOn(limits, events, v, Ask(call, clock));
    OneGrant(Past(v, p), Current(Found(v.windows, p), clock).started, GrantTime(Found(v.windows, p), clock));
    w := Next(limits, v, Ask(call, clock));
  }

  /** A first call that is held up: its window is created at zero and checked a minute less a nanosecond later. */
  lemma SlowCall(limits: map<Principal, Limits>, p: Principal) returns (events: seq<Event>, w: World)
    requires p in limits && limits[p] == Limits(2, 1)
    ensures Run(limits, events, w) && w.calls == map[0 := Holding(p)] && w.now == MINUTE - 1
    ensures w.active == map[p := 1] && w.windows == map[p := Window(0, 1)]
    ensures Past(w, p) == History([0], [[MINUTE - 1]])
  {
    var v := EnterStep(limits, [], IDLE, 0, p);
    events := [] + [Enter(0, p)];
    w := AskStep(limits, events, v, 0, Clock(0, MINUTE - 1, MINUTE - 1));
    events := events + [Ask(0, Clock(0, MINUTE - 1, MINUTE - 1))];
  }

  /** A second call a nanosecond later, when the window has expired. */
  lemma NextCall(limits: map<Principal, Limits>, events: seq<Event>, v: World, p: Principal)
    returns (more: seq<Event>, w: World)
    requires Run(limits, events, v) && p in limits && limits[p] == Limits(2, 1)
    requires 1 !in v.calls && v.now == MINUTE - 1 && v.active == map[p := 1] && v.windows == map[p := Window(0, 1)]
    requires Past(v, p) == History([0], [[MINUTE - 1]])
    ensures Run(limits, more, w) && Past(w, p) == History([0] + [MINUTE], [[MINUTE - 1]] + [[MINUTE]])
  {
    var u := EnterStep(limits, events, v, 1, p);
    more := events + [Enter(1, p)];
    w := AskStep(limits, more, u, 1, Clock(MINUTE, MINUTE, MINUTE));
    more := more + [Ask(1, Clock(MINUTE, MINUTE, MINUTE))];
  }

  lemma TwoGrants(h: History)
    requires h.grants == [[MINUTE - 1]] + [[MINUTE]]
    ensures GrantsIn(h, 2, MINUTE - 1) == 2
  {
    var one, two, none := h.grants[0], h.grants[1], 0;
    assert one[..0] == [] && two[..0] == [];
    assert InInterval(one, MINUTE - 1) == 1 && InInterval(two, MINUTE - 1) == 1;
    assert GrantsIn(h, none, MINUTE - 1) == 0 && GrantsIn(h, none + 1, MINUTE - 1) == 1;
  }

  /** The bound is tight: at one a minute, a run that grants two calls within a nanosecond. */
  lemma TwiceTheLimitIsReached() returns (limits: map<Principal, Limits>, events: seq<Event>, w: World, p: Principal)
    ensures Run(limits, events, w) && p in limits && limits[p].perMinute == 1
    ensures |Past(w, p).grants| == 2 && GrantsIn(Past(w, p), 2, MINUTE - 1) == 2
  {
    p := "principal";
    limits := map[p := Limits(2, 1)];
    var v: World;
    events, v := SlowCall(limits, p);
    events, w := NextCall(limits, events, v, p);
    TwoGrants(Past(w, p));
  }

  /** No call is held up between creating a window and checking it. */
  predicate Prompt(events: seq<Event>) {
    forall i :: 0 <= i < |events| && events[i].Ask? ==> events[i].clock.created == events[i].clock.checked
  }

  /** Every window granted first when it started. */
  predicate FirstAtStart(h: History) {
    && |h.starts| == |h.grants|
    && forall i :: 0 <= i < |h.starts| ==> h.grants[i] != [] && h.grants[i][0] == h.starts[i]
  }

  lemma AskKeepsFirst(window: Option<Window>, h: History, perMinute: nat, now: nat, clock: Clock)
    requires FirstAtStart(h) && Matches(window, h, now) && clock.created == clock.checked && perMinute > 0
    ensures FirstAtStart(Recorded(h, window, perMinute, clock))
  {
    if Fresh(window, clock) {
      OneGrant(h, Current(window, clock).started, GrantTime(window, clock));
    }
  }

  lemma {:induction false} MissesFirst(times: seq<nat>, begin: nat)
    requires times != [] && times[0] < begin
    ensures InInterval(times, begin) <= |times| - 1
  {
    if |times| > 1 {
      MissesFirst(times[..|times| - 1], begin);
    } else {
      assert InInterval(times[..0], begin) == 0;
    }
  }

  lemma {:induction false} AlmostTwoWindows(h: History, most: nat, n: nat, begin: nat)
    requires Orderly(h, most) && FirstAtStart(h) && n <= |h.starts| && most > 0
    ensures n == 0 || h.starts[n - 1] + MINUTE <= begin ==> GrantsIn(h, n, begin) == 0
    ensures n > 0 && h.starts[n - 1] < begin ==> GrantsIn(h, n, begin) <= most - 1
    ensures n > 0 && h.starts[n - 1] == begin ==> GrantsIn(h, n, begin) <= most
    ensures GrantsIn(h, n, begin) <= 2 * most - 1
  {
    if n > 0 {
      AlmostTwoWindows(h, most, n - 1, begin);
      var start, times := h.starts[n - 1], h.grants[n - 1];
      assert WithinMinute(start, times);
      if start + MINUTE <= begin || begin + MINUTE <= start {
        NoneInInterval(times, start, begin);
      } else if start < begin && times != [] {
        MissesFirst(times, begin);
      }
      assert n > 1 ==> h.starts[n - 2] + MINUTE <= start;
    }
  }

  lemma {:induction false} PromptRunsGrantFirst(limits: map<Principal, Limits>, events: seq<Event>, w: World,
                                                p: Principal)
    requires Run(limits, events, w) && Prompt(events) && p in limits && limits[p].perMinute > 0
    ensures FirstAtStart(Past(w, p))
    decreases |events|
  {
    if events != [] {
      var n := |events| - 1;
      var v :| Run(limits, events[..n], v) && Allowed(limits, v, events[n]) && w == Next(limits, v, events[n]);
      PromptRunsGrantFirst(limits, events[..n], v, p);
      RunsKeepInv(limits, events[..n], v);
      assert Matches(Found(v.windows, p), Past(v, p), v.now);
      if events[n].Ask? && v.calls[events[n].call].principal == p {
        AskKeepsFirst(Found(v.windows, p), Past(v, p), limits[p].perMinute, v.now, events[n].clock);
      }
    }
  }

  /** Without such delays, any half-open minute sees at least one grant fewer than twice the limit. */
  lemma PromptGrantsAreBounded(limits: map<Principal, Limits>, events: seq<Event>, w: World, p: Principal, begin: nat)
    requires Run(limits, events, w) && Prompt(events) && p in limits && limits[p].perMinute > 0
    ensures GrantsIn(Past(w, p), |Past(w, p).grants|, begin) <= 2 * limits[p].perMinute - 1
  {
    RunsKeepInv(limits, events, w);
    PromptRunsGrantFirst(limits, events, w, p);
    assert Orderly(Past(w, p), limits[p].perMinute);
    AlmostTwoWindows(Past(w, p), limits[p].perMinute, |Past(w, p).starts|, begin);
  }

  // ----- One less than twice the limit, promptly -----

  lemma PromptMore(events: seq<Event>, call: nat, p: Principal, clock: Clock)
    requires Prompt(events) && clock.created == clock.checked
    ensures Prompt(events + [Enter(call, p)] + [Ask(call, clock)])
  {
  }

  lemma GrantStep(limits: map<Principal, Limits>, events: seq<Event>, v: World, call: nat, p: Principal, clock: Clock)
    returns (w: World)
    requires Run(limits, events, v) && p in limits && call in v.calls && v.calls[call] == Asking(p)
    requires InOrder(clock) && v.now <= clock.created && Grants(Found(v.windows, p), limits[p].perMinute, clock)
    ensures Run(limits, events + [Ask(call, clock)], w) && w.now == clock.restarted
    ensures w.active == v.active && w.calls.Keys == v.calls.Keys
    ensures Found(w.windows, p) == Some(Asked(Found(v.windows, p), limits[p].perMinute, clock))
    ensures Past(w, p) == Recorded(Past(v, p), Found(v.windows, p), limits[p].perMinute, clock)
  {
    RunGoesOn(limits, events, v, Ask(call, clock));
    w := Next(limits, v, Ask(call, clock));
  }

  /** A whole call, not held up, which is granted. */
  lemma PromptCall(limits: map<Principal, Limits>, events: seq<Event>, v: World, call: nat, p: Principal, clock: Clock)
    returns (more: seq<Event>, w: World)
    requires Run(limits, events, v) && Prompt(events) && call !in v.calls && p in limits
    requires InOrder(clock) && clock.created == clock.checked && v.now <= clock.created
    requires Count(v.active, p) < limits[p].active && Grants(Found(v.windows, p), limits[p].perMinute, clock)
    ensures Run(limits, more, w) && Prompt(more) && w.now == clock.restarted && w.calls.Keys == v.calls.Keys + {call}
    ensures Count(w.active, p) == Count(v.active, p) + 1
    ensures Found(w.windows, p) == Some(Asked(Found(v.windows, p), limits[p].perMinute, clock))
    ensures Past(w, p) == Recorded(Past(v, p), Found(v.windows, p), limits[p].perMinute, clock)
  {
    var u := EnterStep(limits, events, v, call, p);
    w := GrantStep(limits, events + [Enter(call, p)], u, call, p, clock);
    more := events + [Enter(call, p)] + [Ask(call, clock)];
    PromptMore(events, call, p, clock);
  }

  lemma SecondGrant(start: nat, first: nat, second: nat)
    ensures Granted(History([start], [[first]]), second) == History([start], [[first] + [second]])
  {
  }

  lemma TwoWindows(a: nat, b: nat, c: nat, d: nat)
    ensures Granted(Granted(Opened(History([a], [[a] + [b]]), c), c), d) == History([a] + [c], [[a] + [b], [c] + [d]])
  {
    OneGrant(History([a], [[a] + [b]]), c, c);
    var grants: seq<seq<nat>> := [[a] + [b]] + [[c]];
    assert grants[1 := [c] + [d]] == [[a] + [b], [c] + [d]];
  }

  lemma FirstCall(limits: map<Principal, Limits>, p: Principal) returns (events: seq<Event>, w: World)
    requires p in limits && limits[p] == Limits(4, 2)
    ensures Run(limits, events, w) && Prompt(events) && w.now == 0
    ensures w.calls.Keys == {0} && Count(w.active, p) == 1 && Found(w.windows, p) == Some(Window(0, 1))
    ensures Past(w, p) == History([0], [[0]])
  {
    events, w := PromptCall(limits, [], IDLE, 0, p, Clock(0, 0, 0));
    OneGrant(History([], []), 0, 0);
  }

  /** At two a minute: a call when the window opens, and one at its very end. */
  lemma FirstTwoCalls(limits: map<Principal, Limits>, p: Principal) returns (events: seq<Event>, w: World)
    requires p in limits && limits[p] == Limits(4, 2)
    ensures Run(limits, events, w) && Prompt(events) && w.now == MINUTE - 1
    ensures w.calls.Keys == {0, 1} && Count(w.active, p) == 2 && Found(w.windows, p) == Some(Window(0, 2))
    ensures Past(w, p) == History([0], [[0] + [MINUTE - 1]])
  {
    var v: World;
    events, v := FirstCall(limits, p);
    events, w := PromptCall(limits, events, v, 1, p, Clock(MINUTE - 1, MINUTE - 1, MINUTE - 1));
    SecondGrant(0, 0, MINUTE - 1);
  }

  /** Two more when the next window opens. */
  lemma NextTwoCalls(limits: map<Principal, Limits>, events: seq<Event>, v: World, p: Principal)
    returns (more: seq<Event>, w: World)
    requires p in limits && limits[p] == Limits(4, 2) && Run(limits, events, v) && Prompt(events) && v.now < MINUTE
    requires v.calls.Keys == {0, 1} && Count(v.active, p) == 2 && Found(v.windows, p) == Some(Window(0, 2))
    requires Past(v, p) == History([0], [[0] + [MINUTE - 1]])
    ensures Run(limits, more, w) && Prompt(more)
    ensures Past(w, p) == History([0] + [MINUTE], [[0] + [MINUTE - 1], [MINUTE] + [MINUTE]])
  {
    var u: World;
    more, u := PromptCall(limits, events, v, 2, p, Clock(MINUTE, MINUTE, MINUTE));
    more, w := PromptCall(limits, more, u, 3, p, Clock(MINUTE, MINUTE, MINUTE));
    TwoWindows(0, MINUTE - 1, MINUTE, MINUTE);
  }

  lemma ThreeGrants(h: History)
    requires h.grants == [[0] + [MINUTE - 1], [MINUTE] + [MINUTE]]
    ensures GrantsIn(h, 2, MINUTE - 1) == 3
  {
    var one, two, none := h.grants[0], h.grants[1], 0;
    assert one[..1] == [0] && one[..1][..0] == [] && two[..1] == [MINUTE] && two[..1][..0] == [];
    assert InInterval(one[..1], MINUTE - 1) == 0 && InInterval(one, MINUTE - 1) == 1;
    assert InInterval(two[..1], MINUTE - 1) == 1 && InInterval(two, MINUTE - 1) == 2;
    assert GrantsIn(h, none, MINUTE - 1) == 0 && GrantsIn(h, none + 1, MINUTE - 1) == 1;
  }

  /** This bound is tight too: at two a minute, a run without delays and a minute that sees three grants. */
  lemma PromptBoundIsReached() returns (limits: map<Principal, Limits>, events: seq<Event>, w: World, p: Principal)
    ensures Run(limits, events, w) && Prompt(events) && p in limits && limits[p].perMinute == 2
    ensures |Past(w, p).grants| == 2 && GrantsIn(Past(w, p), 2, MINUTE - 1) == 2 * limits[p].perMinute - 1
  {
    p := "principal";
    limits := map[p := Limits(4, 2)];
    var v: World;
    events, v := FirstTwoCalls(limits, p);
    events, w := NextTwoCalls(limits, events, v, p);
    ThreeGrants(Past(w, p));
  }
}
