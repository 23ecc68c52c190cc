/**
  Preparing the resources of a server, with a failure possible at every step, and cleaning up after it.

  The disk and the operating system are fields. Every change to either goes through one of two methods,
  which record the state it leaves: a crash can leave the machine in any recorded state.
 */
module Startup {
  import opened Wrappers
  import opened ResourceJournal

  const KEYS: seq<string> := ["/proc/sys/net/ipv4/ip_forward", "/proc/sys/net/ipv6/conf/all/forwarding"]
  const FORWARDING: Setting := Value("1")

  datatype Config = Config(ipEnabled: bool, natManaged: bool, interfaceName: string, pools: seq<string>)

  datatype Snapshot = Snapshot(disk: Option<seq<Entry>>, os: System)

  /** A state from which a failed start may be cleaned up: safe, and what is on disk undoes to the start. */
  ghost predicate Recoverable(disk: Option<seq<Entry>>, os: System, base: System) {
    Safe(disk, os, base) && Anchored(OnDisk(disk), base)
  }

  /** Between steps: the disk agrees with memory, nothing is pending, and every change is listed. */
  ghost predicate Settled(entries: seq<Entry>, disk: Option<seq<Entry>>, os: System, base: System) {
    && OnDisk(disk) == entries && NoPending(entries) && Anchored(entries, base)
    && forall r :: Look(os, r) != Look(base, r) ==> Mentions(entries, r)
  }

  /** All that a start should have set up. */
  predicate Forwarding(os: System) {
    forall i :: 0 <= i < |KEYS| ==> Look(os, Sysctl(KEYS[i])) == FORWARDING
  }

  predicate Provisioned(config: Config, os: System, index: nat) {
    && Forwarding(os)
    && (config.natManaged ==> Look(os, Nat) == Present)
    && Look(os, Tun(config.interfaceName)) == Present
    && forall i :: 0 <= i < |config.pools| ==> Look(os, Route(config.pools[i], index)) == Present
  }

  lemma {:induction false} AppendedMentions(entries: seq<Entry>, e: Entry, r: Resource)
    ensures Mentions(entries + [e], r) <==> Mentions(entries, r) || e.resource == r
  {
    if Mentions(entries, r) {
      var i :| 0 <= i < |entries| && entries[i].resource == r;
      assert (entries + [e])[i].resource == r;
    }
    if e.resource == r {
      assert (entries + [e])[|entries|].resource == r;
    }
  }

  lemma AppendedFirst(entries: seq<Entry>, e: Entry, r: Resource)
    ensures FirstActive(entries + [e], r) ==
            if FirstActive(entries, r).Some? then FirstActive(entries, r)
            else if e.resource == r && !e.pending then Some(e.previous) else None
  {
    assert (entries + [e])[..|entries|] == entries;
  }

  /** Announcing a change, and then recording that it was made, keeps what is listed anchored. */
  lemma AppendedAnchored(entries: seq<Entry>, e: Entry, base: System)
    requires Anchored(entries, base)
    requires || e.pending
             || (Mentions(entries, e.resource) && NoPending(entries))
             || e.previous == Origin(base, e.resource)
    ensures Anchored(entries + [e], base)
  {
    forall r | FirstActive(entries + [e], r).Some? ensures FirstActive(entries + [e], r).value == Origin(base, r) {
      AppendedFirst(entries, e, r);
      ActiveIsMentioned(entries, r);
    }
  }

  class Machine {
    var disk: Option<seq<Entry>>
    var os: System
    var entries: seq<Entry>
    ghost var trace: seq<Snapshot>

    /** Every state a crash could have left is one that can be cleaned up from. */
    ghost predicate CrashesRecoverable(base: System)
      reads this
    {
      forall i :: 0 <= i < |trace| ==> Recoverable(trace[i].disk, trace[i].os, base)
    }

    ghost predicate At(base: System)
      reads this
    {
      Settled(entries, disk, os, base) && CrashesRecoverable(base)
    }

    /** Where a step that failed leaves the machine. */
    ghost predicate Failed(base: System)
      reads this
    {
      && Recoverable(disk, os, base) && CrashesRecoverable(base)
      && forall r :: Mentions(entries, r) ==> Mentions(OnDisk(disk), r)
    }

    // ----- The two ways the world changes -----

    method WriteDisk(next: Option<seq<Entry>>)
      modifies this`disk, this`trace
      ensures disk == next && trace == old(trace) + [Snapshot(next, os)]
    {
      disk := next;
      trace := trace + [Snapshot(disk, os)];
    }

    method SetResource(r: Resource, setting: Setting)
      modifies this`os, this`trace
      ensures os == old(os)[r := setting] && trace == old(trace) + [Snapshot(disk, os)]
    {
      os := os[r := setting];
      trace := trace + [Snapshot(disk, os)];
    }

    // ----- The journal -----

    /** The rename may fail, or what follows it may: then the file is new although the call failed. */
    method Persist(ghost base: System) returns (ok: bool)
      requires CrashesRecoverable(base) && Recoverable(Some(entries), os, base)
      modifies this`disk, this`trace
      ensures CrashesRecoverable(base)
      ensures disk == old(disk) || disk == Some(entries)
      ensures ok ==> disk == Some(entries)
    {
      var renamed: bool := *;
      if !renamed {
        return false;
      }
      WriteDisk(Some(entries));
      ok := *;
    }

    method PrepareEntry(e: Entry, ghost base: System) returns (ok: bool)
      requires CrashesRecoverable(base) && Recoverable(Some(entries + [e]), os, base)
      modifies this`disk, this`trace, this`entries
      ensures CrashesRecoverable(base)
      ensures entries == if ok then old(entries) + [e] else old(entries)
      ensures disk == old(disk) || disk == Some(old(entries) + [e])
      ensures ok ==> disk == Some(entries)
    {
      entries := entries + [e];
      ok := Persist(base);
      if !ok {
        entries := entries[..|entries| - 1];
      }
    }

    /** Refuses when the last entry is not the pending one. */
    method PromoteLast(pending: Entry, active: Entry, ghost base: System) returns (ok: bool)
      requires CrashesRecoverable(base)
      requires Last(entries, pending) ==> Recoverable(Some(Promoted(entries, active)), os, base)
      modifies this`disk, this`trace, this`entries
      ensures CrashesRecoverable(base)
      ensures ok ==> Last(old(entries), pending)
      ensures entries == if ok then Promoted(old(entries), active) else old(entries)
      ensures disk == old(disk) || (Last(old(entries), pending) && disk == Some(Promoted(old(entries), active)))
      ensures ok ==> disk == Some(entries)
    {
      if entries == [] || entries[|entries| - 1] != pending {
        return false;
      }
      ghost var before := entries;
      entries := Promoted(entries, active);
      ok := Persist(base);
      if !ok {
        entries := Promoted(entries, pending);
        assert entries == before;
      }
    }

    // ----- One journaled change -----

    /** A change that reports an error may have been made; the table of NAT is deleted before it is made anew. */
    method Mutate(r: Resource, target: Setting, ghost base: System) returns (ok: bool)
      requires CrashesRecoverable(base) && Recoverable(disk, os, base) && Mentions(OnDisk(disk), r)
      modifies this`os, this`trace
      ensures CrashesRecoverable(base) && Recoverable(disk, os, base)
      ensures forall q :: q != r ==> Look(os, q) == Look(old(os), q)
      ensures ok ==> Look(os, r) == target
    {
      var deleted: bool := *;
      if r.Nat? && deleted {
        RecoverableAfterSet(disk, os, base, r, Absent);
        SetResource(r, Absent);
      }
      var applied: bool := *;
      if !applied {
        return false;
      }
      RecoverableAfterSet(disk, os, base, r, target);
      SetResource(r, target);
      ok := *;
    }

    /** Announce, change, confirm: the pattern of sysctls, NAT, TUN device and routes alike. */
    method Perform(r: Resource, previous: Setting, target: Setting, ghost base: System) returns (ok: bool)
      requires At(base) && previous == if IsSysctl(r) then Look(os, r) else Absent
      modifies this
      ensures CrashesRecoverable(base)
      ensures ok ==> At(base) && entries == old(entries) + [Entry(r, previous, false)]
      ensures ok ==> Look(os, r) == target
      ensures forall q :: q != r ==> Look(os, q) == Look(old(os), q)
      ensures !ok ==> Failed(base)
    {
      var pending, active := Entry(r, previous, true), Entry(r, previous, false);
      ghost var before, disk0, os0 := entries, disk, os;
      PendingStep(before, disk0, os0, pending, base);
      ok := PrepareEntry(pending, base);
      if !ok {
        return false;
      }
      ok := Mutate(r, target, base);
      PendingHolds(before, os0, os, pending, base);
      if !ok {
        return false;
      }
      ActiveHolds(before, os0, os, pending, active, base);
      assert Promoted(entries, active) == before + [active];
      ok := PromoteLast(pending, active, base);
    }

    // ----- The stages of a start -----

    method EnableForwarding(ghost base: System) returns (ok: bool)
      requires At(base)
      modifies this
      ensures CrashesRecoverable(base)
      ensures ok ==> At(base) && Forwarding(os)
      ensures !ok ==> Failed(base)
    {
      for i := 0 to |KEYS|
        invariant At(base)
        invariant forall k :: 0 <= k < i ==> Look(os, Sysctl(KEYS[k])) == FORWARDING
      {
        var r := Sysctl(KEYS[i]);
        var readable: bool := *;
        var previous := Look(os, r);
        if !readable || previous !in {Value("0"), Value("1")} {
          return false;
        }
        if previous != FORWARDING {
          ok := Perform(r, previous, FORWARDING, base);
          if !ok {
            return false;
          }
        }
      }
      return true;
    }

    /** Best effort, on what memory says; the journal on disk is left alone. */
    method RollbackSysctls(ghost base: System)
      requires Failed(base)
      modifies this`os, this`trace
      ensures Failed(base)
      ensures forall r :: Look(os, r) == Look(old(os), r) || WasSysctl(entries, r, Look(os, r))
    {
      var i := |entries|;
      while i > 0
        invariant 0 <= i <= |entries| && Failed(base)
        invariant forall r :: Look(os, r) == Look(old(os), r) || WasSysctl(entries, r, Look(os, r))
      {
        i := i - 1;
        var e := entries[i];
        var restored: bool := *;
        if !e.pending && IsSysctl(e.resource) && restored {
          assert Mentions(entries, e.resource);
          RecoverableAfterSet(disk, os, base, e.resource, e.previous);
          SetResource(e.resource, e.previous);
        }
      }
    }

    method ApplyNat(ghost base: System) returns (ok: bool)
      requires At(base)
      modifies this
      ensures CrashesRecoverable(base)
      ensures ok ==> At(base) && Look(os, Nat) == Present
      ensures forall q :: q != Nat ==> Look(os, q) == Look(old(os), q)
      ensures !ok ==> Failed(base)
    {
      var resolved: bool := *;
      if !resolved || exists i :: 0 <= i < |entries| && entries[i].resource == Nat && !entries[i].pending {
        return false;
      }
      ok := Perform(Nat, Absent, Present, base);
    }

    /** A device that was built and then let go of vanishes. */
    method DropTun(name: string, ghost base: System)
      requires CrashesRecoverable(base) && Recoverable(disk, os, base)
      modifies this`os, this`trace
      ensures CrashesRecoverable(base) && Recoverable(disk, os, base)
      ensures forall q :: q != Tun(name) ==> Look(os, q) == Look(old(os), q)
    {
      var built: bool := *;
      if built {
        SetResource(Tun(name), Absent);
      }
    }

    method CreateTun(name: string, ghost base: System) returns (ok: bool)
      requires At(base)
      modifies this
      ensures CrashesRecoverable(base)
      ensures ok ==> At(base) && Look(os, Tun(name)) == Present
      ensures forall q :: q != Tun(name) ==> Look(os, q) == Look(old(os), q)
      ensures !ok ==> Failed(base)
    {
      var valid: bool := *;
      if !valid {
        return false;
      }
      ok := Perform(Tun(name), Absent, Present, base);
      var registered: bool := *;
      if !ok || !registered {
        DropTun(name, base);
        return false;
      }
    }

    method ProvisionRoutes(config: Config, ghost base: System) returns (ok: bool, index: nat)
      requires At(base) && Forwarding(os) && (config.natManaged ==> Look(os, Nat) == Present)
      requires Look(os, Tun(config.interfaceName)) == Present
      modifies this
      ensures CrashesRecoverable(base)
      ensures ok ==> At(base) && Provisioned(config, os, index)
      ensures !ok ==> Failed(base)
    {
      index := *;
      var connected: bool := *;
      if !connected {
        return false, index;
      }
      for i := 0 to |config.pools|
        invariant At(base) && Forwarding(os) && (config.natManaged ==> Look(os, Nat) == Present)
        invariant Look(os, Tun(config.interfaceName)) == Present
        invariant forall k :: 0 <= k < i ==> Look(os, Route(config.pools[k], index)) == Present
      {
        ok := Perform(Route(config.pools[i], index), Absent, Present, base);
        if !ok {
          return false, index;
        }
        ok := Persist(base);
        if !ok {
          return false, index;
        }
      }
      return true, index;
    }

    // ----- Cleanup -----

    /** `cleanup`: a failure midway, even one that took effect, leaves the file as it is. */
    method CleanupJournal(ghost base: System) returns (ok: bool)
      requires CrashesRecoverable(base) && Recoverable(disk, os, base)
      modifies this`disk, this`os, this`trace
      ensures ok ==> disk == None && os == Replay(old(os), OnDisk(old(disk)))
      ensures !ok ==> disk == old(disk)
      ensures forall r :: FirstActive(OnDisk(old(disk)), r).None? ==> Look(os, r) == Look(old(os), r)
      ensures !ok || (Anchored(OnDisk(old(disk)), base) && NoPending(OnDisk(old(disk)))) ==>
                CrashesRecoverable(base) && Recoverable(disk, os, base)
    {
      var loaded: bool := *;
      if !loaded {
        return false;
      }
      var d := OnDisk(disk);
      var i := |d|;
      assert d[..i] == d;
      while i > 0
        invariant 0 <= i <= |d| && disk == old(disk)
        invariant CrashesRecoverable(base) && Recoverable(disk, os, base)
        invariant Replay(os, d[..i]) == Replay(old(os), d)
        invariant forall r :: FirstActive(d, r).None? ==> Look(os, r) == Look(old(os), r)
      {
        var e := d[i - 1];
        assert d[..i][..i - 1] == d[..i - 1];
        if !e.pending {
          var applied: bool := *;
          if !applied {
            return false;
          }
          ActiveAt(d, i - 1);
          RecoverableAfterSet(disk, os, base, e.resource, e.previous);
          SetResource(e.resource, e.previous);
          var confirmed: bool := *;
          if !confirmed {
            return false;
          }
        }
        i := i - 1;
      }
      var removed: bool := *;
      if !removed {
        return false;
      }
      if Anchored(d, base) && NoPending(d) {
        ReplayCleans(old(disk), old(os), base);
      }
      WriteDisk(None);
      return true;
    }

    /** Keeps the journal when anything in it is pending, for an operator to decide. */
    method CleanupFailedStart(ghost base: System)
      requires Failed(base)
      modifies this`disk, this`os, this`trace
      ensures CrashesRecoverable(base) && Recoverable(disk, os, base)
      ensures !NoPending(OnDisk(old(disk))) ==> disk == old(disk) && os == old(os)
      ensures disk == old(disk) || (disk == None && os == Replay(old(os), OnDisk(old(disk))))
      ensures forall r :: FirstActive(OnDisk(old(disk)), r).None? ==> Look(os, r) == Look(old(os), r)
    {
      var loaded: bool := *;
      if !loaded || exists i :: 0 <= i < |OnDisk(disk)| && OnDisk(disk)[i].pending {
        return;
      }
      var ok := CleanupJournal(base);
    }

    // ----- A whole start -----

    method Prepare(config: Config) returns (ok: bool, index: nat)
      requires trace == []
      modifies this
      ensures CrashesRecoverable(old(os)) && Safe(disk, os, old(os))
      ensures OnDisk(old(disk)) == [] ==> Recoverable(disk, os, old(os))
      ensures !ok ==> OnDisk(disk) != [] || NoLeftovers(os, old(os))
      ensures ok && config.ipEnabled ==> Settled(entries, disk, os, old(os)) && Provisioned(config, os, index)
      ensures !config.ipEnabled || OnDisk(old(disk)) != [] ==> disk == old(disk) && os == old(os)
      ensures config.ipEnabled && OnDisk(old(disk)) != [] ==> !ok
    {
      index := 0;
      ghost var base := os;
      if config.ipEnabled {
        var loaded: bool := *;
        if !loaded || OnDisk(disk) != [] {
          return false, index;
        }
        entries := OnDisk(disk);
      }
      var bound: bool := *;
      if !bound {
        return false, index;
      }
      if !config.ipEnabled {
        return true, index;
      }
      assert At(base);
      ok := EnableForwarding(base);
      if !ok {
        RollbackSysctls(base);
        CleanupFailedStart(base);
        return false, index;
      }
      ok, index := Provision(config, base);
    }

    /** What a start sets up once forwarding is on; what fails is cleaned up after. */
    method Provision(config: Config, ghost base: System) returns (ok: bool, index: nat)
      requires At(base) && Forwarding(os)
      modifies this
      ensures CrashesRecoverable(base) && Recoverable(disk, os, base)
      ensures !ok ==> OnDisk(disk) != [] || NoLeftovers(os, base)
      ensures ok ==> Settled(entries, disk, os, base) && Provisioned(config, os, index)
    {
      index := 0;
      ok := Persist(base);
      if !ok {
        CleanupFailedStart(base);
        return false, index;
      }
      if config.natManaged {
        ok := ApplyNat(base);
        if ok {
          ok := Persist(base);
        }
        if !ok {
          CleanupFailedStart(base);
          return false, index;
        }
      }
      ok := CreateTun(config.interfaceName, base);
      if !ok {
        CleanupFailedStart(base);
        return false, index;
      }
      ok := Persist(base);
      if ok {
        ok, index := ProvisionRoutes(config, base);
      }
      if !ok {
        CleanupFailedStart(base);
        DropTun(config.interfaceName, base);
        return false, index;
      }
    }
  }

  // ----- The steps, on values -----

  /** An active entry says the sysctl had this value. */
  predicate WasSysctl(entries: seq<Entry>, r: Resource, setting: Setting) {
    exists i :: 0 <= i < |entries| && !entries[i].pending && IsSysctl(r)
                && entries[i].resource == r && entries[i].previous == setting
  }

  predicate Last(entries: seq<Entry>, e: Entry) {
    entries != [] && entries[|entries| - 1] == e
  }

  function Promoted(entries: seq<Entry>, e: Entry): seq<Entry>
    requires entries != []
  {
    entries[..|entries| - 1] + [e]
  }

  lemma RecoverableAfterSet(disk: Option<seq<Entry>>, os: System, base: System, r: Resource, setting: Setting)
    requires Recoverable(disk, os, base) && (Mentions(OnDisk(disk), r) || (setting == Absent && !IsSysctl(r)))
    ensures Recoverable(disk, os[r := setting], base)
  {
  }

  lemma {:induction false} ActiveAt(entries: seq<Entry>, i: nat)
    requires i < |entries| && !entries[i].pending
    ensures FirstActive(entries, entries[i].resource).Some? && Mentions(entries, entries[i].resource)
    decreases |entries|
  {
    var n := |entries| - 1;
    if i < n {
      ActiveAt(entries[..n], i);
    }
  }

  /** With the change announced, whatever the disk now holds is recoverable. */
  lemma PendingStep(before: seq<Entry>, disk: Option<seq<Entry>>, os: System, pending: Entry, base: System)
    requires Settled(before, disk, os, base) && pending.pending
    ensures Recoverable(Some(before + [pending]), os, base)
    ensures forall r :: Mentions(before, r) ==> Mentions(before + [pending], r)
    ensures Mentions(before + [pending], pending.resource)
  {
    forall r ensures Mentions(before + [pending], r) <==> Mentions(before, r) || pending.resource == r {
      AppendedMentions(before, pending, r);
    }
    AppendedAnchored(before, pending, base);
  }

  /** However the change turned out, the announcement covers it. */
  lemma PendingHolds(before: seq<Entry>, os0: System, os: System, pending: Entry, base: System)
    requires NoPending(before) && Anchored(before, base) && pending.pending
    requires forall r :: Look(os0, r) != Look(base, r) ==> Mentions(before, r)
    requires forall q :: q != pending.resource ==> Look(os, q) == Look(os0, q)
    ensures Recoverable(Some(before + [pending]), os, base)
  {
    forall r ensures Mentions(before + [pending], r) <==> Mentions(before, r) || pending.resource == r {
      AppendedMentions(before, pending, r);
    }
    AppendedAnchored(before, pending, base);
  }

  /** Confirmed, the change is settled. */
  lemma ActiveHolds(before: seq<Entry>, os0: System, os: System, pending: Entry, active: Entry, base: System)
    requires NoPending(before) && Anchored(before, base) && active == pending.(pending := false)
    requires forall r :: Look(os0, r) != Look(base, r) ==> Mentions(before, r)
    requires forall q :: q != active.resource ==> Look(os, q) == Look(os0, q)
    requires active.previous == if IsSysctl(active.resource) then Look(os0, active.resource) else Absent
    ensures Settled(before + [active], Some(before + [active]), os, base)
    ensures Recoverable(Some(before + [active]), os, base)
    ensures forall r :: Mentions(before + [pending], r) ==> Mentions(before + [active], r)
  {
    forall r ensures Mentions(before + [active], r) <==> Mentions(before, r) || active.resource == r {
      AppendedMentions(before, active, r);
    }
    forall r ensures Mentions(before + [pending], r) <==> Mentions(before, r) || active.resource == r {
      AppendedMentions(before, pending, r);
    }
    AppendedAnchored(before, active, base);
  }

  /** After a start that succeeded, cleaning up leaves nothing over. */
  lemma SettledUndoes(entries: seq<Entry>, disk: Option<seq<Entry>>, os: System, base: System)
    requires Settled(entries, disk, os, base)
    ensures NoLeftovers(Replay(os, OnDisk(disk)), base)
    ensures forall i :: 0 <= i < |KEYS| ==>
              Look(Replay(os, OnDisk(disk)), Sysctl(KEYS[i])) == Look(base, Sysctl(KEYS[i]))
  {
    ReplayCleans(disk, os, base);
    forall i | 0 <= i < |KEYS|
      ensures Look(Replay(os, OnDisk(disk)), Sysctl(KEYS[i])) == Look(base, Sysctl(KEYS[i]))
    {
      ReplayExact(os, OnDisk(disk), Sysctl(KEYS[i]));
      ActiveIsMentioned(OnDisk(disk), Sysctl(KEYS[i]));
    }
  }

  /** A pending entry announces a change of this resource. */
  predicate Announced(entries: seq<Entry>, r: Resource) {
    exists i :: 0 <= i < |entries| && entries[i].pending && entries[i].resource == r
  }

  lemma OnlyAnnounced(entries: seq<Entry>, r: Resource)
    requires Mentions(entries, r) && FirstActive(entries, r).None?
    ensures Announced(entries, r)
  {
    var i :| 0 <= i < |entries| && entries[i].resource == r;
    if !entries[i].pending {
      ActiveAt(entries, i);
    }
  }

  /**
    Cleaning up after a crash, in whatever recorded state it left the machine, leaves over exactly what was
    left over and no active entry undoes; each such change is one that a pending entry announces.
   */
  lemma CrashesAreCleanedUp(m: Machine, base: System, k: nat, r: Resource)
    requires m.CrashesRecoverable(base) && k < |m.trace|
    ensures var (d, os) := (OnDisk(m.trace[k].disk), m.trace[k].os);
      && (Leftover(Replay(os, d), base, r) <==> FirstActive(d, r).None? && Leftover(os, base, r))
      && (Leftover(Replay(os, d), base, r) ==> Announced(d, r))
  {
    var d, os := OnDisk(m.trace[k].disk), m.trace[k].os;
    assert Recoverable(m.trace[k].disk, os, base);
    ReplayExact(os, d, r);
    if FirstActive(d, r).None? && Leftover(os, base, r) {
      OnlyAnnounced(d, r);
    }
  }
}
