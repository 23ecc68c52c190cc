/**
  The write-ahead journal of the platform resources a server owns, and what replaying it in reverse does.

  An entry is pending from before the change it announces until the change is known to be made.
 */
module ResourceJournal {
  import opened Wrappers

  datatype Resource =
    | Tun(name: string)
    | Route(destination: string, interfaceIndex: nat)
    | Nat
    | Sysctl(key: string)

  /** What the operating system has: a device, route or table is there or not, a sysctl has a value. */
  datatype Setting = Absent | Present | Value(text: string)

  type System = map<Resource, Setting>

  function Look(os: System, r: Resource): Setting {
    if r in os then os[r] else Absent
  }

  /** `previous` is what undoing leaves: the old value of a sysctl, and nothing of what was created. */
  datatype Entry = Entry(resource: Resource, previous: Setting, pending: bool)

  predicate NoPending(entries: seq<Entry>) {
    forall i :: 0 <= i < |entries| ==> !entries[i].pending
  }

  predicate Mentions(entries: seq<Entry>, r: Resource) {
    exists i :: 0 <= i < |entries| && entries[i].resource == r
  }

  // ----- Replay -----

  /** A pending entry is left alone: whether its change was made is not known. */
  function UndoOne(os: System, e: Entry): System {
    if e.pending then os else os[e.resource := e.previous]
  }

  function Replay(os: System, entries: seq<Entry>): System
    decreases |entries|
  {
    if entries == [] then os
    else
      var n := |entries| - 1;
      Replay(UndoOne(os, entries[n]), entries[..n])
  }

  /** What the first active entry of a resource says it was. */
  function FirstActive(entries: seq<Entry>, r: Resource): Option<Setting> {
    if entries == [] then None
    else
      var n := |entries| - 1;
      match FirstActive(entries[..n], r)
      case Some(previous) => Some(previous)
      case None => if entries[n].resource == r && !entries[n].pending then Some(entries[n].previous) else None
  }

  /**
    After a replay every resource is what its first active entry says, whatever the later entries say, and
    one without an active entry is what it was.
   */
  lemma {:induction false} ReplayExact(os: System, entries: seq<Entry>, r: Resource)
    ensures Look(Replay(os, entries), r) ==
            if FirstActive(entries, r).Some? then FirstActive(entries, r).value else Look(os, r)
    decreases |entries|
  {
    if entries != [] {
      var n := |entries| - 1;
      ReplayExact(UndoOne(os, entries[n]), entries[..n], r);
    }
  }

  /** Replaying again from wherever an earlier replay stopped ends where the whole replay would have. */
  lemma RerunReachesSame(os: System, partial: System, entries: seq<Entry>, r: Resource)
    requires FirstActive(entries, r).None? ==> Look(partial, r) == Look(os, r)
    ensures Look(Replay(partial, entries), r) == Look(Replay(os, entries), r)
  {
    ReplayExact(os, entries, r);
    ReplayExact(partial, entries, r);
  }

  lemma {:induction false} ActiveIsMentioned(entries: seq<Entry>, r: Resource)
    ensures FirstActive(entries, r).Some? ==> Mentions(entries, r)
    ensures NoPending(entries) && Mentions(entries, r) ==> FirstActive(entries, r).Some?
    decreases |entries|
  {
    if entries != [] {
      var n := |entries| - 1;
      var front := entries[..n];
      ActiveIsMentioned(front, r);
      if i :| 0 <= i < |front| && front[i].resource == r {
        assert entries[i].resource == r;
      }
      if i :| 0 <= i < |entries| && entries[i].resource == r {
        assert i < n ==> front[i].resource == r;
      }
    }
  }

  // ----- A journal kept alongside its changes -----

  datatype Change = Change(resource: Resource, target: Setting)

  predicate IsSysctl(r: Resource) {
    r.Sysctl?
  }

  /** The system and the journal once the changes were made in order, each recorded with what it replaced. */
  function Recorded(base: System, changes: seq<Change>): (System, seq<Entry>) {
    if changes == [] then (base, [])
    else
      var n := |changes| - 1;
      var (os, entries) := Recorded(base, changes[..n]);
      var r := changes[n].resource;
      (os[r := changes[n].target], entries + [Entry(r, if IsSysctl(r) then Look(os, r) else Absent, false)])
  }

  lemma {:induction false} RecordedFirst(base: System, changes: seq<Change>, r: Resource)
    ensures var (os, entries) := Recorded(base, changes);
      && (FirstActive(entries, r).None? ==> Look(os, r) == Look(base, r))
      && (FirstActive(entries, r).Some? ==>
          FirstActive(entries, r).value == if IsSysctl(r) then Look(base, r) else Absent)
    decreases |changes|
  {
    if changes != [] {
      var n := |changes| - 1;
      RecordedFirst(base, changes[..n], r);
      var (os, entries) := Recorded(base, changes[..n]);
      var added := Recorded(base, changes).1;
      assert added[..|added| - 1] == entries;
    }
  }

  /**
    Reverse replay restores the system from before the first entry, however often a key was written: every
    sysctl, and everything else that was not there before it was created.
   */
  lemma ReplayRestores(base: System, changes: seq<Change>, r: Resource)
    requires IsSysctl(r) || Look(base, r) == Absent
    ensures var (os, entries) := Recorded(base, changes); Look(Replay(os, entries), r) == Look(base, r)
  {
    var (os, entries) := Recorded(base, changes);
    RecordedFirst(base, changes, r);
    ReplayExact(os, entries, r);
  }

  // ----- What the journal on disk must list -----

  /** A sysctl that differs from the start, or anything else that does and is still there to be cleaned up. */
  predicate Leftover(os: System, base: System, r: Resource) {
    Look(os, r) != Look(base, r) && (IsSysctl(r) || Look(os, r) != Absent)
  }

  ghost predicate NoLeftovers(os: System, base: System) {
    forall r :: !Leftover(os, base, r)
  }

  function OnDisk(disk: Option<seq<Entry>>): seq<Entry> {
    if disk.Some? then disk.value else []
  }

  /** Everything left over is listed, pending or active, in the journal on disk. */
  ghost predicate Safe(disk: Option<seq<Entry>>, os: System, base: System) {
    forall r :: Leftover(os, base, r) ==> Mentions(OnDisk(disk), r)
  }

  /** What undoing should leave. */
  function Origin(base: System, r: Resource): Setting {
    if IsSysctl(r) then Look(base, r) else Absent
  }

  /** The first active entry of each resource knows what it was at the start. */
  ghost predicate Anchored(entries: seq<Entry>, base: System) {
    forall r :: FirstActive(entries, r).Some? ==> FirstActive(entries, r).value == Origin(base, r)
  }

  /**
    Replaying a journal whose first active entries are anchored leaves nothing over exactly when nothing
    that only pending entries mention was left over before.
   */
  lemma ReplayLeaves(disk: Option<seq<Entry>>, os: System, base: System)
    requires Safe(disk, os, base) && Anchored(OnDisk(disk), base)
    ensures NoLeftovers(Replay(os, OnDisk(disk)), base) <==>
              forall r :: FirstActive(OnDisk(disk), r).None? ==> !Leftover(os, base, r)
  {
    var d := OnDisk(disk);
    forall r ensures Leftover(Replay(os, d), base, r) <==> FirstActive(d, r).None? && Leftover(os, base, r) {
      ReplayExact(os, d, r);
    }
  }

  /** In particular, a safe journal with nothing pending undoes everything. */
  lemma ReplayCleans(disk: Option<seq<Entry>>, os: System, base: System)
    requires Safe(disk, os, base) && Anchored(OnDisk(disk), base) && NoPending(OnDisk(disk))
    ensures NoLeftovers(Replay(os, OnDisk(disk)), base)
  {
    forall r | Leftover(os, base, r) ensures FirstActive(OnDisk(disk), r).Some? {
      ActiveIsMentioned(OnDisk(disk), r);
    }
    ReplayLeaves(disk, os, base);
  }

  /** A journal that announces a change which was made, and cleaning up after it: the change stays. */
  lemma PendingIsLeftOver() returns (disk: Option<seq<Entry>>, os: System, base: System)
    ensures Safe(disk, os, base) && Anchored(OnDisk(disk), base)
    ensures !NoLeftovers(Replay(os, OnDisk(disk)), base)
  {
    var r := Sysctl("/proc/sys/net/ipv4/ip_forward");
    base, os := map[r := Value("0")], map[r := Value("1")];
    var e := Entry(r, Value("0"), true);
    disk := Some([e]);
    assert OnDisk(disk)[0] == e;
    assert [e][..0] == [];
    assert Leftover(os, base, r) && FirstActive([e], r).None?;
    ReplayExact(os, [e], r);
  }
}
