/**
  Replacing the binary of a running service by a staged one, and undoing that.

  The binary, its backup and the staged binary are distinct paths, and a rename or removal that reports an
  error did nothing. Every change is recorded: a crash can leave the paths in any recorded state.
 */
module Install {
  import opened Wrappers
  import opened Bytes

  /** Nanoseconds of a monotonic clock. */
  const MAX_HEALTH_WAIT: nat := 5_000_000_000
  const POLL_INTERVAL: nat := 100_000_000

  datatype Path = Binary | Backup | Staged

  datatype PathState = Missing | File(bytes: seq<Byte>) | Directory | Symlink | Other

  type Files = map<Path, PathState>

  function At(files: Files, p: Path): PathState {
    if p in files then files[p] else Missing
  }

  datatype UpdateError = Io | StagedCheck | Service | Health | Rollback(cause: string)

  datatype Outcome = Outcome(backup: bool)

  datatype Report = Up | Down | Unknown

  datatype Call = Stop(ok: bool) | Start(ok: bool) | Healthy(report: Report)

  /** An old binary is whole, at its path or at the backup. */
  predicate OldIntact(files: Files, original: PathState) {
    original.File? ==> At(files, Binary) == original || At(files, Backup) == original
  }

  /** `current_binary_state` and `validate_backup_path` let through a file, or nothing at all. */
  predicate Replaceable(state: PathState) {
    state.Missing? || state.File?
  }

  class Updater {
    var files: Files
    var calls: seq<Call>
    var now: nat
    /** How often the health of the service was asked for. */
    ghost var polls: nat
    ghost var trace: seq<Files>

    ghost predicate OldNeverLost(original: PathState)
      reads this
    {
      forall i :: 0 <= i < |trace| ==> OldIntact(trace[i], original)
    }

    // ----- The file system -----

    /** `inspect_path` may fail. */
    method Inspect(p: Path) returns (state: Result<PathState, UpdateError>)
      ensures state.Ok? ==> state.value == At(files, p)
      ensures state.Err? ==> !state.error.Rollback?
    {
      var readable: bool := *;
      state := if readable then Ok(At(files, p)) else Err(Io);
    }

    method Remove(p: Path) returns (ok: bool)
      modifies this`files, this`trace
      ensures files == if ok then old(files)[p := Missing] else old(files)
      ensures trace == if ok then old(trace) + [files] else old(trace)
    {
      var removed: bool := *;
      if !removed || !At(files, p).File? {
        return false;
      }
      files := files[p := Missing];
      trace := trace + [files];
      return true;
    }

    /** Atomic: the file is at one path or at the other. */
    method Rename(source: Path, target: Path) returns (ok: bool)
      requires source != target
      modifies this`files, this`trace
      ensures ok ==> At(old(files), source).File?
      ensures ok ==> files == old(files)[target := At(old(files), source)][source := Missing]
      ensures !ok ==> files == old(files)
      ensures trace == if ok then old(trace) + [files] else old(trace)
    {
      var renamed: bool := *;
      if !renamed || !At(files, source).File? {
        return false;
      }
      files := files[target := At(files, source)][source := Missing];
      trace := trace + [files];
      return true;
    }

    // ----- The service -----

    /** What a service manager makes of a request: success, or any error. */
    method Answer() returns (r: Result<(), UpdateError>)
    {
      if * {
        return Ok(());
      } else if * {
        return Err(Io);
      } else if * {
        return Err(StagedCheck);
      } else if * {
        return Err(Service);
      } else if * {
        return Err(Health);
      }
      var cause: string := *;
      return Err(Rollback(cause));
    }

    method StopService() returns (r: Result<(), UpdateError>)
      modifies this`calls
      ensures calls == old(calls) + [Stop(r.Ok?)]
    {
      r := Answer();
      calls := calls + [Stop(r.Ok?)];
    }

    method StartService() returns (r: Result<(), UpdateError>)
      modifies this`calls
      ensures calls == old(calls) + [Start(r.Ok?)]
    {
      r := Answer();
      calls := calls + [Start(r.Ok?)];
    }

    /** Takes any time. */
    method CheckHealth() returns (r: Result<bool, UpdateError>)
      modifies this`calls, this`now, this`polls
      ensures now >= old(now) && polls == old(polls) + 1
      ensures calls == old(calls) + [Healthy(if r.Err? then Unknown else if r.value then Up else Down)]
    {
      var answer := Answer();
      var up: bool := *;
      r := if answer.Ok? then Ok(up) else Err(answer.error);
      var took :| took >= 0;
      now := now + took;
      polls := polls + 1;
      calls := calls + [Healthy(if r.Err? then Unknown else if r.value then Up else Down)];
    }

    method RestartAfterFailure(hasService: bool)
      modifies this`calls
      ensures hasService ==> calls != [] && calls[|calls| - 1].Start? && old(calls) <= calls
      ensures !hasService ==> calls == old(calls)
    {
      if hasService {
        var r := StartService();
      }
    }

    // ----- Restoring -----

    /** Puts the backup back, over the new binary if that is there; what was never there is removed. */
    method RestoreBinary(hadBinary: bool, ghost original: PathState) returns (r: Result<(), UpdateError>)
      requires OldNeverLost(original) && Replaceable(original) && hadBinary == original.File?
      requires hadBinary ==> At(files, Backup) == original
      requires Replaceable(At(files, Binary))
      modifies this`files, this`trace
      ensures OldNeverLost(original) && OldIntact(files, original)
      ensures r.Ok? ==> At(files, Binary) == original
    {
      var state := Inspect(Binary);
      if state.Err? {
        return Err(state.error);
      }
      match state.value {
        case Missing =>
        case File(_) =>
          var removed := Remove(Binary);
          if !removed {
            return Err(Io);
          }
        case _ =>
          return Err(Io);
      }
      if hadBinary {
        var backup := Inspect(Backup);
        if backup.Err? || !backup.value.File? {
          return Err(Io);
        }
        var moved := Rename(Backup, Binary);
        if !moved {
          return Err(Io);
        }
      }
      var synced: bool := *;
      r := if synced then Ok(()) else Err(Io);
    }

    /** The service would not start, or not become healthy. */
    method RollBack(hadBinary: bool, error: UpdateError, ghost original: PathState)
      returns (r: Result<Outcome, UpdateError>)
      requires OldNeverLost(original) && Replaceable(original) && hadBinary == original.File?
      requires hadBinary ==> At(files, Backup) == original
      requires Replaceable(At(files, Binary))
      modifies this`files, this`trace, this`calls
      ensures r.Err? && OldNeverLost(original) && OldIntact(files, original)
      ensures old(calls) <= calls
      ensures !r.error.Rollback? ==>
                r.error == error && At(files, Binary) == original && calls != [] && calls[|calls| - 1] == Start(true)
    {
      var stopped := StopService();
      if stopped.Err? {
        return Err(Rollback("stopping failed service before restore failed"));
      }
      var restored := RestoreBinary(hadBinary, original);
      if restored.Err? {
        return Err(Rollback("restoring old binary failed"));
      }
      var started := StartService();
      if started.Err? {
        return Err(Rollback("restored binary but restart failed"));
      }
      return Err(error);
    }

    // ----- Installing -----

    /** Moves the old binary out of the way. A failure leaves it where it was. */
    method SetAside(hadBinary: bool, hasService: bool, ghost original: PathState) returns (r: Result<(), UpdateError>)
      requires OldNeverLost(original) && At(files, Binary) == original
      requires Replaceable(original) && hadBinary == original.File?
      modifies this`files, this`trace, this`calls
      ensures OldNeverLost(original) && OldIntact(files, original)
      ensures old(calls) <= calls
      ensures At(files, Staged) == At(old(files), Staged)
      ensures r.Err? ==> !r.error.Rollback? && At(files, Binary) == original
      ensures r.Err? && hasService ==> calls != [] && calls[|calls| - 1].Start?
      ensures r.Ok? || !hasService ==> calls == old(calls)
      ensures r.Ok? ==> At(files, Binary) == Missing
      ensures r.Ok? ==> At(files, Backup) == if hadBinary then original else At(old(files), Backup)
    {
      var backup := Inspect(Backup);
      if backup.Err? || !Replaceable(backup.value) {
        RestartAfterFailure(hasService);
        return Err(Io);
      }
      if hadBinary {
        var again := Inspect(Backup);
        if again.Err? {
          RestartAfterFailure(hasService);
          return Err(again.error);
        }
        match again.value {
          case Missing =>
          case File(_) =>
            var removed := Remove(Backup);
            if !removed {
              RestartAfterFailure(hasService);
              return Err(Io);
            }
          case _ =>
            RestartAfterFailure(hasService);
            return Err(Io);
        }
        var moved := Rename(Binary, Backup);
        if !moved {
          RestartAfterFailure(hasService);
          return Err(Io);
        }
      }
      return Ok(());
    }

    /** Moves the staged binary in; when that fails, or cannot be made durable, puts the old one back. */
    method MoveIn(hadBinary: bool, hasService: bool, ghost original: PathState) returns (r: Result<(), UpdateError>)
      requires OldNeverLost(original) && Replaceable(original) && hadBinary == original.File?
      requires At(files, Binary) == Missing && (hadBinary ==> At(files, Backup) == original)
      modifies this`files, this`trace, this`calls
      ensures OldNeverLost(original) && OldIntact(files, original)
      ensures old(calls) <= calls
      ensures r.Ok? || !hasService ==> calls == old(calls)
      ensures r.Ok? ==> At(files, Binary).File?
      ensures r.Ok? ==> At(files, Binary) == At(old(files), Staged) && At(files, Backup) == At(old(files), Backup)
      ensures r.Err? && !r.error.Rollback? ==> At(files, Binary) == original
      ensures r.Err? && hasService ==> calls != [] && calls[|calls| - 1].Start?
    {
      var moved := Rename(Staged, Binary);
      var synced: bool := *;
      if moved && synced {
        return Ok(());
      }
      var restored := RestoreBinary(hadBinary, original);
      RestartAfterFailure(hasService);
      r := if restored.Ok? then Err(Io) else Err(Rollback("restore failed"));
    }

    /** Polls until the service reports healthy, an error, or the deadline has passed. */
    method AwaitHealth() returns (r: Result<(), UpdateError>)
      modifies this`calls, this`now, this`polls
      ensures old(calls) < calls && polls <= old(polls) + 51
      ensures r.Ok? ==> calls[|calls| - 1] == Healthy(Up)
    {
      var deadline := now + MAX_HEALTH_WAIT;
      ghost var begun := now;
      while true
        invariant now >= begun + (polls - old(polls)) * POLL_INTERVAL
        invariant 0 <= polls - old(polls) <= 50
        invariant old(calls) <= calls
        decreases 50 - (polls - old(polls))
      {
        var report := CheckHealth();
        if report.Err? {
          return Err(report.error);
        }
        if report.value {
          return Ok(());
        }
        if now >= deadline {
          return Err(Health);
        }
        var slept :| slept >= 0;
        now := now + POLL_INTERVAL + slept;
      }
    }

    /** Starts the new binary and waits for it; a service that will not do brings the old one back. */
    method Activate(hadBinary: bool, ghost original: PathState) returns (r: Result<Outcome, UpdateError>)
      requires OldNeverLost(original) && Replaceable(original) && hadBinary == original.File?
      requires hadBinary ==> At(files, Backup) == original
      requires Replaceable(At(files, Binary)) && calls == [Stop(true)]
      modifies this
      ensures OldNeverLost(original) && OldIntact(files, original)
      ensures |calls| > 1 && calls[0] == Stop(true) && polls <= old(polls) + 51
      ensures r.Ok? ==> files == old(files) && r.value == Outcome(hadBinary)
      ensures r.Ok? ==> calls[1] == Start(true) && calls[|calls| - 1] == Healthy(Up)
      ensures r.Err? && !r.error.Rollback? ==> At(files, Binary) == original && calls[|calls| - 1] == Start(true)
    {
      var started := StartService();
      ghost var begun := calls;
      if started.Err? {
        r := RollBack(hadBinary, started.error, original);
        assert begun[0] == calls[0];
        return;
      }
      var healthy := AwaitHealth();
      assert begun[0] == calls[0] && begun[1] == calls[1];
      if healthy.Err? {
        ghost var waited := calls;
        r := RollBack(hadBinary, healthy.error, original);
        assert waited[0] == calls[0];
        return;
      }
      return Ok(Outcome(hadBinary));
    }

    /** Everything up to starting the new binary. */
    method Exchange(unpacked: PathState, hasService: bool, ghost original: PathState)
      returns (r: Result<bool, UpdateError>)
      requires trace == [] && calls == [] && unpacked.File? && At(files, Binary) == original
      modifies this`files, this`trace, this`calls
      ensures OldNeverLost(original) && OldIntact(files, original)
      ensures r.Ok? ==> Replaceable(original) && r.value == original.File? && At(files, Binary) == unpacked
      ensures r.Ok? ==> At(files, Backup) == if r.value then original else At(old(files), Backup)
      ensures r.Ok? ==> calls == if hasService then [Stop(true)] else []
      ensures r.Err? && !r.error.Rollback? ==> At(files, Binary) == original
      ensures calls != [] ==> calls[0].Stop?
      ensures r.Err? && calls != [] && calls[0] == Stop(true) ==> calls[|calls| - 1].Start?
      ensures !hasService ==> calls == []
    {
      var checked: bool := *;
      if !checked {
        return Err(StagedCheck);
      }
      files := files[Staged := unpacked];
      trace := trace + [files];
      var binary := Inspect(Binary);
      if binary.Err? || !Replaceable(binary.value) {
        return Err(Io);
      }
      var backup := Inspect(Backup);
      if backup.Err? || !Replaceable(backup.value) {
        return Err(Io);
      }
      if hasService {
        var stopped := StopService();
        if stopped.Err? {
          return Err(stopped.error);
        }
      }
      binary := Inspect(Binary);
      if binary.Err? || !Replaceable(binary.value) {
        RestartAfterFailure(hasService);
        return Err(Io);
      }
      var hadBinary := binary.value.File?;
      var aside := SetAside(hadBinary, hasService, original);
      if aside.Err? {
        return Err(aside.error);
      }
      var moved := MoveIn(hadBinary, hasService, original);
      r := if moved.Ok? then Ok(hadBinary) else Err(moved.error);
    }

    /**
      `install_staged`. Whatever happens, the old binary is never lost. Success means the new binary is
      live, the old one backed up and the service healthy. An error other than a failed rollback means the
      binary is what it was, and the service was started again if it had been stopped.
     */
    method InstallStaged(unpacked: PathState, hasService: bool) returns (r: Result<Outcome, UpdateError>)
      requires trace == [] && calls == [] && unpacked.File?
      modifies this
      ensures OldNeverLost(At(old(files), Binary)) && OldIntact(files, At(old(files), Binary))
      ensures r.Ok? ==> At(files, Binary) == unpacked && r.value.backup == At(old(files), Binary).File?
      ensures r.Ok? ==> At(files, Backup) == At(old(files), if r.value.backup then Binary else Backup)
      ensures r.Ok? && hasService ==> |calls| > 1 && calls[0] == Stop(true) && calls[1] == Start(true)
      ensures r.Ok? && hasService ==> calls[|calls| - 1] == Healthy(Up)
      ensures r.Err? && !r.error.Rollback? ==> At(files, Binary) == At(old(files), Binary)
      ensures r.Err? && !r.error.Rollback? && calls != [] && calls[0] == Stop(true) ==> calls[|calls| - 1].Start?
      ensures calls != [] ==> calls[0].Stop?
      ensures polls <= old(polls) + 51 && (!hasService ==> calls == [])
    {
      ghost var original := At(files, Binary);
      var exchanged := Exchange(unpacked, hasService, original);
      if exchanged.Err? {
        return Err(exchanged.error);
      }
      if hasService {
        r := Activate(exchanged.value, original);
      } else {
        r := Ok(Outcome(exchanged.value));
      }
    }
  }
}
