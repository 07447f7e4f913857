/**
 The on/off switch of the optional classifier (`crates/admin/src/laya.rs`):
 every command as the sequence of effects it has on the host.

 Reads, writes, unit changes, probes and restarts may all fail. A write of the
 configuration is atomic: it happened, or the file is untouched.
 */
module LayaSwitch {
  import opened Wrappers
  import opened Shared
  import opened EnvFile

  /** The largest configuration file that is read. */
  const MAX_ENV_BYTES: nat := 64 * 1024

  datatype Failure =
    | AuditFailed
    | PreflightFailed
    | NotInstalled
    | Unreadable
    | Refused(error: EnvError)
    | NotWritten
    | OffSavedNotReady
    | RolledBack(recovered: bool)
    | NotRestored
    | NotEnabled
    | Unhealthy
    | NotStarted
    | NotStopped

  /** What the audit log says of a command. */
  datatype Outcome = Initiated | Succeeded | Failed

  datatype Event =
    | Audited(command: Command, outcome: Outcome)
    | Switched(mode: Mode)
    | Restored
    | Restarted(ready: bool)
    | Probed(healthy: bool)
    | TurnedOn(ok: bool)
    | TurnedOff(ok: bool)

  datatype Command = Install | Enable | Disable | SetTo(mode: Mode)

  /** The mode a command may switch to. */
  function Wanted(command: Command): Mode {
    match command
    case Install => Shadow
    case Enable => Shadow
    case Disable => Off
    case SetTo(mode) => mode
  }

  /** The ways reading or setting the mode can fail. */
  predicate IsModeFailure(e: Failure) {
    e.Unreadable? || e.Refused? || e.NotWritten? || e.OffSavedNotReady? || e.RolledBack? || e.NotRestored?
  }

  /** Laya is in use: a mode other than off can be read back. */
  predicate InUse(env: Bytes) {
    ModeIn(env).Success? && ModeIn(env) != Success(Off)
  }

  /** What a command can read: not too large, and with a mode in it. */
  predicate Usable(env: Bytes) {
    |env| <= MAX_ENV_BYTES && ModeIn(env).Success?
  }

  /** Whether the edit that sets `mode` leaves a file that can be read again. */
  predicate Editable(env: Bytes, mode: Mode) {
    Appendable(env) && |WithMode(env, mode)| <= MAX_ENV_BYTES
  }

  /** Whether Laya can be turned on: a file that says off takes the edit to shadow. */
  predicate Enableable(env: Bytes) {
    Usable(env) && (ModeIn(env) == Success(Off) ==> Editable(env, Shadow))
  }

  /** What a command needs of the host it finds. */
  predicate Feasible(command: Command, env: Bytes, socketEnabled: bool, installed: bool) {
    match command
    case Install => Enableable(env)
    case Enable => installed && Enableable(env)
    case Disable => Usable(env)
    case SetTo(mode) => Usable(env) && (mode == Off || socketEnabled)
  }

  /** Every switch to shadow or primary from `from` on comes after a healthy probe from `from` on. */
  ghost predicate ProbedFirst(trace: seq<Event>, from: nat) {
    forall i | from <= i < |trace| && trace[i].Switched? && trace[i].mode != Off ::
      exists j :: from <= j < i && trace[j] == Probed(true)
  }

  /** The same, and nothing but `mode` is switched to from `from` on. */
  ghost predicate Proper(trace: seq<Event>, from: nat, mode: Mode) {
    && ProbedFirst(trace, from)
    && forall i | from <= i < |trace| && trace[i].Switched? :: trace[i].mode == mode
  }

  /** The effects of setting the mode, by its result; only a failed restart for shadow or primary is undone. */
  function SwitchEvents(mode: Mode, r: Result<bool, Failure>): seq<Event> {
    if r.Success? then if r.value then [Switched(mode), Restarted(true)] else []
    else if r.error.RolledBack? then [Switched(mode), Restarted(false), Restored, Restarted(r.error.recovered)]
    else if r.error.OffSavedNotReady? || r.error.NotRestored? then [Switched(mode), Restarted(false)]
    else []
  }

  /** The results that leave the edited file in place. */
  predicate EditKept(r: Result<bool, Failure>) {
    r == Success(true) || r == Failure(OffSavedNotReady) || r == Failure(NotRestored)
  }

  class Host {
    var env: Bytes
    var socketEnabled: bool
    /** The pinned runtime and models are in place. */
    var installed: bool
    ghost var trace: seq<Event>
    /** How many operations of the host failed. */
    ghost var failures: nat

    /** The protected file, if it is safe, readable and not too large. */
    method ReadEnv() returns (r: Option<Bytes>)
      modifies this`failures
      ensures r.Some? ==> r.value == env && |env| <= MAX_ENV_BYTES
      ensures failures == old(failures) + if r.None? && |env| <= MAX_ENV_BYTES then 1 else 0
    {
      var fails: bool := *;
      if |env| > MAX_ENV_BYTES {
        return None;
      }
      failures := failures + if fails then 1 else 0;
      return if fails then None else Some(env);
    }

    /** Replace the file, or leave it alone. */
    method WriteEnv(bytes: Bytes, ghost event: Event) returns (ok: bool)
      modifies this`env, this`trace, this`failures
      ensures env == if ok then bytes else old(env)
      ensures trace == if ok then old(trace) + [event] else old(trace)
      ensures failures == old(failures) + if ok then 0 else 1
    {
      ok := Succeeds();
      if ok {
        env := bytes;
        trace := trace + [event];
      }
    }

    method RestartCore() returns (ok: bool)
      modifies this`trace, this`failures
      ensures trace == old(trace) + [Restarted(ok)]
      ensures failures == old(failures) + if ok then 0 else 1
    {
      ok := Succeeds();
      trace := trace + [Restarted(ok)];
    }

    method Probe() returns (ok: bool)
      modifies this`trace, this`failures
      ensures trace == old(trace) + [Probed(ok)]
      ensures failures == old(failures) + if ok then 0 else 1
    {
      ok := Succeeds();
      trace := trace + [Probed(ok)];
    }

    /** Enable and start both units; a failure may leave either state. */
    method TurnOn() returns (ok: bool)
      modifies this`socketEnabled, this`trace, this`failures
      ensures ok ==> socketEnabled
      ensures trace == old(trace) + [TurnedOn(ok)]
      ensures failures == old(failures) + if ok then 0 else 1
    {
      ok := Succeeds();
      socketEnabled := *;
      socketEnabled := socketEnabled || ok;
      trace := trace + [TurnedOn(ok)];
    }

    method TurnOff() returns (ok: bool)
      modifies this`socketEnabled, this`trace, this`failures
      ensures ok ==> !socketEnabled
      ensures trace == old(trace) + [TurnedOff(ok)]
      ensures failures == old(failures) + if ok then 0 else 1
    {
      ok := Succeeds();
      socketEnabled := *;
      socketEnabled := socketEnabled && !ok;
      trace := trace + [TurnedOff(ok)];
    }

    /** The unit query; anything but "enabled" also stands for an answer that never came. */
    method IsEnabled() returns (enabled: bool)
      modifies this`failures
      ensures enabled ==> socketEnabled
      ensures failures == old(failures) + if socketEnabled && !enabled then 1 else 0
    {
      enabled := *;
      enabled := enabled && socketEnabled;
      failures := failures + if socketEnabled && !enabled then 1 else 0;
    }

    method Audit(command: Command, outcome: Outcome) returns (ok: bool)
      modifies this`trace, this`failures
      ensures trace == old(trace) + if ok then [Audited(command, outcome)] else []
      ensures failures == old(failures) + if ok then 0 else 1
    {
      ok := Succeeds();
      if ok {
        trace := trace + [Audited(command, outcome)];
      }
    }

    /** Whether the pinned release is the active one, if that can be told. */
    method Provisioned() returns (r: Option<bool>)
      modifies this`failures
      ensures r.Some? ==> r.value == installed
      ensures failures == old(failures) + if r.Some? then 0 else 1
    {
      var ok := Succeeds();
      return if ok then Some(installed) else None;
    }

    /** Stage what is pinned and provision it. */
    method Provision() returns (ok: bool)
      modifies this`installed, this`failures
      ensures installed == (old(installed) || ok)
      ensures failures == old(failures) + if ok then 0 else 1
    {
      ok := Succeeds();
      installed := installed || ok;
    }

    /** Any operation or check outside this model. */
    method Succeeds() returns (ok: bool)
      modifies this`failures
      ensures failures == old(failures) + if ok then 0 else 1
    {
      ok := *;
      failures := failures + if ok then 0 else 1;
    }

    method CurrentMode() returns (r: Result<Mode, Failure>)
      modifies this`failures
      ensures r.Success? ==> ModeIn(env) == Success(r.value) && Usable(env)
      ensures r.Failure? ==> IsModeFailure(r.error)
      ensures failures >= old(failures) && (r.Success? <==> failures == old(failures) && Usable(env))
    {
      var bytes := ReadEnv();
      if bytes.None? {
        return Failure(Unreadable);
      }
      var mode := ReadMode(bytes.value);
      return if mode.Success? then Success(mode.value) else Failure(Refused(mode.error));
    }

    /** Write the edited file and restart Core; undo the write when that fails, unless the mode is off. */
    method Switch(original: Bytes, edited: Bytes, mode: Mode) returns (r: Result<bool, Failure>)
      requires env == original
      modifies this`env, this`trace, this`failures
      ensures trace == old(trace) + SwitchEvents(mode, r)
      ensures env == if EditKept(r) then edited else original
      ensures failures >= old(failures) && (r.Success? <==> failures == old(failures))
      ensures r != Success(false) && (r.Failure? ==> IsModeFailure(r.error) && !r.error.Unreadable? && !r.error.Refused?)
      ensures r == Failure(OffSavedNotReady) ==> mode == Off
      ensures r.Failure? && (r.error.RolledBack? || r.error.NotRestored?) ==> mode != Off
    {
      ghost var start := trace;
      var written := WriteEnv(edited, Switched(mode));
      if !written {
        return Failure(NotWritten);
      }
      var ready := RestartCore();
      Grown(start, [Switched(mode)], Restarted(ready));
      if ready {
        return Success(true);
      }
      if mode == Off {
        return Failure(OffSavedNotReady);
      }
      var restored := WriteEnv(original, Restored);
      if !restored {
        return Failure(NotRestored);
      }
      Grown(start, [Switched(mode), Restarted(false)], Restored);
      var recovered := RestartCore();
      Grown(start, [Switched(mode), Restarted(false), Restored], Restarted(recovered));
      return Failure(RolledBack(recovered));
    }

    /**
     The edit and the restart it needs. Unless Core comes up again the old bytes
     are put back, except after switching off.
     */
    method SetMode(mode: Mode) returns (r: Result<bool, Failure>)
      modifies this`env, this`trace, this`failures
      ensures failures >= old(failures) && (r.Success? <==> failures == old(failures) && Usable(old(env)))
      ensures trace == old(trace) + SwitchEvents(mode, r)
      ensures env == if EditKept(r) then WithMode(old(env), mode) else old(env)
      ensures r == Success(false) ==> ModeIn(env) == Success(mode)
      ensures r == Success(true) ==> ModeIn(old(env)).Success? && ModeIn(old(env)) != Success(mode)
      ensures r.Failure? ==> IsModeFailure(r.error)
      ensures r == Failure(OffSavedNotReady) ==> mode == Off
      ensures r.Failure? && (r.error.RolledBack? || r.error.NotRestored?) ==> mode != Off
      ensures mode == Off && (r.Success? || r == Failure(OffSavedNotReady)) ==> ModeIn(env) == Success(Off) && Usable(env)
      ensures r.Success? ==> Usable(old(env))
      ensures !Usable(old(env)) ==> r.Failure? && env == old(env)
      ensures r == Success(true) ==> (Usable(env) <==> Editable(old(env), mode))
    {
      hide ModeIn, WithMode, Appendable;
      var original := ReadEnv();
      if original.None? {
        return Failure(Unreadable);
      }
      var current := ReadMode(original.value);
      if current.Failure? {
        return Failure(Refused(current.error));
      }
      if current.value == mode {
        return Success(false);
      }
      var edited := WriteMode(original.value, mode);
      r := Switch(original.value, edited, mode);
      ReadBack(original.value, mode);
      if mode == Off {
        OffReadsBack(original.value);
        OffShrinks(original.value);
      }
    }

    /** Any mode but off asks for the socket and a probe first. */
    method SetModeChecked(mode: Mode) returns (r: Result<(), Failure>)
      modifies this`env, this`trace, this`failures
      ensures socketEnabled == old(socketEnabled)
      ensures failures >= old(failures)
      ensures r.Success? <==> failures == old(failures) && Usable(old(env)) && (mode == Off || old(socketEnabled))
      ensures r.Success? ==> ModeIn(env) == Success(Off) || socketEnabled
      ensures r.Success? && (mode == Off || Appendable(old(env))) ==> ModeIn(env) == Success(mode)
      ensures r.Success? && ModeIn(env) != Success(mode) ==> ModeIn(env) == Failure(NonCanonical)
      ensures r.Success? ==>
                (Usable(env) <==> ModeIn(old(env)) == Success(mode) || Editable(old(env), mode))
      ensures r.Success? && mode == Off ==> Usable(env)
      ensures !Usable(old(env)) ==> r.Failure? && env == old(env)
      ensures old(trace) <= trace && Proper(trace, |old(trace)|, mode)
      ensures r == Failure(NotEnabled) ==> mode != Off && env == old(env) && trace == old(trace)
      ensures r == Failure(Unhealthy) ==> mode != Off && env == old(env) && trace == old(trace) + [Probed(false)]
      ensures r.Success? && ModeIn(old(env)) != Success(mode) ==>
                trace == old(trace) + (if mode == Off then [] else [Probed(true)]) + [Switched(mode), Restarted(true)]
    {
      if mode != Off {
        var enabled := IsEnabled();
        if !enabled {
          return Failure(NotEnabled);
        }
        var healthy := Probe();
        if !healthy {
          return Failure(Unhealthy);
        }
        assert trace[|old(trace)|] == Probed(true);
      }
      ghost var before := trace;
      var changed := SetMode(mode);
      SwitchAfterProbe(before, mode, changed, |old(trace)|);
      if changed.Success? && changed.value {
        ReadBack(old(env), mode);
      }
      return if changed.Success? then Success(()) else Failure(changed.error);
    }

    /** Turn the units on, probe, and leave the mode at least at shadow. */
    method EnableLaya() returns (r: Result<(), Failure>)
      modifies this
      ensures failures >= old(failures) && installed == old(installed)
      ensures r.Success? <==> failures == old(failures) && old(installed) && Enableable(old(env))
      ensures r.Success? ==> socketEnabled && InUse(env) && Usable(env)
      ensures r.Success? && InUse(old(env)) ==> env == old(env)
      ensures !Usable(old(env)) ==> r.Failure? && env == old(env)
      ensures r.Success? && ModeIn(old(env)) == Success(Off) ==> ModeIn(env) == Success(Shadow)
      ensures r.Success? ==> old(trace) + [TurnedOn(true), Probed(true)] <= trace
      ensures r == Failure(NotStarted) || r == Failure(Unhealthy) ==>
                && env == old(env) && |trace| > |old(trace)| && trace[|trace| - 1].TurnedOff?
                && trace[..|trace| - 1] ==
                   old(trace) + if r == Failure(NotStarted) then [TurnedOn(false)] else [TurnedOn(true), Probed(false)]
      ensures old(trace) <= trace && Proper(trace, |old(trace)|, Shadow)
    {
      var provisioned := Provisioned();
      if provisioned != Some(true) {
        return Failure(NotInstalled);
      }
      var started := TurnOn();
      var healthy := false;
      if started {
        healthy := Probe();
        assert trace[|old(trace)| + 1] == Probed(healthy);
      }
      if !healthy {
        var _ := TurnOff();
        return Failure(if started then Unhealthy else NotStarted);
      }
      ghost var before := trace;
      assert before[|old(trace)| + 1] == Probed(true);
      r := AtLeastShadow();
      ghost var switched :| trace == before + SwitchEvents(Shadow, switched);
      SwitchAfterProbe(before, Shadow, switched, |old(trace)|);
    }

    /** With a healthy Laya, switch from off to shadow and report the mode. */
    method AtLeastShadow() returns (r: Result<(), Failure>)
      modifies this`env, this`trace, this`failures
      ensures failures >= old(failures) && (r.Success? <==> failures == old(failures) && Enableable(old(env)))
      ensures r.Success? ==> InUse(env) && Usable(env)
      ensures r.Success? && InUse(old(env)) ==> env == old(env)
      ensures r.Success? && ModeIn(old(env)) == Success(Off) ==> ModeIn(env) == Success(Shadow)
      ensures exists switched :: trace == old(trace) + SwitchEvents(Shadow, switched)
      ensures r.Failure? ==> IsModeFailure(r.error)
      ensures !Usable(old(env)) ==> r.Failure? && env == old(env)
    {
      var mode := CurrentMode();
      assert trace == old(trace) + SwitchEvents(Shadow, Success(false));
      if mode == Success(Off) {
        var switched := SetMode(Shadow);
        assert trace == old(trace) + SwitchEvents(Shadow, switched);
        if switched.Failure? {
          return Failure(switched.error);
        }
        if switched.value {
          ReadBack(old(env), Shadow);
        }
      } else if mode.Failure? {
        return Failure(mode.error);
      }
      var final := CurrentMode();
      return if final.Success? then Success(()) else Failure(final.error);
    }

    /** Core first, then the units; the units are stopped whatever happened before. */
    method DisableLaya() returns (r: Result<(), Failure>)
      modifies this
      ensures failures >= old(failures) && (r.Success? <==> failures == old(failures) && Usable(old(env)))
      ensures r.Success? ==> ModeIn(env) == Success(Off) && Usable(env) && !socketEnabled
      ensures !Usable(old(env)) ==> r.Failure? && env == old(env)
      ensures |trace| > |old(trace)| && trace[|trace| - 1] == TurnedOff(r != Failure(NotStopped))
      ensures r != Failure(NotStopped) ==> !socketEnabled
      ensures old(trace) <= trace && Proper(trace, |old(trace)|, Off)
    {
      hide ModeIn, WithMode, Proper, SwitchEvents;
      var core := SetMode(Off);
      NothingSwitched(old(trace), Off);
      SwitchAfterProbe(old(trace), Off, core, |old(trace)|);
      ghost var before := trace;
      var stopped := TurnOff();
      EventAppended(before, TurnedOff(stopped), |old(trace)|, Off);
      if !stopped {
        return Failure(NotStopped);
      }
      return if core.Success? then Success(()) else Failure(core.error);
    }

    method InstallLaya() returns (r: Result<(), Failure>)
      modifies this
      ensures failures >= old(failures) && (r.Success? <==> failures == old(failures) && Enableable(old(env)))
      ensures r.Success? ==> installed
      ensures r.Success? ==> socketEnabled && InUse(env) && Usable(env)
      ensures !Usable(old(env)) ==> r.Failure? && env == old(env)
      ensures r.Success? && InUse(old(env)) ==> env == old(env)
      ensures r.Success? && ModeIn(old(env)) == Success(Off) ==> ModeIn(env) == Success(Shadow)
      ensures old(trace) <= trace && Proper(trace, |old(trace)|, Shadow)
    {
      var ready := Succeeds();
      if !ready {
        return Failure(PreflightFailed);
      }
      var provisioned := Provisioned();
      if provisioned.None? {
        return Failure(NotInstalled);
      }
      if !provisioned.value {
        var staged := Provision();
        if !staged {
          return Failure(NotInstalled);
        }
      }
      r := EnableLaya();
      if r.Success? {
        var mode := CurrentMode();
        r := if mode.Success? then r else Failure(mode.error);
      }
    }

    /**
     Any command, audited before and after. One that reports success leaves
     Core off or the socket enabled, whatever the state was; nothing is
     switched to shadow or primary without a healthy probe in the same command, and
     to primary only when that is what was asked for. It succeeds exactly when the
     host fails none of its operations and is in a state the command can start from.
     */
    method Execute(command: Command) returns (r: Result<(), Failure>)
      modifies this
      ensures failures >= old(failures)
      ensures r.Success? <==> failures == old(failures) && Feasible(command, old(env), old(socketEnabled), old(installed))
      ensures r.Success? ==> ModeIn(env) == Success(Off) || socketEnabled
      ensures r.Success? && command.Disable? ==> ModeIn(env) == Success(Off) && !socketEnabled
      ensures r.Success? && (command.Install? || command.Enable?) ==> socketEnabled && InUse(env)
      ensures r.Success? && (command.Install? || command.Enable?) && ModeIn(old(env)) == Success(Off) ==>
                ModeIn(env) == Success(Shadow)
      ensures old(trace) <= trace && Proper(trace, |old(trace)|, Wanted(command))
      ensures trace != old(trace) ==> trace[|old(trace)|] == Audited(command, Initiated)
      ensures r != Failure(AuditFailed) ==>
                |trace| > |old(trace)| + 1
                && trace[|trace| - 1] == Audited(command, if r.Success? then Succeeded else Failed)
      ensures trace == old(trace) ==> env == old(env) && socketEnabled == old(socketEnabled)
      ensures !Usable(old(env)) ==> r.Failure? && env == old(env)
      ensures r.Success? && command.SetTo? ==>
                (Usable(env) <==> ModeIn(old(env)) == Success(command.mode) || Editable(old(env), command.mode))
      ensures r.Success? && (command.SetTo? ==> command.mode == Off) ==> Usable(env)
    {
      hide Proper, ModeIn, Usable, Editable;
      NothingSwitched(trace, Wanted(command));
      var initiated := Audit(command, Initiated);
      if !initiated {
        assert trace == old(trace);
        return Failure(AuditFailed);
      }
      ghost var audited := trace;
      match command {
        case Install => r := InstallLaya();
        case Enable => r := EnableLaya();
        case Disable => r := DisableLaya();
        case SetTo(mode) => r := SetModeChecked(mode);
      }
      CommandAudited(old(trace), audited, trace, command);
      ghost var done := trace;
      var outcome := Audit(command, if r.Success? then Succeeded else Failed);
      EventAppended(done, Audited(command, if r.Success? then Succeeded else Failed), |old(trace)|, Wanted(command));
      assert done + [] == done;
      return if outcome then r else Failure(AuditFailed);
    }

    /**
     Commands one after another. A file that can no longer be read stays as it
     is, and every later command reports a failure. A command that reports
     success leaves such a file only when it sets shadow or primary, and then
     exactly when the setting had to be written and the file was not `Editable`.
     */
    method ExecuteAll(commands: seq<Command>) returns (results: seq<Result<(), Failure>>, ghost envs: seq<Bytes>)
      modifies this
      ensures |results| == |commands| && |envs| == |commands| + 1
      ensures envs[0] == old(env) && envs[|commands|] == env
      ensures StaysUnusable(envs, results) && EachLeft(commands, envs, results)
    {
      hide Usable, Editable, ModeIn, Proper, LeftReadable, Feasible, InUse, StaysUnusable, EachLeft;
      results, envs := [], [env];
      NothingExecuted(commands, env);
      for n := 0 to |commands|
        invariant |results| == n && |envs| == n + 1 && envs[0] == old(env) && envs[n] == env
        invariant StaysUnusable(envs, results) && EachLeft(commands, envs, results)
      {
        ghost var before := env;
        var result := Execute(commands[n]);
        LeftReadableIs(commands[n], before, env);
        CommandExecuted(commands, envs, results, env, result);
        results, envs := results + [result], envs + [env];
      }
    }
  }

  /** Once the file cannot be read any more it stays so, and every later command fails. */
  ghost predicate StaysUnusable(envs: seq<Bytes>, results: seq<Result<(), Failure>>)
    requires |envs| == |results| + 1
  {
    forall i: nat, j: nat | i < j <= |results| && !Usable(envs[i]) :: envs[j] == envs[i] && results[j - 1].Failure?
  }

  /** What each successful command leaves behind. */
  ghost predicate EachLeft(commands: seq<Command>, envs: seq<Bytes>, results: seq<Result<(), Failure>>)
    requires |envs| == |results| + 1 && |results| <= |commands|
  {
    forall i: nat | i < |results| && results[i].Success? :: LeftReadable(commands[i], envs[i], envs[i + 1])
  }

  lemma NothingExecuted(commands: seq<Command>, env: Bytes)
    ensures StaysUnusable([env], []) && EachLeft(commands, [env], [])
  {
  }

  lemma CommandExecuted(commands: seq<Command>, envs: seq<Bytes>, results: seq<Result<(), Failure>>, env: Bytes,
                        result: Result<(), Failure>)
    requires |envs| == |results| + 1 && |results| < |commands|
    requires StaysUnusable(envs, results) && EachLeft(commands, envs, results)
    requires !Usable(envs[|results|]) ==> result.Failure? && env == envs[|results|]
    requires result.Success? ==> LeftReadable(commands[|results|], envs[|results|], env)
    ensures StaysUnusable(envs + [env], results + [result]) && EachLeft(commands, envs + [env], results + [result])
  {
    hide Usable, LeftReadable;
    var n, envs', results' := |results|, envs + [env], results + [result];
    assert forall k: nat | k <= n :: envs'[k] == envs[k];
    forall i: nat, j: nat | i < j <= n + 1 && !Usable(envs'[i]) ensures envs'[j] == envs'[i] && results'[j - 1].Failure? {
      if i < j <= n {
        assert envs[j] == envs[i];
      } else if i < n {
        assert envs[n] == envs[i];
      }
    }
  }

  /**
   A successful command leaves a file that cannot be read exactly when it sets
   shadow or primary, had to write that, and the file was not `Editable`.
   */
  predicate LeftReadable(command: Command, before: Bytes, after: Bytes) {
    !Usable(after) <==>
    command.SetTo? && command.mode != Off && ModeIn(before) != Success(command.mode) && !Editable(before, command.mode)
  }

  lemma LeftReadableIs(command: Command, before: Bytes, after: Bytes)
    ensures LeftReadable(command, before, after) <==>
            if command.SetTo? && command.mode != Off
            then Usable(after) <==> ModeIn(before) == Success(command.mode) || Editable(before, command.mode)
            else Usable(after)
  {
  }

  lemma Grown(start: seq<Event>, events: seq<Event>, e: Event)
    ensures start + events + [e] == start + (events + [e])
  {
  }

  /** Every write is followed by a restart at once, and one is undone only after a restart failed. */
  lemma WritesAreFollowedByRestarts(mode: Mode, r: Result<bool, Failure>)
    ensures var events := SwitchEvents(mode, r);
            && (forall i | 0 <= i < |events| && !events[i].Restarted? :: i + 1 < |events| && events[i + 1].Restarted?)
            && (forall i | 0 <= i < |events| && events[i].Restored? :: i > 0 && events[i - 1] == Restarted(false))
            && (r.Success? && r.value <==> events == [Switched(mode), Restarted(true)])
            && (r.Failure? && r.error.RolledBack? ==>
                  |events| == 4 && events[2].Restored? && events[3] == Restarted(r.error.recovered))
  {
  }

  /** Setting a mode is fine once the command has probed, and always for off. */
  lemma SwitchAfterProbe(before: seq<Event>, mode: Mode, r: Result<bool, Failure>, from: nat)
    requires from <= |before| && Proper(before, from, mode)
    requires mode == Off || exists j :: from <= j < |before| && before[j] == Probed(true)
    ensures Proper(before + SwitchEvents(mode, r), from, mode) && before <= before + SwitchEvents(mode, r)
  {
    var after := before + SwitchEvents(mode, r);
    forall i | from <= i < |after| && after[i].Switched? && after[i].mode != Off
      ensures exists j :: from <= j < i && after[j] == Probed(true)
    {
      if i < |before| {
        assert before[i] == after[i];
        var j :| from <= j < i && before[j] == Probed(true);
        assert after[j] == before[j];
      } else {
        var j :| from <= j < |before| && before[j] == Probed(true);
        assert after[j] == before[j];
      }
    }
    assert forall i | 0 <= i < |before| :: after[i] == before[i];
  }

  lemma CommandAudited(start: seq<Event>, audited: seq<Event>, trace: seq<Event>, command: Command)
    requires audited == start + [Audited(command, Initiated)] && audited <= trace
    requires Proper(trace, |audited|, Wanted(command))
    ensures Proper(trace, |start|, Wanted(command)) && start <= trace && trace[|start|] == Audited(command, Initiated)
  {
    assert trace[|start|] == audited[|start|];
  }

  lemma NothingSwitched(trace: seq<Event>, mode: Mode)
    ensures Proper(trace, |trace|, mode)
  {
  }

  /** Events that switch nothing need no probe. */
  lemma EventAppended(before: seq<Event>, e: Event, from: nat, mode: Mode)
    requires !e.Switched? && Proper(before, from, mode) && from <= |before|
    ensures Proper(before + [e], from, mode)
  {
    var after := before + [e];
    assert forall i | 0 <= i < |before| :: after[i] == before[i];
    forall i | from <= i < |after| && after[i].Switched? && after[i].mode != Off
      ensures exists j :: from <= j < i && after[j] == Probed(true)
    {
      var j :| from <= j < i && before[j] == Probed(true);
      assert after[j] == before[j];
    }
  }
}
