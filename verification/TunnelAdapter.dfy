/** The tunnel life cycle of WireGuardAdapter.swift, as built for iOS, on the Go backend.  All
    operations run one after the other on one queue.  DNS resolution, the system's answer to new
    network settings, the tunnel descriptor and the steps of the backend are inputs. */
module TunnelAdapter {
  import opened TunnelBackend

  datatype Option<T> = None | Some(value: T)

  datatype SettingsAnswer = Applied | Failed | TimedOut

  datatype Env = Env(resolves: bool, settings: SettingsAnswer, fdFound: bool, steps: TurnOnSteps,
                     answer: Answer) {
    /** A timeout is logged and ignored. */
    predicate SettingsPass() {
      settings != Failed
    }

    predicate BackendStarts() {
      fdFound && steps.AllSucceed()
    }
  }

  datatype AdapterError =
    | CannotLocateTunnelFileDescriptor
    | InvalidState
    | DnsResolution
    | SetNetworkSettings
    | StartWireGuardBackend(code: int)

  datatype State<Config> =
    | Stopped
    | Started(handle: int, settings: Config)
    | TemporaryShutdown(settings: Config)

  // ---------------------------------------------------------------- specification

  /** What a client can know: whether a tunnel runs, is paused, and with which configuration. */
  datatype Phase<Config> = Off | Running(config: Config) | Paused(config: Config)

  datatype Op<Config> =
    | Start(config: Config, env: Env)
    | Stop
    | Update(config: Config, env: Env)
    | PathUpdate(satisfiable: bool, env: Env)

  ghost function Next<Config>(p: Phase<Config>, op: Op<Config>): Phase<Config> {
    match op
    case Start(c, env) =>
      if p.Off? && env.resolves && env.SettingsPass() && env.BackendStarts() then Running(c) else p
    case Stop => Phase.Off
    case Update(c, env) =>
      if p.Off? || !env.resolves || !env.SettingsPass() then p
      else if p.Running? then Running(c) else Paused(c)
    case PathUpdate(satisfiable, env) =>
      if p.Running? && !satisfiable then Paused(p.config)
      else if p.Paused? && satisfiable && env.SettingsPass() && env.BackendStarts() then Running(p.config)
      else p
  }

  ghost function ErrorOf<Config>(p: Phase<Config>, op: Op<Config>): Option<AdapterError> {
    match op
    case Start(_, env) =>
      if !p.Off? then Some(InvalidState)
      else if !env.resolves then Some(DnsResolution)
      else if !env.SettingsPass() then Some(SetNetworkSettings)
      else if !env.fdFound then Some(CannotLocateTunnelFileDescriptor)
      else if !env.steps.AllSucceed() then Some(StartWireGuardBackend(-1))
      else None
    case Stop => if p.Off? then Some(InvalidState) else None
    case Update(_, env) =>
      if p.Off? then Some(InvalidState)
      else if !env.resolves then Some(DnsResolution)
      else if !env.SettingsPass() then Some(SetNetworkSettings)
      else None
    case PathUpdate(_, _) => None
  }

  ghost function RunPhase<Config>(ops: seq<Op<Config>>): Phase<Config> {
    if ops == [] then Phase.Off else Next(RunPhase(ops[..|ops| - 1]), ops[|ops| - 1])
  }

  /** The configuration of the last start or update that reported no error. */
  ghost function LastSuccess<Config>(ops: seq<Op<Config>>): Option<Config> {
    if ops == [] then None
    else
      var before, op := ops[..|ops| - 1], ops[|ops| - 1];
      if (op.Start? || op.Update?) && ErrorOf(RunPhase(before), op) == None then Some(op.config)
      else LastSuccess(before)
  }

  /** After any run, a tunnel that runs, is paused or has been resumed has the configuration of
      the last successful start or update. */
  lemma {:induction false} ConfigIsLastSuccess<Config>(ops: seq<Op<Config>>)
    ensures !RunPhase(ops).Off? ==> LastSuccess(ops) == Some(RunPhase(ops).config)
  {
    if ops != [] { ConfigIsLastSuccess(ops[..|ops| - 1]); }
  }

  /** A failed operation changes nothing. */
  lemma FailureChangesNothing<Config>(p: Phase<Config>, op: Op<Config>)
    requires ErrorOf(p, op) != None
    ensures Next(p, op) == p
  {
  }

  // ---------------------------------------------------------------- when an operation succeeds

  /** Which error a start reports, in terms of what the system answers: only a failure of the
      network settings stops it, not a timeout. */
  lemma StartReports<Config>(p: Phase<Config>, c: Config, e: Env)
    ensures var r, s := ErrorOf(p, Op.Start(c, e)), e.steps;
      (r == Some(InvalidState) <==> !p.Off?)
      && (r == Some(DnsResolution) <==> p.Off? && !e.resolves)
      && (r == Some(SetNetworkSettings) <==> p.Off? && e.resolves && e.settings == Failed)
      && (r == Some(CannotLocateTunnelFileDescriptor) <==> p.Off? && e.resolves && e.settings != Failed && !e.fdFound)
      && (r == Some(StartWireGuardBackend(-1)) <==>
           p.Off? && e.resolves && e.settings != Failed && e.fdFound
           && !(s.dup && s.nonblock && s.createTun && s.ipcSet))
      && (r == None <==> p.Off? && Next(p, Op.Start(c, e)) == Running(c))
  {
  }

  lemma UpdateReports<Config>(p: Phase<Config>, c: Config, e: Env)
    ensures var r, q := ErrorOf(p, Op.Update(c, e)), Next(p, Op.Update(c, e));
      (r == Some(InvalidState) <==> p.Off?)
      && (r == Some(DnsResolution) <==> !p.Off? && !e.resolves)
      && (r == Some(SetNetworkSettings) <==> !p.Off? && e.resolves && e.settings == Failed)
      && (r == None <==> !p.Off? && e.resolves && (e.settings == Applied || e.settings == TimedOut))
      && (r == None ==> !q.Off? && q.config == c && q.Running? == p.Running?) && (r != None ==> q == p)
  {
  }

  /** A paused tunnel resumes exactly when the path is satisfiable, the settings do not fail and
      every step of the backend succeeds; a tunnel that runs pauses exactly when the path is lost. */
  lemma PathReports<Config>(p: Phase<Config>, satisfiable: bool, e: Env)
    ensures var q, s := Next(p, PathUpdate(satisfiable, e)), e.steps;
      (p.Paused? ==>
        if satisfiable && (e.settings == Applied || e.settings == TimedOut) && e.fdFound
           && s.dup && s.nonblock && s.createTun && s.ipcSet
        then q == Running(p.config) else q == p)
      && (p.Running? ==> q == if satisfiable then p else Paused(p.config))
      && (p.Off? ==> q == p)
  {
  }

  // ---------------------------------------------------------------- the device

  /** What the device that runs was sent after one more operation; log is what it was sent
      before.  A resumed tunnel gets a new device. */
  ghost function NextLog<Config>(log: seq<Delivery<Config>>, p: Phase<Config>, op: Op<Config>): seq<Delivery<Config>> {
    var q := Next(p, op);
    if !q.Running? then []
    else if !p.Running? then [Delivery(Full(q.config), Accepts)]
    else match op
      case Update(c, env) => if ErrorOf(p, op) == None then log + [Delivery(Full(c), env.answer)] else log
      case PathUpdate(_, env) => log + [Delivery(Endpoints(p.config), env.answer)]
      case _ => log
  }

  ghost function DeviceLog<Config>(ops: seq<Op<Config>>): seq<Delivery<Config>> {
    if ops == [] then []
    else
      var before := ops[..|ops| - 1];
      NextLog(DeviceLog(before), RunPhase(before), ops[|ops| - 1])
  }

  /** Operation i is an update that reports success while a tunnel runs, so that the device is
      sent the configuration; it accepts it or not. */
  ghost predicate Sends<Config>(ops: seq<Op<Config>>, i: nat, accepted: bool)
    requires i < |ops|
  {
    ops[i].Update? && RunPhase(ops[..i]).Running? && ErrorOf(RunPhase(ops[..i]), ops[i]) == None
    && ops[i].env.answer.Accepts? == accepted
  }

  /** The device refused update i, it has been running ever since, and it has accepted no later
      update. */
  ghost predicate RefusedLast<Config>(ops: seq<Op<Config>>, i: nat)
    requires i < |ops|
  {
    Sends(ops, i, false)
    && (forall k: nat :: i < k <= |ops| ==> RunPhase(ops[..k]).Running?)
    && (forall k: nat :: i < k < |ops| ==> !Sends(ops, k, true))
  }

  ghost predicate Unsettled<Config>(ops: seq<Op<Config>>) {
    exists i: nat :: i < |ops| && RefusedLast(ops, i)
  }

  /** Only a device that runs can be unsettled. */
  lemma NothingRuns<Config>(ops: seq<Op<Config>>)
    requires !RunPhase(ops).Running?
    ensures !Unsettled(ops)
  {
    assert ops[..|ops|] == ops;
  }

  /** What one operation does: starting and resuming make the device hold the configuration, an
      update that is sent does if and only if it is accepted, everything else changes nothing. */
  lemma HoldsStep<Config>(log: seq<Delivery<Config>>, p: Phase<Config>, op: Op<Config>)
    requires Next(p, op).Running?
    ensures Holds(NextLog(log, p, op), Next(p, op).config) <==>
      (if !p.Running? then true
       else if op.Update? && ErrorOf(p, op) == None then op.env.answer.Accepts?
       else Holds(log, p.config))
  {
    var new_ := NextLog(log, p, op);
    if |new_| > |log| && p.Running? { assert new_[..|new_| - 1] == log; }
  }

  lemma SendsBefore<Config>(ops: seq<Op<Config>>, n: nat, i: nat, accepted: bool)
    requires i < n <= |ops|
    ensures Sends(ops[..n], i, accepted) == Sends(ops, i, accepted)
  {
    assert ops[..n][..i] == ops[..i];
  }

  /** An update refused earlier stays the last one unless the device accepts the next one. */
  lemma RefusedLastStep<Config>(ops: seq<Op<Config>>, i: nat)
    requires i < |ops| - 1 && RunPhase(ops).Running?
    ensures RefusedLast(ops, i) <==> RefusedLast(ops[..|ops| - 1], i) && !Sends(ops, |ops| - 1, true)
  {
    hide RunPhase, Sends;
    var n := |ops| - 1;
    SendsBefore(ops, n, i, false);
    assert ops[..|ops|] == ops;
    forall k: nat | i < k < n ensures Sends(ops[..n], k, true) == Sends(ops, k, true) { SendsBefore(ops, n, k, true); }
    forall k: nat | k <= n ensures ops[..n][..k] == ops[..k] {}
  }

  lemma UnsettledStep<Config>(ops: seq<Op<Config>>)
    requires ops != [] && RunPhase(ops).Running?
    ensures var n := |ops| - 1;
      Unsettled(ops) <==>
        RunPhase(ops[..n]).Running? && !Sends(ops, n, true) && (Sends(ops, n, false) || Unsettled(ops[..n]))
  {
    hide RefusedLast, Sends, RunPhase;
    var n := |ops| - 1;
    LastIsRefused(ops);
    if Unsettled(ops) {
      var i: nat :| i < |ops| && RefusedLast(ops, i);
      if i < n {
        RefusedLastStep(ops, i);
        RunsSince(ops, i);
      }
    }
    if !Sends(ops, n, true) && Unsettled(ops[..n]) {
      var i: nat :| i < n && RefusedLast(ops[..n], i);
      RefusedLastStep(ops, i);
    }
  }

  lemma RunsSince<Config>(ops: seq<Op<Config>>, i: nat)
    requires i < |ops| - 1 && RefusedLast(ops, i)
    ensures RunPhase(ops[..|ops| - 1]).Running?
  {
    hide RunPhase;
  }

  lemma LastIsRefused<Config>(ops: seq<Op<Config>>)
    requires ops != [] && RunPhase(ops).Running?
    ensures var n := |ops| - 1;
      RefusedLast(ops, n) == Sends(ops, n, false) && !(Sends(ops, n, false) && Sends(ops, n, true))
      && (Sends(ops, n, false) ==> RunPhase(ops[..n]).Running?)
  {
    hide RunPhase;
    assert ops[..|ops|] == ops;
  }

  /** When the device that runs holds the configuration the adapter recorded. */
  lemma {:induction false} HoldsExactly<Config>(ops: seq<Op<Config>>)
    requires RunPhase(ops).Running?
    ensures Holds(DeviceLog(ops), RunPhase(ops).config) <==> !Unsettled(ops)
  {
    var n := |ops| - 1;
    var before := ops[..n];
    HoldsStep(DeviceLog(before), RunPhase(before), ops[n]);
    UnsettledStep(ops);
    if RunPhase(before).Running? { HoldsExactly(before); }
  }

  // ---------------------------------------------------------------- the adapter

  class WireGuardAdapter<Config> {
    const backend: Backend<Config>
    var state: State<Config>
    var networkMonitor: Option<nat>
    var reasserting: bool
    var monitorsCreated: nat
    ghost var liveMonitors: set<nat>

    ghost predicate Valid()
      reads this, backend
    {
      backend.Valid()
      && backend.tunnelHandles.Keys == (if state.Started? then {state.handle} else {})
      && (networkMonitor.Some? <==> !state.Stopped?)
      && liveMonitors == (if networkMonitor.Some? then {networkMonitor.value} else {})
      && (forall m <- liveMonitors :: m < monitorsCreated)
      && !reasserting
    }

    ghost function CurrentPhase(): Phase<Config>
      reads this
    {
      match state
      case Stopped => Phase.Off
      case Started(_, c) => Running(c)
      case TemporaryShutdown(c) => Paused(c)
    }

    /** What the device that runs was sent. */
    ghost function Device(): seq<Delivery<Config>>
      reads this, backend
      requires Valid()
    {
      if state.Started? then backend.tunnelHandles[state.handle] else []
    }

    /** The device that runs holds the configuration the adapter recorded. */
    ghost predicate Faithful()
      reads this, backend
      requires Valid()
    {
      state.Started? ==> Holds(Device(), state.settings)
    }

    constructor (b: Backend<Config>)
      requires b.Valid() && b.tunnelHandles == map[]
      ensures Valid() && backend == b && CurrentPhase() == Phase.Off
    {
      backend := b;
      state, networkMonitor, reasserting, monitorsCreated, liveMonitors := Stopped, None, false, 0, {};
    }

    method CancelMonitor(m: nat)
      modifies this`liveMonitors
      ensures liveMonitors == old(liveMonitors) - {m}
    {
      liveMonitors := liveMonitors - {m};
    }

    /** startWireGuardBackend. */
    method StartBackend(config: Config, env: Env) returns (error: Option<AdapterError>, handle: int)
      requires backend.Valid() && backend.tunnelHandles == map[]
      modifies backend
      ensures backend.Valid()
      ensures error == (if !env.fdFound then Some(CannotLocateTunnelFileDescriptor)
                        else if !env.steps.AllSucceed() then Some(StartWireGuardBackend(-1)) else None)
      ensures error != None ==> unchanged(backend)
      ensures error == None ==>
        backend.tunnelHandles == map[handle := [Delivery(Full(config), Accepts)]]
        && backend.history == old(backend.history) + [Event.On(handle, config)]
    {
      hide Backend.Valid;
      if !env.fdFound { return Some(CannotLocateTunnelFileDescriptor), -1; }
      assert 0 !in backend.tunnelHandles;
      handle := backend.TurnOn(config, env.steps);
      if handle < 0 {
        return Some(StartWireGuardBackend(handle)), handle;
      }
      error := None;
    }

    method Start(config: Config, env: Env) returns (error: Option<AdapterError>)
      requires Valid()
      modifies this, backend
      ensures Valid()
      ensures var op := Op.Start(config, env);
        CurrentPhase() == Next(old(CurrentPhase()), op) && error == ErrorOf(old(CurrentPhase()), op)
      ensures error != None ==> backend.history == old(backend.history)
      ensures error == None ==> backend.history == old(backend.history) + [Event.On(state.handle, config)]
      ensures Device() == NextLog(old(Device()), old(CurrentPhase()), Op.Start(config, env))
    {
      hide Backend.Valid;
      if !state.Stopped? { return Some(InvalidState); }
      var monitor := monitorsCreated;
      monitorsCreated := monitorsCreated + 1;
      liveMonitors := liveMonitors + {monitor};
      if !env.resolves { CancelMonitor(monitor); return Some(DnsResolution); }
      if !env.SettingsPass() { CancelMonitor(monitor); return Some(SetNetworkSettings); }
      var handle;
      error, handle := StartBackend(config, env);
      if error != None { CancelMonitor(monitor); return; }
      state := Started(handle, config);
      networkMonitor := Some(monitor);
    }

    method Stop() returns (error: Option<AdapterError>)
      requires Valid()
      modifies this, backend
      ensures Valid()
      ensures CurrentPhase() == Next(old(CurrentPhase()), Op.Stop) && error == ErrorOf(old(CurrentPhase()), Op.Stop)
      ensures backend.history == old(backend.history) + if old(state).Started? then [Event.Off(old(state).handle)]
        else []
      ensures Device() == []
    {
      hide Backend.Valid;
      match state {
        case Started(handle, _) => backend.TurnOff(handle);
        case TemporaryShutdown(_) =>
        case Stopped => return Some(InvalidState);
      }
      if networkMonitor.Some? { CancelMonitor(networkMonitor.value); }
      networkMonitor := None;
      state := Stopped;
      error := None;
    }

    method Update(config: Config, env: Env) returns (error: Option<AdapterError>)
      requires Valid()
      modifies this, backend
      ensures Valid()
      ensures var op := Op.Update(config, env);
        CurrentPhase() == Next(old(CurrentPhase()), op) && error == ErrorOf(old(CurrentPhase()), op)
      ensures old(state).Started? ==> state.Started? && state.handle == old(state).handle
      ensures networkMonitor == old(networkMonitor) && backend.history == old(backend.history)
      ensures Device() == NextLog(old(Device()), old(CurrentPhase()), Op.Update(config, env))
    {
      hide Backend.Valid;
      if state.Stopped? { return Some(InvalidState); }
      reasserting := true;
      if !env.resolves {
        error := Some(DnsResolution);
      } else if !env.SettingsPass() {
        error := Some(SetNetworkSettings);
      } else {
        if state.Started? {
          var _ := backend.SetConfig(state.handle, Full(config), env.answer);
          state := Started(state.handle, config);
        } else {
          state := TemporaryShutdown(config);
        }
        error := None;
      }
      reasserting := false;
    }

    method DidReceivePathUpdate(satisfiable: bool, env: Env)
      requires Valid()
      modifies this, backend
      ensures Valid()
      ensures CurrentPhase() == Next(old(CurrentPhase()), PathUpdate(satisfiable, env))
      ensures networkMonitor == old(networkMonitor)
      ensures backend.history == old(backend.history)
        + if old(state).Started? && !satisfiable then [Event.Off(old(state).handle)]
          else if old(state).TemporaryShutdown? && state.Started? then [Event.On(state.handle, old(state).settings)]
          else []
      ensures old(state).Started? && satisfiable ==> state == old(state)
      ensures Device() == NextLog(old(Device()), old(CurrentPhase()), PathUpdate(satisfiable, env))
    {
      hide Backend.Valid;
      match state {
        case Started(handle, settings) =>
          if satisfiable {
            var _ := backend.SetConfig(handle, Endpoints(settings), env.answer);
          } else {
            state := TemporaryShutdown(settings);
            backend.TurnOff(handle);
          }
        case TemporaryShutdown(settings) =>
          if !satisfiable { return; }
          if !env.SettingsPass() { return; }
          var error, handle := StartBackend(settings, env);
          if error == None { state := Started(handle, settings); }
        case Stopped =>
      }
    }

    /** deinit. */
    method Deinit()
      requires Valid()
      modifies this, backend
      ensures backend.Valid() && backend.tunnelHandles == map[] && liveMonitors == {}
    {
      hide Backend.Valid;
      if networkMonitor.Some? { CancelMonitor(networkMonitor.value); }
      if state.Started? { backend.TurnOff(state.handle); }
    }

    method Perform(op: Op<Config>) returns (error: Option<AdapterError>)
      requires Valid()
      modifies this, backend
      ensures Valid() && CurrentPhase() == Next(old(CurrentPhase()), op) && error == ErrorOf(old(CurrentPhase()), op)
      ensures Device() == NextLog(old(Device()), old(CurrentPhase()), op)
    {
      hide Backend.Valid;
      match op {
        case Start(c, env) => error := Start(c, env);
        case Stop => error := Stop();
        case Update(c, env) => error := Update(c, env);
        case PathUpdate(satisfiable, env) => DidReceivePathUpdate(satisfiable, env); error := None;
      }
    }
  }

  /** How much oftener a handle was turned on than off. */
  ghost function BalanceOf<Config>(history: seq<Event<Config>>, h: int): int {
    Opens(history, h) - Closes(history, h)
  }

  /** Any run of operations on a fresh adapter. */
  method Run<Config>(ops: seq<Op<Config>>) returns (adapter: WireGuardAdapter<Config>)
    ensures adapter.Valid() && adapter.CurrentPhase() == RunPhase(ops)
    ensures adapter.backend.tunnelHandles.Keys == if adapter.state.Started? then {adapter.state.handle} else {}
    ensures forall h ::
      BalanceOf(adapter.backend.history, h) == (if adapter.state.Started? && adapter.state.handle == h then 1 else 0)
    ensures !adapter.state.Stopped? ==> Some(adapter.state.settings) == LastSuccess(ops)
    ensures adapter.Device() == DeviceLog(ops) && (adapter.Faithful() <==> !Unsettled(ops))
  {
    var backend := new Backend<Config>();
    adapter := new WireGuardAdapter<Config>(backend);
    for i := 0 to |ops|
      invariant fresh(adapter) && fresh(adapter.backend)
      invariant adapter.Valid() && adapter.CurrentPhase() == RunPhase(ops[..i])
      invariant adapter.Device() == DeviceLog(ops[..i])
    {
      assert ops[..i + 1][..i] == ops[..i];
      var _ := adapter.Perform(ops[i]);
    }
    assert ops[..|ops|] == ops;
    ConfigIsLastSuccess(ops);
    if RunPhase(ops).Running? { HoldsExactly(ops); } else { NothingRuns(ops); }
    forall h
      ensures BalanceOf(adapter.backend.history, h) ==
        (if adapter.state.Started? && adapter.state.handle == h then 1 else 0)
    {
      ClosedOnceEach(adapter.backend.history, h);
    }
  }

  /** An update reports success although the device refused it.  The adapter records the new
      configuration, and the next change of path sends its endpoints to the device, which has
      accepted only the old one. */
  method RefusedUpdate<Config>(first: Config, second: Config, env: Env) returns (adapter: WireGuardAdapter<Config>)
    requires env.resolves && env.SettingsPass() && env.BackendStarts() && !env.answer.Accepts?
    ensures adapter.Valid() && adapter.CurrentPhase() == Running(second) && !adapter.Faithful()
    ensures adapter.Device() == [Delivery(Full(first), Accepts), Delivery(Full(second), env.answer),
                                 Delivery(Endpoints(second), env.answer)]
  {
    var backend := new Backend<Config>();
    adapter := new WireGuardAdapter<Config>(backend);
    var started := adapter.Start(first, env);
    var updated := adapter.Update(second, env);
    assert started == None && updated == None;
    adapter.DidReceivePathUpdate(true, env);
    ghost var log := adapter.Device();
    assert !Holds(log[..2], second);
    assert log[..2] == [Delivery(Full(first), Accepts), Delivery(Full(second), env.answer)];
  }
}
