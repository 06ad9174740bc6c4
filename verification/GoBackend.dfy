/** tunnel/src/main/java/com/wireguard/android/backend/GoBackend.java over the handle table of
    tunnel/tools/libwg-go/api-android.go. Tunnels and configurations are only ever compared and passed
    on; what Android, DNS and the Go device answer is an input. Calls are atomic steps. */
module GoBackend {
  import opened Wrappers

  datatype State = DOWN | TOGGLE | UP

  /** How bringing a tunnel up ends: refused before the service is ours (no permission, no service),
      refused when it is (no address for a host, no interface), refused by the Go code, up, or up
      and then an exception from what comes after. */
  datatype BringUp = Refused | Unbuilt | GoRefused | Done | Late {
    predicate Fails() { Refused? || Unbuilt? || GoRefused? }
  }

  datatype Outcome = Returned(state: State) | Threw

  const MAX_HANDLE := 0x7fffffff

  // ---- api-android.go ----

  class GoHandles<Settings> {
    var handles: map<int, Settings>

    constructor ()
      ensures handles == map[]
    {
      handles := map[];
    }

    /** wgTurnOn: the lowest free handle, or -1. `created` tells whether the device came up. */
    method TurnOn(settings: Settings, created: bool) returns (h: int)
      modifies this
      ensures h == -1 ==> handles == old(handles)
      ensures h != -1 ==> 0 <= h < MAX_HANDLE && h !in old(handles) && handles == old(handles)[h := settings]
      ensures h != -1 ==> forall k :: 0 <= k < h ==> k in old(handles)
      ensures h != -1 <==> created && exists k :: 0 <= k < MAX_HANDLE && k !in old(handles)
    {
      if !created {
        return -1;
      }
      var i := 0;
      while i < MAX_HANDLE
        invariant 0 <= i <= MAX_HANDLE && forall k :: 0 <= k < i ==> k in handles
      {
        if i !in handles {
          break;
        }
        i := i + 1;
      }
      if i == MAX_HANDLE {
        return -1;
      }
      handles := handles[i := settings];
      h := i;
    }

    method TurnOff(h: int)
      modifies this
      ensures handles == old(handles) - {h}
    {
      if h !in handles {
        return;
      }
      handles := handles - {h};
    }
  }

  // ---- The backend as its callers see it ----

  datatype Running<Tunnel, Config> = Running(tunnel: Tunnel, config: Config)

  /** What setStateInternal(tunnel, config, UP) does when nothing is running. */
  function Raise<T, C>(tunnel: T, config: Option<C>, how: BringUp): (Option<Running<T, C>>, bool) {
    if config.None? || how.Fails() then (None, false)
    else (Some(Running(tunnel, config.value)), how.Done?)
  }

  /** The switch to another tunnel or configuration: the old one goes first, and comes back if the
      new one does not come up. `down` tells whether stopping the old service is quiet; `back` how
      raising the old tunnel again ends. */
  function Switch<T(==), C(==)>(cur: Option<Running<T, C>>, tunnel: T, config: Option<C>, down: bool, how: BringUp,
                                back: BringUp): (Option<Running<T, C>>, bool)
  {
    if cur.Some? && !down then (None, false)
    else
      var (now, ok) := Raise(tunnel, config, how);
      if ok || now.Some? || cur.None? then (now, ok)
      else (Raise(cur.value.tunnel, Some(cur.value.config), back).0, false)
  }

  lemma SwitchAnswers<T, C>(cur: Option<Running<T, C>>, tunnel: T, config: Option<C>, down: bool, how: BringUp,
                            back: BringUp)
    ensures var (now, ok) := Switch(cur, tunnel, config, down, how, back);
      ok ==> config.Some? && now == Some(Running(tunnel, config.value))
  {
  }

  /** setState on the running tunnel, if any: what runs afterwards, and the answer. */
  function Change<T(==), C(==)>(cur: Option<Running<T, C>>, tunnel: T, state: State, config: Option<C>,
                                down: bool, how: BringUp, back: BringUp): (Option<Running<T, C>>, Outcome)
  {
    var original := if cur.Some? && cur.value.tunnel == tunnel then UP else DOWN;
    var wanted := if state.TOGGLE? then (if original.UP? then DOWN else UP) else state;
    if wanted == original == UP && config == Some(cur.value.config) then (cur, Returned(UP))
    else if wanted.UP? then
      var (now, ok) := Switch(cur, tunnel, config, down, how, back);
      (now, if ok then Returned(UP) else Threw)
    else if original.UP? then (None, if down then Returned(DOWN) else Threw)
    else (cur, Returned(DOWN))
  }

  /** The request is to raise another tunnel, or the same one with another configuration. */
  predicate Switches<T(==), C(==)>(cur: Running<T, C>, tunnel: T, state: State, config: Option<C>) {
    if tunnel == cur.tunnel then state.UP? && config != Some(cur.config) else !state.DOWN?
  }

  /** A switch that fails before the new tunnel is up throws, whatever becomes of the old one. That
      one is back if and only if it stopped quietly and came up again. */
  predicate Restores<T(==), C(==)>(cur: Option<Running<T, C>>, tunnel: T, state: State, config: Option<C>, down: bool,
                                   how: BringUp, back: BringUp, after: (Option<Running<T, C>>, Outcome))
  {
    cur.Some? && Switches(cur.value, tunnel, state, config) && (config.None? || how.Fails()) ==>
      after == (if down && !back.Fails() then cur else None, Threw)
  }

  lemma FailedSwitchRestores<T, C>(cur: Option<Running<T, C>>, tunnel: T, state: State, config: Option<C>, down: bool,
                                   how: BringUp, back: BringUp)
    ensures Restores(cur, tunnel, state, config, down, how, back, Change(cur, tunnel, state, config, down, how, back))
  {
  }

  /** UP is answered if and only if this tunnel is the one running, with the configuration asked
      for; an exception never leaves a third tunnel running. */
  lemma AnswerIsTrue<T, C>(cur: Option<Running<T, C>>, tunnel: T, state: State, config: Option<C>, down: bool,
                           how: BringUp, back: BringUp)
    ensures var (now, r) := Change(cur, tunnel, state, config, down, how, back);
      && (r == Returned(UP) ==> now.Some? && now.value.tunnel == tunnel && config == Some(now.value.config))
      && (r == Returned(DOWN) ==> now.None? || now.value.tunnel != tunnel)
      && r != Returned(TOGGLE)
      && (now.Some? ==> now == cur || (now.value.tunnel == tunnel && config == Some(now.value.config)))
  {
  }

  // ---- GoBackend ----

  class GoBackend<Tunnel(==, !new), Config(==, !new)> {
    var currentTunnel: Option<Tunnel>
    var currentConfig: Option<Config>
    var currentTunnelHandle: int
    /** Whether the running VpnService has this backend as its owner. */
    var owned: bool
    const go: GoHandles<Config>

    constructor ()
      ensures Valid() && Current() == None && fresh(go)
    {
      currentTunnel, currentConfig, currentTunnelHandle, owned := None, None, -1, false;
      go := new GoHandles();
    }

    /** All set or all unset, and the Go side holds exactly that one device. */
    ghost predicate Valid()
      reads this, go
    {
      && (currentTunnel.Some? <==> currentConfig.Some?)
      && (currentTunnel.Some? <==> currentTunnelHandle != -1)
      && (currentTunnel.Some? ==> owned)
      && go.handles == if currentTunnel.Some? then map[currentTunnelHandle := currentConfig.value] else map[]
    }

    ghost function Current(): Option<Running<Tunnel, Config>>
      reads this
    {
      if currentTunnel.Some? && currentConfig.Some? then Some(Running(currentTunnel.value, currentConfig.value))
      else None
    }

    function GetState(tunnel: Tunnel): (s: State)
      requires Valid()
      reads this, go
      ensures s == UP <==> Current().Some? && Current().value.tunnel == tunnel
      ensures s != TOGGLE
    {
      if currentTunnel == Some(tunnel) then UP else DOWN
    }

    /** The UP half of setStateInternal. False is an exception. */
    method BringUpInternal(tunnel: Tunnel, config: Option<Config>, how: BringUp) returns (ok: bool)
      requires Valid()
      modifies this, go
      ensures Valid()
      ensures old(Current()).Some? ==> Current() == old(Current())
      ensures old(Current()).None? ==> (Current(), ok) == Raise(tunnel, config, how)
      ensures owned == (old(owned) || (config.Some? && !how.Refused?))
    {
      if config.None? {
        return false;
      }
      if how.Refused? {
        return false;
      }
      owned := true;
      if currentTunnelHandle != -1 {
        return true;
      }
      if how.Unbuilt? {
        return false;
      }
      assert 0 !in go.handles;
      currentTunnelHandle := go.TurnOn(config.value, !how.GoRefused?);
      if currentTunnelHandle < 0 {
        return false;
      }
      currentTunnel := Some(tunnel);
      currentConfig := config;
      ok := how.Done?;
    }

    /** The DOWN half. */
    method TearDownInternal(down: bool) returns (ok: bool)
      requires Valid()
      modifies this, go
      ensures Valid() && Current() == None
      ensures ok == (old(Current()).None? || down)
    {
      if currentTunnelHandle == -1 {
        return true;
      }
      var handleToClose := currentTunnelHandle;
      currentTunnel := None;
      currentTunnelHandle := -1;
      currentConfig := None;
      go.TurnOff(handleToClose);
      ok := down;
    }

    /** The UP branch of setState. */
    method SwitchTo(tunnel: Tunnel, config: Option<Config>, down: bool, how: BringUp, back: BringUp) returns (ok: bool)
      requires Valid()
      modifies this, go
      ensures Valid()
      ensures (Current(), ok) == Switch(old(Current()), tunnel, config, down, how, back)
    {
      var originalConfig, originalTunnel := currentConfig, currentTunnel;
      if currentTunnel.Some? {
        var quiet := TearDownInternal(down);
        if !quiet {
          return false;
        }
      }
      ok := BringUpInternal(tunnel, config, how);
      if !ok {
        if originalTunnel.Some? {
          var _ := BringUpInternal(originalTunnel.value, originalConfig, back);
        }
      }
    }

    method SetState(tunnel: Tunnel, wanted: State, config: Option<Config>, down: bool, how: BringUp, back: BringUp)
      returns (r: Outcome)
      requires Valid()
      modifies this, go
      ensures Valid()
      ensures (Current(), r) == Change(old(Current()), tunnel, wanted, config, down, how, back)
      ensures Restores(old(Current()), tunnel, wanted, config, down, how, back, (Current(), r))
    {
      hide Switch, Raise, Restores;
      FailedSwitchRestores(Current(), tunnel, wanted, config, down, how, back);
      var originalState := GetState(tunnel);
      var state := wanted;
      if state.TOGGLE? {
        state := if originalState.UP? then DOWN else UP;
      }
      if state == originalState && currentTunnel == Some(tunnel) && config == currentConfig {
        return Returned(originalState);
      }
      if state.UP? {
        SwitchAnswers(Current(), tunnel, config, down, how, back);
        var ok := SwitchTo(tunnel, config, down, how, back);
        if !ok {
          return Threw;
        }
      } else if currentTunnel == Some(tunnel) {
        var quiet := TearDownInternal(down);
        if !quiet {
          return Threw;
        }
      }
      r := Returned(GetState(tunnel));
    }

    /** VpnService.onDestroy; the next service has no owner until a tunnel is raised. */
    method OnDestroy()
      requires Valid()
      modifies this, go
      ensures Valid() && Current() == None && !owned
    {
      if owned {
        if currentTunnel.Some? {
          if currentTunnelHandle != -1 {
            go.TurnOff(currentTunnelHandle);
          }
          currentTunnel := None;
          currentTunnelHandle := -1;
          currentConfig := None;
        }
      }
      owned := false;
    }
  }

  // ---- Whole runs ----

  datatype Step<Tunnel, Config> =
    | Set(tunnel: Tunnel, state: State, config: Option<Config>, down: bool, how: BringUp, back: BringUp)
    | Destroy

  /** The same steps on the abstract state. */
  function RunOf<T(==), C(==)>(steps: seq<Step<T, C>>): Option<Running<T, C>> {
    if steps == [] then None
    else
      var cur, s := RunOf(steps[..|steps| - 1]), steps[|steps| - 1];
      if s.Destroy? then None else Change(cur, s.tunnel, s.state, s.config, s.down, s.how, s.back).0
  }

  /** Over every run from a fresh backend, with any failures, what runs is what the abstract
      machine says, all three fields agree, and the Go table holds that one device and no other. */
  method Run<T(==, !new), C(==, !new)>(steps: seq<Step<T, C>>) returns (running: Option<Running<T, C>>,
               table: map<int, C>, handle: int)
    ensures running == RunOf(steps)
    ensures running.None? ==> handle == -1 && table == map[]
    ensures running.Some? ==> handle != -1 && table == map[handle := running.value.config]
  {
    var b := new GoBackend<T, C>();
    var i := 0;
    while i < |steps|
      invariant 0 <= i <= |steps| && fresh(b) && fresh(b.go) && b.Valid() && b.Current() == RunOf(steps[..i])
    {
      var s := steps[i];
      assert steps[..i + 1][..i] == steps[..i];
      if s.Destroy? {
        b.OnDestroy();
      } else {
        var _ := b.SetState(s.tunnel, s.state, s.config, s.down, s.how, s.back);
      }
      i := i + 1;
    }
    assert steps[..i] == steps;
    running := if b.currentTunnel.Some? then Some(Running(b.currentTunnel.value, b.currentConfig.value)) else None;
    table, handle := b.go.handles, b.currentTunnelHandle;
  }

  /** Whatever runs at the end of a run was asked for by one of its steps, and not by one before
      the last destruction of the service. */
  lemma {:induction false} RunningWasAskedFor<T, C>(steps: seq<Step<T, C>>)
    ensures RunOf(steps).Some? ==>
      exists k :: 0 <= k < |steps| && AsksFor(steps[k], RunOf(steps).value) && NoDestroy(steps, k + 1)
  {
    if steps != [] {
      var n := |steps| - 1;
      var s := steps[n];
      RunningWasAskedFor(steps[..n]);
      if RunOf(steps).Some? {
        AnswerIsTrue(RunOf(steps[..n]), s.tunnel, s.state, s.config, s.down, s.how, s.back);
        if RunOf(steps) == RunOf(steps[..n]) {
          var k :| 0 <= k < n && AsksFor(steps[..n][k], RunOf(steps).value) && NoDestroy(steps[..n], k + 1);
          assert AsksFor(steps[k], RunOf(steps).value);
          forall m | k < m < |steps| ensures !steps[m].Destroy? {
            if m < n {
              assert steps[..n][m] == steps[m];
            }
          }
        } else {
          assert AsksFor(steps[n], RunOf(steps).value);
        }
      }
    }
  }

  predicate NoDestroy<T, C>(steps: seq<Step<T, C>>, from: nat) {
    forall m :: from <= m < |steps| ==> !steps[m].Destroy?
  }

  predicate AsksFor<T(==), C(==)>(s: Step<T, C>, r: Running<T, C>) {
    s.Set? && s.tunnel == r.tunnel && s.config == Some(r.config) && !s.state.DOWN?
  }
}
