/**
 The tunnel manager: mode, target and actual state, network reachability, detection of
 UDP by probing mirrors, the client's lifetime, and the locked event queue.

 `Manager` is the value of the manager's fields; its functions say what each operation
 does, with what foreign code answers meanwhile in an `Env`. The class does the same
 step by step.
 */
module Tunnel {
  import opened Lists

  datatype Mode = Enable | Disable | Auto

  datatype Activity = Off | On

  datatype Event = TunnelEvent(connected: bool) | MirrorEvent(haveUdp: bool)

  datatype Server = Server(addr: string, port: int)

  datatype ServerPair = ServerPair(addr1: string, port1: int, addr2: string, port2: int)

  datatype Mirror = Mirror(addr: string, port: int, delay: int)

  /** The tunnel client object, as far as the manager sees it. */
  datatype Client = Client(started: bool)

  /** Answers of foreign code during one operation: whether the client is ready, how
      many calls run, and the id a new background task gets (0 when there is none). */
  datatype Env = Env(ready: bool, calls: nat, task: nat)

  /** `current` is the mirror being probed; nothing is the end of the list. */
  datatype Manager = Manager(
    mode: Mode,
    target: Activity,
    state: Activity,
    reachable: bool,
    client: Option<Client>,
    detecting: bool,
    current: Option<nat>,
    mirrors: seq<Mirror>,
    servers: seq<Server>,
    pairs: seq<ServerPair>,
    dual: bool,
    simulateLoss: bool,
    taskId: nat,
    tasks: multiset<nat>,
    probes: seq<nat>)
  {
    // ------------------------------------------------------------ the client

    predicate ClientStarted() {
      client.Some? && client.value.started
    }

    function StartClient(): Manager {
      this.(client := Some(Client(true)))
    }

    function StopClient(calls: nat): Manager {
      if client.None? then this
      else this.(client := if calls == 0 then None else Some(Client(false)))
    }

    /** applyState: nothing happens while the network is unreachable. */
    function ApplyState(env: Env): Manager {
      if !reachable then this
      else if target == On && state == Off then
        var m := if ClientStarted() then this else StartClient();
        if env.ready then m.(state := On) else m
      else if target == Off && state == On then
        this.(state := Off).StopClient(env.calls)
      else this
    }

    function SetTarget(to: Activity, env: Env): Manager {
      this.(target := to).ApplyState(env)
    }

    // ------------------------------------------------------------ detection

    function EndTask(): Manager {
      if taskId == 0 then this else this.(tasks := tasks - multiset{taskId}, taskId := 0)
    }

    function BeginTask(id: nat): Manager {
      if taskId != 0 then this
      else this.(taskId := id, tasks := if id == 0 then tasks else tasks + multiset{id})
    }

    /** startAutoDetection: begins again at the first mirror, if there is one. */
    function StartDetection(env: Env): Manager {
      if mirrors == [] then this
      else this.(current := Some(0)).BeginTask(env.task).(detecting := true, probes := probes + [0])
    }

    function StopDetection(): Manager {
      if detecting then this.(detecting := false).EndTask() else this
    }

    /** A probe result reaches a detection only with the iterator on a mirror: the source
        looks at that mirror first, so at the end of the list nothing can be said. */
    predicate CanHandle(ev: Event) {
      ev.MirrorEvent? && detecting ==> current.Some?
    }

    /** The mirror after index i, or the end of the list. */
    function MirrorAfter(i: nat): Option<nat> {
      if i + 1 < |mirrors| then Some(i + 1) else None
    }

    /** processUdpMirrorEvent: the next mirror after a failure, a decision otherwise.
        Meaningless unless the event can be handled. */
    function MirrorResult(haveUdp: bool, env: Env): Manager {
      if !detecting || current.None? then this
      else if simulateLoss || !haveUdp then
        var m := this.(current := MirrorAfter(current.value));
        if m.current.Some? then m.(probes := probes + [m.current.value])
        else m.SetTarget(On, env).(detecting := false).EndTask()
      else SetTarget(Off, env).(detecting := false).EndTask()
    }

    function Handle(ev: Event, env: Env): Manager {
      match ev
      case TunnelEvent(connected) => if connected then ApplyState(env) else this
      case MirrorEvent(haveUdp) => MirrorResult(haveUdp, env)
    }

    // ------------------------------------------------------------ the interface

    function SetMode(to: Mode, env: Env): Manager {
      if mode == to then this
      else
        var m := this.(mode := to);
        match to
        case Enable => m.StopDetection().SetTarget(On, env)
        case Disable => m.StopDetection().SetTarget(Off, env)
        case Auto => if reachable then m.StartDetection(env) else m
    }

    /** A change of reachability and its callback. */
    function Reachable(to: bool, env: Env): Manager {
      var m := this.(reachable := to);
      if to then (if mode == Auto then m.StartDetection(env) else m.ApplyState(env))
      else m.StopDetection().(state := Off).StopClient(env.calls)
    }

    /** The iterator goes to the end of the list, and stays there when mirrors are added. */
    function CleanServers(): Manager {
      this.(servers := [], pairs := []).EndTask().(mirrors := [], current := None)
    }

    function AddServer(ip: Option<string>, port: int): Manager {
      if ip.None? || dual then this else this.(servers := servers + [Server(ip.value, port)])
    }

    /** addServer with a mirror: the mirror is added even where the server is refused. */
    function AddServerWithMirror(ip: Option<string>, port: int, mirrorPort: int, delay: int): Manager {
      if ip.None? then this
      else AddServer(ip, port).(mirrors := mirrors + [Mirror(ip.value, mirrorPort, delay)])
    }

    function AddPair(ip1: Option<string>, port1: int, ip2: Option<string>, port2: int): Manager {
      if ip1.None? || ip2.None? || !dual then this
      else this.(pairs := pairs + [ServerPair(ip1.value, port1, ip2.value, port2)])
    }

    function AddPairWithMirror(
        ip1: Option<string>, port1: int, ip2: Option<string>, port2: int, mirrorPort: int, delay: int): Manager {
      if ip1.None? || ip2.None? then this
      else AddPair(ip1, port1, ip2, port2).(mirrors := mirrors + [Mirror(ip1.value, mirrorPort, delay)])
    }

    // ------------------------------------------------------------ the invariant

    predicate Inv() {
      && (detecting ==> mode == Auto && reachable && current.Some?)
      && (current.Some? ==> current.value < |mirrors|)
      && (!reachable ==> state == Off)
      && (state == On ==> target == On && ClientStarted())
      && (mode == Enable ==> target == On)
      && (mode == Disable ==> target == Off)
      && TaskInv()
    }

    /** At most one background task lives, the one whose id is stored. */
    predicate OneTask() {
      tasks == if taskId == 0 then multiset{} else multiset{taskId}
    }

    /** It lives only during a detection. */
    predicate TaskInv() {
      OneTask() && (!detecting ==> taskId == 0)
    }

    /** The invariant while the actual state has yet to follow the target. */
    predicate Unsettled() {
      && (detecting ==> mode == Auto && reachable && current.Some?)
      && (current.Some? ==> current.value < |mirrors|)
      && (!reachable ==> state == Off)
      && (state == On ==> ClientStarted())
      && (mode == Enable ==> target == On)
      && (mode == Disable ==> target == Off)
      && TaskInv()
    }

    /** Applying the state changes at most the actual state and the client. */
    lemma AfterApplyState(env: Env)
      requires state == On ==> ClientStarted()
      ensures var r := ApplyState(env);
              && r == this.(state := r.state, client := r.client)
              && (r.state == On ==> r.ClientStarted())
              && (reachable && r.state == On ==> target == On)
              && (reachable && target == On ==> r.ClientStarted())
              && (!reachable ==> r == this)
              && (reachable && target == On ==> r.state == if state == On || env.ready then On else Off)
              && (reachable && target == Off ==> r.state == Off)
              && (reachable && target == Off && state == On ==> r.IsStopped(this, env.calls))
              && (target == state ==> r == this)
    {
    }

    /** What stopping leaves of the client there was: nothing, or as long as calls run, an
        object that is no longer started. */
    predicate IsStopped(before: Manager, calls: nat) {
      && !ClientStarted()
      && (client.Some? <==> before.client.Some? && calls > 0)
    }

    lemma ClientStops(calls: nat)
      ensures StopClient(calls) == this.(client := StopClient(calls).client) && StopClient(calls).IsStopped(this, calls)
    {
    }

    lemma ApplyStateSettles(env: Env)
      requires Unsettled()
      ensures ApplyState(env).Inv()
    {
      hide ApplyState;
      AfterApplyState(env);
    }

    lemma TaskEnds()
      requires TaskInv()
      ensures EndTask() == this.(tasks := multiset{}, taskId := 0)
      ensures StopDetection() == this.(detecting := false, tasks := multiset{}, taskId := 0)
      ensures StopDetection().TaskInv()
    {
    }

    lemma DetectionStarts(env: Env)
      requires TaskInv() && mirrors != []
      ensures var m := StartDetection(env);
              m == this.(current := Some(0), detecting := true, probes := probes + [0], taskId := m.taskId, tasks := m.tasks)
              && m.TaskInv()
    {
    }

    lemma SetModeKeepsInv(to: Mode, env: Env)
      requires Inv()
      ensures SetMode(to, env).Inv()
    {
      hide TaskInv, StartDetection, StopDetection, ApplyState;
      var m := this.(mode := to);
      assert m.TaskInv() by {
        SameTask(m);
      }
      m.TaskEnds();
      if to == Auto {
        if mirrors != [] {
          m.DetectionStarts(env);
        } else {
          m.NoDetection(env);
        }
      } else {
        var target := if to == Enable then On else Off;
        var n := m.StopDetection().(target := target);
        m.StopDetection().SameTask(n);
        n.ApplyStateSettles(env);
      }
    }

    /** What a change of mode achieves: a fixed mode ends a detection and sets the target,
        the automatic one starts probing when it can and decides nothing yet. */
    lemma AfterSetMode(to: Mode, env: Env)
      requires Inv() && mode != to
      ensures var r := SetMode(to, env);
              && r.mode == to && r.reachable == reachable && r.mirrors == mirrors
              && match to
                 case Enable =>
                   && !r.detecting && r.taskId == 0 && r.target == On && (reachable ==> r.ClientStarted())
                   && (reachable ==> r.state == if state == On || env.ready then On else Off)
                 case Disable =>
                   && !r.detecting && r.taskId == 0 && r.target == Off && r.state == Off
                   && (state == On ==> r.IsStopped(this, env.calls))
                 case Auto =>
                   && r.target == target && r.state == state && r.client == client
                   && (r.detecting <==> reachable && mirrors != [])
                   && (r.detecting ==> r.current == Some(0) && r.probes == probes + [0])
    {
      hide TaskInv, StopDetection, StartDetection, ApplyState;
      SetModeKeepsInv(to, env);
      var m := this.(mode := to);
      assert m.TaskInv() by {
        SameTask(m);
      }
      if to == Auto {
        if mirrors != [] {
          m.DetectionStarts(env);
        } else {
          m.NoDetection(env);
        }
      } else {
        m.TaskEnds();
        m.StopDetection().(target := if to == Enable then On else Off).AfterApplyState(env);
      }
    }

    /** What a change of the network achieves: lost, the tunnel is off and its client
        stopped; found, probing begins anew or the state follows the target. */
    lemma AfterReachable(to: bool, env: Env)
      requires Inv()
      ensures var r := Reachable(to, env);
              && r.reachable == to && r.mode == mode && r.target == target && r.mirrors == mirrors
              && if !to then !r.detecting && r.taskId == 0 && r.state == Off && r.IsStopped(this, env.calls)
                 else if mode == Auto then
                   && r.state == state && r.client == client
                   && (mirrors != [] ==> r.detecting && r.current == Some(0) && r.probes == probes + [0])
                   && (mirrors == [] ==> r == this.(reachable := true))
                 else
                   && !r.detecting && (target == On ==> r.ClientStarted()) && (target == Off ==> r.state == Off)
                   && (target == On ==> r.state == if state == On || env.ready then On else Off)
    {
      hide TaskInv, StopDetection, StartDetection, ApplyState;
      ReachableKeepsInv(to, env);
      var m := this.(reachable := to);
      assert m.TaskInv() by {
        SameTask(m);
      }
      m.TaskEnds();
      if to && mode == Auto {
        if mirrors != [] {
          m.DetectionStarts(env);
        } else {
          m.NoDetection(env);
        }
      } else if to {
        m.AfterApplyState(env);
      }
    }

    /** The task invariant is about three fields only. */
    lemma SameTask(m: Manager)
      requires TaskInv() && m.taskId == taskId && m.tasks == tasks && (m.detecting || !detecting || taskId == 0)
      ensures m.TaskInv()
    {
    }

    lemma NoDetection(env: Env)
      requires mirrors == []
      ensures StartDetection(env) == this
    {
    }

    lemma ReachableKeepsInv(to: bool, env: Env)
      requires Inv()
      ensures Reachable(to, env).Inv()
    {
      hide TaskInv, StartDetection, StopDetection, ApplyState;
      var m := this.(reachable := to);
      SameTask(m);
      m.TaskEnds();
      if to && mode == Auto {
        if mirrors != [] {
          m.DetectionStarts(env);
        } else {
          m.NoDetection(env);
        }
      } else if to {
        m.ApplyStateSettles(env);
      } else {
        m.StopDetection().SameTask(m.StopDetection().(state := Off).StopClient(env.calls));
      }
    }

    /** A decision: the target is set, the detection and its task are over. */
    lemma AfterDecision(to: Activity, env: Env)
      requires TaskInv() && mode == Auto && reachable && (state == On ==> ClientStarted())
      ensures var r := SetTarget(to, env).(detecting := false).EndTask();
              && r == this.(target := to, state := r.state, client := r.client,
                            detecting := false, taskId := 0, tasks := multiset{})
              && (r.state == On ==> to == On) && (to == On ==> r.ClientStarted())
              && (to == On ==> r.state == if state == On || env.ready then On else Off)
              && (to == Off && state == On ==> r.IsStopped(this, env.calls))
    {
      hide ApplyState;
      this.(target := to).AfterApplyState(env);
    }

    /** The three ways a probe result can go. */
    lemma AfterMirrorResult(haveUdp: bool, env: Env)
      requires Inv() && detecting
      ensures var r := MirrorResult(haveUdp, env);
              && r.Inv() && r.mirrors == mirrors && r.simulateLoss == simulateLoss
              && if haveUdp && !simulateLoss then
                   && !r.detecting && r.target == Off && r.state == Off && r.probes == probes
                   && (state == On ==> r.IsStopped(this, env.calls))
                 else if current.value + 1 < |mirrors| then
                   r == this.(current := Some(current.value + 1), probes := probes + [current.value + 1])
                 else
                   && !r.detecting && r.target == On && r.ClientStarted() && r.probes == probes
                   && r.state == if state == On || env.ready then On else Off
    {
      hide ApplyState, SetTarget, EndTask;
      if haveUdp && !simulateLoss {
        AfterDecision(Off, env);
      } else if current.value + 1 == |mirrors| {
        this.(current := None).AfterDecision(On, env);
      }
    }

    /** Cleaning the servers keeps the invariant exactly when no detection runs. */
    lemma CleanKeepsInvExactly()
      requires Inv()
      ensures CleanServers().Inv() <==> !detecting
    {
    }
  }

  // ---------------------------------------------------------------- all steps

  datatype Step =
    | ChangeMode(mode: Mode)
    | ChangeNetwork(reachable: bool)
    | HandleEvent(ev: Event)
    | Clean
    | NewServer(ip: Option<string>, port: int)
    | NewServerWithMirror(ip: Option<string>, port: int, mirrorPort: int, delay: int)
    | NewPair(ip1: Option<string>, port1: int, ip2: Option<string>, port2: int)
    | NewPairWithMirror(ip1: Option<string>, port1: int, ip2: Option<string>, port2: int, mirrorPort: int, delay: int)
    | EnableDual(dual: bool)
    | SimulateLoss(loss: bool)

  function Do(m: Manager, step: Step, env: Env): Manager {
    match step
    case ChangeMode(mode) => m.SetMode(mode, env)
    case ChangeNetwork(reachable) => m.Reachable(reachable, env)
    case HandleEvent(ev) => m.Handle(ev, env)
    case Clean => m.CleanServers()
    case NewServer(ip, port) => m.AddServer(ip, port)
    case NewServerWithMirror(ip, port, mirrorPort, delay) => m.AddServerWithMirror(ip, port, mirrorPort, delay)
    case NewPair(ip1, port1, ip2, port2) => m.AddPair(ip1, port1, ip2, port2)
    case NewPairWithMirror(ip1, port1, ip2, port2, mirrorPort, delay) =>
      m.AddPairWithMirror(ip1, port1, ip2, port2, mirrorPort, delay)
    case EnableDual(dual) => m.(dual := dual)
    case SimulateLoss(loss) => m.(simulateLoss := loss)
  }

  function DoAll(m: Manager, steps: seq<(Step, Env)>): Manager
    decreases |steps|
  {
    if steps == [] then m else DoAll(Do(m, steps[0].0, steps[0].1), steps[1..])
  }

  /** No step of the run cleans the servers while a detection runs. */
  predicate CleansIdle(m: Manager, steps: seq<(Step, Env)>)
    decreases |steps|
  {
    steps != [] ==>
      && (steps[0].0.Clean? ==> !m.detecting)
      && CleansIdle(Do(m, steps[0].0, steps[0].1), steps[1..])
  }

  const Initial := Manager(
    Disable, Off, Off, false, None, false, None, [], [], [], false, false, 0, multiset{}, [])

  lemma EventKeepsInv(m: Manager, ev: Event, env: Env)
    requires m.Inv()
    ensures m.Handle(ev, env).Inv() && m.CanHandle(ev)
  {
    hide Manager.ApplyState, Manager.MirrorResult, Manager.TaskInv;
    match ev
    case TunnelEvent(_) => m.ApplyStateSettles(env);
    case MirrorEvent(haveUdp) =>
      if m.detecting {
        m.AfterMirrorResult(haveUdp, env);
      } else {
        NotDetecting(m, haveUdp, env);
      }
  }

  lemma NotDetecting(m: Manager, haveUdp: bool, env: Env)
    requires !m.detecting
    ensures m.MirrorResult(haveUdp, env) == m
  {
  }

  predicate AddsOrSets(step: Step) {
    step.NewServer? || step.NewServerWithMirror? || step.NewPair? || step.NewPairWithMirror?
    || step.EnableDual? || step.SimulateLoss?
  }

  /** Adding servers and setting flags leaves everything the invariant is about alone,
      but for a mirror more. */
  predicate OnlyAdded(m: Manager, r: Manager) {
    && r == m.(servers := r.servers, pairs := r.pairs, mirrors := r.mirrors, dual := r.dual,
               simulateLoss := r.simulateLoss)
    && |m.mirrors| <= |r.mirrors|
  }

  lemma ServerOnlyAdds(m: Manager, ip: Option<string>, port: int, mirrorPort: int, delay: int)
    ensures OnlyAdded(m, m.AddServer(ip, port))
    ensures OnlyAdded(m, m.AddServerWithMirror(ip, port, mirrorPort, delay))
  {
  }

  lemma PairOnlyAdds(
      m: Manager, ip1: Option<string>, port1: int, ip2: Option<string>, port2: int, mirrorPort: int, delay: int)
    ensures OnlyAdded(m, m.AddPair(ip1, port1, ip2, port2))
    ensures OnlyAdded(m, m.AddPairWithMirror(ip1, port1, ip2, port2, mirrorPort, delay))
  {
  }

  lemma AddingOnlyAdds(m: Manager, step: Step, env: Env)
    requires AddsOrSets(step)
    ensures OnlyAdded(m, Do(m, step, env))
  {
    hide Manager.AddServer, Manager.AddServerWithMirror, Manager.AddPair, Manager.AddPairWithMirror;
    match step
    case NewServer(ip, port) => ServerOnlyAdds(m, ip, port, 0, 0);
    case NewServerWithMirror(ip, port, mirrorPort, delay) => ServerOnlyAdds(m, ip, port, mirrorPort, delay);
    case NewPair(ip1, port1, ip2, port2) => PairOnlyAdds(m, ip1, port1, ip2, port2, 0, 0);
    case NewPairWithMirror(ip1, port1, ip2, port2, mirrorPort, delay) =>
      PairOnlyAdds(m, ip1, port1, ip2, port2, mirrorPort, delay);
    case _ =>
  }

  lemma AddedKeepsInv(m: Manager, r: Manager)
    requires OnlyAdded(m, r)
    ensures m.Inv() ==> r.Inv()
    ensures m.OneTask() == r.OneTask()
  {
  }

  lemma StepKeepsInv(m: Manager, step: Step, env: Env)
    requires m.Inv() && (step.Clean? ==> !m.detecting)
    ensures Do(m, step, env).Inv()
  {
    hide Manager.Inv, Manager.Handle, Manager.SetMode, Manager.Reachable, Manager.CleanServers;
    match step
    case ChangeMode(mode) => m.SetModeKeepsInv(mode, env);
    case ChangeNetwork(reachable) => m.ReachableKeepsInv(reachable, env);
    case HandleEvent(ev) => EventKeepsInv(m, ev, env);
    case Clean => m.CleanKeepsInvExactly();
    case _ =>
      AddingOnlyAdds(m, step, env);
      AddedKeepsInv(m, Do(m, step, env));
  }

  /** The invariant holds in every reachable state: whatever calls, network changes and
      events, in any order, with any answers of foreign code. */
  lemma {:induction false} InvariantAlwaysHolds(m: Manager, steps: seq<(Step, Env)>)
    requires m.Inv() && CleansIdle(m, steps)
    ensures DoAll(m, steps).Inv()
    decreases |steps|
  {
    if steps != [] {
      StepKeepsInv(m, steps[0].0, steps[0].1);
      InvariantAlwaysHolds(Do(m, steps[0].0, steps[0].1), steps[1..]);
    }
  }

  /** A run that cleans the servers during a detection: the next probe result meets the
      iterator at the end of the list. */
  lemma CleanDuringDetection(ip: string, port: int, mirrorPort: int, delay: int, env: Env)
    ensures var steps := [(NewServerWithMirror(Some(ip), port, mirrorPort, delay), env), (ChangeNetwork(true), env),
                          (ChangeMode(Auto), env), (Clean, env)];
            var m := DoAll(Initial, steps);
            m.detecting && !m.CanHandle(MirrorEvent(false)) && !m.Inv()
  {
    var steps := [(NewServerWithMirror(Some(ip), port, mirrorPort, delay), env), (ChangeNetwork(true), env),
                  (ChangeMode(Auto), env), (Clean, env)];
    var a := Do(Initial, steps[0].0, env);
    var b := Do(a, steps[1].0, env);
    var c := Do(b, steps[2].0, env);
    assert a.mirrors == [Mirror(ip, mirrorPort, delay)];
    assert b == a.(reachable := true);
    assert c.detecting && c.mirrors == a.mirrors;
    assert steps[1..][1..] == steps[2..] && steps[2..][1..] == steps[3..] && steps[3..][1..] == [];
    hide Do;
    assert DoAll(Initial, steps) == DoAll(a, steps[1..]);
    assert DoAll(a, steps[1..]) == DoAll(b, steps[2..]);
    assert DoAll(b, steps[2..]) == DoAll(c, steps[3..]);
    assert DoAll(c, steps[3..]) == DoAll(Do(c, Clean, env), []);
  }

  /** From the constructor on: a disabled tunnel is off, an unreachable network means off,
      and the tunnel is on only with a started client and a target of on. */
  lemma ReachableStates(reachable: bool, steps: seq<(Step, Env)>)
    requires CleansIdle(Initial.(reachable := reachable), steps)
    ensures var m := DoAll(Initial.(reachable := reachable), steps);
            && m.Inv()
            && (m.mode == Disable || !m.reachable ==> m.state == Off)
            && (m.state == On ==> m.target == On && m.ClientStarted())
            && (m.detecting ==> m.mode == Auto && m.reachable && m.current.Some? && m.current.value < |m.mirrors|)
  {
    InvariantAlwaysHolds(Initial.(reachable := reachable), steps);
  }

  // ------------------------------------------------------- detection decides

  function HandleAll(m: Manager, evs: seq<Event>, env: nat -> Env, k: nat): Manager
    decreases |evs|
  {
    if evs == [] then m else HandleAll(m.Handle(evs[0], env(k)), evs[1..], env, k + 1)
  }

  /** The probe results among the events, in order. */
  function ProbeResults(evs: seq<Event>): seq<bool> {
    if evs == [] then []
    else (if evs[0].MirrorEvent? then [evs[0].haveUdp] else []) + ProbeResults(evs[1..])
  }

  /** How many probes fail before the first that succeeds. */
  function Failures(loss: bool, rs: seq<bool>): (n: nat)
    ensures n <= |rs|
    ensures n < |rs| ==> rs[n] && !loss
    ensures forall i :: 0 <= i < n ==> loss || !rs[i]
  {
    if rs == [] || (rs[0] && !loss) then 0 else 1 + Failures(loss, rs[1..])
  }

  function Count(from: nat, n: nat): (s: seq<nat>)
    ensures |s| == n && forall i :: 0 <= i < n ==> s[i] == from + i
  {
    seq(n, i => from + i)
  }

  lemma CountCons(from: nat, n: nat)
    ensures [from] + Count(from + 1, n) == Count(from, n + 1)
  {
  }

  /** What a detection running in m comes to after n results, the first `failed` of them
      failures: the mirrors still to go are probed in list order, each once; the first
      success turns the tunnel off, the failure of all turns it on. */
  predicate Outcome(m: Manager, failed: nat, n: nat, end: Manager)
    requires m.current.Some?
  {
    var (at, left) := (m.current.value, |m.mirrors| - m.current.value);
    if left <= failed then
      && !end.detecting && end.target == On && end.ClientStarted()
      && left >= 1 && end.probes == m.probes + Count(at + 1, left - 1)
    else if failed < n then
      && !end.detecting && end.target == Off && end.state == Off
      && end.probes == m.probes + Count(at + 1, failed)
    else
      && end.detecting && end.target == m.target
      && end.current == Some(at + n) && end.probes == m.probes + Count(at + 1, n)
  }

  /** One failure more in front. */
  lemma OutcomeStep(m: Manager, next: Manager, failed: nat, n: nat, end: Manager)
    requires m.current.Some? && failed <= n && m.current.value + 1 < |m.mirrors|
    requires next == m.(current := Some(m.current.value + 1), probes := m.probes + [m.current.value + 1])
    requires Outcome(next, failed, n, end)
    ensures Outcome(m, failed + 1, n + 1, end)
  {
    var (at, left) := (m.current.value, |m.mirrors| - m.current.value - 1);
    var k := if left <= failed then left - 1 else if failed < n then failed else n;
    CountCons(at + 1, k);
    Assoc(m.probes, [at + 1], Count(at + 2, k));
    hide Count;
  }

  lemma NothingCounted(m: Manager, from: nat)
    ensures m.probes + Count(from, 0) == m.probes
  {
  }

  /** Whatever events come, in whatever order: only the results among them decide, and
      events of the tunnel in between or afterwards do not change the decision. */
  lemma {:induction false} DetectionDecides(m: Manager, evs: seq<Event>, env: nat -> Env, k: nat)
    requires m.Inv() && m.detecting
    ensures HandleAll(m, evs, env, k).Inv()
    ensures Outcome(m, Failures(m.simulateLoss, ProbeResults(evs)), |ProbeResults(evs)|, HandleAll(m, evs, env, k))
    decreases |evs|
  {
    if evs == [] {
      NothingYet(m);
    } else if evs[0].MirrorEvent? {
      ResultDecides(m, evs, env, k);
    } else {
      hide ProbeResults, Failures, Count, Outcome, Manager.Inv, HandleAll, Manager.Handle;
      var next, rest := m.Handle(evs[0], env(k)), evs[1..];
      TunnelEventLeavesDetection(m, evs[0], env(k));
      SkipTunnelEvent(m, evs, env, k);
      DetectionDecides(next, rest, env, k + 1);
      var rs := ProbeResults(rest);
      SameOutcome(m, next, Failures(m.simulateLoss, rs), |rs|, HandleAll(next, rest, env, k + 1));
    }
  }

  lemma NothingYet(m: Manager)
    requires m.Inv() && m.detecting
    ensures Outcome(m, 0, 0, m)
  {
    NothingCounted(m, m.current.value + 1);
  }

  lemma SkipTunnelEvent(m: Manager, evs: seq<Event>, env: nat -> Env, k: nat)
    requires evs != [] && evs[0].TunnelEvent?
    ensures HandleAll(m, evs, env, k) == HandleAll(m.Handle(evs[0], env(k)), evs[1..], env, k + 1)
    ensures ProbeResults(evs) == ProbeResults(evs[1..])
  {
    assert [] + ProbeResults(evs[1..]) == ProbeResults(evs[1..]);
  }

  /** The outcome does not depend on the state and the client at the start. */
  lemma SameOutcome(m: Manager, next: Manager, failed: nat, n: nat, end: Manager)
    requires m.current.Some? && next == m.(state := next.state, client := next.client)
    requires Outcome(next, failed, n, end)
    ensures Outcome(m, failed, n, end)
  {
    hide Count;
  }

  lemma TunnelEventLeavesDetection(m: Manager, ev: Event, env: Env)
    requires m.Inv() && ev.TunnelEvent?
    ensures var next := m.Handle(ev, env);
            && next.Inv() && next == m.(state := next.state, client := next.client)
            && (m.target == On && m.ClientStarted() ==> next.ClientStarted())
            && (m.detecting ==> m.current.Some?)
  {
    hide Manager.ApplyState, Manager.TaskInv;
    m.AfterApplyState(env);
    EventKeepsInv(m, ev, env);
  }

  /** The case of `DetectionDecides` where the next event is a result. */
  lemma {:induction false} ResultDecides(m: Manager, evs: seq<Event>, env: nat -> Env, k: nat)
    requires m.Inv() && m.detecting && evs != [] && evs[0].MirrorEvent?
    ensures HandleAll(m, evs, env, k).Inv()
    ensures Outcome(m, Failures(m.simulateLoss, ProbeResults(evs)), |ProbeResults(evs)|, HandleAll(m, evs, env, k))
    decreases |evs|, 0
  {
    hide HandleAll, ProbeResults, Failures, Count;
    var (haveUdp, rest) := (evs[0].haveUdp, evs[1..]);
    var next := m.MirrorResult(haveUdp, env(k));
    var (rs, end) := (ProbeResults(rest), HandleAll(next, rest, env, k + 1));
    OneResult(m, evs, env, k);
    m.AfterMirrorResult(haveUdp, env(k));
    hide Manager.MirrorResult, Manager.Handle, Manager.TaskInv, Outcome;
    if (haveUdp && !m.simulateLoss) || m.current.value + 1 == |m.mirrors| {
      DecisionStands(next, rest, env, k + 1);
      DecidedNow(m, 1 + Failures(m.simulateLoss, rs), 1 + |rs|, end);
    } else {
      hide Manager.Inv;
      DetectionDecides(next, rest, env, k + 1);
      OutcomeStep(m, next, Failures(m.simulateLoss, rs), |rs|, end);
    }
  }

  /** The outcome when the very next result decides. */
  lemma DecidedNow(m: Manager, failed: nat, n: nat, end: Manager)
    requires m.current.Some? && m.current.value < |m.mirrors| && failed >= 1 && n >= 1
    requires !end.detecting && end.probes == m.probes
    ensures end.target == Off && end.state == Off ==> Outcome(m, 0, n, end)
    ensures m.current.value + 1 == |m.mirrors| && end.target == On && end.ClientStarted() ==> Outcome(m, failed, n, end)
  {
    NothingCounted(m, m.current.value + 1);
    hide Count;
  }

  lemma OneResult(m: Manager, evs: seq<Event>, env: nat -> Env, k: nat)
    requires evs != [] && evs[0].MirrorEvent?
    ensures HandleAll(m, evs, env, k) == HandleAll(m.MirrorResult(evs[0].haveUdp, env(k)), evs[1..], env, k + 1)
    ensures |ProbeResults(evs)| == 1 + |ProbeResults(evs[1..])|
    ensures Failures(m.simulateLoss, ProbeResults(evs))
            == if evs[0].haveUdp && !m.simulateLoss then 0 else 1 + Failures(m.simulateLoss, ProbeResults(evs[1..]))
  {
    hide Manager.MirrorResult;
    var rs := ProbeResults(evs);
    assert rs == [evs[0].haveUdp] + ProbeResults(evs[1..]);
    assert rs[1..] == ProbeResults(evs[1..]);
  }

  /** With no detection running, no event changes the target, starts a probe or a
      detection, or takes the client away from a tunnel that is to be on. */
  lemma {:induction false} DecisionStands(m: Manager, evs: seq<Event>, env: nat -> Env, k: nat)
    requires m.Inv() && !m.detecting
    ensures var end := HandleAll(m, evs, env, k);
            && end.Inv() && end == m.(state := end.state, client := end.client)
            && (m.target == On && m.ClientStarted() ==> end.ClientStarted())
            && (m.target == Off ==> end.state == Off)
            && (|ProbeResults(evs)| == |evs| ==> end == m)
    decreases |evs|
  {
    if evs != [] {
      hide Manager.MirrorResult, Manager.ApplyState, Manager.TaskInv;
      var next, rest := m.Handle(evs[0], env(k)), evs[1..];
      AtMostAsManyResults(rest);
      if evs[0].MirrorEvent? {
        NotDetecting(m, evs[0].haveUdp, env(k));
      } else {
        TunnelEventLeavesDetection(m, evs[0], env(k));
      }
      DecisionStands(next, rest, env, k + 1);
    }
  }

  lemma {:induction false} AtMostAsManyResults(evs: seq<Event>)
    ensures |ProbeResults(evs)| <= |evs|
  {
    if evs != [] {
      AtMostAsManyResults(evs[1..]);
    }
  }

  /** Only two events do anything: a result during a detection, and a connection. */
  lemma QuietEvents(m: Manager, env: Env)
    ensures m.Handle(TunnelEvent(false), env) == m
    ensures !m.detecting ==> m.Handle(MirrorEvent(true), env) == m.Handle(MirrorEvent(false), env) == m
    ensures m.SetMode(m.mode, env) == m
  {
  }

  /** Some event among these tells of a connection that the client is ready for. */
  predicate Connects(evs: seq<Event>, env: nat -> Env, k: nat)
    decreases |evs|
  {
    evs != [] && ((evs[0] == TunnelEvent(true) && env(k).ready) || Connects(evs[1..], env, k + 1))
  }

  /** A tunnel that is to be on is turned on by the first such event, and stays on; any
      other event leaves it off. Without one it does not turn on. */
  lemma {:induction false} ConnectingTurnsOn(m: Manager, evs: seq<Event>, env: nat -> Env, k: nat)
    requires m.Inv() && !m.detecting && m.reachable && m.target == On
    ensures HandleAll(m, evs, env, k).state == if m.state == On || Connects(evs, env, k) then On else Off
    decreases |evs|
  {
    if evs != [] {
      hide Manager.ApplyState, Manager.MirrorResult, Manager.Inv;
      var next := m.Handle(evs[0], env(k));
      EventKeepsInv(m, evs[0], env(k));
      assert m.state == On ==> m.ClientStarted() by {
        OnMeansStarted(m);
      }
      m.AfterApplyState(env(k));
      if evs[0].MirrorEvent? {
        NotDetecting(m, evs[0].haveUdp, env(k));
      }
      ConnectingTurnsOn(next, evs[1..], env, k + 1);
    }
  }

  lemma OnMeansStarted(m: Manager)
    requires m.Inv()
    ensures m.state == On ==> m.ClientStarted()
  {
  }

  lemma {:induction false} HandleAllConcat(m: Manager, a: seq<Event>, b: seq<Event>, env: nat -> Env, k: nat)
    ensures HandleAll(m, a + b, env, k) == HandleAll(HandleAll(m, a, env, k), b, env, k + |a|)
    decreases |a|
  {
    hide Manager.Handle;
    if a == [] {
      assert a + b == b;
    } else {
      assert (a + b)[0] == a[0] && (a + b)[1..] == a[1..] + b;
      HandleAllConcat(m.Handle(a[0], env(k)), a[1..], b, env, k + 1);
    }
  }

  lemma {:induction false} EventsKeepNetwork(m: Manager, evs: seq<Event>, env: nat -> Env, k: nat)
    requires m.Inv()
    ensures HandleAll(m, evs, env, k).Inv() && HandleAll(m, evs, env, k).reachable == m.reachable
    decreases |evs|
  {
    if evs != [] {
      hide Manager.Inv, Manager.Handle;
      EventKeepsInv(m, evs[0], env(k));
      EventKeepsNetwork(m, evs[0], env(k));
      EventsKeepNetwork(m.Handle(evs[0], env(k)), evs[1..], env, k + 1);
    }
  }

  lemma EventKeepsNetwork(m: Manager, ev: Event, env: Env)
    ensures m.Handle(ev, env).reachable == m.reachable
  {
  }

  /** What the automatic mode is for: when all mirrors have failed, and afterwards the
      tunnel reports a connection that the client is ready for, the tunnel is on. */
  lemma BlockedUdpTurnsTunnelOn(m: Manager, start: Env, evs: seq<Event>, more: seq<Event>, env: nat -> Env)
    requires m.Inv() && m.mode == Auto && m.reachable && m.mirrors != []
    requires |m.mirrors| <= Failures(m.simulateLoss, ProbeResults(evs))
    requires Connects(more, env, |evs|)
    ensures HandleAll(m.StartDetection(start), evs + more, env, 0).state == On
  {
    hide Manager.Inv, Manager.StartDetection, HandleAll, Failures, ProbeResults, Connects;
    var s := m.StartDetection(start);
    StartedDetection(m, start);
    DetectionFromStart(m, start, evs, env);
    EventsKeepNetwork(s, evs, env, 0);
    HandleAllConcat(s, evs, more, env, 0);
    assert s.reachable by {
      StartKeepsNetwork(m, start);
    }
    ConnectingTurnsOn(HandleAll(s, evs, env, 0), more, env, |evs|);
  }

  lemma StartKeepsNetwork(m: Manager, start: Env)
    ensures m.StartDetection(start).reachable == m.reachable
  {
  }

  /** What a detection started in m comes to: the mirrors are probed from the first on. */
  predicate StartOutcome(m: Manager, failed: nat, n: nat, end: Manager) {
    if |m.mirrors| <= failed then
      !end.detecting && end.target == On && end.ClientStarted() && end.probes == m.probes + Count(0, |m.mirrors|)
    else if failed < n then
      !end.detecting && end.target == Off && end.state == Off && end.probes == m.probes + Count(0, failed + 1)
    else
      end.detecting && end.current == Some(n) && end.probes == m.probes + Count(0, n + 1)
  }

  lemma OutcomeFromStart(m: Manager, s: Manager, failed: nat, n: nat, end: Manager)
    requires m.mirrors != [] && failed <= n
    requires s.mirrors == m.mirrors && s.current == Some(0) && s.probes == m.probes + [0]
    requires Outcome(s, failed, n, end)
    ensures StartOutcome(m, failed, n, end)
  {
    hide Count;
    CountFromZero(m.probes, if |m.mirrors| <= failed then |m.mirrors| - 1 else if failed < n then failed else n);
  }

  /** From the start of a detection, whatever the events and the answers meanwhile. */
  lemma {:induction false} DetectionFromStart(m: Manager, start: Env, evs: seq<Event>, env: nat -> Env)
    requires m.Inv() && m.mode == Auto && m.reachable && m.mirrors != []
    ensures var rs := ProbeResults(evs);
            StartOutcome(m, Failures(m.simulateLoss, rs), |rs|, HandleAll(m.StartDetection(start), evs, env, 0))
  {
    hide StartOutcome, Outcome, HandleAll, ProbeResults, Failures, Manager.Inv, Manager.StartDetection;
    var s := m.StartDetection(start);
    var rs := ProbeResults(evs);
    StartedDetection(m, start);
    DetectionDecides(s, evs, env, 0);
    OutcomeFromStart(m, s, Failures(m.simulateLoss, rs), |rs|, HandleAll(s, evs, env, 0));
  }

  lemma StartedDetection(m: Manager, start: Env)
    requires m.Inv() && m.mode == Auto && m.reachable && m.mirrors != []
    ensures var s := m.StartDetection(start);
            && s.Inv() && s.detecting && s.current == Some(0) && s.probes == m.probes + [0]
            && s.mirrors == m.mirrors && s.simulateLoss == m.simulateLoss
            && s.taskId == (if m.taskId != 0 then m.taskId else start.task)
            && s.tasks == (if s.taskId == 0 then multiset{} else multiset{s.taskId})
  {
    m.DetectionStarts(start);
  }

  lemma CountFromZero(probes: seq<nat>, n: nat)
    ensures probes + [0] + Count(1, n) == probes + Count(0, n + 1)
  {
    CountCons(0, n);
    Assoc(probes, [0], Count(1, n));
  }

  // ------------------------------------------------------- tasks and events

  lemma ApplyStateKeepsTask(m: Manager, env: Env)
    ensures m.ApplyState(env).taskId == m.taskId && m.ApplyState(env).tasks == m.tasks
  {
  }

  lemma TaskOperations(m: Manager, env: Env)
    requires m.OneTask()
    ensures m.EndTask().OneTask() && m.StopDetection().OneTask() && m.StartDetection(env).OneTask()
  {
  }

  lemma {:induction false} ModeKeepsOneTask(m: Manager, to: Mode, env: Env)
    requires m.OneTask()
    ensures m.SetMode(to, env).OneTask()
  {
    hide Manager.ApplyState, Manager.StopDetection, Manager.StartDetection;
    var n := m.(mode := to);
    TaskOperations(n, env);
    ApplyStateKeepsTask(n.StopDetection().(target := On), env);
    ApplyStateKeepsTask(n.StopDetection().(target := Off), env);
  }

  lemma NetworkKeepsOneTask(m: Manager, to: bool, env: Env)
    requires m.OneTask()
    ensures m.Reachable(to, env).OneTask()
  {
    hide Manager.ApplyState, Manager.StopDetection, Manager.StartDetection;
    var n := m.(reachable := to);
    TaskOperations(n, env);
    ApplyStateKeepsTask(n, env);
  }

  lemma {:induction false} DecisionKeepsOneTask(m: Manager, to: Activity, env: Env)
    requires m.OneTask()
    ensures m.SetTarget(to, env).(detecting := false).EndTask().OneTask()
  {
    hide Manager.ApplyState;
    ApplyStateKeepsTask(m.(target := to), env);
  }

  lemma EventKeepsOneTask(m: Manager, ev: Event, env: Env)
    requires m.OneTask()
    ensures m.Handle(ev, env).OneTask()
  {
    hide Manager.ApplyState, Manager.SetTarget, Manager.EndTask;
    match ev
    case TunnelEvent(_) => ApplyStateKeepsTask(m, env);
    case MirrorEvent(_) =>
      DecisionKeepsOneTask(m, Off, env);
      DecisionKeepsOneTask(m.(current := None), On, env);
  }

  lemma StepKeepsOneTask(m: Manager, step: Step, env: Env)
    requires m.OneTask()
    ensures Do(m, step, env).OneTask()
  {
    hide Manager.Handle, Manager.SetMode, Manager.Reachable, Manager.EndTask;
    match step
    case ChangeMode(to) => ModeKeepsOneTask(m, to, env);
    case ChangeNetwork(to) => NetworkKeepsOneTask(m, to, env);
    case HandleEvent(ev) => EventKeepsOneTask(m, ev, env);
    case Clean => TaskOperations(m.(servers := [], pairs := []), env);
    case _ =>
      AddingOnlyAdds(m, step, env);
      AddedKeepsInv(m, Do(m, step, env));
  }

  /** No probe result of the run meets a detection whose iterator is at the end of the
      list; the source would dereference it there. */
  predicate NeverAtEnd(m: Manager, steps: seq<(Step, Env)>)
    decreases |steps|
  {
    steps != [] ==>
      && (steps[0].0.HandleEvent? ==> m.CanHandle(steps[0].0.ev))
      && NeverAtEnd(Do(m, steps[0].0, steps[0].1), steps[1..])
  }

  /** That is so in every run that cleans the servers only while no detection runs. */
  lemma {:induction false} CleansIdleNeverAtEnd(m: Manager, steps: seq<(Step, Env)>)
    requires m.Inv() && CleansIdle(m, steps)
    ensures NeverAtEnd(m, steps)
    decreases |steps|
  {
    if steps != [] {
      hide Do;
      StepKeepsInv(m, steps[0].0, steps[0].1);
      CleansIdleNeverAtEnd(Do(m, steps[0].0, steps[0].1), steps[1..]);
    }
  }

  /** In every run, even one that cleans the servers during a detection, as long as no
      probe result arrives between such a clean and the next start. */
  lemma {:induction false} OneTaskAlways(m: Manager, steps: seq<(Step, Env)>)
    requires m.OneTask() && NeverAtEnd(m, steps)
    ensures DoAll(m, steps).OneTask()
    decreases |steps|
  {
    if steps != [] {
      hide Do, Manager.OneTask;
      StepKeepsOneTask(m, steps[0].0, steps[0].1);
      OneTaskAlways(Do(m, steps[0].0, steps[0].1), steps[1..]);
    }
  }

  /** The main thread and the posting threads: `inFlight` has been taken off the queue
      under the lock and is being handled without it. */
  datatype Threads = Threads(
    m: Manager, queue: seq<Event>, inFlight: Option<Event>, posted: seq<Event>, handled: seq<Event>)
  {
    predicate Conserved() {
      handled + (if inFlight.Some? then [inFlight.value] else []) + queue == posted
    }
  }

  datatype Action =
    | Post(ev: Event)
    | Pop
    | Process(env: Env)
    | Call(step: Step, env: Env)

  /** Posts happen at any time; the main thread is in the drain loop or in a call. */
  predicate CanAct(t: Threads, a: Action) {
    match a
    case Post(_) => true
    case Pop => t.inFlight.None? && t.queue != []
    case Process(_) => t.inFlight.Some?
    case Call(step, _) => t.inFlight.None? && !step.HandleEvent? && (step.Clean? ==> !t.m.detecting)
  }

  function Act(t: Threads, a: Action): Threads
    requires CanAct(t, a)
  {
    match a
    case Post(ev) => t.(queue := t.queue + [ev], posted := t.posted + [ev])
    case Pop => t.(inFlight := Some(t.queue[0]), queue := t.queue[1..])
    case Process(env) =>
      t.(m := t.m.Handle(t.inFlight.value, env), inFlight := None, handled := t.handled + [t.inFlight.value])
    case Call(step, env) => t.(m := Do(t.m, step, env))
  }

  predicate IsRun(t: Threads, actions: seq<Action>)
    decreases |actions|
  {
    actions != [] ==> CanAct(t, actions[0]) && IsRun(Act(t, actions[0]), actions[1..])
  }

  function ActAll(t: Threads, actions: seq<Action>): Threads
    requires IsRun(t, actions)
    decreases |actions|
  {
    if actions == [] then t else ActAll(Act(t, actions[0]), actions[1..])
  }

  lemma {:induction false} ActConserves(t: Threads, a: Action)
    requires t.m.Inv() && t.Conserved() && CanAct(t, a)
    ensures Act(t, a).m.Inv() && Act(t, a).Conserved()
  {
    hide Manager.Inv, Act, Threads.Conserved;
    match a
    case Post(ev) => PostConserves(t, ev);
    case Pop => PopConserves(t);
    case Process(env) => ProcessConserves(t, env);
    case Call(step, env) => CallConserves(t, step, env);
  }

  lemma PostConserves(t: Threads, ev: Event)
    requires t.Conserved()
    ensures Act(t, Post(ev)).Conserved() && Act(t, Post(ev)).m == t.m
  {
    Assoc(t.handled + (if t.inFlight.Some? then [t.inFlight.value] else []), t.queue, [ev]);
  }

  lemma PopConserves(t: Threads)
    requires t.Conserved() && CanAct(t, Pop)
    ensures Act(t, Pop).Conserved() && Act(t, Pop).m == t.m
  {
    assert t.queue == [t.queue[0]] + t.queue[1..];
    Assoc(t.handled, [t.queue[0]], t.queue[1..]);
    assert t.handled + [] == t.handled;
  }

  lemma {:induction false} ProcessConserves(t: Threads, env: Env)
    requires t.m.Inv() && t.Conserved() && CanAct(t, Process(env))
    ensures Act(t, Process(env)).Conserved() && Act(t, Process(env)).m.Inv()
  {
    hide Manager.Inv, Manager.ApplyState, Manager.MirrorResult;
    StepKeepsInv(t.m, HandleEvent(t.inFlight.value), env);
    var done := t.handled + [t.inFlight.value];
    assert done + [] == done;
  }

  lemma {:induction false} CallConserves(t: Threads, step: Step, env: Env)
    requires t.m.Inv() && t.Conserved() && CanAct(t, Call(step, env))
    ensures Act(t, Call(step, env)).Conserved() && Act(t, Call(step, env)).m.Inv()
  {
    hide Manager.Inv, Do;
    StepKeepsInv(t.m, step, env);
  }

  /** Over every interleaving no event is lost, duplicated or reordered, and the
      manager's invariant holds throughout. */
  lemma {:induction false} EventsAreConserved(t: Threads, actions: seq<Action>)
    requires t.m.Inv() && t.Conserved() && IsRun(t, actions)
    ensures ActAll(t, actions).m.Inv() && ActAll(t, actions).Conserved()
    decreases |actions|
  {
    if actions != [] {
      ActConserves(t, actions[0]);
      EventsAreConserved(Act(t, actions[0]), actions[1..]);
    }
  }
}
