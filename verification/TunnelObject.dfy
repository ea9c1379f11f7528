/**
 The tunnel manager as an object whose methods change its fields step by step.
 */
module TunnelObject {
  import opened Lists
  import opened Tunnel

  class TunnelManager {
    var mode: Mode
    var target: Activity
    var state: Activity
    var reachable: bool
    var client: Option<Client>
    var detecting: bool
    var current: Option<nat>
    var mirrors: seq<Mirror>
    var servers: seq<Server>
    var pairs: seq<ServerPair>
    var dual: bool
    var simulateLoss: bool
    var taskId: nat
    var tasks: multiset<nat>
    var probes: seq<nat>
    var queue: seq<Event>
    ghost var posted: seq<Event>
    ghost var handled: seq<Event>

    ghost function Value(): Manager
      reads this
    {
      Manager(mode, target, state, reachable, client, detecting, current, mirrors, servers, pairs,
              dual, simulateLoss, taskId, tasks, probes)
    }

    constructor (reachable: bool)
      ensures Value() == Initial.(reachable := reachable)
      ensures queue == posted == handled == []
    {
      mode, target, state, this.reachable, client := Disable, Off, Off, reachable, None;
      detecting, current, mirrors, servers, pairs := false, None, [], [], [];
      dual, simulateLoss, taskId, tasks, probes := false, false, 0, multiset{}, [];
      queue, posted, handled := [], [], [];
    }

    // ------------------------------------------------------------ the client

    method StartClient()
      modifies this`client
      ensures Value() == old(Value()).StartClient()
    {
      if client.None? {
        client := Some(Client(false));
      }
      client := Some(client.value.(started := true));
    }

    method StopClient(calls: nat)
      modifies this`client
      ensures Value() == old(Value()).StopClient(calls)
    {
      if client.Some? {
        client := Some(client.value.(started := false));
        if calls == 0 {
          client := None;
        }
      }
    }

    method ApplyState(env: Env)
      modifies this`client, this`state
      ensures Value() == old(Value()).ApplyState(env)
    {
      if !reachable {
        return;
      }
      if target == On && state == Off {
        if client.None? || !client.value.started {
          StartClient();
        }
        if env.ready {
          state := On;
        }
      } else if target == Off && state == On {
        state := Off;
        StopClient(env.calls);
      }
    }

    method SetState(to: Activity, env: Env)
      modifies this`target, this`client, this`state
      ensures Value() == old(Value()).SetTarget(to, env)
    {
      target := to;
      ApplyState(env);
    }

    // ------------------------------------------------------------ detection

    method StopLongRunningTask()
      modifies this`taskId, this`tasks
      ensures Value() == old(Value()).EndTask()
    {
      if taskId != 0 {
        tasks := tasks - multiset{taskId};
        taskId := 0;
      }
    }

    method BeginLongRunningTask(id: nat)
      modifies this`taskId, this`tasks
      ensures Value() == old(Value()).BeginTask(id)
    {
      if taskId == 0 {
        taskId := id;
        if id != 0 {
          tasks := tasks + multiset{id};
        }
      }
    }

    method StartAutoDetection(env: Env) returns (started: bool)
      modifies this`current, this`taskId, this`tasks, this`detecting, this`probes
      ensures Value() == old(Value()).StartDetection(env)
      ensures started <==> mirrors != []
    {
      hide Manager.BeginTask;
      started := mirrors != [];
      if started {
        current := Some(0);
        ghost var first := Value();
        BeginLongRunningTask(env.task);
        assert Value() == first.BeginTask(env.task);
        detecting := true;
        probes := probes + [current.value];
      }
    }

    method StopAutoDetection()
      modifies this`taskId, this`tasks, this`detecting
      ensures Value() == old(Value()).StopDetection()
    {
      if detecting {
        detecting := false;
        StopLongRunningTask();
      }
    }

    /** The iterator must be on a mirror while a detection runs. */
    method ProcessUdpMirrorEvent(haveUdp: bool, env: Env)
      requires Value().CanHandle(MirrorEvent(haveUdp))
      modifies this`current, this`taskId, this`tasks, this`detecting, this`probes, this`target, this`client, this`state
      ensures Value() == old(Value()).MirrorResult(haveUdp, env)
    {
      if !detecting {
        return;
      }
      if simulateLoss || !haveUdp {
        current := if current.value + 1 < |mirrors| then Some(current.value + 1) else None;
        if current.Some? {
          probes := probes + [current.value];
          detecting := true;
          return;
        } else {
          SetState(On, env);
        }
      } else {
        SetState(Off, env);
      }
      detecting := false;
      StopLongRunningTask();
    }

    method ProcessTunnelEvent(connected: bool, env: Env)
      modifies this`client, this`state
      ensures Value() == old(Value()).Handle(TunnelEvent(connected), env)
    {
      if connected {
        ApplyState(env);
      }
    }

    // ------------------------------------------------------------ mode and network

    method ApplyMode(env: Env)
      modifies this`current, this`taskId, this`tasks, this`detecting, this`probes, this`target, this`client, this`state
      ensures Value() == match old(mode)
                         case Enable => old(Value()).StopDetection().SetTarget(On, env)
                         case Disable => old(Value()).StopDetection().SetTarget(Off, env)
                         case Auto => if old(reachable) then old(Value()).StartDetection(env) else old(Value())
    {
      hide Manager.StopDetection, Manager.StartDetection, Manager.SetTarget;
      match mode
      case Enable =>
        StopAutoDetection();
        SetState(On, env);
      case Disable =>
        StopAutoDetection();
        SetState(Off, env);
      case Auto =>
        if reachable {
          var _ := StartAutoDetection(env);
        }
    }

    method SetMode(to: Mode, env: Env)
      modifies this`mode
      modifies this`current, this`taskId, this`tasks, this`detecting, this`probes, this`target, this`client, this`state
      ensures Value() == old(Value()).SetMode(to, env)
      ensures old(Value().Inv()) ==> Value().Inv()
    {
      hide Manager.StopDetection, Manager.StartDetection, Manager.SetTarget, Manager.Inv;
      if Value().Inv() {
        Value().SetModeKeepsInv(to, env);
      }
      if mode == to {
        return;
      }
      mode := to;
      ApplyMode(env);
    }

    /** The core's flag changes and the manager is told. */
    method ChangeNetwork(to: bool, env: Env)
      modifies this`reachable
      modifies this`current, this`taskId, this`tasks, this`detecting, this`probes, this`client, this`state
      ensures Value() == old(Value()).Reachable(to, env)
      ensures old(Value().Inv()) ==> Value().Inv()
    {
      hide Manager.Inv, Manager.StopDetection, Manager.StartDetection, Manager.ApplyState, Manager.StopClient;
      reachable := to;
      NetworkReachableCb(to, env);
      if old(Value().Inv()) {
        old(Value()).ReachableKeepsInv(to, env);
      }
    }

    method NetworkReachableCb(to: bool, env: Env)
      requires reachable == to
      modifies this`current, this`taskId, this`tasks, this`detecting, this`probes, this`client, this`state
      ensures Value() == old(Value()).Reachable(to, env)
    {
      hide Manager.StopDetection, Manager.StartDetection, Manager.ApplyState, Manager.StopClient;
      if to {
        if mode == Auto {
          var _ := StartAutoDetection(env);
        } else {
          ApplyState(env);
        }
      } else {
        StopAutoDetection();
        assert Value() == old(Value()).StopDetection();
        state := Off;
        StopClient(env.calls);
      }
    }

    // ------------------------------------------------------------ servers

    method CleanServers()
      modifies this`servers, this`pairs, this`taskId, this`tasks, this`mirrors, this`current
      ensures Value() == old(Value()).CleanServers()
    {
      hide Manager.EndTask;
      servers, pairs := [], [];
      ghost var ended := Value().EndTask();
      NoTask(Value());
      if taskId > 0 {
        StopLongRunningTask();
      }
      assert Value() == ended;
      mirrors := [];
      current := None;
      assert Value() == ended.(mirrors := [], current := None);
    }

    method AddServer(ip: Option<string>, port: int)
      modifies this`servers
      ensures Value() == old(Value()).AddServer(ip, port)
    {
      if ip.None? || dual {
        return;
      }
      servers := servers + [Server(ip.value, port)];
    }

    method AddServerWithMirror(ip: Option<string>, port: int, mirrorPort: int, delay: int)
      modifies this`servers, this`mirrors
      ensures Value() == old(Value()).AddServerWithMirror(ip, port, mirrorPort, delay)
    {
      if ip.None? {
        return;
      }
      AddServer(ip, port);
      mirrors := mirrors + [Mirror(ip.value, mirrorPort, delay)];
    }

    method AddServerPair(ip1: Option<string>, port1: int, ip2: Option<string>, port2: int)
      modifies this`pairs
      ensures Value() == old(Value()).AddPair(ip1, port1, ip2, port2)
    {
      if ip1.None? || ip2.None? || !dual {
        return;
      }
      pairs := pairs + [ServerPair(ip1.value, port1, ip2.value, port2)];
    }

    method AddServerPairWithMirror(
        ip1: Option<string>, port1: int, ip2: Option<string>, port2: int, mirrorPort: int, delay: int)
      modifies this`pairs, this`mirrors
      ensures Value() == old(Value()).AddPairWithMirror(ip1, port1, ip2, port2, mirrorPort, delay)
    {
      if ip1.None? || ip2.None? {
        return;
      }
      AddServerPair(ip1, port1, ip2, port2);
      mirrors := mirrors + [Mirror(ip1.value, mirrorPort, delay)];
    }

    method EnableDualMode(enable: bool)
      modifies this`dual
      ensures dual == enable
    {
      dual := enable;
    }

    // ------------------------------------------------------------ the queue

    method PostEvent(ev: Event)
      modifies this`queue, this`posted
      ensures queue == old(queue) + [ev] && posted == old(posted) + [ev]
    {
      queue, posted := queue + [ev], posted + [ev];
    }

    /** Other threads post while the lock is free. */
    method PostAll(evs: seq<Event>)
      requires handled + queue == posted
      modifies this`queue, this`posted
      ensures queue == old(queue) + evs && handled + queue == posted
    {
      for i := 0 to |evs|
        invariant queue == old(queue) + evs[..i] && handled + queue == posted
      {
        Assoc(old(queue), evs[..i], [evs[i]]);
        Assoc(handled, queue, [evs[i]]);
        assert evs[..i] + [evs[i]] == evs[..i + 1];
        PostEvent(evs[i]);
      }
      assert evs[..|evs|] == evs;
    }

    /** The drain loop. While it handles its k-th event, other threads post the k-th of
        `arrivals`. Every event posted before or meanwhile is handled, once and in order,
        and the manager ends as if it had handled that list one by one. */
    method OnIterate(env: nat -> Env, arrivals: seq<seq<Event>>)
      requires Value().Inv() && handled + queue == posted
      modifies this
      ensures Value().Inv() && queue == [] && handled == posted
      ensures |old(handled)| <= |handled| && handled[..|old(handled)|] == old(handled)
      ensures Value() == HandleAll(old(Value()), handled[|old(handled)|..], env, 0)
    {
      hide Manager.Inv, Manager.Handle, HandleAll, Pending;
      ghost var done: seq<Event> := [];
      EmptyHandleAll(Value(), env);
      var k := 0;
      while queue != []
        invariant Value().Inv() && handled + queue == posted
        invariant handled == old(handled) + done && |done| == k
        invariant Value() == HandleAll(old(Value()), done, env, 0)
        decreases |queue| + Pending(arrivals, k)
      {
        ghost var ev := queue[0];
        HandleAllSnoc(old(Value()), done, ev, env, 0);
        Assoc(old(handled), done, [ev]);
        OnePending(arrivals, k);
        HandleFront(env(k), if k < |arrivals| then arrivals[k] else []);
        done := done + [ev];
        k := k + 1;
      }
    }

    /** One turn of the drain loop. */
    method HandleFront(env: Env, arrivals: seq<Event>)
      requires Value().Inv() && queue != [] && handled + queue == posted
      modifies this
      ensures Value() == old(Value()).Handle(old(queue[0]), env) && Value().Inv()
      ensures handled == old(handled) + [old(queue[0])] && handled + queue == posted
      ensures |queue| == |old(queue)| - 1 + |arrivals|
    {
      hide Manager.Inv, Manager.Handle;
      var ev := Pop();
      HandleOne(ev, env);
      PostAll(arrivals);
    }

    /** Takes the front event; the ghost history counts it as handled from here on. */
    method Pop() returns (ev: Event)
      requires queue != [] && handled + queue == posted
      modifies this`queue, this`handled
      ensures ev == old(queue[0]) && queue == old(queue)[1..]
      ensures handled == old(handled) + [ev] && handled + queue == posted
    {
      ev := queue[0];
      queue, handled := queue[1..], handled + [ev];
    }

    method HandleOne(ev: Event, env: Env)
      requires Value().Inv()
      modifies this`current, this`taskId, this`tasks, this`detecting, this`probes, this`target, this`client, this`state
      ensures Value() == old(Value()).Handle(ev, env) && Value().Inv()
    {
      hide Manager.MirrorResult, Manager.ApplyState, Manager.Inv;
      EventKeepsInv(Value(), ev, env);
      if ev.TunnelEvent? {
        ProcessTunnelEvent(ev.connected, env);
      } else {
        ProcessUdpMirrorEvent(ev.haveUdp, env);
      }
    }

    static function Pending(arrivals: seq<seq<Event>>, k: nat): nat
      decreases |arrivals| - k
    {
      if k >= |arrivals| then 0 else |arrivals[k]| + Pending(arrivals, k + 1)
    }
  }

  lemma OnePending(arrivals: seq<seq<Event>>, k: nat)
    ensures TunnelManager.Pending(arrivals, k)
            == (if k < |arrivals| then |arrivals[k]| else 0) + TunnelManager.Pending(arrivals, k + 1)
  {
  }

  lemma NoTask(m: Manager)
    ensures m.taskId == 0 ==> m.EndTask() == m
  {
  }

  lemma EmptyHandleAll(m: Manager, env: nat -> Env)
    ensures HandleAll(m, [], env, 0) == m
  {
  }

  lemma HandleAllSnoc(m: Manager, evs: seq<Event>, ev: Event, env: nat -> Env, k: nat)
    ensures HandleAll(m, evs + [ev], env, k) == HandleAll(m, evs, env, k).Handle(ev, env(k + |evs|))
  {
    hide Manager.Handle;
    HandleAllConcat(m, evs, [ev], env, k);
    assert [ev][1..] == [];
  }
}
