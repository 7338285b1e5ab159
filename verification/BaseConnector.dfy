/**
 * The connector classes of the control API. Every method changes its objects exactly as
 * the state machine says, so every API call and every callback keeps `Valid`, the safety
 * invariant of the state machine.
 */
module BaseConnector {
  import opened Options
  import opened ConnectorSpec
  import ConnectorRuns

  class ManagedConnection {
    /** `config.id`, the key of the connection. */
    const id: string
    /** The place of the connection among all those ever made. */
    ghost const number: nat
    var enabled: bool
    var client: Option<nat>
    var state: LinkState
    var connecting: bool
    var pollingTimer: Option<nat>
    var reconnectTimer: Option<nat>
    var pollInProgress: bool
    // the event loop and the client library, as far as they concern this connection
    var attempts: nat
    var timers: nat
    ghost var armedPolling: set<nat>
    ghost var armedReconnect: set<nat>
    ghost var inFlight: set<nat>
    ghost var pending: nat

    ghost function View(): Conn
      reads this
    {
      Conn(enabled, client, state, connecting, pollingTimer, reconnectTimer, pollInProgress,
           armedPolling, armedReconnect, inFlight, pending, attempts, timers)
    }

    /** How many times the event loop still owes the connection this callback. */
    ghost function Owed(k: Callback): nat
      reads this
    {
      match k
      case Connects(attempt, _) => if attempt in inFlight then 1 else 0
      case ConnectFails(attempt) => if attempt in inFlight then 1 else 0
      case ReconnectTimer(timer) => if timer in armedReconnect then 1 else 0
      case PollTimer(timer, _) => if timer in armedPolling then 1 else 0
      case ReadEnds(_) => pending
    }

    constructor (id: string, enabled: bool, ghost number: nat)
      ensures View() == NewConn(enabled) && this.id == id && this.number == number
    {
      this.id := id;
      this.number := number;
      this.enabled := enabled;
      client, state, connecting := None, Disconnected, false;
      pollingTimer, reconnectTimer, pollInProgress := None, None, false;
      attempts, timers := 0, 0;
      armedPolling, armedReconnect, inFlight, pending := {}, {}, {}, 0;
    }
  }

  ghost function Views(objects: seq<ManagedConnection>): (r: seq<Conn>)
    reads objects
    ensures |r| == |objects| && forall i | 0 <= i < |r| :: r[i] == objects[i].View()
  {
    if objects == [] then [] else [objects[0].View()] + Views(objects[1..])
  }

  ghost predicate Numbered(objects: seq<ManagedConnection>) {
    forall i | 0 <= i < |objects| :: objects[i].number == i
  }

  /** When at most one object of a list differs from an earlier view, so does at most one view. */
  lemma OneViewChanged(all: seq<ManagedConnection>, one: ManagedConnection, before: seq<Conn>)
    requires Numbered(all) && one in all && |before| == |all|
    requires forall i | 0 <= i < |all| && i != one.number :: all[i].View() == before[i]
    ensures one.number < |all|
    ensures Views(all) == before[one.number := one.View()]
  {
  }

  lemma ViewsAppend(objects: seq<ManagedConnection>, managed: ManagedConnection)
    ensures Views(objects + [managed]) == Views(objects) + [managed.View()]
  {
  }

  class Connector {
    const protocol: Protocol
    var running: bool
    var connections: map<string, ManagedConnection>
    /** Every connection ever made: a removed one can still get callbacks. */
    ghost var objects: seq<ManagedConnection>

    ghost predicate Linked()
      reads this
    {
      && Numbered(objects)
      && forall id | id in connections :: connections[id].id == id && connections[id] in objects
    }

    ghost function Tracked(): map<string, nat>
      reads this
    {
      map id | id in connections :: connections[id].number
    }

    ghost function Abstract(): System
      reads this, objects
    {
      System(running, Tracked(), Views(objects))
    }

    /** The state of the connector is a safe one. */
    ghost predicate Valid()
      reads this, objects
    {
      Linked() && ConnectorRuns.Safe(protocol, Abstract())
    }

    constructor (protocol: Protocol)
      ensures Valid() && Abstract() == ConnectorSpec.INITIAL && this.protocol == protocol
    {
      this.protocol := protocol;
      running, connections, objects := false, map[], [];
      new;
      ConnectorRuns.InitialIsSafe(protocol);
      assert Tracked() == map[];
    }

    lemma TrackedIsInjective()
      requires Linked()
      ensures Injective(Abstract())
    {
      forall i, j | i in connections && j in connections && connections[i].number == connections[j].number
        ensures i == j
      {
        assert connections[i] == objects[connections[i].number] == connections[j];
      }
    }

    // -------------------------------------------------------------- steps on one connection

    method InitiateConnection(managed: ManagedConnection)
      modifies managed
      ensures managed.View() == Initiate(old(managed.View()))
    {
      if managed.connecting {
        return;
      }
      managed.connecting := true;
      managed.client := Some(managed.attempts);
      managed.inFlight := managed.inFlight + {managed.attempts};
      managed.attempts := managed.attempts + 1;
    }

    method StopPollingTimer(managed: ManagedConnection)
      modifies managed
      ensures managed.View() == StopPolling(old(managed.View()))
    {
      if managed.pollingTimer.Some? {
        managed.armedPolling := managed.armedPolling - {managed.pollingTimer.value};
        managed.pollingTimer := None;
      }
    }

    method ClearReconnectTimer(managed: ManagedConnection)
      modifies managed
      ensures managed.View() == ClearReconnect(old(managed.View()))
    {
      if managed.reconnectTimer.Some? {
        managed.armedReconnect := managed.armedReconnect - {managed.reconnectTimer.value};
        managed.reconnectTimer := None;
      }
    }

    method PollOnce(managed: ManagedConnection, mapped: bool)
      modifies managed
      ensures managed.View() == Poll(protocol, old(managed.View()), mapped)
    {
      if managed.state != Connected || managed.client.None? || !mapped {
        return;
      }
      if protocol.ReadsSerially() && managed.pollInProgress {
        return;
      }
      managed.pollInProgress := protocol.ReadsSerially();
      managed.pending := managed.pending + 1;
    }

    method StartPollingTimer(managed: ManagedConnection, mapped: bool)
      modifies managed
      ensures managed.View() == StartPolling(protocol, old(managed.View()), mapped)
    {
      if managed.pollingTimer.Some? {
        return;
      }
      PollOnce(managed, mapped);
      managed.pollingTimer := Some(managed.timers);
      managed.armedPolling := managed.armedPolling + {managed.timers};
      managed.timers := managed.timers + 1;
    }

    method ScheduleReconnectTimer(managed: ManagedConnection)
      modifies managed
      ensures managed.View() == ScheduleReconnect(old(managed.View()))
    {
      ClearReconnectTimer(managed);
      managed.reconnectTimer := Some(managed.timers);
      managed.armedReconnect := managed.armedReconnect + {managed.timers};
      managed.timers := managed.timers + 1;
    }

    method HandleConnectionError(managed: ManagedConnection)
      modifies managed
      ensures managed.View() == HandleError(old(managed.View()), running)
    {
      var wasConnected := managed.state == Connected;
      managed.state := if wasConnected then Disconnected else Error;
      StopPollingTimer(managed);
      if running {
        ScheduleReconnectTimer(managed);
      }
    }

    method DisconnectAndCleanup(managed: ManagedConnection)
      modifies managed
      ensures managed.View() == Cleanup(old(managed.View()))
    {
      StopPollingTimer(managed);
      ClearReconnectTimer(managed);
      managed.client := None;
      managed.state := Disconnected;
      managed.connecting := false;
    }

    method ReconfigureConnection(managed: ManagedConnection, enabled: bool, valid: bool)
      modifies managed
      ensures managed.View() == Reconfigure(old(managed.View()), enabled, valid, running)
    {
      DisconnectAndCleanup(managed);
      if valid {
        managed.enabled := enabled;
        if running && enabled {
          InitiateConnection(managed);
        }
      }
    }

    // -------------------------------------------------------------- callbacks

    method OnConnectResult(managed: ManagedConnection, attempt: nat, success: bool, mapped: bool)
      requires attempt in managed.inFlight
      modifies managed
      ensures managed.View() ==
        if success then ConnectOk(protocol, old(managed.View()), attempt, mapped)
        else ConnectFail(protocol, old(managed.View()), attempt, running)
    {
      managed.inFlight := managed.inFlight - {attempt};
      managed.connecting := false;
      if !success && !protocol.GuardsFailures() {
        HandleConnectionError(managed);
        return;
      }
      if managed.client.None? {
        return;
      }
      if !success {
        HandleConnectionError(managed);
        return;
      }
      managed.state := Connected;
      StartPollingTimer(managed, mapped);
    }

    method OnReconnectTimer(managed: ManagedConnection, timer: nat)
      requires timer in managed.armedReconnect
      modifies managed
      ensures managed.View() == ReconnectFires(old(managed.View()), timer, running)
    {
      managed.armedReconnect := managed.armedReconnect - {timer};
      managed.reconnectTimer := None;
      if !running {
        return;
      }
      managed.client := None;
      managed.state := Disconnected;
      InitiateConnection(managed);
    }

    method OnReadEnd(managed: ManagedConnection, result: ReadResult)
      requires managed.pending > 0
      modifies managed
      ensures managed.View() == ReadDone(protocol, old(managed.View()), result, running)
    {
      managed.pending := managed.pending - 1;
      managed.pollInProgress := false;
      if protocol.GuardsFailures() && managed.client.None? {
        return;
      }
      if result == Failed {
        HandleConnectionError(managed);
      }
    }

    /** The event loop runs a callback of a connection: one that is really outstanding. */
    method CallbackStep(managed: ManagedConnection, k: Callback)
      requires Linked() && managed in objects && managed.Owed(k) > 0
      modifies managed
      ensures Linked() && Abstract() == ConnectorSpec.RunCallback(protocol, old(Abstract()), managed.number, k)
    {
      ghost var before := Views(objects);
      DispatchCallback(managed, k);
      OneViewChanged(objects, managed, before);
    }

    method DispatchCallback(managed: ManagedConnection, k: Callback)
      requires managed.Owed(k) > 0
      modifies managed
      ensures managed.View() == Deliver(protocol, old(managed.View()), k, running)
    {
      match k {
        case Connects(attempt, mapped) => OnConnectResult(managed, attempt, true, mapped);
        case ConnectFails(attempt) => OnConnectResult(managed, attempt, false, false);
        case ReconnectTimer(timer) => OnReconnectTimer(managed, timer);
        case PollTimer(_, mapped) => PollOnce(managed, mapped);
        case ReadEnds(result) => OnReadEnd(managed, result);
      }
    }

    // -------------------------------------------------------------- the effect of the API calls

    method AddStep(id: string, enabled: bool, valid: bool) returns (thrown: bool)
      requires Linked()
      modifies this
      ensures Linked() && Abstract() == AddConnection(old(Abstract()), id, enabled, valid)
      ensures thrown <==> id in old(connections) || !valid
      ensures !thrown ==> connections.Keys == old(connections.Keys) + {id}
    {
      if id in connections || !valid {
        return true;
      }
      ghost var made, views := objects, Views(objects);
      var managed := CreateManagedConnection(id, enabled);
      assert Views(made) == views;
      Register(managed);
      ViewsAppend(made, managed);
      assert Views(objects) == views + [managed.View()];
      return false;
    }

    method CreateManagedConnection(id: string, enabled: bool) returns (managed: ManagedConnection)
      ensures fresh(managed) && managed.id == id && managed.number == |objects|
      ensures managed.View() == if running && enabled then Initiate(NewConn(enabled)) else NewConn(enabled)
    {
      managed := new ManagedConnection(id, enabled, |objects|);
      if running && enabled {
        InitiateConnection(managed);
      }
    }

    /** `connections.set(config.id, managed)`. */
    method Register(managed: ManagedConnection)
      requires Linked() && managed.number == |objects| && managed.id !in connections
      modifies this`connections, this`objects
      ensures Linked() && connections.Keys == old(connections.Keys) + {managed.id}
      ensures Tracked() == old(Tracked())[managed.id := |old(objects)|]
      ensures objects == old(objects) + [managed]
    {
      ghost var before := Tracked();
      objects := objects + [managed];
      connections := connections[managed.id := managed];
      assert Tracked() == before[managed.id := managed.number];
    }

    method RemoveStep(id: string) returns (thrown: bool)
      requires Linked()
      modifies this, objects
      ensures Linked() && Abstract() == RemoveConnection(old(Abstract()), id)
      ensures thrown <==> id !in old(connections)
    {
      if id !in connections {
        return true;
      }
      CleanupTracked(id);
      ghost var views := Views(objects);
      Forget(id);
      assert Views(objects) == views;
      return false;
    }

    /** `connections.delete(id)`. */
    method Forget(id: string)
      requires Linked()
      modifies this`connections
      ensures Linked() && connections == old(connections) - {id} && Tracked() == old(Tracked()) - {id}
    {
      ghost var before := Tracked();
      connections := connections - {id};
      assert Tracked() == before - {id};
    }

    method UpdateStep(id: string, enabled: bool, valid: bool) returns (thrown: bool)
      requires Linked()
      modifies this, objects
      ensures Linked() && Abstract() == UpdateConnection(old(Abstract()), id, enabled, valid)
      ensures thrown <==> !valid
    {
      if id !in connections {
        thrown := AddStep(id, enabled, valid);
        return;
      }
      ghost var before := Views(objects);
      ReconfigureConnection(connections[id], enabled, valid);
      OneViewChanged(objects, connections[id], before);
      return !valid;
    }

    method StartStep()
      requires Linked()
      modifies this`running, objects
      ensures Linked() && Abstract() == StartConnector(old(Abstract()))
    {
      if running {
        return;
      }
      LoopsIgnoreRunning(Abstract());
      running := true;
      InitiateEnabled();
    }

    ghost predicate Starting(was: System, todo: set<string>)
      reads this, objects
    {
      Linked() && Injective(was) && was.tracked == Tracked() && Views(objects) == StartedBut(was, todo)
    }

    lemma StartLoopBegins()
      requires Linked()
      ensures Starting(Abstract(), connections.Keys)
    {
      TrackedIsInjective();
      StartLoopEnds(Abstract());
    }

    method InitiateEnabled()
      requires Linked()
      modifies objects
      ensures Views(objects) == StartAll(old(Abstract()))
    {
      ghost var was := Abstract();
      StartLoopBegins();
      var todo := connections.Keys;
      while todo != {}
        invariant todo <= connections.Keys && Starting(was, todo)
        decreases todo
      {
        var id :| id in todo;
        StartOneOf(id, was, todo);
        todo := todo - {id};
      }
      StartLoopEnds(was);
    }

    method StartOneOf(id: string, ghost was: System, ghost todo: set<string>)
      requires Starting(was, todo) && id in connections && id in todo
      modifies connections[id]
      ensures Starting(was, todo - {id})
    {
      StartNext(was, todo, id);
      StartTracked(id);
    }

    method CleanupOneOf(id: string, ghost was: System, ghost todo: set<string>)
      requires Stopping(was, todo) && id in connections && id in todo
      modifies connections[id]
      ensures Stopping(was, todo - {id})
    {
      StopNext(was, todo, id);
      CleanupTracked(id);
    }

    method StartTracked(id: string)
      requires Linked() && id in connections
      modifies connections[id]
      ensures connections[id].number < |objects|
      ensures Views(objects) == var was, o := old(Views(objects)), connections[id].number;
        was[o := if was[o].enabled then Initiate(was[o]) else was[o]]
    {
      ghost var before := Views(objects);
      if connections[id].enabled {
        InitiateConnection(connections[id]);
      }
      OneViewChanged(objects, connections[id], before);
    }

    method CleanupTracked(id: string)
      requires Linked() && id in connections
      modifies connections[id]
      ensures connections[id].number < |objects|
      ensures Views(objects) == var was, o := old(Views(objects)), connections[id].number; was[o := Cleanup(was[o])]
    {
      ghost var before := Views(objects);
      DisconnectAndCleanup(connections[id]);
      OneViewChanged(objects, connections[id], before);
    }

    method StopStep()
      requires Linked()
      modifies this`running, objects
      ensures Linked() && Abstract() == StopConnector(old(Abstract()))
    {
      if !running {
        return;
      }
      LoopsIgnoreRunning(Abstract());
      running := false;
      CleanupAll();
    }

    ghost predicate Stopping(was: System, todo: set<string>)
      reads this, objects
    {
      Linked() && Injective(was) && was.tracked == Tracked() && Views(objects) == StoppedBut(was, todo)
    }

    lemma StopLoopBegins()
      requires Linked()
      ensures Stopping(Abstract(), connections.Keys)
    {
      TrackedIsInjective();
      StopLoopEnds(Abstract());
    }

    method CleanupAll()
      requires Linked()
      modifies objects
      ensures Views(objects) == StopAll(old(Abstract()))
    {
      ghost var was := Abstract();
      StopLoopBegins();
      var todo := connections.Keys;
      while todo != {}
        invariant todo <= connections.Keys && Stopping(was, todo)
        decreases todo
      {
        var id :| id in todo;
        CleanupOneOf(id, was, todo);
        todo := todo - {id};
      }
      StopLoopEnds(was);
    }

    // -------------------------------------------------------------- API calls and callbacks keep the invariant

    method RunCallback(managed: ManagedConnection, k: Callback)
      requires Valid() && managed in objects && managed.Owed(k) > 0
      modifies managed
      ensures Valid() && Abstract() == ConnectorSpec.RunCallback(protocol, old(Abstract()), managed.number, k)
    {
      ghost var next := ConnectorSpec.Step(protocol, Abstract(), Callback(managed.number, k));
      ConnectorRuns.StepKeepsSafe(protocol, Abstract(), Callback(managed.number, k));
      CallbackStep(managed, k);
      assert Abstract() == next;
    }

    method AddConnectionCall(id: string, enabled: bool, valid: bool) returns (thrown: bool)
      requires Valid()
      modifies this
      ensures Valid() && Abstract() == AddConnection(old(Abstract()), id, enabled, valid)
      ensures thrown <==> id in old(connections) || !valid
      ensures !thrown ==> connections.Keys == old(connections.Keys) + {id}
    {
      ghost var next := ConnectorSpec.Step(protocol, Abstract(), Add(id, enabled, valid));
      ConnectorRuns.StepKeepsSafe(protocol, Abstract(), Add(id, enabled, valid));
      thrown := AddStep(id, enabled, valid);
      assert Abstract() == next;
    }

    method RemoveConnectionCall(id: string) returns (thrown: bool)
      requires Valid()
      modifies this, objects
      ensures Valid() && Abstract() == RemoveConnection(old(Abstract()), id)
      ensures thrown <==> id !in old(connections)
    {
      ghost var next := ConnectorSpec.Step(protocol, Abstract(), Remove(id));
      ConnectorRuns.StepKeepsSafe(protocol, Abstract(), Remove(id));
      thrown := RemoveStep(id);
      assert Abstract() == next;
    }

    method UpdateConnectionCall(id: string, enabled: bool, valid: bool) returns (thrown: bool)
      requires Valid()
      modifies this, objects
      ensures Valid() && Abstract() == UpdateConnection(old(Abstract()), id, enabled, valid)
      ensures thrown <==> !valid
    {
      ghost var next := ConnectorSpec.Step(protocol, Abstract(), Update(id, enabled, valid));
      ConnectorRuns.StepKeepsSafe(protocol, Abstract(), Update(id, enabled, valid));
      thrown := UpdateStep(id, enabled, valid);
      assert Abstract() == next;
    }

    method StartCall()
      requires Valid()
      modifies this`running, objects
      ensures Valid() && Abstract() == StartConnector(old(Abstract()))
    {
      ghost var next := ConnectorSpec.Step(protocol, Abstract(), Start);
      ConnectorRuns.StepKeepsSafe(protocol, Abstract(), Start);
      StartStep();
      assert Abstract() == next;
    }

    method StopCall()
      requires Valid()
      modifies this`running, objects
      ensures Valid() && Abstract() == StopConnector(old(Abstract()))
    {
      ghost var next := ConnectorSpec.Step(protocol, Abstract(), Stop);
      ConnectorRuns.StepKeepsSafe(protocol, Abstract(), Stop);
      StopStep();
      assert Abstract() == next;
    }
  }

  // ---------------------------------------------------------------- the loops over the map

  /** The loop has still to visit the object: it is under one of the `todo` ids. */
  ghost predicate Ahead(s: System, todo: set<string>, o: nat) {
    exists id | id in todo :: id in s.tracked && s.tracked[id] == o
  }

  ghost function StartedBut(s: System, todo: set<string>): seq<Conn> {
    seq(|s.objects|, o requires 0 <= o < |s.objects| =>
      if InMap(s, o) && !Ahead(s, todo, o) && s.objects[o].enabled then Initiate(s.objects[o])
      else s.objects[o])
  }

  ghost function StoppedBut(s: System, todo: set<string>): seq<Conn> {
    seq(|s.objects|, o requires 0 <= o < |s.objects| =>
      if InMap(s, o) && !Ahead(s, todo, o) then Cleanup(s.objects[o]) else s.objects[o])
  }

  lemma LoopsIgnoreRunning(s: System)
    ensures StartAll(s.(running := true)) == StartAll(s) && StopAll(s.(running := false)) == StopAll(s)
  {
  }

  lemma StartLoopEnds(s: System)
    ensures StartedBut(s, s.tracked.Keys) == s.objects && StartedBut(s, {}) == StartAll(s)
  {
  }

  lemma StopLoopEnds(s: System)
    ensures StoppedBut(s, s.tracked.Keys) == s.objects && StoppedBut(s, {}) == StopAll(s)
  {
  }

  ghost predicate Injective(s: System) {
    && (forall i | i in s.tracked :: s.tracked[i] < |s.objects|)
    && (forall i, j | i in s.tracked && j in s.tracked && i != j :: s.tracked[i] != s.tracked[j])
  }

  lemma AheadNext(s: System, todo: set<string>, id: string)
    requires Injective(s) && id in s.tracked && id in todo
    ensures Ahead(s, todo, s.tracked[id]) && InMap(s, s.tracked[id])
    ensures forall o: nat :: Ahead(s, todo - {id}, o) <==> Ahead(s, todo, o) && o != s.tracked[id]
  {
    forall o: nat | Ahead(s, todo, o) && o != s.tracked[id]
      ensures Ahead(s, todo - {id}, o)
    {
      var i :| i in todo && i in s.tracked && s.tracked[i] == o;
      assert i in todo - {id};
    }
  }

  lemma StartNext(s: System, todo: set<string>, id: string)
    requires Injective(s) && id in s.tracked && id in todo
    ensures var o, now := s.tracked[id], StartedBut(s, todo);
      StartedBut(s, todo - {id})
      == now[o := if now[o].enabled then Initiate(now[o]) else now[o]]
  {
    AheadNext(s, todo, id);
  }

  lemma StopNext(s: System, todo: set<string>, id: string)
    requires Injective(s) && id in s.tracked && id in todo
    ensures var o, now := s.tracked[id], StoppedBut(s, todo);
      StoppedBut(s, todo - {id}) == now[o := Cleanup(now[o])]
  {
    AheadNext(s, todo, id);
  }
}
