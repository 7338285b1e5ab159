/**
 * The connection lifecycle shared by the protocol connectors, as a state machine on
 * values: what every API call, callback and timer does to one connection, and to all.
 */
module ConnectorSpec {
  import opened Options

  datatype Protocol = S7 | Modbus | Pccc | EthernetIp {
    /** These connectors start no read while one is outstanding. */
    predicate ReadsSerially() { Pccc? || EthernetIp? }
    /** This connector looks at the client before it looks at the error. */
    predicate GuardsFailures() { Pccc? }
  }

  datatype LinkState = Connected | Disconnected | Error

  /**
   * One managed connection with the part of the event loop that belongs to it: timers
   * armed, connect attempts and reads whose callback has not run. Attempt `n` is made
   * by client `n`; `attempts` and `timers` count those created so far.
   */
  datatype Conn = Conn(
    enabled: bool,
    client: Option<nat>,
    state: LinkState,
    connecting: bool,
    pollingTimer: Option<nat>,
    reconnectTimer: Option<nat>,
    pollInProgress: bool,
    armedPolling: set<nat>,
    armedReconnect: set<nat>,
    inFlight: set<nat>,
    pending: nat,
    attempts: nat,
    timers: nat)

  /** How an outstanding read ends: values, an error that reconnects, or only bad quality. */
  datatype ReadResult = Values | Failed | BadQuality

  function NewConn(enabled: bool): Conn {
    Conn(enabled, None, Disconnected, false, None, None, false, {}, {}, {}, 0, 0, 0)
  }

  // ---------------------------------------------------------------- one connection

  function Initiate(c: Conn): Conn {
    if c.connecting then c
    else c.(connecting := true, client := Some(c.attempts),
            inFlight := c.inFlight + {c.attempts}, attempts := c.attempts + 1)
  }

  function StopPolling(c: Conn): Conn {
    match c.pollingTimer
    case None => c
    case Some(t) => c.(armedPolling := c.armedPolling - {t}, pollingTimer := None)
  }

  /** `mapped` tells whether the connection has mappings to read. */
  function Poll(p: Protocol, c: Conn, mapped: bool): Conn {
    if c.state != Connected || c.client.None? || !mapped then c
    else if p.ReadsSerially() && c.pollInProgress then c
    else c.(pending := c.pending + 1, pollInProgress := p.ReadsSerially())
  }

  function StartPolling(p: Protocol, c: Conn, mapped: bool): Conn {
    if c.pollingTimer.Some? then c
    else
      var d := Poll(p, c, mapped);
      d.(pollingTimer := Some(d.timers), armedPolling := d.armedPolling + {d.timers}, timers := d.timers + 1)
  }

  function ClearReconnect(c: Conn): Conn {
    match c.reconnectTimer
    case None => c
    case Some(t) => c.(armedReconnect := c.armedReconnect - {t}, reconnectTimer := None)
  }

  function ScheduleReconnect(c: Conn): Conn {
    var d := ClearReconnect(c);
    d.(reconnectTimer := Some(d.timers), armedReconnect := d.armedReconnect + {d.timers}, timers := d.timers + 1)
  }

  function HandleError(c: Conn, running: bool): Conn {
    var d := StopPolling(c.(state := if c.state == Connected then Disconnected else Error));
    if running then ScheduleReconnect(d) else d
  }

  function Cleanup(c: Conn): Conn {
    ClearReconnect(StopPolling(c)).(client := None, state := Disconnected, connecting := false)
  }

  function ConnectOk(p: Protocol, c: Conn, attempt: nat, mapped: bool): Conn {
    if attempt !in c.inFlight then c
    else
      var d := c.(inFlight := c.inFlight - {attempt}, connecting := false);
      if d.client.None? then d else StartPolling(p, d.(state := Connected), mapped)
  }

  function ConnectFail(p: Protocol, c: Conn, attempt: nat, running: bool): Conn {
    if attempt !in c.inFlight then c
    else
      var d := c.(inFlight := c.inFlight - {attempt}, connecting := false);
      if p.GuardsFailures() && d.client.None? then d else HandleError(d, running)
  }

  function ReconnectFires(c: Conn, timer: nat, running: bool): Conn {
    if timer !in c.armedReconnect then c
    else
      var d := c.(armedReconnect := c.armedReconnect - {timer}, reconnectTimer := None);
      if !running then d else Initiate(d.(client := None, state := Disconnected))
  }

  function PollFires(p: Protocol, c: Conn, timer: nat, mapped: bool): Conn {
    if timer !in c.armedPolling then c else Poll(p, c, mapped)
  }

  function ReadDone(p: Protocol, c: Conn, result: ReadResult, running: bool): Conn {
    if c.pending == 0 then c
    else
      var d := c.(pending := c.pending - 1, pollInProgress := false);
      if result != Failed || (p.GuardsFailures() && d.client.None?) then d else HandleError(d, running)
  }

  // ---------------------------------------------------------------- the connector

  /** `objects` are all connections ever made; `tracked` says which of them the map holds. */
  datatype System = System(running: bool, tracked: map<string, nat>, objects: seq<Conn>)

  /** What the event loop can deliver to one connection, at any time. */
  datatype Callback =
    | Connects(attempt: nat, mapped: bool)
    | ConnectFails(attempt: nat)
    | ReconnectTimer(timer: nat)
    | PollTimer(timer: nat, mapped: bool)
    | ReadEnds(result: ReadResult)

  function Deliver(p: Protocol, c: Conn, k: Callback, running: bool): Conn {
    match k
    case Connects(a, mapped) => ConnectOk(p, c, a, mapped)
    case ConnectFails(a) => ConnectFail(p, c, a, running)
    case ReconnectTimer(t) => ReconnectFires(c, t, running)
    case PollTimer(t, mapped) => PollFires(p, c, t, mapped)
    case ReadEnds(r) => ReadDone(p, c, r, running)
  }

  datatype Event =
    | Start
    | Stop
    | Add(id: string, enabled: bool, valid: bool)
    | Remove(id: string)
    | Update(id: string, enabled: bool, valid: bool)
    | Callback(o: nat, k: Callback)

  const INITIAL := System(false, map[], [])

  predicate InMap(s: System, o: nat) {
    o in s.tracked.Values
  }

  function StartAll(s: System): seq<Conn> {
    seq(|s.objects|, o requires 0 <= o < |s.objects| =>
      if InMap(s, o) && s.objects[o].enabled then Initiate(s.objects[o]) else s.objects[o])
  }

  function StopAll(s: System): seq<Conn> {
    seq(|s.objects|, o requires 0 <= o < |s.objects| =>
      if InMap(s, o) then Cleanup(s.objects[o]) else s.objects[o])
  }

  /** Calls that throw leave the state as the statements before the throw made it. */
  function Step(p: Protocol, s: System, e: Event): System
    requires forall id | id in s.tracked :: s.tracked[id] < |s.objects|
  {
    match e
    case Start => StartConnector(s)
    case Stop => StopConnector(s)
    case Add(id, enabled, valid) => AddConnection(s, id, enabled, valid)
    case Remove(id) => RemoveConnection(s, id)
    case Update(id, enabled, valid) => UpdateConnection(s, id, enabled, valid)
    case Callback(o, k) => RunCallback(p, s, o, k)
  }

  function StartConnector(s: System): System {
    if s.running then s else s.(running := true, objects := StartAll(s))
  }

  function StopConnector(s: System): System {
    if !s.running then s else s.(running := false, objects := StopAll(s))
  }

  function RunCallback(p: Protocol, s: System, o: nat, k: Callback): System {
    if o >= |s.objects| then s
    else s.(objects := s.objects[o := Deliver(p, s.objects[o], k, s.running)])
  }

  function AddConnection(s: System, id: string, enabled: bool, valid: bool): System {
    if id in s.tracked || !valid then s
    else
      var c := NewConn(enabled);
      s.(tracked := s.tracked[id := |s.objects|],
         objects := s.objects + [if s.running && enabled then Initiate(c) else c])
  }

  function RemoveConnection(s: System, id: string): System
    requires id in s.tracked ==> s.tracked[id] < |s.objects|
  {
    if id !in s.tracked then s
    else
      var o := s.tracked[id];
      s.(objects := s.objects[o := Cleanup(s.objects[o])], tracked := s.tracked - {id})
  }

  function UpdateConnection(s: System, id: string, enabled: bool, valid: bool): System
    requires id in s.tracked ==> s.tracked[id] < |s.objects|
  {
    if id !in s.tracked then AddConnection(s, id, enabled, valid)
    else
      var o := s.tracked[id];
      s.(objects := s.objects[o := Reconfigure(s.objects[o], enabled, valid, s.running)])
  }

  function Reconfigure(c: Conn, enabled: bool, valid: bool, running: bool): Conn {
    var d := Cleanup(c);
    if !valid then d
    else if running && enabled then Initiate(d.(enabled := enabled))
    else d.(enabled := enabled)
  }
}
