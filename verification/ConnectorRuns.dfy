/** What holds in every run of the connector, and which deliveries break its progress. */
module ConnectorRuns {
  import opened Options
  import opened ConnectorSpec

  // ---------------------------------------------------------------- safety

  function Held(timer: Option<nat>): set<nat> {
    match timer case None => {} case Some(t) => {t}
  }

  /** No client and no timer: nothing of the connection can act on its own. */
  ghost predicate Quiet(c: Conn) {
    c.client.None? && c.pollingTimer.None? && c.reconnectTimer.None?
  }

  /** The safety invariant of one connection. */
  ghost predicate SafeConn(p: Protocol, c: Conn) {
    // every armed timer is the one its field holds
    && c.armedPolling == Held(c.pollingTimer)
    && c.armedReconnect == Held(c.reconnectTimer)
    // "connected" has a client behind it
    && (c.state == Connected ==> c.client.Some?)
    && (c.client.Some? ==> c.client.value < c.attempts)
    && (forall a | a in c.inFlight :: a < c.attempts)
    && (c.pollingTimer.Some? ==> c.pollingTimer.value < c.timers)
    && (c.reconnectTimer.Some? ==> c.reconnectTimer.value < c.timers)
    // a serial protocol has at most one read outstanding, and its flag says so
    && (p.ReadsSerially() ==> c.pending == if c.pollInProgress then 1 else 0)
  }

  ghost predicate WellFormed(s: System) {
    && (forall id | id in s.tracked :: s.tracked[id] < |s.objects|)
    && (forall i, j | i in s.tracked && j in s.tracked && i != j :: s.tracked[i] != s.tracked[j])
  }

  ghost predicate Safe(p: Protocol, s: System) {
    && WellFormed(s)
    && (forall o | 0 <= o < |s.objects| :: SafeConn(p, s.objects[o]))
    && (!s.running ==> forall id | id in s.tracked ::
         Quiet(s.objects[s.tracked[id]]) && !s.objects[s.tracked[id]].connecting)
  }

  lemma InitiateKeepsSafe(p: Protocol, c: Conn)
    requires SafeConn(p, c)
    ensures SafeConn(p, Initiate(c))
  {
  }

  lemma CleanupKeepsSafe(p: Protocol, c: Conn)
    requires SafeConn(p, c)
    ensures SafeConn(p, Cleanup(c)) && Quiet(Cleanup(c)) && !Cleanup(c).connecting
  {
  }

  lemma StopPollingKeepsSafe(p: Protocol, c: Conn)
    requires SafeConn(p, c)
    ensures SafeConn(p, StopPolling(c))
  {
  }

  lemma ScheduleKeepsSafe(p: Protocol, c: Conn)
    requires SafeConn(p, c)
    ensures SafeConn(p, ScheduleReconnect(c))
  {
    assert ClearReconnect(c).armedReconnect == {};
  }

  lemma HandleErrorKeepsSafe(p: Protocol, c: Conn, running: bool)
    requires SafeConn(p, c)
    ensures SafeConn(p, HandleError(c, running))
  {
    var d := c.(state := if c.state == Connected then Disconnected else Error);
    StopPollingKeepsSafe(p, d);
    ScheduleKeepsSafe(p, StopPolling(d));
  }

  lemma StartPollingKeepsSafe(p: Protocol, c: Conn, mapped: bool)
    requires SafeConn(p, c)
    ensures SafeConn(p, StartPolling(p, c, mapped))
  {
    assert SafeConn(p, Poll(p, c, mapped));
  }

  lemma ConnectOkKeepsSafe(p: Protocol, c: Conn, a: nat, mapped: bool)
    requires SafeConn(p, c)
    ensures SafeConn(p, ConnectOk(p, c, a, mapped))
  {
    var d := c.(inFlight := c.inFlight - {a}, connecting := false);
    if a in c.inFlight && d.client.Some? {
      StartPollingKeepsSafe(p, d.(state := Connected), mapped);
    }
  }

  lemma ReconnectKeepsSafe(p: Protocol, c: Conn, t: nat, running: bool)
    requires SafeConn(p, c)
    ensures SafeConn(p, ReconnectFires(c, t, running))
  {
    if t in c.armedReconnect {
      assert c.armedReconnect - {t} == {};
      var d := c.(armedReconnect := {}, reconnectTimer := None);
      InitiateKeepsSafe(p, d.(client := None, state := Disconnected));
    }
  }

  /** Every callback keeps the invariant of its connection, whatever the moment. */
  lemma DeliverKeepsSafe(p: Protocol, c: Conn, k: Callback, running: bool)
    requires SafeConn(p, c)
    ensures SafeConn(p, Deliver(p, c, k, running))
  {
    match k {
      case Connects(a, mapped) => ConnectOkKeepsSafe(p, c, a, mapped);
      case ConnectFails(a) =>
        HandleErrorKeepsSafe(p, c.(inFlight := c.inFlight - {a}, connecting := false), running);
      case ReconnectTimer(t) => ReconnectKeepsSafe(p, c, t, running);
      case PollTimer(t, mapped) =>
      case ReadEnds(r) =>
        if c.pending > 0 {
          HandleErrorKeepsSafe(p, c.(pending := c.pending - 1, pollInProgress := false), running);
        }
    }
  }

  /** A stopped connection stays quiet whatever callback still arrives. */
  lemma StoppedStaysQuiet(p: Protocol, c: Conn, k: Callback)
    requires SafeConn(p, c) && Quiet(c) && !c.connecting
    ensures Quiet(Deliver(p, c, k, false)) && !Deliver(p, c, k, false).connecting
  {
  }

  lemma ReplaceKeepsSafe(p: Protocol, s: System, o: nat, c: Conn)
    requires Safe(p, s) && o < |s.objects| && SafeConn(p, c)
    requires !s.running && InMap(s, o) ==> Quiet(c) && !c.connecting
    ensures Safe(p, s.(objects := s.objects[o := c]))
  {
  }

  /** Every step of the connector keeps the safety invariant: no assumption on what arrives when. */
  lemma StepKeepsSafe(p: Protocol, s: System, e: Event)
    requires Safe(p, s)
    ensures Safe(p, Step(p, s, e))
  {
    match e {
      case Start => StartKeepsSafe(p, s);
      case Stop => StopKeepsSafe(p, s);
      case Add(id, enabled, valid) =>
        AddKeepsSafe(p, s, id, enabled, valid);
      case Remove(id) =>
        if id in s.tracked {
          var o := s.tracked[id];
          CleanupKeepsSafe(p, s.objects[o]);
          ReplaceKeepsSafe(p, s, o, Cleanup(s.objects[o]));
        }
      case Update(id, enabled, valid) =>
        AddKeepsSafe(p, s, id, enabled, valid);
        if id in s.tracked {
          var o := s.tracked[id];
          CleanupKeepsSafe(p, s.objects[o]);
          InitiateKeepsSafe(p, Cleanup(s.objects[o]).(enabled := enabled));
          ReplaceKeepsSafe(p, s, o, Reconfigure(s.objects[o], enabled, valid, s.running));
        }
      case Callback(o, k) =>
        if o < |s.objects| {
          DeliverKeepsSafe(p, s.objects[o], k, s.running);
          if !s.running && InMap(s, o) {
            StoppedStaysQuiet(p, s.objects[o], k);
          }
          ReplaceKeepsSafe(p, s, o, Deliver(p, s.objects[o], k, s.running));
        }
    }
  }

  lemma StartKeepsSafe(p: Protocol, s: System)
    requires Safe(p, s)
    ensures Safe(p, s.(running := true, objects := StartAll(s)))
  {
    forall o | 0 <= o < |s.objects| ensures SafeConn(p, Initiate(s.objects[o])) {
      InitiateKeepsSafe(p, s.objects[o]);
    }
  }

  lemma StopKeepsSafe(p: Protocol, s: System)
    requires Safe(p, s)
    ensures Safe(p, s.(running := false, objects := StopAll(s)))
  {
    forall o | 0 <= o < |s.objects|
      ensures SafeConn(p, Cleanup(s.objects[o])) && Quiet(Cleanup(s.objects[o])) && !Cleanup(s.objects[o]).connecting
    {
      CleanupKeepsSafe(p, s.objects[o]);
    }
  }

  lemma AddKeepsSafe(p: Protocol, s: System, id: string, enabled: bool, valid: bool)
    requires Safe(p, s)
    ensures Safe(p, AddConnection(s, id, enabled, valid))
  {
    InitiateKeepsSafe(p, NewConn(enabled));
  }

  function Run(p: Protocol, s: System, es: seq<Event>): System
    requires Safe(p, s)
    decreases |es|
  {
    if es == [] then s
    else
      StepKeepsSafe(p, s, es[0]);
      Run(p, Step(p, s, es[0]), es[1..])
  }

  lemma InitialIsSafe(p: Protocol)
    ensures Safe(p, INITIAL) && Progressing(INITIAL)
  {
  }

  /** The safety invariant holds after every run from a safe state, such as the initial one. */
  lemma {:induction false} RunKeepsSafe(p: Protocol, s: System, es: seq<Event>)
    requires Safe(p, s)
    ensures Safe(p, Run(p, s, es))
    decreases |es|
  {
    if es != [] {
      StepKeepsSafe(p, s, es[0]);
      RunKeepsSafe(p, Step(p, s, es[0]), es[1..]);
    }
  }

  // ---------------------------------------------------------------- progress

  predicate LatestInFlight(c: Conn) {
    c.attempts > 0 && c.attempts - 1 in c.inFlight
  }

  /** A connect attempt is under way, and its callback will find its client. */
  predicate Attempting(c: Conn) {
    && c.connecting && LatestInFlight(c) && c.client == Some(c.attempts - 1)
    && c.state != Connected && c.pollingTimer.None? && c.reconnectTimer.None?
  }

  /** A reconnect timer will start the next attempt. */
  predicate Waiting(c: Conn) {
    && c.reconnectTimer.Some?
    && !c.connecting && !LatestInFlight(c) && c.state != Connected && c.pollingTimer.None?
  }

  /** The connection is up and its polling timer runs. */
  predicate Polling(c: Conn) {
    && c.state == Connected && c.client.Some? && c.pollingTimer.Some?
    && !c.connecting && !LatestInFlight(c) && c.reconnectTimer.None?
  }

  /** In exactly one of the three: any two of them contradict each other. */
  predicate Alive(c: Conn) {
    Attempting(c) || Waiting(c) || Polling(c)
  }

  /** What will bring the connection on: its latest attempt with its client, a reconnect timer, armed polling. */
  function Ways(c: Conn): nat {
    (if LatestInFlight(c) && c.client == Some(c.attempts - 1) then 1 else 0)
    + (if c.reconnectTimer.Some? then 1 else 0)
    + (if c.state == Connected && c.pollingTimer.Some? then 1 else 0)
  }

  lemma AliveIsExactlyOne(c: Conn)
    requires Alive(c)
    ensures Ways(c) == 1
  {
  }

  /**
   * The callback does a live connection no harm: a connect result is that of the latest
   * attempt, or is stale and finds no attempt to spoil; a read does not fail during an attempt.
   */
  predicate HarmlessTo(c: Conn, k: Callback) {
    match k
    case Connects(a, _) => a in c.inFlight ==> a + 1 == c.attempts || Polling(c) || c.client.None?
    case ConnectFails(a) => a in c.inFlight ==> a + 1 == c.attempts || !Attempting(c)
    case ReadEnds(r) => r == Failed && c.pending > 0 ==> !Attempting(c)
    case _ => true
  }

  /** A live connection stays alive exactly under harmless callbacks. */
  lemma StaysAliveIffHarmless(p: Protocol, c: Conn, k: Callback)
    requires SafeConn(p, c) && Alive(c)
    ensures Alive(Deliver(p, c, k, true)) <==> HarmlessTo(c, k)
  {
    match k {
      case Connects(a, mapped) => SuccessHarmlessIff(p, c, a, mapped);
      case ConnectFails(a) => FailureHarmlessIff(p, c, a);
      case ReconnectTimer(t) =>
      case PollTimer(t, mapped) =>
      case ReadEnds(r) => ReadHarmlessIff(p, c, r);
    }
  }

  /** A callback of a live connection leaves exactly one way on if and only if it is harmless. */
  lemma OneWayIffHarmless(p: Protocol, c: Conn, k: Callback)
    requires SafeConn(p, c) && Alive(c)
    ensures Ways(Deliver(p, c, k, true)) == 1 <==> HarmlessTo(c, k)
  {
    StaysAliveIffHarmless(p, c, k);
    if HarmlessTo(c, k) {
      AliveIsExactlyOne(Deliver(p, c, k, true));
    } else if k.Connects? {
      HarmfulSuccess(p, c, k.attempt, k.mapped);
    } else if k.ConnectFails? {
      HarmfulFailure(p, c, k.attempt);
    }
  }

  lemma HarmfulSuccess(p: Protocol, c: Conn, a: nat, mapped: bool)
    requires SafeConn(p, c) && Alive(c) && !HarmlessTo(c, Connects(a, mapped))
    ensures Ways(ConnectOk(p, c, a, mapped)) == 2
  {
  }

  lemma HarmfulFailure(p: Protocol, c: Conn, a: nat)
    requires SafeConn(p, c) && Alive(c) && !HarmlessTo(c, ConnectFails(a))
    ensures Ways(ConnectFail(p, c, a, true)) == 2
  {
  }

  lemma SuccessHarmlessIff(p: Protocol, c: Conn, a: nat, mapped: bool)
    requires SafeConn(p, c) && Alive(c)
    ensures Alive(ConnectOk(p, c, a, mapped)) <==> HarmlessTo(c, Connects(a, mapped))
  {
  }

  lemma FailureHarmlessIff(p: Protocol, c: Conn, a: nat)
    requires SafeConn(p, c) && Alive(c)
    ensures Alive(ConnectFail(p, c, a, true)) <==> HarmlessTo(c, ConnectFails(a))
  {
  }

  lemma ReadHarmlessIff(p: Protocol, c: Conn, r: ReadResult)
    requires SafeConn(p, c) && Alive(c)
    ensures Alive(ReadDone(p, c, r, true)) <==> HarmlessTo(c, ReadEnds(r))
  {
  }

  /** An update with bad parameters cleans the connection up and starts nothing. */
  lemma InvalidUpdateKills(p: Protocol, c: Conn, enabled: bool, running: bool)
    requires SafeConn(p, c)
    ensures var d := Reconfigure(c, enabled, false, running);
      !Alive(d) && d.enabled == c.enabled
  {
    CleanupKeepsSafe(p, c);
  }

  /** The object is one that progress is claimed for. */
  predicate Watched(s: System, o: nat) {
    s.running && o < |s.objects| && InMap(s, o) && s.objects[o].enabled
  }

  /** Only callbacks and invalid updates of watched connections can do harm. */
  predicate HarmlessEvent(s: System, e: Event)
    requires forall id | id in s.tracked :: s.tracked[id] < |s.objects|
  {
    match e
    case Update(id, _, valid) => valid || id !in s.tracked || !Watched(s, s.tracked[id])
    case Callback(o, k) => Watched(s, o) ==> HarmlessTo(s.objects[o], k)
    case _ => true
  }

  ghost predicate Progressing(s: System)
    requires WellFormed(s)
  {
    s.running ==> forall id | id in s.tracked ::
      s.objects[s.tracked[id]].enabled ==> Alive(s.objects[s.tracked[id]])
  }

  lemma InitiateIsAlive(p: Protocol, c: Conn)
    requires SafeConn(p, c) && Quiet(c) && !c.connecting
    ensures Attempting(Initiate(c))
  {
  }

  lemma UpdateIsAlive(p: Protocol, s: System, id: string, enabled: bool)
    requires Safe(p, s) && s.running
    ensures var t := UpdateConnection(s, id, enabled, true);
      id in t.tracked && t.tracked[id] < |t.objects| &&
      (t.objects[t.tracked[id]].enabled ==> Alive(t.objects[t.tracked[id]]))
  {
    if id in s.tracked {
      var c := s.objects[s.tracked[id]];
      CleanupKeepsSafe(p, c);
      InitiateIsAlive(p, Cleanup(c).(enabled := enabled));
    } else {
      InitiateIsAlive(p, NewConn(enabled));
    }
  }

  lemma StartKeepsProgress(p: Protocol, s: System)
    requires Safe(p, s) && Progressing(s)
    ensures Safe(p, StartConnector(s)) && Progressing(StartConnector(s))
  {
    StepKeepsSafe(p, s, Start);
    if !s.running {
      forall id | id in s.tracked && s.objects[s.tracked[id]].enabled
        ensures Alive(StartConnector(s).objects[s.tracked[id]])
      {
        InitiateIsAlive(p, s.objects[s.tracked[id]]);
      }
    }
  }

  lemma AddKeepsProgress(p: Protocol, s: System, id: string, enabled: bool, valid: bool)
    requires Safe(p, s) && Progressing(s)
    ensures Safe(p, AddConnection(s, id, enabled, valid)) && Progressing(AddConnection(s, id, enabled, valid))
  {
    StepKeepsSafe(p, s, Add(id, enabled, valid));
    InitiateIsAlive(p, NewConn(enabled));
  }

  lemma RemoveKeepsProgress(p: Protocol, s: System, id: string)
    requires Safe(p, s) && Progressing(s)
    ensures Safe(p, RemoveConnection(s, id)) && Progressing(RemoveConnection(s, id))
  {
    StepKeepsSafe(p, s, Remove(id));
  }

  lemma UpdateKeepsProgress(p: Protocol, s: System, id: string, enabled: bool, valid: bool)
    requires Safe(p, s) && Progressing(s) && HarmlessEvent(s, Update(id, enabled, valid))
    ensures Safe(p, UpdateConnection(s, id, enabled, valid)) && Progressing(UpdateConnection(s, id, enabled, valid))
  {
    StepKeepsSafe(p, s, Update(id, enabled, valid));
    if id !in s.tracked {
      AddKeepsProgress(p, s, id, enabled, valid);
    } else if valid && s.running {
      UpdateIsAlive(p, s, id, enabled);
    }
  }

  /** A callback changes the object it belongs to, and never whether that is enabled. */
  lemma CallbackKeepsProgressIff(p: Protocol, s: System, o: nat, k: Callback)
    requires Safe(p, s) && Progressing(s)
    ensures Safe(p, RunCallback(p, s, o, k))
    ensures Progressing(RunCallback(p, s, o, k)) <==> HarmlessEvent(s, Callback(o, k))
  {
    if o < |s.objects| {
      DeliverKeepsEnabled(p, s.objects[o], k, s.running);
      if Watched(s, o) {
        StaysAliveIffHarmless(p, s.objects[o], k);
      }
      ReplaceKeepsProgressIff(p, s, o, k, Deliver(p, s.objects[o], k, s.running));
    }
    StepKeepsSafe(p, s, Callback(o, k));
  }

  lemma ReplaceKeepsProgressIff(p: Protocol, s: System, o: nat, k: Callback, d: Conn)
    requires Safe(p, s) && Progressing(s) && o < |s.objects| && d.enabled == s.objects[o].enabled
    requires Watched(s, o) ==> (Alive(d) <==> HarmlessTo(s.objects[o], k))
    ensures WellFormed(s.(objects := s.objects[o := d]))
    ensures Progressing(s.(objects := s.objects[o := d])) <==> HarmlessEvent(s, Callback(o, k))
  {
    var t := s.(objects := s.objects[o := d]);
    if Watched(s, o) && !Alive(d) {
      var id :| id in s.tracked && s.tracked[id] == o;
      assert t.objects[t.tracked[id]] == d;
    }
  }

  lemma InvalidUpdateEndsProgress(p: Protocol, s: System, id: string, enabled: bool)
    requires Safe(p, s) && id in s.tracked && Watched(s, s.tracked[id])
    ensures Safe(p, UpdateConnection(s, id, enabled, false))
    ensures !Progressing(UpdateConnection(s, id, enabled, false))
  {
    StepKeepsSafe(p, s, Update(id, enabled, false));
    InvalidUpdateKills(p, s.objects[s.tracked[id]], enabled, s.running);
    assert id in UpdateConnection(s, id, enabled, false).tracked;
  }

  /** One step keeps every watched connection alive exactly when it is harmless. */
  lemma StepKeepsProgress(p: Protocol, s: System, e: Event)
    requires Safe(p, s) && Progressing(s)
    ensures Safe(p, Step(p, s, e))
    ensures Progressing(Step(p, s, e)) <==> HarmlessEvent(s, e)
  {
    match e {
      case Start => StartKeepsProgress(p, s);
      case Stop => StepKeepsSafe(p, s, Stop);
      case Add(id, enabled, valid) => AddKeepsProgress(p, s, id, enabled, valid);
      case Remove(id) => RemoveKeepsProgress(p, s, id);
      case Update(id, enabled, valid) =>
        if HarmlessEvent(s, e) {
          UpdateKeepsProgress(p, s, id, enabled, valid);
        } else {
          InvalidUpdateEndsProgress(p, s, id, enabled);
        }
      case Callback(o, k) => CallbackKeepsProgressIff(p, s, o, k);
    }
  }

  lemma DeliverKeepsEnabled(p: Protocol, c: Conn, k: Callback, running: bool)
    ensures Deliver(p, c, k, running).enabled == c.enabled
  {
  }

  /** In every state of the run. */
  ghost predicate ProgressingRun(p: Protocol, s: System, es: seq<Event>)
    requires Safe(p, s)
    decreases |es|
  {
    if es == [] then Progressing(s)
    else
      StepKeepsSafe(p, s, es[0]);
      Progressing(s) && ProgressingRun(p, Step(p, s, es[0]), es[1..])
  }

  ghost predicate HarmlessRun(p: Protocol, s: System, es: seq<Event>)
    requires Safe(p, s)
    decreases |es|
  {
    if es == [] then true
    else
      StepKeepsSafe(p, s, es[0]);
      HarmlessEvent(s, es[0]) && HarmlessRun(p, Step(p, s, es[0]), es[1..])
  }

  /**
   * Throughout a run each tracked enabled connection of the running connector is
   * attempting, waiting or polling if and only if every event of the run is harmless.
   */
  lemma {:induction false} RunKeepsProgress(p: Protocol, s: System, es: seq<Event>)
    requires Safe(p, s) && Progressing(s)
    ensures ProgressingRun(p, s, es) <==> HarmlessRun(p, s, es)
    decreases |es|
  {
    if es != [] {
      StepKeepsProgress(p, s, es[0]);
      var t := Step(p, s, es[0]);
      if Progressing(t) {
        RunKeepsProgress(p, t, es[1..]);
      }
    }
  }

  /** Each tracked enabled connection of the running connector has exactly one way on. */
  ghost predicate OneWay(s: System)
    requires WellFormed(s)
  {
    s.running ==> forall id | id in s.tracked && s.objects[s.tracked[id]].enabled ::
      Ways(s.objects[s.tracked[id]]) == 1
  }

  lemma HarmEndsOneWay(p: Protocol, s: System, e: Event)
    requires Safe(p, s) && Progressing(s) && !HarmlessEvent(s, e)
    ensures Safe(p, Step(p, s, e)) && !OneWay(Step(p, s, e))
  {
    StepKeepsSafe(p, s, e);
    var t := Step(p, s, e);
    match e {
      case Update(id, enabled, valid) =>
        CleanupKeepsSafe(p, s.objects[s.tracked[id]]);
        assert id in t.tracked && Ways(t.objects[t.tracked[id]]) == 0;
      case Callback(o, k) =>
        var id :| id in s.tracked && s.tracked[id] == o;
        DeliverKeepsEnabled(p, s.objects[o], k, true);
        OneWayIffHarmless(p, s.objects[o], k);
        assert id in t.tracked && t.objects[t.tracked[id]] == Deliver(p, s.objects[o], k, true);
    }
  }

  /** One step leaves each exactly one way on if and only if it is harmless. */
  lemma StepKeepsOneWay(p: Protocol, s: System, e: Event)
    requires Safe(p, s) && Progressing(s)
    ensures Safe(p, Step(p, s, e))
    ensures OneWay(s) && (OneWay(Step(p, s, e)) <==> HarmlessEvent(s, e))
  {
    StepKeepsProgress(p, s, e);
    ProgressIsOneWay(s);
    if HarmlessEvent(s, e) {
      ProgressIsOneWay(Step(p, s, e));
    } else {
      HarmEndsOneWay(p, s, e);
    }
  }

  lemma ProgressIsOneWay(s: System)
    requires WellFormed(s) && Progressing(s)
    ensures OneWay(s)
  {
    forall id | id in s.tracked && s.running && s.objects[s.tracked[id]].enabled
      ensures Ways(s.objects[s.tracked[id]]) == 1
    {
      AliveIsExactlyOne(s.objects[s.tracked[id]]);
    }
  }

  ghost predicate OneWayRun(p: Protocol, s: System, es: seq<Event>)
    requires Safe(p, s)
    decreases |es|
  {
    && OneWay(s)
    && (es == [] || (StepKeepsSafe(p, s, es[0]); OneWayRun(p, Step(p, s, es[0]), es[1..])))
  }

  /** So in every state of a run they have exactly one way on if and only if the run is harmless. */
  lemma {:induction false} RunKeepsOneWay(p: Protocol, s: System, es: seq<Event>)
    requires Safe(p, s) && Progressing(s)
    ensures OneWayRun(p, s, es) <==> HarmlessRun(p, s, es)
    decreases |es|
  {
    ProgressIsOneWay(s);
    if es != [] {
      StepKeepsOneWay(p, s, es[0]);
      StepKeepsProgress(p, s, es[0]);
      if HarmlessEvent(s, es[0]) {
        RunKeepsOneWay(p, Step(p, s, es[0]), es[1..]);
      }
    }
  }

  /** Results of the latest attempt only, no read failing during an attempt, valid updates. */
  predicate Timely(s: System, e: Event) {
    match e
    case Update(_, _, valid) => valid
    case Callback(o, Connects(a, _)) => o < |s.objects| ==> a + 1 == s.objects[o].attempts
    case Callback(o, ConnectFails(a)) => o < |s.objects| ==> a + 1 == s.objects[o].attempts
    case Callback(o, ReadEnds(Failed)) => o < |s.objects| ==> !s.objects[o].connecting
    case _ => true
  }

  lemma TimelyIsHarmless(p: Protocol, s: System, e: Event)
    requires Safe(p, s) && Timely(s, e)
    ensures HarmlessEvent(s, e)
  {
  }

  // ---------------------------------------------------------------- where progress is lost

  /** No client, no timer, no attempt: only an API call can revive the connection. */
  predicate Stuck(c: Conn) {
    && c.client.None? && !c.connecting && c.pollingTimer.None? && c.reconnectTimer.None?
    && !LatestInFlight(c)
  }

  /**
   * A read that fails late, during the next connect attempt, arms a reconnect timer
   * beside the attempt. If the timer fires first, it takes the client away from the
   * attempt, and the attempt's success is then ignored.
   */
  lemma LateReadFailureStrands(p: Protocol, c: Conn, mapped: bool)
    requires SafeConn(p, c) && Attempting(c) && c.pending > 0
    ensures var failed := Deliver(p, c, ReadEnds(Failed), true);
      && failed.reconnectTimer.Some?
      && var fired := Deliver(p, failed, ReconnectTimer(failed.reconnectTimer.value), true);
         Stuck(Deliver(p, fired, Connects(c.attempts - 1, mapped), true))
  {
  }

  lemma RunFirst(p: Protocol, s: System, e: Event, es: seq<Event>)
    requires Safe(p, s)
    ensures Safe(p, Step(p, s, e)) && Run(p, s, [e] + es) == Run(p, Step(p, s, e), es)
  {
    StepKeepsSafe(p, s, e);
    assert ([e] + es)[1..] == es;
  }

  /** A connector that runs and has made one connection. */
  function Single(tracked: map<string, nat>, c: Conn): System {
    System(true, tracked, [c])
  }

  /** These callbacks of the first object, one after the other. */
  function Callbacks(ks: seq<Callback>): seq<Event> {
    if ks == [] then [] else [Callback(0, ks[0])] + Callbacks(ks[1..])
  }

  function DeliverAll(p: Protocol, c: Conn, ks: seq<Callback>): Conn
    decreases |ks|
  {
    if ks == [] then c else DeliverAll(p, Deliver(p, c, ks[0], true), ks[1..])
  }

  lemma {:induction false} CallbacksRun(p: Protocol, tracked: map<string, nat>, c: Conn, ks: seq<Callback>)
    requires Safe(p, Single(tracked, c))
    ensures Run(p, Single(tracked, c), Callbacks(ks)) == Single(tracked, DeliverAll(p, c, ks))
    decreases |ks|
  {
    if ks != [] {
      var s, d := Single(tracked, c), Deliver(p, c, ks[0], true);
      RunFirst(p, s, Callback(0, ks[0]), Callbacks(ks[1..]));
      assert Step(p, s, Callback(0, ks[0])) == Single(tracked, d);
      CallbacksRun(p, tracked, d, ks[1..]);
    }
  }

  /** Starting the connector and adding an enabled connection begins an attempt. */
  lemma StartAndAdd(p: Protocol, es: seq<Event>)
    ensures Safe(p, INITIAL)
    ensures var s := Single(map["c" := 0], Initiate(NewConn(true)));
      Safe(p, s) && Run(p, INITIAL, [Start, Add("c", true, true)] + es) == Run(p, s, es)
  {
    InitialIsSafe(p);
    var started := System(true, map[], []);
    assert Step(p, INITIAL, Start) == started;
    RunFirst(p, INITIAL, Start, [Add("c", true, true)] + es);
    assert [Start, Add("c", true, true)] + es == [Start] + ([Add("c", true, true)] + es);
    RunFirst(p, started, Add("c", true, true), es);
    assert Step(p, started, Add("c", true, true)) == Single(map["c" := 0], Initiate(NewConn(true)));
  }

  /** The read fails during the second attempt, the reconnect timer fires, and the attempt succeeds. */
  const LATE_FAILURE := [ReadEnds(Failed), ReconnectTimer(1), Connects(1, true)]

  /** A run from the beginning in which a connection is updated while its first read is out. */
  const STRANDING_RUN: seq<Event> :=
    [Start, Add("c", true, true)]
    + ([Callback(0, Connects(0, true))] + ([Update("c", true, true)] + Callbacks(LATE_FAILURE)))

  /** The connection before the late failure: its second attempt is under way, and a read of the first is out. */
  function Updated(p: Protocol): Conn {
    Reconfigure(ConnectOk(p, Initiate(NewConn(true)), 0, true), true, true, true)
  }

  lemma ConnectThenUpdate(p: Protocol, c: Conn, es: seq<Event>)
    requires Safe(p, Single(map["c" := 0], c))
    ensures var d := Reconfigure(ConnectOk(p, c, 0, true), true, true, true);
      && Safe(p, Single(map["c" := 0], d))
      && Run(p, Single(map["c" := 0], c), [Callback(0, Connects(0, true))] + ([Update("c", true, true)] + es))
         == Run(p, Single(map["c" := 0], d), es)
  {
    var tracked, d := map["c" := 0], ConnectOk(p, c, 0, true);
    RunFirst(p, Single(tracked, c), Callback(0, Connects(0, true)), [Update("c", true, true)] + es);
    assert Step(p, Single(tracked, c), Callback(0, Connects(0, true))) == Single(tracked, d);
    RunFirst(p, Single(tracked, d), Update("c", true, true), es);
    assert Step(p, Single(tracked, d), Update("c", true, true)) == Single(tracked, Reconfigure(d, true, true, true));
  }

  /**
   * With every protocol that run strands the connection: in the end the connector runs
   * and tracks it, it is enabled, and nothing will ever start it again.
   */
  lemma StrandingRun(p: Protocol)
    ensures Safe(p, INITIAL)
    ensures var s := Run(p, INITIAL, STRANDING_RUN);
      s.running && s.tracked == map["c" := 0] && |s.objects| == 1 && s.objects[0].enabled && Stuck(s.objects[0])
  {
    var late := Callbacks(LATE_FAILURE);
    StartAndAdd(p, [Callback(0, Connects(0, true))] + ([Update("c", true, true)] + late));
    ConnectThenUpdate(p, Initiate(NewConn(true)), late);
    CallbacksRun(p, map["c" := 0], Updated(p), LATE_FAILURE);
    StrandedConn(p);
  }

  lemma StrandedConn(p: Protocol)
    ensures Attempting(Updated(p)) && Updated(p).pending == 1
    ensures DeliverAll(p, Updated(p), LATE_FAILURE).enabled && Stuck(DeliverAll(p, Updated(p), LATE_FAILURE))
  {
    assert LATE_FAILURE[1..] == [ReconnectTimer(1), Connects(1, true)];
    assert LATE_FAILURE[1..][1..] == [Connects(1, true)];
  }

  // ---------------------------------------------------------------- after removal

  /** The callbacks that bring an abandoned connection back to life. */
  predicate Revives(p: Protocol, c: Conn, k: Callback) {
    && !p.GuardsFailures()
    && match k
       case ConnectFails(a) => a in c.inFlight
       case ReadEnds(r) => r == Failed && c.pending > 0
       case _ => false
  }

  /** While the connector runs, an abandoned connection stays quiet exactly until a failure callback arrives. */
  lemma AbandonedStaysQuiet(p: Protocol, c: Conn, k: Callback)
    requires SafeConn(p, c) && Quiet(c) && !c.connecting
    ensures AtRest(Deliver(p, c, k, true)) <==> !Revives(p, c, k)
  {
  }

  /** A removed connection whose attempt fails afterwards reconnects and polls again, outside the map. */
  lemma RemovedConnectionPollsAgain(p: Protocol, c: Conn, mapped: bool)
    requires SafeConn(p, c) && Attempting(c) && !p.GuardsFailures()
    ensures var failed := Deliver(p, Cleanup(c), ConnectFails(c.attempts - 1), true);
      && failed.reconnectTimer.Some?
      && var fired := Deliver(p, failed, ReconnectTimer(failed.reconnectTimer.value), true);
         Polling(Deliver(p, fired, Connects(c.attempts, mapped), true))
  {
  }

  /** The first attempt fails, the reconnect timer fires, and the second attempt succeeds. */
  const RECONNECTS := [ConnectFails(0), ReconnectTimer(0), Connects(1, true)]

  /** A run from the beginning in which a connection is removed during its first attempt. */
  const REMOVED_RUN: seq<Event> := [Start, Add("c", true, true)] + ([Remove("c")] + Callbacks(RECONNECTS))

  /** After that run no connection is tracked and yet one polls; only PCCC keeps it quiet. */
  lemma RemovedPollsRun(p: Protocol)
    ensures Safe(p, INITIAL)
    ensures var s := Run(p, INITIAL, REMOVED_RUN);
      && s.tracked == map[] && |s.objects| == 1
      && if p.GuardsFailures() then Quiet(s.objects[0]) else Polling(s.objects[0])
  {
    var late, c := Callbacks(RECONNECTS), Initiate(NewConn(true));
    StartAndAdd(p, [Remove("c")] + late);
    RunFirst(p, Single(map["c" := 0], c), Remove("c"), late);
    assert Step(p, Single(map["c" := 0], c), Remove("c")) == Single(map[], Cleanup(c));
    CallbacksRun(p, map[], Cleanup(c), RECONNECTS);
    RevivedConn(p);
  }

  lemma RevivedConn(p: Protocol)
    ensures var c := DeliverAll(p, Cleanup(Initiate(NewConn(true))), RECONNECTS);
      if p.GuardsFailures() then Quiet(c) else Polling(c)
  {
    assert RECONNECTS[1..] == [ReconnectTimer(0), Connects(1, true)];
    assert RECONNECTS[1..][1..] == [Connects(1, true)];
  }

  /** Nothing of the connection can act on its own, and it waits for no attempt. */
  ghost predicate AtRest(c: Conn) {
    Quiet(c) && !c.connecting
  }

  /** No failure callback of the object arrives while the connector runs. */
  ghost predicate NeverRevived(p: Protocol, s: System, es: seq<Event>, o: nat)
    requires Safe(p, s)
    decreases |es|
  {
    if es == [] then true
    else
      StepKeepsSafe(p, s, es[0]);
      && (s.running && es[0].Callback? && es[0].o == o && o < |s.objects| ==> !Revives(p, s.objects[o], es[0].k))
      && NeverRevived(p, Step(p, s, es[0]), es[1..], o)
  }

  /** In every state of the run the object is out of the map and at rest. */
  ghost predicate RestsThroughout(p: Protocol, s: System, es: seq<Event>, o: nat)
    requires Safe(p, s)
    decreases |es|
  {
    && o < |s.objects| && !InMap(s, o) && AtRest(s.objects[o])
    && (es == [] || (StepKeepsSafe(p, s, es[0]); RestsThroughout(p, Step(p, s, es[0]), es[1..], o)))
  }

  /** No API call puts a removed connection back or touches it; a callback touches only its own. */
  lemma StepKeepsRemoved(p: Protocol, s: System, e: Event, o: nat)
    requires Safe(p, s) && o < |s.objects| && !InMap(s, o)
    ensures var t := Step(p, s, e);
      && o < |t.objects| && !InMap(t, o)
      && (t.objects[o] == s.objects[o] || (e.Callback? && e.o == o))
  {
    var t := Step(p, s, e);
    forall id | id in t.tracked ensures t.tracked[id] != o {
      assert id in s.tracked ==> s.tracked[id] != o;
    }
  }

  /** One step disturbs a removed connection exactly when it delivers such a callback. */
  lemma StepKeepsRestIff(p: Protocol, s: System, e: Event, o: nat)
    requires Safe(p, s) && o < |s.objects| && !InMap(s, o) && AtRest(s.objects[o])
    ensures var t := Step(p, s, e);
      && o < |t.objects| && !InMap(t, o)
      && (AtRest(t.objects[o]) <==> !(s.running && e.Callback? && e.o == o && Revives(p, s.objects[o], e.k)))
  {
    StepKeepsRemoved(p, s, e, o);
    if e.Callback? && e.o == o {
      if s.running {
        AbandonedStaysQuiet(p, s.objects[o], e.k);
      } else {
        StoppedStaysQuiet(p, s.objects[o], e.k);
      }
    }
  }

  /**
   * A connection that was removed stays out of the map and at rest throughout a run
   * if and only if no failure callback of it arrives while the connector runs.
   */
  lemma {:induction false} RemovedStaysQuiet(p: Protocol, s: System, es: seq<Event>, o: nat)
    requires Safe(p, s) && o < |s.objects| && !InMap(s, o) && AtRest(s.objects[o])
    ensures RestsThroughout(p, s, es, o) <==> NeverRevived(p, s, es, o)
    decreases |es|
  {
    if es != [] {
      StepKeepsSafe(p, s, es[0]);
      StepKeepsRestIff(p, s, es[0], o);
      var t := Step(p, s, es[0]);
      if AtRest(t.objects[o]) {
        RemovedStaysQuiet(p, t, es[1..], o);
      }
    }
  }

  /** The PCCC connector checks its client first, so its removed connections never act again. */
  lemma {:induction false} PcccNeverRevives(s: System, es: seq<Event>, o: nat)
    requires Safe(Pccc, s)
    ensures NeverRevived(Pccc, s, es, o)
    decreases |es|
  {
    if es != [] {
      StepKeepsSafe(Pccc, s, es[0]);
      PcccNeverRevives(Step(Pccc, s, es[0]), es[1..], o);
    }
  }
}
