/**
 * What every callback and every API call does to a connection, in terms of its client, its
 * timers, its reads and its attempts: polling really reads, errors really arm a timer.
 */
module ConnectorEffects {
  import opened Options
  import opened ConnectorSpec
  import opened ConnectorRuns

  /** PCCC and EtherNet/IP read one thing at a time. */
  predicate Serial(p: Protocol) {
    p == Pccc || p == EthernetIp
  }

  /** A read can start: the connection is up, has something to read, and no serial read is outstanding. */
  predicate CanRead(p: Protocol, c: Conn, mapped: bool) {
    c.state == Connected && c.client.Some? && mapped && (Serial(p) ==> c.pending == 0)
  }

  /** One more read is outstanding, and nothing else is different. */
  predicate Reads(p: Protocol, c: Conn, d: Conn) {
    d == c.(pending := c.pending + 1, pollInProgress := Serial(p))
  }

  // ---------------------------------------------------------------- callbacks

  /** An interval timer that fires starts a read if and only if one can start; otherwise nothing happens. */
  lemma PollTimerReads(p: Protocol, c: Conn, t: nat, mapped: bool, running: bool)
    requires SafeConn(p, c)
    ensures var d := Deliver(p, c, PollTimer(t, mapped), running);
      if t in c.armedPolling && CanRead(p, c, mapped) then Reads(p, c, d) else d == c
  {
  }

  lemma PollingConnReads(p: Protocol, c: Conn, mapped: bool, running: bool)
    requires SafeConn(p, c) && Polling(c)
    ensures var d := Deliver(p, c, PollTimer(c.pollingTimer.value, mapped), running);
      && d.pending == c.pending + (if mapped && (Serial(p) ==> c.pending == 0) then 1 else 0)
      && Polling(d) && d.pollingTimer == c.pollingTimer && d.armedPolling == {c.pollingTimer.value}
  {
    PollTimerReads(p, c, c.pollingTimer.value, mapped, running);
  }

  /**
   * In every state of every run: when the timer of a polling connection fires, a read of its mappings
   * starts, unless a serial protocol still waits for the last one; and the timer stays armed.
   */
  lemma PollingReads(p: Protocol, s: System, es: seq<Event>, o: nat, mapped: bool)
    requires Safe(p, s)
    ensures var now := Run(p, s, es);
      o < |now.objects| && Polling(now.objects[o]) ==>
        var c := now.objects[o];
        var d := Deliver(p, c, PollTimer(c.pollingTimer.value, mapped), now.running);
        && d.pending == c.pending + (if mapped && (Serial(p) ==> c.pending == 0) then 1 else 0)
        && Polling(d) && d.pollingTimer == c.pollingTimer && d.armedPolling == {c.pollingTimer.value}
  {
    RunKeepsSafe(p, s, es);
    var now := Run(p, s, es);
    if o < |now.objects| && Polling(now.objects[o]) {
      PollingConnReads(p, now.objects[o], mapped, now.running);
    }
  }

  /** A connect success forgets its attempt; with a client, the connection is up and polls, at once and by a timer. */
  lemma SuccessConnects(p: Protocol, c: Conn, a: nat, mapped: bool, running: bool)
    requires SafeConn(p, c)
    ensures var d := Deliver(p, c, Connects(a, mapped), running);
      var over := c.(inFlight := c.inFlight - {a}, connecting := false);
      if a !in c.inFlight then d == c
      else if c.client.None? then d == over
      else if c.pollingTimer.Some? then d == over.(state := Connected)
      else
        var up := over.(state := Connected, pollingTimer := Some(c.timers), armedPolling := {c.timers},
                        timers := c.timers + 1);
        if mapped && (Serial(p) ==> c.pending == 0) then Reads(p, up, d) else d == up
  {
  }

  /** The connection is down, polls no more, and waits for exactly one reconnect timer if the connector runs. */
  predicate Down(c: Conn, d: Conn, running: bool) {
    var down := c.(state := if c.state == Connected then Disconnected else Error,
                   pollingTimer := None, armedPolling := {});
    d == if running then
           down.(reconnectTimer := Some(c.timers), armedReconnect := {c.timers}, timers := c.timers + 1)
         else down
  }

  /** A connect failure is an error, except for PCCC without a client. */
  lemma FailureIsError(p: Protocol, c: Conn, a: nat, running: bool)
    requires SafeConn(p, c)
    ensures var d := Deliver(p, c, ConnectFails(a), running);
      var over := c.(inFlight := c.inFlight - {a}, connecting := false);
      if a !in c.inFlight then d == c
      else if p == Pccc && c.client.None? then d == over
      else Down(over, d, running)
  {
    ErrorIsDown(p, c.(inFlight := c.inFlight - {a}, connecting := false), running);
  }

  lemma ErrorIsDown(p: Protocol, c: Conn, running: bool)
    requires SafeConn(p, c)
    ensures Down(c, HandleError(c, running), running)
  {
    var d := StopPolling(c.(state := if c.state == Connected then Disconnected else Error));
    assert d.armedPolling == {};
    assert ClearReconnect(d).armedReconnect == {};
    assert {} + {c.timers} == {c.timers};
  }

  /** A read that ends is no longer outstanding; a failed one is an error, except for PCCC without a client. */
  lemma ReadEndCounts(p: Protocol, c: Conn, r: ReadResult, running: bool)
    requires SafeConn(p, c)
    ensures var d := Deliver(p, c, ReadEnds(r), running);
      c.pending == 0 ==> d == c
    ensures c.pending > 0 ==>
      var d := Deliver(p, c, ReadEnds(r), running);
      var over := c.(pending := c.pending - 1, pollInProgress := false);
      if r != Failed || (p == Pccc && c.client.None?) then d == over else Down(over, d, running)
  {
    if c.pending > 0 {
      ErrorIsDown(p, c.(pending := c.pending - 1, pollInProgress := false), running);
    }
  }

  /** A new attempt with a new client. */
  predicate Begins(c: Conn, d: Conn) {
    d == c.(connecting := true, client := Some(c.attempts), inFlight := c.inFlight + {c.attempts},
            attempts := c.attempts + 1)
  }

  /** A reconnect timer that fires is forgotten; a running connector drops the client and begins anew. */
  lemma ReconnectBegins(p: Protocol, c: Conn, t: nat, running: bool)
    requires SafeConn(p, c)
    ensures var d := Deliver(p, c, ReconnectTimer(t), running);
      var fired := c.(armedReconnect := {}, reconnectTimer := None);
      if t !in c.armedReconnect then d == c
      else if !running then d == fired
      else if c.connecting then d == fired.(client := None, state := Disconnected)
      else Begins(fired.(client := None, state := Disconnected), d)
  {
    if t in c.armedReconnect {
      assert c.armedReconnect - {t} == {};
    }
  }

  // ---------------------------------------------------------------- API calls

  /** No client, no timers and no attempt waited for; reads and attempts that are out stay out. */
  predicate Cleaned(c: Conn, d: Conn) {
    d == c.(client := None, state := Disconnected, connecting := false,
            pollingTimer := None, reconnectTimer := None, armedPolling := {}, armedReconnect := {})
  }

  lemma CleanupCleans(p: Protocol, c: Conn)
    requires SafeConn(p, c)
    ensures Cleaned(c, Cleanup(c))
  {
    CleanupKeepsSafe(p, c);
  }

  /** Starting begins an attempt of each tracked enabled connection, and of no other object. */
  lemma StartBegins(p: Protocol, s: System, o: nat)
    requires Safe(p, s) && o < |s.objects|
    ensures var t := Step(p, s, Start);
      && t.running && t.tracked == s.tracked && |t.objects| == |s.objects|
      && if !s.running && s.objects[o].enabled && exists id :: id in s.tracked && s.tracked[id] == o
         then Begins(s.objects[o], t.objects[o])
         else t.objects[o] == s.objects[o]
  {
    if !s.running && InMap(s, o) {
      var id :| id in s.tracked && s.tracked[id] == o;
      assert !s.objects[s.tracked[id]].connecting;
    }
  }

  /** Stopping cleans up each tracked connection, and no other object. */
  lemma StopCleans(p: Protocol, s: System, o: nat)
    requires Safe(p, s) && o < |s.objects|
    ensures var t := Step(p, s, Stop);
      && !t.running && t.tracked == s.tracked && |t.objects| == |s.objects|
      && if s.running && exists id :: id in s.tracked && s.tracked[id] == o
         then Cleaned(s.objects[o], t.objects[o])
         else t.objects[o] == s.objects[o]
  {
    CleanupCleans(p, s.objects[o]);
  }

  /** A connection just made: disconnected, with nothing under way. */
  predicate Blank(c: Conn, enabled: bool) {
    && c.enabled == enabled && c.client.None? && c.state == Disconnected && !c.connecting
    && c.pollingTimer.None? && c.reconnectTimer.None? && !c.pollInProgress
    && c.armedPolling == {} && c.armedReconnect == {} && c.inFlight == {} && c.pending == 0 && c.attempts == 0
  }

  /** Adding an unknown id with good parameters makes one object; it begins if enabled and the connector runs. */
  lemma AddMakesOne(p: Protocol, s: System, id: string, enabled: bool, valid: bool)
    requires Safe(p, s)
    ensures var t := Step(p, s, Add(id, enabled, valid));
      && t.running == s.running
      && if id in s.tracked || !valid then t == s
         else
           && t.tracked == s.tracked[id := |s.objects|] && |t.objects| == |s.objects| + 1
           && t.objects[..|s.objects|] == s.objects
           && exists c :: Blank(c, enabled) && if s.running && enabled then Begins(c, t.objects[|s.objects|])
                                                else t.objects[|s.objects|] == c
  {
    assert Blank(NewConn(enabled), enabled);
  }

  /** Removing a known id cleans its connection up and forgets the id, and nothing else. */
  lemma RemoveCleans(p: Protocol, s: System, id: string)
    requires Safe(p, s)
    ensures var t := Step(p, s, Remove(id));
      && t.running == s.running
      && if id !in s.tracked then t == s
         else
           && t.tracked == s.tracked - {id} && |t.objects| == |s.objects|
           && Cleaned(s.objects[s.tracked[id]], t.objects[s.tracked[id]])
           && forall o | 0 <= o < |s.objects| && o != s.tracked[id] :: t.objects[o] == s.objects[o]
  {
    if id in s.tracked {
      CleanupCleans(p, s.objects[s.tracked[id]]);
    }
  }

  /** Updating a known id cleans up; good parameters are then taken over, and it begins as when it is added. */
  lemma UpdateRestarts(p: Protocol, s: System, id: string, enabled: bool, valid: bool)
    requires Safe(p, s)
    ensures var t := Step(p, s, Update(id, enabled, valid));
      && t.running == s.running
      && if id !in s.tracked then t == Step(p, s, Add(id, enabled, valid))
         else
           var o := s.tracked[id];
           && t.tracked == s.tracked && |t.objects| == |s.objects|
           && (forall q | 0 <= q < |s.objects| && q != o :: t.objects[q] == s.objects[q])
           && exists c :: Cleaned(s.objects[o], c) && if !valid then t.objects[o] == c
                          else if s.running && enabled then Begins(c.(enabled := true), t.objects[o])
                          else t.objects[o] == c.(enabled := enabled)
  {
    if id in s.tracked {
      CleanupCleans(p, s.objects[s.tracked[id]]);
    }
  }
}
