/**
 * The certificate stores shared by two processes: the runtime verifies certificates and
 * trusts unknown ones, the control API moves and deletes them. Every file check, rename,
 * unlink and write is a step of its own, and steps of the two interleave.
 */
module TofuProtocol {
  /** Certificates are known by their thumbprint, which names their file. */
  type Thumbprint = string

  datatype Verdict = Good | Untrusted

  /** What a verification does next. */
  datatype Check = AtReject | AtTrust | AtSave | Ended(verdict: Verdict)

  datatype Verification = Verification(cert: Thumbprint, next: Check)

  /** What the API call in progress does next. */
  datatype Call =
    | Idle
    | RejectExists(Thumbprint)
    | RejectRename(Thumbprint)
    | TrustExistsRejected(Thumbprint)
    | TrustExistsTrusted(Thumbprint)
    | TrustRename(Thumbprint)
    | DeleteStatTrusted(Thumbprint)
    | DeleteStatRejected(Thumbprint)
    | DeleteUnlinkTrusted(Thumbprint)
    | DeleteUnlinkRejected(Thumbprint)

  datatype Reply = NoReply | Success | NotFound | Conflict | FileError

  datatype State = State(
    trusted: set<Thumbprint>,
    rejected: set<Thumbprint>,
    verifications: map<nat, Verification>,
    call: Call,
    reply: Reply)

  /** `ok` is false when the rename or unlink fails of itself, `writable` when the new file cannot be opened. */
  datatype Event =
    | Connect(v: nat, cert: Thumbprint, readable: bool)
    | Verify(w: nat, writable: bool)
    | Request(call: Call)
    | Advance(ok: bool)

  // ---------------------------------------------------------------- steps

  function Failed(s: State, r: Reply): State {
    s.(call := Idle, reply := r)
  }

  function AdvanceCall(s: State, ok: bool): State {
    match s.call
    case Idle => s
    case RejectExists(c) => if c in s.trusted then s.(call := RejectRename(c)) else Failed(s, NotFound)
    case RejectRename(c) =>
      if ok && c in s.trusted
      then s.(trusted := s.trusted - {c}, rejected := s.rejected + {c}, call := Idle, reply := Success)
      else Failed(s, FileError)
    case TrustExistsRejected(c) => if c in s.rejected then s.(call := TrustExistsTrusted(c)) else Failed(s, NotFound)
    case TrustExistsTrusted(c) => if c in s.trusted then Failed(s, Conflict) else s.(call := TrustRename(c))
    case TrustRename(c) =>
      if ok && c in s.rejected
      then s.(trusted := s.trusted + {c}, rejected := s.rejected - {c}, call := Idle, reply := Success)
      else Failed(s, FileError)
    case DeleteStatTrusted(c) => s.(call := if c in s.trusted then DeleteUnlinkTrusted(c) else DeleteStatRejected(c))
    case DeleteStatRejected(c) => if c in s.rejected then s.(call := DeleteUnlinkRejected(c)) else Failed(s, NotFound)
    case DeleteUnlinkTrusted(c) =>
      if ok && c in s.trusted
      then s.(trusted := s.trusted - {c}, call := Idle, reply := Success)
      else Failed(s, FileError)
    case DeleteUnlinkRejected(c) =>
      if ok && c in s.rejected
      then s.(rejected := s.rejected - {c}, call := Idle, reply := Success)
      else Failed(s, FileError)
  }

  function VerifyStep(s: State, v: nat, writable: bool): State
    requires v in s.verifications
  {
    var c := s.verifications[v].cert;
    match s.verifications[v].next
    case AtReject => Moved(s, v, if c in s.rejected then Ended(Untrusted) else AtTrust)
    case AtTrust => Moved(s, v, if c in s.trusted then Ended(Good) else AtSave)
    case AtSave => Moved(if writable then s.(trusted := s.trusted + {c}) else s, v, Ended(Good))
    case Ended(_) => s
  }

  function Moved(s: State, v: nat, next: Check): State
    requires v in s.verifications
  {
    s.(verifications := s.verifications[v := s.verifications[v].(next := next)])
  }

  predicate Enabled(s: State, e: Event) {
    match e
    case Connect(v, _, _) => v !in s.verifications
    case Verify(v, _) => v in s.verifications && !s.verifications[v].next.Ended?
    case Request(call) => s.call.Idle? && (call.RejectExists? || call.TrustExistsRejected? || call.DeleteStatTrusted?)
    case Advance(_) => !s.call.Idle?
  }

  function Step(s: State, e: Event): State
    requires Enabled(s, e)
  {
    match e
    case Connect(v, c, readable) =>
      s.(verifications := s.verifications[v := Verification(c, if readable then AtReject else Ended(Untrusted))])
    case Verify(v, writable) => VerifyStep(s, v, writable)
    case Request(call) => s.(call := call, reply := NoReply)
    case Advance(ok) => AdvanceCall(s, ok)
  }

  ghost predicate IsRun(states: seq<State>, events: seq<Event>) {
    && |states| == |events| + 1
    && forall i | 0 <= i < |events| :: Enabled(states[i], events[i]) && states[i + 1] == Step(states[i], events[i])
  }

  // ---------------------------------------------------------------- a rejected certificate is refused

  /** The API takes `c` out of the reject store. */
  predicate Releases(s: State, e: Event, c: Thumbprint) {
    e == Advance(true) && (s.call == TrustRename(c) || s.call == DeleteUnlinkRejected(c))
  }

  lemma OnlyReleaseUnrejects(s: State, e: Event, c: Thumbprint)
    requires Enabled(s, e) && c in s.rejected
    ensures c !in Step(s, e).rejected <==> Releases(s, e, c)
  {
  }

  ghost predicate NeverReleased(states: seq<State>, events: seq<Event>, c: Thumbprint, i: nat, j: nat)
    requires IsRun(states, events) && j <= |events|
  {
    forall k | i <= k < j :: !Releases(states[k], events[k], c)
  }

  /** `v` has not read the reject store yet, though it may have connected. */
  predicate RejectCheckAhead(s: State, v: nat) {
    v in s.verifications ==> s.verifications[v].next.AtReject?
  }

  predicate NotAccepted(s: State, v: nat, c: Thumbprint) {
    v in s.verifications && s.verifications[v].cert == c ==>
      s.verifications[v].next.AtReject? || s.verifications[v].next == Ended(Untrusted)
  }

  /**
   * From a moment when `c` is in the reject store until the API releases it, `c` stays
   * there, and every verification of `c` that had not read the reject store by then is
   * either still to read it or refused. No other step, of either process, changes that.
   */
  lemma {:induction false} RefusedUntilReleased(
      states: seq<State>, events: seq<Event>, c: Thumbprint, v: nat, i: nat, j: nat)
    requires IsRun(states, events) && i <= j <= |events|
    requires c in states[i].rejected && NeverReleased(states, events, c, i, j)
    requires RejectCheckAhead(states[i], v)
    ensures c in states[j].rejected && NotAccepted(states[j], v, c)
    decreases j
  {
    if i < j {
      RefusedUntilReleased(states, events, c, v, i, j - 1);
      OnlyReleaseUnrejects(states[j - 1], events[j - 1], c);
    }
  }

  /** A verdict, once given, is final. */
  lemma {:induction false} VerdictsAreFinal(states: seq<State>, events: seq<Event>, v: nat, i: nat, j: nat)
    requires IsRun(states, events) && i <= j <= |events|
    requires v in states[i].verifications && states[i].verifications[v].next.Ended?
    ensures v in states[j].verifications && states[j].verifications[v] == states[i].verifications[v]
    decreases j
  {
    if i < j {
      VerdictsAreFinal(states, events, v, i, j - 1);
    }
  }

  // ---------------------------------------------------------------- what a verdict means

  /** The step ends verification `v` with this verdict. */
  predicate Gives(s: State, e: Event, v: nat, verdict: Verdict)
    requires Enabled(s, e)
  {
    && v in Step(s, e).verifications && Step(s, e).verifications[v].next == Ended(verdict)
    && (v in s.verifications ==> !s.verifications[v].next.Ended?)
  }

  /** Whatever interleaves: an accepted certificate is in the trust store then, unless its file could not be written. */
  lemma GoodIsTrusted(s: State, e: Event, v: nat)
    requires Enabled(s, e) && Gives(s, e, v, Good)
    ensures e.Verify? && e.w == v
    ensures var c := s.verifications[v].cert;
      && v in s.verifications
      && Step(s, e).rejected == s.rejected
      && (c in Step(s, e).trusted || (!e.writable && Step(s, e).trusted == s.trusted))
      && Step(s, e).trusted <= s.trusted + {c}
  {
  }

  /** A refusal means that a store was unreadable, or that the certificate was rejected when that was checked. */
  lemma UntrustedIsRejected(s: State, e: Event, v: nat)
    requires Enabled(s, e) && Gives(s, e, v, Untrusted)
    ensures if e.Connect? then e.v == v && !e.readable
            else e.Verify? && e.w == v && v in s.verifications && s.verifications[v].cert in s.rejected
    ensures Step(s, e).trusted == s.trusted && Step(s, e).rejected == s.rejected
  {
  }

  /** At some step before, the verification was given its verdict. */
  lemma {:induction false} VerdictWasGiven(states: seq<State>, events: seq<Event>, v: nat, verdict: Verdict, n: nat)
      returns (j: nat)
    requires IsRun(states, events) && n <= |events| && v !in states[0].verifications
    requires v in states[n].verifications && states[n].verifications[v].next == Ended(verdict)
    ensures j < n && Gives(states[j], events[j], v, verdict)
    ensures states[j + 1].verifications[v].cert == states[n].verifications[v].cert
    decreases n
  {
    if v in states[n - 1].verifications && states[n - 1].verifications[v].next.Ended? {
      j := VerdictWasGiven(states, events, v, verdict, n - 1);
    } else {
      j := n - 1;
    }
  }

  /**
   * In every run: a verification that ended Good had its certificate in the trust store at the
   * end of its last step, whatever the API did meanwhile, unless the file could not be written.
   */
  lemma GoodWasTrusted(states: seq<State>, events: seq<Event>, v: nat, n: nat)
    requires IsRun(states, events) && n <= |events| && v !in states[0].verifications
    requires v in states[n].verifications && states[n].verifications[v].next == Ended(Good)
    ensures exists j: nat ::
      && j < n && events[j].Verify? && events[j].w == v
      && (states[n].verifications[v].cert in states[j + 1].trusted || !events[j].writable)
  {
    var j := VerdictWasGiven(states, events, v, Good, n);
    GoodIsTrusted(states[j], events[j], v);
  }

  /** Only the rename and the unlink of a call touch the stores, and each only for its own certificate. */
  lemma CallsTouchOwn(s: State, ok: bool)
    ensures var t := AdvanceCall(s, ok);
      && t.verifications == s.verifications
      && (t.trusted, t.rejected) ==
           match s.call
           case RejectRename(c) =>
             if ok && c in s.trusted then (s.trusted - {c}, s.rejected + {c}) else (s.trusted, s.rejected)
           case TrustRename(c) =>
             if ok && c in s.rejected then (s.trusted + {c}, s.rejected - {c}) else (s.trusted, s.rejected)
           case DeleteUnlinkTrusted(c) => if ok then (s.trusted - {c}, s.rejected) else (s.trusted, s.rejected)
           case DeleteUnlinkRejected(c) => if ok then (s.trusted, s.rejected - {c}) else (s.trusted, s.rejected)
           case _ => (s.trusted, s.rejected)
  {
    match s.call {
      case DeleteUnlinkTrusted(c) => assert c !in s.trusted ==> s.trusted - {c} == s.trusted;
      case DeleteUnlinkRejected(c) => assert c !in s.rejected ==> s.rejected - {c} == s.rejected;
      case _ =>
    }
  }

  // ---------------------------------------------------------------- when the stores stay disjoint

  predicate Disjoint(s: State) {
    s.trusted !! s.rejected
  }

  /** A first-use save of a certificate that is, by now, in the reject store. */
  predicate SavesRejected(s: State, e: Event) {
    && e.Verify?
    && e.writable
    && e.w in s.verifications
    && s.verifications[e.w].next.AtSave?
    && s.verifications[e.w].cert in s.rejected
  }

  lemma OnlySaveOverlaps(s: State, e: Event)
    requires Enabled(s, e) && Disjoint(s)
    ensures Disjoint(Step(s, e)) <==> !SavesRejected(s, e)
  {
    if SavesRejected(s, e) {
      var c := s.verifications[e.w].cert;
      assert c in Step(s, e).trusted && c in Step(s, e).rejected;
    }
  }

  ghost predicate DisjointUpTo(states: seq<State>, n: nat)
    requires n < |states|
  {
    forall i | 0 <= i <= n :: Disjoint(states[i])
  }

  ghost predicate NoLateSave(states: seq<State>, events: seq<Event>, n: nat)
    requires IsRun(states, events) && n <= |events|
  {
    forall i | 0 <= i < n :: !SavesRejected(states[i], events[i])
  }

  /** No API step ever puts a certificate in both stores; exactly the late saves do. */
  lemma {:induction false} DisjointIffNoLateSave(states: seq<State>, events: seq<Event>, n: nat)
    requires IsRun(states, events) && Disjoint(states[0]) && n <= |events|
    ensures DisjointUpTo(states, n) <==> NoLateSave(states, events, n)
  {
    if n > 0 {
      DisjointIffNoLateSave(states, events, n - 1);
      var s := states[n - 1];
      if DisjointUpTo(states, n - 1) {
        assert Disjoint(s);
        OnlySaveOverlaps(s, events[n - 1]);
        assert Disjoint(states[n]) <==> !SavesRejected(s, events[n - 1]);
      } else {
        assert !DisjointUpTo(states, n);
      }
    }
  }

  // ---------------------------------------------------------------- what callers can do about it

  predicate PastRejectCheck(s: State, v: nat) {
    v in s.verifications && (s.verifications[v].next.AtTrust? || s.verifications[v].next.AtSave?)
  }

  /** The API does not complete a rejection of `c` while a verification of `c` is past its reject check. */
  ghost predicate RejectsApart(s: State, e: Event) {
    forall v | PastRejectCheck(s, v) :: !(e == Advance(true) && s.call == RejectRename(s.verifications[v].cert))
  }

  /** A verification and an API call are never in progress together. */
  ghost predicate Separate(s: State) {
    s.call.Idle? || forall v | v in s.verifications :: s.verifications[v].next.Ended?
  }

  ghost predicate PendingNotRejected(s: State) {
    forall v | PastRejectCheck(s, v) :: s.verifications[v].cert !in s.rejected
  }

  lemma {:induction false} RejectsApartKeepsDisjoint(states: seq<State>, events: seq<Event>, i: nat)
    requires IsRun(states, events) && i < |states|
    requires Disjoint(states[0]) && PendingNotRejected(states[0])
    requires forall k | 0 <= k < |events| :: RejectsApart(states[k], events[k])
    ensures Disjoint(states[i]) && PendingNotRejected(states[i])
  {
    if i > 0 {
      RejectsApartKeepsDisjoint(states, events, i - 1);
      OnlySaveOverlaps(states[i - 1], events[i - 1]);
      PendingStaysUnrejected(states[i - 1], events[i - 1]);
    }
  }

  lemma PendingStaysUnrejected(s: State, e: Event)
    requires Enabled(s, e) && RejectsApart(s, e) && PendingNotRejected(s)
    ensures PendingNotRejected(Step(s, e))
  {
    var t := Step(s, e);
    forall v | PastRejectCheck(t, v)
      ensures t.verifications[v].cert !in t.rejected
    {
      assert PastRejectCheck(s, v) || (e.Verify? && e.w == v && s.verifications[v].next.AtReject?);
    }
  }

  /** When verifications do not overlap API calls, no certificate is ever in both stores. */
  lemma SeparateKeepsDisjoint(states: seq<State>, events: seq<Event>, i: nat)
    requires IsRun(states, events) && i < |states|
    requires Disjoint(states[0]) && PendingNotRejected(states[0])
    requires forall k | 0 <= k < |states| :: Separate(states[k])
    ensures Disjoint(states[i])
  {
    forall k | 0 <= k < |events|
      ensures RejectsApart(states[k], events[k])
    {
      assert Separate(states[k]);
    }
    RejectsApartKeepsDisjoint(states, events, i);
  }

  // ---------------------------------------------------------------- and what happens otherwise

  function Start(trusted: set<Thumbprint>, rejected: set<Thumbprint>): State {
    State(trusted, rejected, map[], Idle, NoReply)
  }

  /**
   * Rejecting a trusted certificate between a verification's two reads: the verification
   * still accepts it, and its save puts the certificate back beside the rejected copy.
   */
  lemma OverlapSharesStores(c: Thumbprint)
    ensures exists states: seq<State>, events: seq<Event> ::
      && IsRun(states, events)
      && states[0] == Start({c}, {})
      && |events| > 0 && c in states[|events| - 1].rejected
      && states[|events|].verifications == map[0 := Verification(c, Ended(Good))]
      && states[|events|].trusted == {c} && states[|events|].rejected == {c}
  {
    var s0 := Start({c}, {});
    var events := [Connect(0, c, true), Verify(0, true), Request(RejectExists(c)), Advance(true), Advance(true),
                   Verify(0, true), Verify(0, true)];
    var s1 := Step(s0, events[0]);
    var s2 := Step(s1, events[1]);
    var s3 := Step(s2, events[2]);
    var s4 := Step(s3, events[3]);
    var s5 := Step(s4, events[4]);
    var s6 := Step(s5, events[5]);
    var s7 := Step(s6, events[6]);
    var states := [s0, s1, s2, s3, s4, s5, s6, s7];
    assert s2.verifications == map[0 := Verification(c, AtTrust)];
    assert s5.trusted == {} && s5.rejected == {c};
    assert s6.verifications == map[0 := Verification(c, AtSave)];
    assert s7.trusted == {c} && s7.rejected == {c};
    assert s7.verifications == map[0 := Verification(c, Ended(Good))];
    assert IsRun(states, events);
    assert states[|events|] == s7 && states[|events| - 1] == s6;
  }

  // ---------------------------------------------------------------- calls left to themselves

  function Remaining(call: Call): nat {
    match call
    case Idle => 0
    case RejectExists(_) => 2
    case RejectRename(_) => 1
    case TrustExistsRejected(_) => 3
    case TrustExistsTrusted(_) => 2
    case TrustRename(_) => 1
    case DeleteStatTrusted(_) => 3
    case DeleteStatRejected(_) => 2
    case DeleteUnlinkTrusted(_) => 1
    case DeleteUnlinkRejected(_) => 1
  }

  /** The rest of the call in progress with no step in between. */
  function Finished(s: State, ok: bool): (t: State)
    ensures t.call.Idle? && t.verifications == s.verifications
    ensures Disjoint(s) ==> Disjoint(t)
    decreases Remaining(s.call)
  {
    if s.call.Idle? then s else Finished(AdvanceCall(s, ok), ok)
  }

  /** The whole of verification `v` with no step in between. */
  function Verified(s: State, v: nat, writable: bool): (t: State)
    requires v in s.verifications && s.verifications[v].next.AtReject?
    ensures v in t.verifications && t.verifications[v].next.Ended? && t.call == s.call
    ensures Disjoint(s) ==> Disjoint(t)
    ensures t.verifications[v].next == Ended(Untrusted) <==> s.verifications[v].cert in s.rejected
    ensures t.rejected == s.rejected
    ensures var c := s.verifications[v].cert;
      t.trusted == s.trusted + if c !in s.rejected && writable then {c} else {}
  {
    var s1 := VerifyStep(s, v, writable);
    if s1.verifications[v].next.Ended? then s1 else
    var s2 := VerifyStep(s1, v, writable);
    if s2.verifications[v].next.Ended? then s2 else VerifyStep(s2, v, writable)
  }

  /** The first two steps of a call left to itself. */
  lemma FinishedTwoOn(s: State, ok: bool)
    ensures Finished(s, ok) == Finished(AdvanceCall(AdvanceCall(s, ok), ok), ok)
  {
    assert Finished(s, ok) == Finished(AdvanceCall(s, ok), ok);
  }

  /**
   * Once a certificate is in both stores, trusting it is always a conflict and deleting it
   * removes only the trusted copy; rejecting it again is what leaves a single copy.
   */
  lemma SharedCertificate(s: State, c: Thumbprint)
    requires s.call.Idle? && c in s.trusted && c in s.rejected
    ensures Finished(s.(call := TrustExistsRejected(c)), true) == s.(reply := Conflict)
    ensures Finished(s.(call := DeleteStatTrusted(c)), true) == s.(trusted := s.trusted - {c}, reply := Success)
    ensures Finished(s.(call := RejectExists(c)), true) == s.(trusted := s.trusted - {c}, reply := Success)
  {
    assert s.rejected + {c} == s.rejected;
    FinishedTwoOn(s.(call := TrustExistsRejected(c)), true);
    FinishedTwoOn(s.(call := DeleteStatTrusted(c)), true);
    FinishedTwoOn(s.(call := RejectExists(c)), true);
  }

  /** A rejection undone by trusting gives back the stores, and the other way round. */
  lemma RejectThenTrust(s: State, c: Thumbprint)
    requires s.call.Idle? && Disjoint(s) && c in s.trusted
    ensures var r := Finished(s.(call := RejectExists(c)), true);
      Finished(r.(call := TrustExistsRejected(c)), true) == s.(reply := Success)
  {
    FinishedTwoOn(s.(call := RejectExists(c)), true);
    var r := Finished(s.(call := RejectExists(c)), true);
    FinishedTwoOn(r.(call := TrustExistsRejected(c)), true);
    assert s.trusted - {c} + {c} == s.trusted && s.rejected + {c} - {c} == s.rejected;
  }
}
