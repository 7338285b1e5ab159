/**
 * The Windows half of the runtime's stdin reader: a thread assembles lines byte by byte
 * and offers them to a ring of 256 slots that the server loop drains.
 */
module StdinQueue {
  import opened Options
  import opened Bytes
  import opened Sequences

  const QUEUE_SIZE := 256
  /** Size of `line_buf`; one byte is kept for the terminator. */
  const LINE_SIZE := 65536
  const LINE_MAX := LINE_SIZE - 1

  // ---------------------------------------------------------------- specification

  /** `copies` is false when there is no memory for a copy of the line that ends here. */
  datatype Event = Byte(b: byte, copies: bool) | Take
  /** A completed line and whether it was queued: there was memory for it, and room in the ring. */
  datatype Offer = Offer(line: seq<byte>, kept: bool)
  datatype State = State(line: seq<byte>, queued: seq<seq<byte>>, offers: seq<Offer>, taken: seq<seq<byte>>)

  const EMPTY := State([], [], [], [])

  /** What `_strdup` copies of a buffer. */
  function CString(s: seq<byte>): seq<byte> {
    s[..IndexOf(s, NUL)]
  }

  function Grow(line: seq<byte>, b: byte): seq<byte> {
    if b == LF then []
    else if b != CR && |line| < LINE_MAX then line + [b]
    else line
  }

  function Completed(line: seq<byte>, b: byte): seq<seq<byte>> {
    if b == LF && line != [] then [CString(line)] else []
  }

  function OfferLine(s: State, line: seq<byte>, copies: bool, limit: Option<nat>): State {
    var kept := copies && (limit.Some? ==> |s.queued| < limit.value);
    s.(queued := if kept then s.queued + [line] else s.queued,
       offers := s.offers + [Offer(line, kept)])
  }

  /** One atomic step; `limit` bounds the queue, and no bound is the ideal queue. */
  function Step(s: State, e: Event, limit: Option<nat>): State {
    match e
    case Byte(b, copies) =>
      var done := Completed(s.line, b);
      var s' := s.(line := Grow(s.line, b));
      if done == [] then s' else OfferLine(s', done[0], copies, limit)
    case Take =>
      if s.queued == [] then s
      else s.(queued := s.queued[1..], taken := s.taken + [s.queued[0]])
  }

  function Run(s: State, es: seq<Event>, limit: Option<nat>): State
    decreases |es|
  {
    if es == [] then s else Run(Step(s, es[0], limit), es[1..], limit)
  }

  const RING: Option<nat> := Some(QUEUE_SIZE - 1)

  // ---------------------------------------------------------------- the ring in memory

  /** The slots from `head` up to `tail`, going round the end. */
  function Between(slots: seq<seq<byte>>, head: nat, tail: nat): (q: seq<seq<byte>>)
    requires |slots| == QUEUE_SIZE && head < QUEUE_SIZE && tail < QUEUE_SIZE
  {
    if head <= tail then slots[head..tail] else slots[head..] + slots[..tail]
  }

  lemma BetweenDropsHead(slots: seq<seq<byte>>, head: nat, next: nat, tail: nat)
    requires |slots| == QUEUE_SIZE && head < QUEUE_SIZE && tail < QUEUE_SIZE && head != tail
    requires next == if head + 1 == QUEUE_SIZE then 0 else head + 1
    ensures Between(slots, head, tail) == [slots[head]] + Between(slots, next, tail)
  {
    if head < tail {
      SliceHead(slots, head, tail);
    } else if next == 0 {
      assert slots[head..] == [slots[head]];
    } else {
      assert slots[head..] == [slots[head]] + slots[next..];
      Associative([slots[head]], slots[next..], slots[..tail]);
    }
  }

  lemma BetweenAddsTail(slots: seq<seq<byte>>, head: nat, tail: nat, line: seq<byte>)
    requires |slots| == QUEUE_SIZE && head < QUEUE_SIZE && tail < QUEUE_SIZE && (tail + 1) % QUEUE_SIZE != head
    ensures Between(slots[tail := line], head, (tail + 1) % QUEUE_SIZE) == Between(slots, head, tail) + [line]
  {
  }

  class Queue {
    const slots: array<seq<byte>>
    var head: nat
    var tail: nat
    const lineBuf: array<byte>
    var lineLen: nat
    ghost var offers: seq<Offer>
    ghost var taken: seq<seq<byte>>

    ghost predicate Valid()
      reads this
    {
      && slots.Length == QUEUE_SIZE && head < QUEUE_SIZE && tail < QUEUE_SIZE
      && lineBuf.Length == LINE_SIZE && lineLen <= LINE_MAX
    }

    /** The unread lines, oldest first. */
    ghost function Queued(): (q: seq<seq<byte>>)
      requires Valid()
      reads this, slots
      ensures |q| == (tail - head) % QUEUE_SIZE
    {
      Between(slots[..], head, tail)
    }

    ghost function Abstract(): State
      requires Valid()
      reads this, slots, lineBuf
    {
      State(lineBuf[..lineLen], Queued(), offers, taken)
    }

    constructor ()
      ensures Valid() && Abstract() == EMPTY
    {
      slots := new seq<byte>[QUEUE_SIZE](_ => []);
      lineBuf := new byte[LINE_SIZE](_ => 0);
      head, tail, lineLen := 0, 0, 0;
      offers, taken := [], [];
    }

    /** What follows `_strdup` in the reader thread: without a copy, the line is lost. */
    method Enqueue(line: seq<byte>, copies: bool)
      requires Valid()
      modifies this`tail, this`offers, slots
      ensures Valid()
      ensures Abstract() == OfferLine(old(Abstract()), line, copies, RING)
    {
      ghost var before := slots[..];
      var nextTail := (tail + 1) % QUEUE_SIZE;
      offers := offers + [Offer(line, copies && nextTail != head)];
      if copies && nextTail != head {
        BetweenAddsTail(before, head, tail, line);
        slots[tail] := line;
        assert slots[..] == before[tail := line];
        tail := nextTail;
      }
    }

    /** One byte of a chunk, in the reader thread. */
    method ReaderByte(b: byte, copies: bool)
      requires Valid()
      modifies this`tail, this`offers, this`lineLen, slots, lineBuf
      ensures Valid()
      ensures Abstract() == Step(old(Abstract()), Byte(b, copies), RING)
    {
      if b == LF {
        ghost var line := lineBuf[..lineLen];
        lineBuf[lineLen] := NUL;
        assert lineBuf[..lineLen] == line;
        var done := lineLen > 0;
        var copy := Duplicate();
        lineLen := 0;
        if done {
          Enqueue(copy, copies);
        }
      } else if b != CR {
        if lineLen < LINE_SIZE - 1 {
          lineBuf[lineLen] := b;
          lineLen := lineLen + 1;
        }
      }
    }

    /** `_strdup(line_buf)`: the bytes in front of the first NUL. */
    method Duplicate() returns (copy: seq<byte>)
      requires Valid() && lineBuf[lineLen] == NUL
      ensures copy == CString(lineBuf[..lineLen])
    {
      var i := 0;
      while lineBuf[i] != NUL
        invariant i <= lineLen
        invariant forall k | 0 <= k < i :: lineBuf[k] != NUL
        decreases lineLen - i
      {
        i := i + 1;
      }
      ghost var line := lineBuf[..lineLen];
      assert line[..i] == lineBuf[..i];
      return lineBuf[..i];
    }

    /** The critical section of the draining loop. */
    method Dequeue() returns (line: Option<seq<byte>>)
      requires Valid()
      modifies this`head, this`taken
      ensures Valid()
      ensures Abstract() == Step(old(Abstract()), Take, RING)
      ensures line == if old(Queued()) == [] then None else Some(old(Queued())[0])
    {
      if head == tail {
        return None;
      }
      BetweenDropsHead(slots[..], head, (head + 1) % QUEUE_SIZE, tail);
      line := Some(slots[head]);
      taken := taken + [slots[head]];
      head := (head + 1) % QUEUE_SIZE;
    }

    /** The draining loop of `ipc_process`, when no reader comes in between. */
    method Drain() returns (lines: seq<seq<byte>>)
      requires Valid()
      modifies this`head, this`taken
      ensures Valid()
      ensures lines == old(Queued()) && Queued() == []
      ensures taken == old(taken) + lines
    {
      lines := [];
      while head != tail
        invariant Valid()
        invariant lines + Queued() == old(Queued()) && taken == old(taken) + lines
        decreases |Queued()|
      {
        ghost var queued := Queued();
        var line := Dequeue();
        assert queued == [line.value] + Queued();
        Associative(lines, [line.value], Queued());
        Associative(old(taken), lines, [line.value]);
        lines := lines + [line.value];
      }
      assert lines + [] == lines;
    }

    /** A whole chunk, when no drain comes in between. */
    method ReadChunk(chunk: seq<byte>, copies: seq<bool>)
      requires Valid() && |copies| == |chunk|
      modifies this`tail, this`offers, this`lineLen, slots, lineBuf
      ensures Valid()
      ensures Abstract() == Run(old(Abstract()), Feed(chunk, copies), RING)
    {
      for i := 0 to |chunk|
        invariant Valid()
        invariant Run(Abstract(), Feed(chunk[i..], copies[i..]), RING)
               == Run(old(Abstract()), Feed(chunk, copies), RING)
      {
        ghost var rest := chunk[i..];
        assert rest[0] == chunk[i] && rest[1..] == chunk[i + 1..];
        assert copies[i..][0] == copies[i] && copies[i..][1..] == copies[i + 1..];
        ReaderByte(chunk[i], copies[i]);
      }
    }
  }

  function Feed(s: seq<byte>, copies: seq<bool>): seq<Event>
    requires |copies| == |s|
  {
    if s == [] then [] else [Byte(s[0], copies[0])] + Feed(s[1..], copies[1..])
  }

  // ---------------------------------------------------------------- properties of every run

  function Kept(offers: seq<Offer>): seq<seq<byte>> {
    if offers == [] then []
    else
      var init, last := offers[..|offers| - 1], offers[|offers| - 1];
      Kept(init) + (if last.kept then [last.line] else [])
  }

  ghost predicate Conserved(s: State) {
    s.taken + s.queued == Kept(s.offers)
  }

  lemma KeptSnoc(offers: seq<Offer>, o: Offer)
    ensures Kept(offers + [o]) == Kept(offers) + (if o.kept then [o.line] else [])
  {
    assert (offers + [o])[..|offers|] == offers;
  }

  /** Nothing is lost, duplicated or reordered between the ring's two ends, and the ring never overfills. */
  lemma {:induction false} RunConserves(s: State, es: seq<Event>)
    requires Conserved(s) && |s.queued| < QUEUE_SIZE
    ensures Conserved(Run(s, es, RING)) && |Run(s, es, RING).queued| < QUEUE_SIZE
    decreases |es|
  {
    if es != [] {
      var t := Step(s, es[0], RING);
      match es[0] {
        case Byte(b, _) =>
          if Completed(s.line, b) != [] {
            var o := t.offers[|s.offers|];
            KeptSnoc(s.offers, o);
            assert s.taken + (s.queued + [o.line]) == (s.taken + s.queued) + [o.line];
          }
        case Take =>
          if s.queued != [] {
            assert s.queued == [s.queued[0]] + s.queued[1..];
            assert (s.taken + [s.queued[0]]) + s.queued[1..] == s.taken + s.queued;
          }
      }
      RunConserves(t, es[1..]);
    }
  }

  /** The bytes the reader saw, whatever the drain did in between. */
  function Received(es: seq<Event>): seq<byte> {
    if es == [] then []
    else (if es[0].Byte? then [es[0].b] else []) + Received(es[1..])
  }

  function Offered(offers: seq<Offer>): seq<seq<byte>> {
    seq(|offers|, i requires 0 <= i < |offers| => offers[i].line)
  }

  /** The lines assembled from `s` when `line` is already in the buffer. */
  function Assembled(line: seq<byte>, s: seq<byte>): seq<seq<byte>>
    decreases |s|
  {
    if s == [] then [] else Completed(line, s[0]) + Assembled(Grow(line, s[0]), s[1..])
  }

  /** Assembly sees only the bytes: not the chunks, not the drains, not the ring. */
  lemma {:induction false} AssemblyIgnoresSchedule(s: State, es: seq<Event>, limit: Option<nat>)
    ensures Offered(Run(s, es, limit).offers) == Offered(s.offers) + Assembled(s.line, Received(es))
    decreases |es|
  {
    if es != [] {
      var t := Step(s, es[0], limit);
      AssemblyIgnoresSchedule(t, es[1..], limit);
      match es[0] {
        case Byte(b, _) =>
          var rest := Received(es[1..]);
          assert Received(es)[1..] == rest;
          assert Offered(t.offers) == Offered(s.offers) + Completed(s.line, b);
          Associative(Offered(s.offers), Completed(s.line, b), Assembled(t.line, rest));
        case Take =>
          assert Received(es) == Received(es[1..]);
      }
    }
  }

  // ---------------------------------------------------------------- assembly against the lines of the stream

  function WithoutCr(s: seq<byte>): seq<byte> {
    if s == [] then [] else (if s[0] == CR then [] else [s[0]]) + WithoutCr(s[1..])
  }

  /** What the buffer holds at the end of a line: its first 65535 bytes other than CR. */
  function Stored(line: seq<byte>): seq<byte> {
    Truncate(WithoutCr(line))
  }

  function Truncate(s: seq<byte>): seq<byte> {
    if |s| <= LINE_MAX then s else s[..LINE_MAX]
  }

  function StoredLines(ls: seq<seq<byte>>): seq<seq<byte>> {
    if ls == [] then []
    else (if Stored(ls[0]) == [] then [] else [CString(Stored(ls[0]))]) + StoredLines(ls[1..])
  }

  lemma {:induction false} AssembleLine(line: seq<byte>, s: seq<byte>, rest: seq<byte>)
    requires LF !in s && |line| <= LINE_MAX
    ensures Assembled(line, s + [LF] + rest)
         == Completed(Truncate(line + WithoutCr(s)), LF) + Assembled([], rest)
    decreases |s|
  {
    var t := s + [LF] + rest;
    if s == [] {
      assert t[0] == LF && t[1..] == rest;
      assert line + WithoutCr(s) == line;
    } else {
      assert t[0] == s[0] && t[1..] == s[1..] + [LF] + rest;
      AssembleLine(Grow(line, s[0]), s[1..], rest);
      GrowTruncates(line, s);
      assert Assembled(line, t) == Assembled(Grow(line, s[0]), t[1..]);
    }
  }

  lemma GrowTruncates(line: seq<byte>, s: seq<byte>)
    requires s != [] && s[0] != LF && |line| <= LINE_MAX
    ensures Truncate(Grow(line, s[0]) + WithoutCr(s[1..])) == Truncate(line + WithoutCr(s))
  {
    var more := WithoutCr(s[1..]);
    if s[0] != CR {
      assert WithoutCr(s) == [s[0]] + more;
      assert line + ([s[0]] + more) == (line + [s[0]]) + more;
    } else {
      assert WithoutCr(s) == more;
    }
  }

  lemma {:induction false} AssembleUnterminated(line: seq<byte>, s: seq<byte>)
    requires LF !in s
    ensures Assembled(line, s) == []
    decreases |s|
  {
    if s != [] {
      AssembleUnterminated(Grow(line, s[0]), s[1..]);
    }
  }

  /** Every line of the stream is assembled on its own: CRs gone, cut at 65535 bytes and at a NUL. */
  lemma {:induction false} AssembledAreLines(s: seq<byte>)
    ensures Assembled([], s) == StoredLines(Lines(s))
    decreases |s|
  {
    if LF !in s {
      AssembleUnterminated([], s);
    } else {
      var l, rest := FirstLine(s);
      AssembledAreLines(rest);
      assert Assembled([], s) == Completed(Stored(l), LF) + Assembled([], rest) by {
        AssembleLine([], l, rest);
        assert [] + WithoutCr(l) == WithoutCr(l);
      }
      assert ([l] + Lines(rest))[1..] == Lines(rest);
    }
  }

  /** A line is queued exactly when it could be copied and fewer than 255 lines wait; the drain takes the oldest. */
  lemma KeptIff(s: State, line: seq<byte>, copies: bool)
    ensures var t := OfferLine(s, line, copies, RING);
      && t.queued == (if copies && |s.queued| < 255 then s.queued + [line] else s.queued)
      && t.offers == s.offers + [Offer(line, copies && |s.queued| < 255)]
      && t.taken == s.taken && t.line == s.line
    ensures var t := Step(s, Take, RING);
      && s.queued == (if s.queued == [] then [] else [s.queued[0]] + t.queued)
      && t.taken == s.taken + (if s.queued == [] then [] else [s.queued[0]])
  {
    if s.queued == [] {
      assert s.taken + [] == s.taken;
    }
  }

  /** A line that the reader passes on as it is. */
  predicate Intact(line: seq<byte>) {
    (13 as byte) !in line && (0 as byte) !in line && |line| <= 65535
  }

  lemma {:induction false} WithoutCrIs(s: seq<byte>)
    ensures (13 as byte) !in WithoutCr(s) && |WithoutCr(s)| <= |s|
    ensures |WithoutCr(s)| == |s| ==> WithoutCr(s) == s
    ensures (13 as byte) !in s ==> WithoutCr(s) == s
  {
    if s != [] {
      WithoutCrIs(s[1..]);
    }
  }

  lemma IntactIsStored(line: seq<byte>)
    requires line != []
    ensures (Stored(line) != [] && CString(Stored(line)) == line) <==> Intact(line)
  {
    WithoutCrIs(line);
    if Intact(line) {
      assert Stored(line) == line && NUL !in line;
      assert IndexOf(line, NUL) == |line|;
    }
  }

  /** A line that ends in a carriage return loses that alone, when it is intact otherwise. */
  lemma CrLfLine(line: seq<byte>)
    requires Intact(line)
    ensures Stored(line + [13]) == line
  {
    AppendCr(line);
    WithoutCrIs(line);
  }

  /** Of an overlong line the first 65535 bytes are stored, and a NUL byte ends what is handed on. */
  lemma StoredIsCut(line: seq<byte>)
    requires (13 as byte) !in line
    ensures Stored(line) == if |line| <= 65535 then line else line[..65535]
    ensures (0 as byte) !in CString(line) && CString(line) <= line
    ensures CString(line) == line || line[|CString(line)|] == 0
  {
    WithoutCrIs(line);
  }

  lemma {:induction false} AppendCr(s: seq<byte>)
    ensures WithoutCr(s + [13]) == WithoutCr(s)
    decreases |s|
  {
    if s == [] {
      assert s + [13] == [13] && [13][1..] == [];
    } else {
      assert (s + [13])[1..] == s[1..] + [13];
      AppendCr(s[1..]);
    }
  }

  /** Exactly the non-empty lines of the stream are offered when each of them is intact. */
  lemma {:induction false} IntactLinesOffered(ls: seq<seq<byte>>)
    requires forall l | l in ls :: Intact(l)
    ensures StoredLines(ls) == NonEmpty(ls)
  {
    if ls != [] {
      assert ls[0] in ls;
      IntactLinesOffered(ls[1..]);
      WithoutCrIs(ls[0]);
      if ls[0] != [] {
        IntactIsStored(ls[0]);
      }
    }
  }

  /**
   * Every run, however reader and drain interleave: what came out followed by what is
   * queued is what was accepted, the offered lines are those of the byte stream, and at
   * most 255 lines wait.
   */
  lemma EveryRun(es: seq<Event>)
    ensures var s := Run(EMPTY, es, RING);
      && s.taken + s.queued == Kept(s.offers)
      && Offered(s.offers) == StoredLines(Lines(Received(es)))
      && |s.queued| <= 255
      && ((forall l | l in Lines(Received(es)) :: Intact(l)) ==> Offered(s.offers) == NonEmpty(Lines(Received(es))))
  {
    RunConserves(EMPTY, es);
    AssemblyIgnoresSchedule(EMPTY, es, RING);
    AssembledAreLines(Received(es));
    if forall l | l in Lines(Received(es)) :: Intact(l) {
      IntactLinesOffered(Lines(Received(es)));
    }
    assert Offered([]) == [];
  }

  // ---------------------------------------------------------------- the ring against an ideal queue

  /** The ideal, unbounded queue never holds more than 255 lines during the run. */
  ghost predicate NeverBehind(s: State, es: seq<Event>)
    decreases |es|
  {
    |s.queued| <= 255 && (es != [] ==> NeverBehind(Step(s, es[0], None), es[1..]))
  }

  lemma {:induction false} OffersGrow(s: State, es: seq<Event>, limit: Option<nat>)
    ensures s.offers <= Run(s, es, limit).offers
    decreases |es|
  {
    if es != [] {
      OffersGrow(Step(s, es[0], limit), es[1..], limit);
    }
  }

  /** The ring behaves as an unbounded queue if and only if the drain never falls 256 lines behind. */
  lemma {:induction false} RingIsIdeal(s: State, es: seq<Event>)
    requires |s.queued| <= 255
    ensures Run(s, es, RING) == Run(s, es, None) <==> NeverBehind(s, es)
    decreases |es|
  {
    if es != [] {
      var t, u := Step(s, es[0], RING), Step(s, es[0], None);
      if t == u {
        RingIsIdeal(t, es[1..]);
      } else {
        OffersGrow(t, es[1..], RING);
        OffersGrow(u, es[1..], None);
        var n := |s.offers|;
        assert !t.offers[n].kept && u.offers[n].kept;
        assert Run(t, es[1..], RING).offers[n] != Run(u, es[1..], None).offers[n];
      }
    }
  }
}
