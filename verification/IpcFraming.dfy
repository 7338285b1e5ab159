/**
 * What the POSIX stdin reader of the runtime does to a byte stream, stated one byte
 * at a time and so independently of how the stream is cut into reads.
 */
module IpcFraming {
  import opened Bytes
  import opened Sequences

  /** Size of `stdin_buffer`; one byte is kept for the terminator. */
  const BUFFER_SIZE := 65536
  const CAPACITY := BUFFER_SIZE - 1

  /** The bytes of the line being assembled, and the lines handed to the update handler so far. */
  datatype Framer = Framer(tail: seq<byte>, applied: seq<seq<byte>>)

  const INITIAL := Framer([], [])

  /** A full buffer is thrown away before the next byte is stored. */
  function Settle(tail: seq<byte>): seq<byte> {
    if |tail| == CAPACITY then [] else tail
  }

  function Emit(line: seq<byte>): seq<seq<byte>> {
    if line == [] then [] else [line]
  }

  /** A newline ends the line unless a NUL byte in front of it hides it from `strchr`. */
  function Feed(f: Framer, b: byte): Framer {
    var tail := Settle(f.tail);
    if b == LF && NUL !in tail then Framer([], f.applied + Emit(tail))
    else Framer(tail + [b], f.applied)
  }

  function FeedAll(f: Framer, s: seq<byte>): Framer
    decreases |s|
  {
    if s == [] then f else FeedAll(Feed(f, s[0]), s[1..])
  }

  lemma {:induction false} FeedAllAppend(f: Framer, s: seq<byte>, t: seq<byte>)
    ensures FeedAll(f, s + t) == FeedAll(FeedAll(f, s), t)
    decreases |s|
  {
    if s == [] {
      assert s + t == t;
    } else {
      assert (s + t)[0] == s[0] && (s + t)[1..] == s[1..] + t;
      FeedAllAppend(Feed(f, s[0]), s[1..], t);
    }
  }

  /** Two framers that no later byte can tell apart. */
  ghost predicate Same(f: Framer, g: Framer) {
    Settle(f.tail) == Settle(g.tail) && f.applied == g.applied
  }

  lemma SameFeed(f: Framer, g: Framer, s: seq<byte>)
    requires Same(f, g)
    ensures Same(FeedAll(f, s), FeedAll(g, s))
    ensures s != [] ==> FeedAll(f, s) == FeedAll(g, s)
  {
    if s != [] {
      assert Feed(f, s[0]) == Feed(g, s[0]);
    }
  }

  /** `strchr` sees no newline in the C string: there is none before the first NUL. */
  predicate Blocked(s: seq<byte>) {
    IndexOf(s, LF) < |s| ==> IndexOf(s, NUL) < IndexOf(s, LF)
  }

  lemma BlockedSnoc(s: seq<byte>, b: byte)
    requires Blocked(s + [b])
    ensures Blocked(s) && (b == LF ==> NUL in s)
  {
    var t := s + [b];
    assert forall i | 0 <= i < |s| :: t[i] == s[i];
    if b == LF {
      assert t[|s|] == LF;
      assert s[IndexOf(t, NUL)] == NUL;
    }
  }

  /** A short piece without a visible newline is only stored. */
  lemma {:induction false} FeedBlocked(s: seq<byte>, applied: seq<seq<byte>>)
    requires Blocked(s) && |s| <= CAPACITY
    ensures FeedAll(Framer([], applied), s) == Framer(s, applied)
    decreases |s|
  {
    if s != [] {
      var init, last := s[..|s| - 1], s[|s| - 1];
      assert s == init + [last];
      BlockedSnoc(init, last);
      FeedBlocked(init, applied);
      FeedAllAppend(Framer([], applied), init, [last]);
      var f := Framer(init, applied);
      assert FeedAll(f, [last]) == FeedAll(Feed(f, last), []);
    }
  }

  /** A stored NUL byte silences the reader until the buffer is full. */
  lemma {:induction false} NulSilences(f: Framer, s: seq<byte>)
    requires NUL in f.tail && |f.tail| + |s| <= CAPACITY
    ensures FeedAll(f, s) == Framer(f.tail + s, f.applied)
    decreases |s|
  {
    if s != [] {
      NulSilences(Feed(f, s[0]), s[1..]);
      assert f.tail + s == f.tail + [s[0]] + s[1..];
    } else {
      assert f.tail + s == f.tail;
    }
  }

  /** A short NUL-free line followed by its newline is handed over whole. */
  lemma FeedLine(line: seq<byte>, applied: seq<seq<byte>>, rest: seq<byte>)
    requires NUL !in line && LF !in line && |line| < CAPACITY
    ensures FeedAll(Framer([], applied), line + [LF] + rest)
         == FeedAll(Framer([], applied + Emit(line)), rest)
  {
    FeedBlocked(line, applied);
    FeedAllAppend(Framer([], applied), line, [LF] + rest);
    assert line + [LF] + rest == line + ([LF] + rest);
    assert ([LF] + rest)[1..] == rest;
  }

  /** What is left of a line after the full buffers inside it were dropped. */
  function Residue(line: seq<byte>): (r: seq<byte>)
    ensures |r| < CAPACITY && |r| <= |line| && r == line[|line| - |r|..]
    decreases |line|
  {
    if |line| < CAPACITY then line else Residue(line[CAPACITY..])
  }

  lemma {:induction false} FeedOverlong(line: seq<byte>, applied: seq<seq<byte>>, rest: seq<byte>)
    requires NUL !in line && LF !in line
    ensures FeedAll(Framer([], applied), line + [LF] + rest)
         == FeedAll(Framer([], applied + Emit(Residue(line))), rest)
    decreases |line|
  {
    if |line| < CAPACITY {
      FeedLine(line, applied, rest);
    } else {
      var full, more := line[..CAPACITY], line[CAPACITY..];
      var after := more + [LF] + rest;
      FeedBlocked(full, applied);
      FeedAllAppend(Framer([], applied), full, after);
      assert line + [LF] + rest == full + after;
      SameFeed(Framer(full, applied), Framer([], applied), after);
      FeedOverlong(more, applied, rest);
    }
  }

  /** What the framer delivers of a list of lines. */
  function Delivered(ls: seq<seq<byte>>): seq<seq<byte>> {
    if ls == [] then [] else Emit(Residue(ls[0])) + Delivered(ls[1..])
  }

  lemma DeliveredCons(l: seq<byte>, ls: seq<seq<byte>>)
    ensures Delivered([l] + ls) == Emit(Residue(l)) + Delivered(ls)
  {
    assert ([l] + ls)[1..] == ls;
  }

  lemma NonEmptyCons(l: seq<byte>, ls: seq<seq<byte>>)
    ensures NonEmpty([l] + ls) == Emit(l) + NonEmpty(ls)
  {
    assert ([l] + ls)[1..] == ls;
  }

  /**
   * For a NUL-free stream each line is judged on its own: a line of at least 65535 bytes
   * loses its full buffers, and never damages the lines around it.
   */
  lemma {:induction false} FramesOfNulFreeStream(s: seq<byte>, applied: seq<seq<byte>>)
    requires NUL !in s
    ensures FeedAll(Framer([], applied), s).applied == applied + Delivered(Lines(s))
    ensures |Unterminated(s)| <= CAPACITY ==>
      FeedAll(Framer([], applied), s).tail == Unterminated(s)
    ensures Settle(FeedAll(Framer([], applied), s).tail) == Residue(Unterminated(s))
    decreases |s|
  {
    if LF !in s {
      FeedUnterminated(s, applied);
    } else {
      var l, rest := FirstLine(s);
      var now, later := Emit(Residue(l)), Delivered(Lines(rest));
      FramesOfNulFreeStream(rest, applied + now);
      assert FeedAll(Framer([], applied), s) == FeedAll(Framer([], applied + now), rest) by {
        FeedOverlong(l, applied, rest);
      }
      assert applied + Delivered(Lines(s)) == (applied + now) + later by {
        DeliveredCons(l, Lines(rest));
        Associative(applied, now, later);
      }
    }
  }

  lemma {:induction false} FeedUnterminated(s: seq<byte>, applied: seq<seq<byte>>)
    requires NUL !in s && LF !in s
    ensures FeedAll(Framer([], applied), s).applied == applied
    ensures |s| <= CAPACITY ==> FeedAll(Framer([], applied), s).tail == s
    ensures Settle(FeedAll(Framer([], applied), s).tail) == Residue(s)
    decreases |s|
  {
    if |s| <= CAPACITY {
      FeedBlocked(s, applied);
    } else {
      var full, more := s[..CAPACITY], s[CAPACITY..];
      FeedBlocked(full, applied);
      FeedAllAppend(Framer([], applied), full, more);
      assert s == full + more;
      SameFeed(Framer(full, applied), Framer([], applied), more);
      FeedUnterminated(more, applied);
    }
  }

  /** A line the runtime can deliver. */
  predicate Deliverable(line: seq<byte>) {
    NUL !in line && |line| < CAPACITY
  }

  /** Every line ever handed over is deliverable, and none is empty. */
  lemma {:induction false} AppliedAreDeliverable(f: Framer, s: seq<byte>)
    requires forall l | l in f.applied :: Deliverable(l) && l != []
    ensures forall l | l in FeedAll(f, s).applied :: Deliverable(l) && l != []
    requires |f.tail| <= CAPACITY
    ensures |FeedAll(f, s).tail| <= CAPACITY
    decreases |s|
  {
    if s != [] {
      AppliedAreDeliverable(Feed(f, s[0]), s[1..]);
    }
  }

  /**
   * The lines handed over are exactly the non-empty lines of the stream if and only if
   * every terminated line is at most 65534 bytes long and NUL-free.
   */
  lemma {:induction false} FramesAreLines(s: seq<byte>)
    ensures FeedAll(INITIAL, s).applied == NonEmpty(Lines(s))
       <==> forall l | l in Lines(s) :: (0 as byte) !in l && |l| <= 65534
  {
    assert forall l :: Deliverable(l) <==> (0 as byte) !in l && |l| <= 65534;
    if forall l | l in Lines(s) :: Deliverable(l) {
      DeliverableFrames(s, []);
    } else {
      var l :| l in Lines(s) && !Deliverable(l);
      AppliedAreDeliverable(INITIAL, s);
      NonEmptyHas(Lines(s), l);
    }
  }

  lemma {:induction false} DeliverableFrames(s: seq<byte>, applied: seq<seq<byte>>)
    requires forall l | l in Lines(s) :: Deliverable(l)
    ensures FeedAll(Framer([], applied), s).applied == applied + NonEmpty(Lines(s))
    ensures |Unterminated(s)| <= CAPACITY ==>
      FeedAll(Framer([], applied), s).tail == Unterminated(s)
    decreases |s|
  {
    if LF !in s {
      if |s| <= CAPACITY {
        FeedBlocked(s, applied);
      }
      NothingApplied(Framer([], applied), s);
    } else {
      var l, rest := FirstLine(s);
      var now, later := Emit(l), NonEmpty(Lines(rest));
      assert FeedAll(Framer([], applied), s) == FeedAll(Framer([], applied + now), rest) by {
        assert l in [l] + Lines(rest);
        FeedLine(l, applied, rest);
      }
      DeliverableFrames(rest, applied + now);
      assert NonEmpty(Lines(s)) == now + later by {
        NonEmptyCons(l, Lines(rest));
      }
      Associative(applied, now, later);
    }
  }

  lemma {:induction false} NothingApplied(f: Framer, s: seq<byte>)
    requires LF !in s
    ensures FeedAll(f, s).applied == f.applied
    decreases |s|
  {
    if s != [] {
      NothingApplied(Feed(f, s[0]), s[1..]);
    }
  }
}
