/** The POSIX half of the runtime's stdin reader: `ipc_process` over its fixed buffer. */
module IpcProcessor {
  import opened Options
  import opened Bytes
  import opened IpcFraming
  import opened Sequences

  class Processor {
    const buffer: array<byte>
    var len: nat
    /** The lines handed to the value-update handler, oldest first. */
    var applied: seq<seq<byte>>
    /** Every byte read from the pipe so far. */
    ghost var stream: seq<byte>

    ghost predicate Valid()
      reads this, buffer
    {
      && buffer.Length == BUFFER_SIZE
      && len <= CAPACITY
      && Blocked(buffer[..len])
      && Holds(FeedAll(INITIAL, stream))
    }

    /** The processor is in the state `f`, except that it may have thrown a full buffer away early. */
    ghost predicate Holds(f: Framer)
      requires buffer.Length == BUFFER_SIZE && len <= CAPACITY
      reads this, buffer
    {
      && applied == f.applied
      && (buffer[..len] == f.tail || (len == 0 && |f.tail| == CAPACITY))
    }

    constructor ()
      ensures Valid() && stream == [] && applied == []
    {
      buffer := new byte[BUFFER_SIZE](_ => 0);
      len := 0;
      applied := [];
      stream := [];
    }

    /** `strchr(line_start, '\n')`: stops at the first newline or NUL byte. */
    method FindNewline(lineStart: nat) returns (newline: Option<nat>)
      requires buffer.Length == BUFFER_SIZE && lineStart <= len <= CAPACITY
      requires buffer[len] == NUL
      ensures newline == Visible(buffer[lineStart..len], lineStart)
    {
      var i := lineStart;
      while buffer[i] != LF && buffer[i] != NUL
        invariant lineStart <= i <= len
        invariant forall k | lineStart <= k < i :: buffer[k] != LF && buffer[k] != NUL
        decreases len - i
      {
        i := i + 1;
      }
      StopsAt(buffer[lineStart..len], i - lineStart);
      return if buffer[i] == LF then Some(i) else None;
    }

    /** Stores what the read returned behind the kept bytes and terminates the buffer. */
    method Store(chunk: seq<byte>)
      requires buffer.Length == BUFFER_SIZE && len + |chunk| <= CAPACITY
      modifies this`len, buffer
      ensures len == old(len) + |chunk| && buffer[len] == NUL
      ensures buffer[..len] == old(buffer[..len]) + chunk
    {
      forall i | 0 <= i < |chunk| {
        buffer[len + i] := chunk[i];
      }
      len := len + |chunk|;
      buffer[len] := NUL;
    }

    /** Hands over every complete line of the buffer; `lineStart` is where the rest begins. */
    method ApplyLines() returns (lineStart: nat)
      requires buffer.Length == BUFFER_SIZE && len <= CAPACITY && buffer[len] == NUL
      modifies this`applied, buffer
      ensures lineStart <= len && buffer[lineStart..len] == old(buffer[lineStart..len])
      ensures Blocked(buffer[lineStart..len])
      ensures old(applied) <= applied
      ensures Framer(buffer[lineStart..len], applied)
           == FeedAll(Framer([], old(applied)), old(buffer[..len]))
    {
      ghost var was := buffer[..len];
      lineStart := 0;
      assert was[0..] == was;
      var newline := FindNewline(lineStart);
      while newline.Some?
        invariant lineStart <= len && buffer[len] == NUL
        invariant buffer[lineStart..len] == was[lineStart..]
        invariant old(applied) <= applied
        invariant FeedAll(Framer([], applied), was[lineStart..]) == FeedAll(Framer([], old(applied)), was)
        invariant newline == Visible(was[lineStart..], lineStart)
        decreases len - lineStart
      {
        ApplyLine(lineStart, newline.value);
        SuffixOfSuffix(was, lineStart, newline.value + 1 - lineStart);
        lineStart := newline.value + 1;
        assert buffer[lineStart..len] == was[lineStart..];
        newline := FindNewline(lineStart);
      }
      FeedBlocked(was[lineStart..], applied);
    }

    /** Cuts the line off at its newline and applies it unless it is empty. */
    method ApplyLine(lineStart: nat, end: nat)
      requires buffer.Length == BUFFER_SIZE && len <= CAPACITY && lineStart <= len
      requires Visible(buffer[lineStart..len], lineStart) == Some(end)
      modifies this`applied, buffer
      ensures buffer[end + 1..len] == old(buffer[lineStart..len])[end + 1 - lineStart..]
      ensures buffer[len] == old(buffer[len]) && old(applied) <= applied
      ensures FeedAll(Framer([], applied), buffer[end + 1..len])
           == FeedAll(Framer([], old(applied)), old(buffer[lineStart..len]))
    {
      FeedVisible(buffer[lineStart..len], lineStart, end, applied);
      SliceParts(buffer[..], lineStart, end, len);
      ghost var more := buffer[end + 1..len];
      if end > lineStart {
        applied := applied + [buffer[lineStart..end]];
      } else {
        assert applied + [] == applied;
      }
      buffer[end] := NUL;
      assert buffer[end + 1..len] == more;
    }

    /** `memmove` of the unterminated rest to the front of the buffer. */
    method KeepRest(lineStart: nat)
      requires buffer.Length == BUFFER_SIZE && lineStart <= len <= CAPACITY
      modifies this`len, buffer
      ensures len == old(len) - lineStart
      ensures buffer[..len] == old(buffer[lineStart..len])
    {
      var remaining := len - lineStart;
      if remaining > 0 && lineStart != 0 {
        forall i | 0 <= i < remaining {
          buffer[i] := buffer[lineStart + i];
        }
      }
      len := remaining;
      buffer[len] := NUL;
    }

    /**
     * One call of `ipc_process`. The pipe holds `pipe`, and the operating system gives
     * the read up to `want` bytes of it (0 for "nothing to read" or an error).
     */
    method Process(pipe: seq<byte>, want: nat) returns (taken: nat)
      requires Valid()
      modifies this, buffer
      ensures Valid()
      ensures taken <= |pipe| && stream == old(stream) + pipe[..taken]
      ensures old(applied) <= applied
      ensures want > 0 && pipe != [] ==> taken > 0
    {
      var space := BUFFER_SIZE - len - 1;
      if space == 0 {
        len := 0;
        space := BUFFER_SIZE - 1;
      }
      ghost var kept, before, had := buffer[..len], stream, applied;
      assert kept == Settle(old(buffer[..len]));

      taken := if want <= space then want else space;
      taken := if taken <= |pipe| then taken else |pipe|;
      var chunk := pipe[..taken];
      stream := stream + chunk;
      if taken == 0 {
        assert stream == before;
        return;
      }
      Store(chunk);
      ReadExtends(before, kept, had, chunk);
      var lineStart := ApplyLines();
      KeepRest(lineStart);
      assert Framer(buffer[..len], applied) == FeedAll(INITIAL, stream);
    }
  }

  /** The place of the newline `strchr` finds in a C string whose bytes start at `base`. */
  function Visible(s: seq<byte>, base: nat): (r: Option<nat>)
    ensures r.Some? ==> base <= r.value < base + |s|
  {
    if Blocked(s) then None else Some(base + IndexOf(s, LF))
  }

  lemma IndexAtLeast(s: seq<byte>, b: byte, i: nat)
    requires i <= |s| && forall k | 0 <= k < i :: s[k] != b
    ensures IndexOf(s, b) >= i
    ensures i < |s| && s[i] == b ==> IndexOf(s, b) == i
  {
  }

  lemma StopsAt(s: seq<byte>, i: nat)
    requires i <= |s| && forall k | 0 <= k < i :: s[k] != LF && s[k] != NUL
    requires i < |s| ==> s[i] == LF || s[i] == NUL
    ensures Blocked(s) <==> i == |s| || s[i] == NUL
    ensures !Blocked(s) ==> IndexOf(s, LF) == i
  {
    IndexAtLeast(s, LF, i);
    IndexAtLeast(s, NUL, i);
  }

  lemma FeedVisible(rest: seq<byte>, from: nat, end: nat, applied: seq<seq<byte>>)
    requires |rest| <= CAPACITY && Visible(rest, from) == Some(end)
    ensures FeedAll(Framer([], applied), rest)
         == FeedAll(Framer([], applied + Emit(rest[..end - from])), rest[end + 1 - from..])
  {
    var line, more := rest[..end - from], rest[end + 1 - from..];
    assert forall k | 0 <= k < |line| :: line[k] == rest[k];
    SplitAt(rest, end - from);
    FeedLine(line, applied, more);
  }

  /** Reading a chunk behind the kept bytes is feeding the chunk to the framer. */
  lemma ReadExtends(stream: seq<byte>, kept: seq<byte>, applied: seq<seq<byte>>, chunk: seq<byte>)
    requires Blocked(kept) && |kept| < CAPACITY && chunk != []
    requires Same(Framer(kept, applied), FeedAll(INITIAL, stream))
    ensures FeedAll(Framer([], applied), kept + chunk) == FeedAll(INITIAL, stream + chunk)
  {
    FeedAllAppend(INITIAL, stream, chunk);
    FeedAllAppend(Framer([], applied), kept, chunk);
    FeedBlocked(kept, applied);
    SameFeed(Framer(kept, applied), FeedAll(INITIAL, stream), chunk);
  }

  /**
   * The promise of the stdin protocol, in any state of any processor: when no line of
   * the stream was too long and none held a NUL, exactly its non-empty lines were
   * applied, in order, and the buffer holds exactly the unterminated rest.
   */
  lemma AppliedLines(p: Processor)
    requires p.Valid()
    ensures p.applied == NonEmpty(Lines(p.stream))
       <==> forall l | l in Lines(p.stream) :: Deliverable(l)
    ensures (forall l | l in Lines(p.stream) :: Deliverable(l)) && |Unterminated(p.stream)| < CAPACITY ==>
      p.buffer[..p.len] == Unterminated(p.stream)
  {
    FramesAreLines(p.stream);
    if forall l | l in Lines(p.stream) :: Deliverable(l) {
      DeliverableFrames(p.stream, []);
    }
  }
}
