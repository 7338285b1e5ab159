/** Bytes and the line terminators of the two IPC readers. */
module Bytes {
  import opened Sequences

  newtype byte = x: int | 0 <= x < 256

  const NUL: byte := 0
  const LF: byte := 10
  const CR: byte := 13

  /** The position of the first `b`; the length of `s` when there is none. */
  function IndexOf(s: seq<byte>, b: byte): (i: nat)
    ensures i <= |s|
    ensures i < |s| ==> s[i] == b
    ensures forall k | 0 <= k < i :: s[k] != b
  {
    if s == [] || s[0] == b then 0 else 1 + IndexOf(s[1..], b)
  }

  /** The newline-terminated lines of a stream, without their newlines. */
  function Lines(s: seq<byte>): seq<seq<byte>>
    decreases |s|
  {
    if LF !in s then [] else
      var i := IndexOf(s, LF);
      [s[..i]] + Lines(s[i + 1..])
  }

  /** What follows the last newline of a stream. */
  function Unterminated(s: seq<byte>): (r: seq<byte>)
    ensures LF !in r
    decreases |s|
  {
    if LF !in s then s else Unterminated(s[IndexOf(s, LF) + 1..])
  }

  /** A stream with a newline is its first line, the newline and the rest. */
  lemma FirstLine(s: seq<byte>) returns (l: seq<byte>, rest: seq<byte>)
    requires LF in s
    ensures s == l + [LF] + rest && LF !in l && |rest| < |s|
    ensures Lines(s) == [l] + Lines(rest)
    ensures Unterminated(s) == Unterminated(rest)
  {
    var i := IndexOf(s, LF);
    l, rest := s[..i], s[i + 1..];
  }

  /** Lines are what newline bytes end. */
  lemma {:induction false} LinesAre(s: seq<byte>)
    ensures Ended(Lines(s)) + Unterminated(s) == s
    ensures forall l | l in Lines(s) :: (10 as byte) !in l
    ensures (10 as byte) !in Unterminated(s)
    decreases |s|
  {
    if LF in s {
      var l, rest := FirstLine(s);
      LinesAre(rest);
      EndedCons(l, Lines(rest));
      Associative(l + [LF], Ended(Lines(rest)), Unterminated(rest));
    } else {
      assert [] + s == s;
    }
  }

  lemma EndedCons(l: seq<byte>, ls: seq<seq<byte>>)
    ensures Ended([l] + ls) == l + [10] + Ended(ls)
  {
    assert ([l] + ls)[1..] == ls;
  }

  /** Each line with its newline byte. */
  function Ended(ls: seq<seq<byte>>): seq<byte> {
    if ls == [] then [] else ls[0] + [10] + Ended(ls[1..])
  }

  function NonEmpty(ls: seq<seq<byte>>): seq<seq<byte>> {
    if ls == [] then []
    else (if ls[0] == [] then [] else [ls[0]]) + NonEmpty(ls[1..])
  }

  lemma NonEmptyHas(ls: seq<seq<byte>>, l: seq<byte>)
    ensures l in NonEmpty(ls) <==> l in ls && l != []
  {
  }
}
