/** DER to PEM and back in the control API; text form as in section 2 of RFC 7468. */
module Pem {
  import opened Bytes
  import opened Strings
  import opened Base64

  const BEGIN_MARK := "-----BEGIN CERTIFICATE-----"
  const END_MARK := "-----END CERTIFICATE-----"
  const PEM_HEADER := BEGIN_MARK + "\n"
  const PEM_FOOTER := END_MARK + "\n"
  const PEM_LINE_LENGTH := 64

  // ---------------------------------------------------------------- text and bytes

  /** ASCII bytes as characters. */
  function Text(b: seq<byte>): (s: string)
    ensures |s| == |b| && forall i | 0 <= i < |b| :: s[i] == b[i] as int as char
  {
    seq(|b|, i requires 0 <= i < |b| => b[i] as int as char)
  }

  /** Characters as bytes; other characters become a byte outside the base64 alphabet. */
  function Octets(s: string): (b: seq<byte>)
    ensures |b| == |s| && forall i | 0 <= i < |s| :: b[i] == if s[i] as int < 256 then s[i] as int as byte else 0
  {
    seq(|s|, i requires 0 <= i < |s| => if s[i] as int < 256 then s[i] as int as byte else 0)
  }

  lemma OctetsText(b: seq<byte>)
    ensures Octets(Text(b)) == b
  {
  }

  // ---------------------------------------------------------------- the two conversions

  /** The base64 text cut into lines of 64 characters. */
  function Chunks(s: string): seq<string>
    decreases |s|
  {
    if |s| == 0 then []
    else if |s| <= PEM_LINE_LENGTH then [s]
    else [s[..PEM_LINE_LENGTH]] + Chunks(s[PEM_LINE_LENGTH..])
  }

  function DerToPemText(der: seq<byte>): string {
    PEM_HEADER + Join(Chunks(Text(Encode(der))), '\n') + "\n" + PEM_FOOTER
  }

  lemma ChunksStep(s: string, i: nat, end: nat)
    requires i < |s| && end == if i + PEM_LINE_LENGTH <= |s| then i + PEM_LINE_LENGTH else |s|
    ensures Chunks(s[i..]) == [s[i..end]] + Chunks(if end < |s| then s[end..] else "")
  {
    var rest := s[i..];
    assert s[i..end] == rest[..end - i];
    assert end < |s| ==> rest[PEM_LINE_LENGTH..] == s[end..];
    assert end == |s| ==> s[i..end] == rest;
  }

  function Concat(lines: seq<string>): string {
    if lines == [] then "" else lines[0] + Concat(lines[1..])
  }

  /** Lines of this width, but for a last one that is at most as wide and not empty. */
  predicate Wide(lines: seq<string>, width: nat) {
    && (forall i | 0 <= i < |lines| - 1 :: |lines[i]| == width)
    && (lines != [] ==> 1 <= |lines[|lines| - 1]| <= width)
  }

  lemma {:induction false} ChunksAreWide(s: string)
    ensures Concat(Chunks(s)) == s && Wide(Chunks(s), 64)
    decreases |s|
  {
    if |s| > PEM_LINE_LENGTH {
      var first, rest := s[..PEM_LINE_LENGTH], s[PEM_LINE_LENGTH..];
      ChunksAreWide(rest);
      var lines := [first] + Chunks(rest);
      assert lines[1..] == Chunks(rest) && s == first + rest;
      assert Chunks(rest) != [];
      forall i | 0 <= i < |lines| - 1 ensures |lines[i]| == 64 {
        assert i > 0 ==> lines[i] == Chunks(rest)[i - 1];
      }
      assert lines[|lines| - 1] == Chunks(rest)[|Chunks(rest)| - 1];
    } else if s != "" {
      assert [s][1..] == [] && s + "" == s;
    }
  }

  /** The text between the two marks, and what it is made of. */
  predicate IsPemOf(pem: string, lines: seq<string>, base64: string) {
    && pem == "-----BEGIN CERTIFICATE-----\n" + Join(lines, '\n') + "\n" + "-----END CERTIFICATE-----\n"
    && Concat(lines) == base64 && Wide(lines, 64)
  }

  lemma TextIsPem(base64: string)
    ensures IsPemOf(PEM_HEADER + Join(Chunks(base64), '\n') + "\n" + PEM_FOOTER, Chunks(base64), base64)
  {
    ChunksAreWide(base64);
  }

  /** `derToPem`: the slicing loop. */
  method DerToPem(derBuffer: seq<byte>) returns (pem: string)
    ensures pem == DerToPemText(derBuffer)
    ensures exists lines :: IsPemOf(pem, lines, Text(Encode(derBuffer)))
  {
    var base64 := Text(Encode(derBuffer));
    var lines: seq<string> := [];
    var i := 0;
    while i < |base64|
      invariant 0 <= i
      invariant lines + Chunks(if i < |base64| then base64[i..] else "") == Chunks(base64)
    {
      var end := if i + PEM_LINE_LENGTH <= |base64| then i + PEM_LINE_LENGTH else |base64|;
      var line := base64[i..end];
      ghost var after := if end < |base64| then base64[end..] else "";
      ChunksStep(base64, i, end);
      assert (lines + [line]) + Chunks(after) == lines + ([line] + Chunks(after));
      lines := lines + [line];
      i := i + PEM_LINE_LENGTH;
    }
    assert lines + [] == lines;
    TextIsPem(base64);
    return PEM_HEADER + Join(lines, '\n') + "\n" + PEM_FOOTER;
  }

  predicate StartsWith(s: string, pattern: string) {
    |s| >= |pattern| && forall k | 0 <= k < |pattern| :: s[k] == pattern[k]
  }

  /** `s.replace(/pattern/g, '')` for a pattern without special characters. */
  function RemoveAll(s: string, pattern: string): string
    requires pattern != ""
    decreases |s|
  {
    if s == "" then ""
    else if StartsWith(s, pattern) then RemoveAll(s[|pattern|..], pattern)
    else [s[0]] + RemoveAll(s[1..], pattern)
  }

  /** `s.replace(/\s/g, '')`. */
  function RemoveSpace(s: string): string {
    if s == "" then "" else (if IsSpace(s[0]) then "" else [s[0]]) + RemoveSpace(s[1..])
  }

  function PemToDer(pem: string): seq<byte> {
    DecodeLenient(Octets(RemoveSpace(RemoveAll(RemoveAll(pem, BEGIN_MARK), END_MARK))))
  }

  // ---------------------------------------------------------------- round trip

  /** Whatever white space stands between the marks, the bytes of the base64 text there are read. */
  lemma AnyLayoutIsRead(body: string, der: seq<byte>)
    requires '-' !in body && RemoveSpace(body) == Text(Encode(der))
    ensures PemToDer(PEM_HEADER + body + "\n" + PEM_FOOTER) == der
  {
    MarkersRemoved(body);
    LineFeedsRemoved(body);
    OctetsText(Encode(der));
    DecodeLenientOfEncoded(der);
  }

  lemma RemoveMatch(pattern: string, rest: string)
    requires pattern != ""
    ensures RemoveAll(pattern + rest, pattern) == RemoveAll(rest, pattern)
  {
    var s := pattern + rest;
    assert s[|pattern|..] == rest;
  }

  /** Text in which the pattern cannot start is kept. */
  lemma {:induction false} RemoveSkips(s: string, rest: string, pattern: string)
    requires pattern != "" && pattern[0] !in s
    ensures RemoveAll(s + rest, pattern) == s + RemoveAll(rest, pattern)
    decreases |s|
  {
    var t := s + rest;
    if s == "" {
      assert t == rest;
    } else {
      assert t[0] == s[0] && t[1..] == s[1..] + rest;
      assert !StartsWith(t, pattern);
      RemoveSkips(s[1..], rest, pattern);
      assert [s[0]] + (s[1..] + RemoveAll(rest, pattern)) == s + RemoveAll(rest, pattern);
    }
  }

  /** A pattern with a character that the text lacks occurs nowhere in it. */
  lemma {:induction false} RemoveNothing(s: string, pattern: string, k: nat)
    requires k < |pattern| && pattern[k] !in s
    ensures RemoveAll(s, pattern) == s
    decreases |s|
  {
    if s != "" {
      assert forall i | 0 <= i < |s| :: s[i] in s;
      RemoveNothing(s[1..], pattern, k);
    }
  }

  lemma {:induction false} RemoveSpaceAppend(a: string, b: string)
    ensures RemoveSpace(a + b) == RemoveSpace(a) + RemoveSpace(b)
    decreases |a|
  {
    if a == "" {
      assert a + b == b;
    } else {
      assert (a + b)[1..] == a[1..] + b;
      RemoveSpaceAppend(a[1..], b);
    }
  }

  /** Each white-space character goes, wherever it stands, and no other. */
  lemma SpaceIsRemoved(a: string, c: char, b: string)
    ensures RemoveSpace(a + [c] + b) == RemoveSpace(a) + (if IsSpace(c) then "" else [c]) + RemoveSpace(b)
    ensures RemoveSpace("") == ""
  {
    RemoveSpaceAppend(a + [c], b);
    RemoveSpaceAppend(a, [c]);
    assert [c][1..] == "";
  }

  lemma {:induction false} RemoveSpaceNothing(s: string)
    requires forall c | c in s :: !IsSpace(c)
    ensures RemoveSpace(s) == s
    decreases |s|
  {
    if s != "" {
      assert s[0] in s;
      RemoveSpaceNothing(s[1..]);
    }
  }

  /** Joined lines without their line feeds are the base64 text again. */
  lemma {:induction false} ChunksJoined(s: string)
    requires forall c | c in s :: !IsSpace(c)
    ensures RemoveSpace(Join(Chunks(s), '\n')) == s
    decreases |s|
  {
    if |s| > PEM_LINE_LENGTH {
      var first, rest := s[..PEM_LINE_LENGTH], s[PEM_LINE_LENGTH..];
      ChunksJoined(rest);
      JoinCons(first, Chunks(rest), '\n');
      RemoveSpaceNothing(first);
      RemoveSpaceAppend(first + "\n", Join(Chunks(rest), '\n'));
      RemoveSpaceAppend(first, "\n");
      assert RemoveSpace("\n") == "";
      assert s == first + rest;
    } else {
      RemoveSpaceNothing(s);
    }
  }

  lemma {:induction false} ChunksFree(s: string, c: char)
    requires c !in s && c != '\n'
    ensures c !in Join(Chunks(s), '\n')
    decreases |s|
  {
    if |s| > PEM_LINE_LENGTH {
      var rest := s[PEM_LINE_LENGTH..];
      ChunksFree(rest, c);
      JoinCons(s[..PEM_LINE_LENGTH], Chunks(rest), '\n');
    }
  }

  /** Base64 text holds neither white space nor a dash. */
  lemma Base64TextIsClean(der: seq<byte>)
    ensures var s := Text(Encode(der)); '-' !in s && forall c | c in s :: !IsSpace(c)
  {
    EncodedInAlphabet(der);
    var e := Encode(der);
    forall i | 0 <= i < |e| ensures Text(e)[i] != '-' && !IsSpace(Text(e)[i]) {
      assert e[i] in e;
    }
  }

  /** The markers come off, whatever dash-free text stands between them. */
  lemma MarkersRemoved(body: string)
    requires '-' !in body
    ensures RemoveAll(RemoveAll(PEM_HEADER + body + "\n" + PEM_FOOTER, BEGIN_MARK), END_MARK)
         == "\n" + body + "\n" + "\n"
  {
    var middle := "\n" + body + "\n";
    assert PEM_HEADER + body + "\n" + PEM_FOOTER == BEGIN_MARK + (middle + PEM_FOOTER);
    RemoveMatch(BEGIN_MARK, middle + PEM_FOOTER);
    RemoveSkips(middle, PEM_FOOTER, BEGIN_MARK);
    FooterLacksB();
    RemoveSkips(middle, PEM_FOOTER, END_MARK);
    RemoveMatch(END_MARK, "\n");
    RemoveNothing("\n", END_MARK, 0);
  }

  lemma FooterLacksB()
    ensures RemoveAll(PEM_FOOTER, BEGIN_MARK) == PEM_FOOTER
  {
    assert BEGIN_MARK[5] == 'B';
    RemoveNothing(PEM_FOOTER, BEGIN_MARK, 5);
  }

  lemma LineFeedsRemoved(body: string)
    ensures RemoveSpace("\n" + body + "\n" + "\n") == RemoveSpace(body)
  {
    RemoveSpaceAppend("\n" + body + "\n", "\n");
    RemoveSpaceAppend("\n" + body, "\n");
    RemoveSpaceAppend("\n", body);
    assert RemoveSpace("\n") == "";
  }

  /** Converting a certificate to PEM and back gives the same bytes, for every byte sequence. */
  lemma PemRoundTrip(der: seq<byte>)
    ensures PemToDer(DerToPemText(der)) == der
  {
    var base64 := Text(Encode(der));
    var body := Join(Chunks(base64), '\n');
    Base64TextIsClean(der);
    ChunksFree(base64, '-');
    ChunksJoined(base64);
    AnyLayoutIsRead(body, der);
  }
}
