/**
 * The runtime's conversion of a PEM private key to DER: boundary scan, CR/LF removal and
 * padding arithmetic over fixed buffers.
 */
module PemToDer {
  import opened Options
  import opened Bytes
  import opened Sequences
  import opened Base64
  import Pem
  import Strings

  const DASH: byte := 45
  /** The bytes of "-----END". */
  const END_TAG: seq<byte> := [45, 45, 45, 45, 45, 69, 78, 68]

  // ---------------------------------------------------------------- specification

  /** `memcmp(&data[i], "-----END", 8) == 0`. */
  predicate TagAt(data: seq<byte>, i: nat) {
    i + 8 <= |data| && forall k | 0 <= k < 8 :: data[i + k] == END_TAG[k]
  }

  /** One different byte is enough. */
  lemma NoTag(data: seq<byte>, i: nat, k: nat)
    requires k < 8 && i + k < |data| && data[i + k] != END_TAG[k]
    ensures !TagAt(data, i)
  {
  }

  /** The first place of the tag; the length when there is none. */
  function FindTag(data: seq<byte>, i: nat): (r: nat)
    requires i <= |data|
    ensures i <= r <= |data|
    ensures forall k | i <= k < r :: !TagAt(data, k)
    ensures r < |data| ==> TagAt(data, r)
    decreases |data| - i
  {
    if i == |data| || TagAt(data, i) then i else FindTag(data, i + 1)
  }

  function WithoutBreaks(s: seq<byte>): seq<byte> {
    if s == [] then [] else (if s[0] == LF || s[0] == CR then [] else [s[0]]) + WithoutBreaks(s[1..])
  }

  function Padding(b64: seq<byte>): (n: nat)
    ensures n <= 2
  {
    (if |b64| > 0 && b64[|b64| - 1] == PAD then 1 else 0)
    + (if |b64| > 1 && b64[|b64| - 2] == PAD then 1 else 0)
  }

  /** What the base64 body of a key decodes to: at least one group, without the padding's bytes. */
  function DecodeBody(b64: seq<byte>): Option<seq<byte>> {
    match DecodeBlock(b64)
    case None => None
    case Some(raw) =>
      if |raw| == 0 || |raw| < Padding(b64) then None else Some(raw[..|raw| - Padding(b64)])
  }

  /** The body reaches from behind the first line feed to the tag. */
  function Convert(data: seq<byte>): Option<seq<byte>> {
    var start, end := IndexOf(data, LF) + 1, FindTag(data, 0);
    if end == |data| || start >= end then None
    else DecodeBody(WithoutBreaks(data[start..end]))
  }

  // ---------------------------------------------------------------- the C code

  /** `UA_ByteString`. */
  class ByteString {
    var data: array<byte>
    var length: nat

    ghost predicate Valid()
      reads this
    {
      length <= data.Length
    }

    constructor (data: array<byte>)
      ensures Valid() && this.data == data && length == data.Length
    {
      this.data := data;
      length := data.Length;
    }
  }

  /** The scan for the body; both places are indices, and absent ones are the length. */
  method FindBody(data: array<byte>, length: nat) returns (start: Option<nat>, end: Option<nat>)
    requires 0 < length <= data.Length
    ensures var d := data[..length];
      end == if FindTag(d, 0) == length then None else Some(FindTag(d, 0))
    ensures end.Some? ==> var d := data[..length];
      start == if IndexOf(d, LF) < end.value then Some(IndexOf(d, LF) + 1) else None
  {
    start, end := None, None;
    ghost var d := data[..length];
    var i := 0;
    while i < length - 1
      invariant i <= length - 1
      invariant FindTag(d, 0) >= i
      invariant start == if IndexOf(d, LF) < i then Some(IndexOf(d, LF) + 1) else None
    {
      if data[i] == LF && start.None? {
        start := Some(i + 1);
      }
      if data[i] == DASH && i + 8 <= length {
        var same := SameAsTag(data, i);
        if same {
          assert TagAt(d, i);
          end := Some(i);
          return;
        }
      }
      if data[i] != DASH {
        NoTag(d, i, 0);
      }
      TagIsLater(d, i);
      i := i + 1;
    }
    TagIsLater(d, length - 1);
  }

  lemma TagIsLater(d: seq<byte>, i: nat)
    requires i < |d| && FindTag(d, 0) >= i && !TagAt(d, i)
    ensures FindTag(d, 0) > i
  {
  }

  method SameAsTag(data: array<byte>, i: nat) returns (same: bool)
    requires i + 8 <= data.Length
    ensures same <==> forall k | 0 <= k < 8 :: data[i + k] == END_TAG[k]
  {
    for k := 0 to 8
      invariant forall j | 0 <= j < k :: data[i + j] == END_TAG[j]
    {
      if data[i + k] != END_TAG[k] {
        return false;
      }
    }
    return true;
  }

  /** Copies the body without CR and LF. */
  method StripBreaks(data: array<byte>, start: nat, end: nat, b64Buf: array<byte>) returns (b64Len: nat)
    requires start <= end <= data.Length && b64Buf.Length == end - start && b64Buf != data
    modifies b64Buf
    ensures b64Len <= b64Buf.Length && b64Buf[..b64Len] == WithoutBreaks(data[start..end])
  {
    b64Len := 0;
    var p := start;
    while p < end
      invariant start <= p <= end && b64Len <= p - start
      invariant b64Buf[..b64Len] + WithoutBreaks(data[p..end]) == WithoutBreaks(data[start..end])
    {
      ghost var kept, rest := b64Buf[..b64Len], data[p..end];
      SliceHead(data[..], p, end);
      assert rest[0] == data[p] && rest[1..] == data[p + 1..end];
      if data[p] != LF && data[p] != CR {
        b64Buf[b64Len] := data[p];
        b64Len := b64Len + 1;
        assert b64Buf[..b64Len] == kept + [rest[0]];
        Associative(kept, [rest[0]], WithoutBreaks(rest[1..]));
      }
      p := p + 1;
    }
    assert b64Buf[..b64Len] + [] == b64Buf[..b64Len];
  }

  /** `EVP_DecodeBlock`: writes three bytes for every four characters, or fails with -1. */
  method EvpDecodeBlock(decoded: array<byte>, b64: seq<byte>) returns (rawLen: int)
    requires decoded.Length >= |b64| / 4 * 3
    modifies decoded
    ensures DecodeBlock(b64).None? ==> rawLen == -1
    ensures DecodeBlock(b64).Some? ==>
      0 <= rawLen <= decoded.Length && decoded[..rawLen] == DecodeBlock(b64).value
  {
    if DecodeBlock(b64).None? {
      return -1;
    }
    ValuesLength(b64);
    WholeGroups(Values(b64).value);
    var raw := DecodeBlock(b64).value;
    forall i | 0 <= i < |raw| {
      decoded[i] := raw[i];
    }
    rawLen := |raw|;
  }

  /** `pem_to_der`: on success the key's bytes are replaced, on failure they are left to the caller. */
  method Run(privateKey: ByteString) returns (status: int)
    requires privateKey.Valid() && privateKey.length > 0
    modifies privateKey
    ensures privateKey.Valid()
    ensures var result := Convert(old(privateKey.data[..privateKey.length]));
      if result.Some? then status == 0 && privateKey.data[..privateKey.length] == result.value
      else status == -1 && privateKey.data == old(privateKey.data) && privateKey.length == old(privateKey.length)
  {
    var data, length := privateKey.data, privateKey.length;
    ghost var text := data[..length];
    var start, end := FindBody(data, length);
    if start.None? || end.None? || end.value <= start.value {
      return -1;
    }
    SliceOfPrefix(data[..], length, start.value, end.value);
    assert data[start.value..end.value] == text[start.value..end.value];
    var b64Buf := new byte[end.value - start.value];
    var b64Len := StripBreaks(data, start.value, end.value, b64Buf);
    var decoded, decodedLen := DecodeText(b64Buf, b64Len);
    if decodedLen < 0 {
      return -1;
    }
    privateKey.data := decoded;
    privateKey.length := decodedLen;
    return 0;
  }

  /** Decodes the stripped text into a new buffer and takes off the bytes of the padding. */
  method DecodeText(b64Buf: array<byte>, b64Len: nat) returns (decoded: array<byte>, decodedLen: int)
    requires b64Len <= b64Buf.Length
    ensures fresh(decoded) && decodedLen <= decoded.Length
    ensures var result := DecodeBody(b64Buf[..b64Len]);
      if result.None? then decodedLen == -1 else decodedLen >= 0 && decoded[..decodedLen] == result.value
  {
    var b64 := b64Buf[..b64Len];
    var decodedMax := b64Len / 4 * 3 + 3;
    decoded := new byte[decodedMax];
    var rawDecodedLen := EvpDecodeBlock(decoded, b64);
    if rawDecodedLen <= 0 {
      decodedLen := -1;
      return;
    }
    var padding := 0;
    if b64Len > 0 && b64Buf[b64Len - 1] == PAD {
      padding := padding + 1;
    }
    if b64Len > 1 && b64Buf[b64Len - 2] == PAD {
      padding := padding + 1;
    }
    RawCoversPadding(b64);
    decodedLen := rawDecodedLen - padding;
    assert decoded[..decodedLen] == decoded[..rawDecodedLen][..decodedLen];
  }

  /** Whenever something is decoded, it is at least three bytes, so the padding can be taken off. */
  lemma RawCoversPadding(b64: seq<byte>)
    requires DecodeBlock(b64).Some? && DecodeBlock(b64).value != []
    ensures |DecodeBlock(b64).value| == |b64| / 4 * 3 >= 3
  {
    ValuesLength(b64);
    WholeGroups(Values(b64).value);
  }

  // ---------------------------------------------------------------- what it does to a written key

  /** The base64 text of a key ends in exactly the pads that its length calls for. */
  lemma PaddingOfEncoded(b: seq<byte>)
    requires b != []
    ensures Padding(Encode(b)) == PadCount(|b|)
  {
    var x := Codes(ToSextets(b));
    EncodedLength(b);
    forall i | 0 <= i < |x| ensures x[i] != PAD {
      CodeInverse(ToSextets(b)[i]);
    }
  }

  lemma DecodeBodyOfEncoded(b: seq<byte>)
    ensures DecodeBody(Encode(b)) == if b == [] then None else Some(b)
  {
    DecodeBlockOfEncoded(b);
    if b != [] {
      PaddingOfEncoded(b);
      assert (b + Repeat(0, PadCount(|b|)))[..|b|] == b;
    }
  }

  /** A key file: a header line, a body of base64 text and line breaks, and a footer. */
  ghost predicate Written(header: seq<byte>, body: seq<byte>, der: seq<byte>) {
    && LF !in header && (forall i | 0 <= i < |header| :: !TagAt(header, i))
    && DASH !in body && WithoutBreaks(body) == Encode(der)
  }

  lemma TagOfBody(header: seq<byte>, body: seq<byte>, rest: seq<byte>)
    requires LF !in header && (forall i | 0 <= i < |header| :: !TagAt(header, i)) && DASH !in body
    ensures var data := header + [LF] + body + END_TAG + rest;
      FindTag(data, 0) == |header| + 1 + |body| && IndexOf(data, LF) == |header|
  {
    var data := header + [LF] + body + END_TAG + rest;
    var n, e := |header|, |header| + 1 + |body|;
    assert forall i | 0 <= i < n :: data[i] == header[i];
    assert data[n] == LF;
    assert forall i | 0 <= i < |body| :: data[n + 1 + i] == body[i];
    assert forall k | 0 <= k < 8 :: data[e + k] == END_TAG[k];
    assert TagAt(data, e);
    forall i | 0 <= i < e ensures !TagAt(data, i) {
      if i >= n {
        NoTag(data, i, 0);
      } else if i + 8 <= n {
        assert !TagAt(header, i);
        var k :| 0 <= k < 8 && header[i + k] != END_TAG[k];
        NoTag(data, i, k);
      } else {
        NoTag(data, i, n - i);
      }
    }
    FirstTag(data, 0, e);
  }

  lemma FirstTag(data: seq<byte>, i: nat, e: nat)
    requires i <= e < |data| && TagAt(data, e) && forall k | i <= k < e :: !TagAt(data, k)
    ensures FindTag(data, i) == e
    decreases e - i
  {
    if i < e {
      FirstTag(data, i + 1, e);
    }
  }

  /**
   * For every key file, at any line width and with either line ending, the converter
   * returns exactly the encoded bytes; it fails if and only if there are none.
   */
  lemma ConvertsWrittenKey(header: seq<byte>, body: seq<byte>, der: seq<byte>, rest: seq<byte>)
    requires Written(header, body, der)
    ensures Convert(header + [LF] + body + END_TAG + rest) == if der == [] then None else Some(der)
  {
    var data := header + [LF] + body + END_TAG + rest;
    TagOfBody(header, body, rest);
    assert data[|header| + 1..|header| + 1 + |body|] == body;
    DecodeBodyOfEncoded(der);
    if der != [] && body == [] {
      EncodedLength(der);
    }
  }

  /** What is behind the first line feed and in front of the tag is decoded, whatever it is. */
  lemma DecodesBetween(header: seq<byte>, body: seq<byte>, rest: seq<byte>)
    requires LF !in header && (forall i | 0 <= i < |header| :: !TagAt(header, i)) && DASH !in body
    ensures Convert(header + [LF] + body + END_TAG + rest) == DecodeBody(WithoutBreaks(body))
  {
    var data := header + [LF] + body + END_TAG + rest;
    TagOfBody(header, body, rest);
    assert data[|header| + 1..|header| + 1 + |body|] == body;
    if body == [] {
      assert DecodeBlock([]) == Some([]);
    }
  }

  /** Line feeds and carriage returns go; every other byte stays, in order. */
  lemma {:induction false} BreaksAreFiltered(a: seq<byte>, b: seq<byte>)
    ensures WithoutBreaks(a + b) == WithoutBreaks(a) + WithoutBreaks(b)
    ensures forall c :: c in WithoutBreaks(a) <==> c in a && c != 10 && c != 13
    ensures forall c: byte :: WithoutBreaks([c]) == if c == 10 || c == 13 then [] else [c]
    decreases |a|
  {
    forall c: byte ensures WithoutBreaks([c]) == if c == 10 || c == 13 then [] else [c] {
      assert [c][1..] == [];
    }
    if a == [] {
      assert a + b == b;
    } else {
      assert (a + b)[0] == a[0] && (a + b)[1..] == a[1..] + b;
      BreaksAreFiltered(a[1..], b);
    }
  }

  /** Without the tag, or with no line feed in front of it, there is no key. */
  lemma NoBodyNoKey(data: seq<byte>)
    requires (forall i | 0 <= i < |data| :: !TagAt(data, i))
      || exists i :: 0 <= i < |data| && TagAt(data, i) && forall k | 0 <= k < i :: data[k] != 10
    ensures Convert(data) == None
  {
  }

  /** The tag is the eight characters "-----END". */
  lemma TagIsText(data: seq<byte>, i: nat)
    ensures TagAt(data, i) <==> i + 8 <= |data| && data[i..i + 8] == Pem.Octets("-----END")
  {
    assert Pem.Octets("-----END") == END_TAG;
    if i + 8 <= |data| {
      var part := data[i..i + 8];
      assert forall k | 0 <= k < 8 :: part[k] == data[i + k];
    }
  }

  /** Decoding a body takes off one byte for each of the last two characters that is a pad. */
  lemma BodyDecodes(b64: seq<byte>)
    ensures DecodeBody(b64).None? <==> DecodeBlock(b64).None? || b64 == []
    ensures DecodeBody(b64).Some? ==>
      var raw, n := DecodeBlock(b64).value, |b64|;
      && n >= 4
      && var last := if b64[n - 1] as int == '=' as int then 1 else 0;
         var second := if b64[n - 2] as int == '=' as int then 1 else 0;
         DecodeBody(b64).value == raw[..|raw| - last - second]
  {
    StrictFailsIff(b64);
  }

  // ---------------------------------------------------------------- text written by the control API

  /** Latin text whose only white space is the line feed. */
  predicate LinesOnly(s: string) {
    forall c | c in s :: c as int < 256 && (Strings.IsSpace(c) ==> c == '\n')
  }

  lemma {:induction false} BreaksAreSpace(s: string)
    requires LinesOnly(s)
    ensures WithoutBreaks(Pem.Octets(s)) == Pem.Octets(Pem.RemoveSpace(s))
    decreases |s|
  {
    if s != "" {
      var rest := s[1..];
      assert s[0] in s && forall c | c in rest :: c in s;
      BreaksAreSpace(rest);
      assert Pem.Octets(s)[1..] == Pem.Octets(rest);
      OctetsAppend(if Strings.IsSpace(s[0]) then "" else [s[0]], Pem.RemoveSpace(rest));
    }
  }

  lemma OctetsAppend(a: string, b: string)
    ensures Pem.Octets(a + b) == Pem.Octets(a) + Pem.Octets(b)
  {
  }

  /** The base64 lines of the control API's PEM text. */
  function ApiLines(der: seq<byte>): string {
    Strings.Join(Pem.Chunks(Pem.Text(Encode(der))), '\n') + "\n"
  }

  lemma ApiLinesAreClean(der: seq<byte>)
    ensures LinesOnly(ApiLines(der)) && '-' !in ApiLines(der)
  {
    var base64 := Pem.Text(Encode(der));
    Pem.Base64TextIsClean(der);
    forall c | c in ApiLines(der) ensures c as int < 256 && c != '-' && (Strings.IsSpace(c) ==> c == '\n') {
      if c != '\n' && c !in base64 {
        Pem.ChunksFree(base64, c);
      }
    }
  }

  lemma ApiLinesWithoutBreaks(der: seq<byte>)
    ensures Pem.RemoveSpace(ApiLines(der)) == Pem.Text(Encode(der))
  {
    var base64 := Pem.Text(Encode(der));
    var lines := Strings.Join(Pem.Chunks(base64), '\n');
    Pem.Base64TextIsClean(der);
    Pem.ChunksJoined(base64);
    Pem.RemoveSpaceAppend(lines, "\n");
    assert Pem.RemoveSpace("\n") == "";
  }

  lemma BeginMarkHasNoTag()
    ensures var h := Pem.Octets(Pem.BEGIN_MARK);
      LF !in h && forall i | 0 <= i < |h| :: !TagAt(h, i)
  {
    var h := Pem.Octets(Pem.BEGIN_MARK);
    assert h[5] == 66;
    forall i | 0 <= i < |h| ensures !TagAt(h, i) {
      if i <= 5 {
        NoTag(h, i, 5 - i);
      } else if i < 22 {
        NoTag(h, i, 0);
      }
    }
  }

  lemma ApiPemIsWritten(der: seq<byte>)
    ensures Written(Pem.Octets(Pem.BEGIN_MARK), Pem.Octets(ApiLines(der)), der)
  {
    BeginMarkHasNoTag();
    ApiLinesAreClean(der);
    BreaksAreSpace(ApiLines(der));
    ApiLinesWithoutBreaks(der);
    Pem.OctetsText(Encode(der));
    var lines := ApiLines(der);
    assert forall i | 0 <= i < |lines| :: lines[i] in lines;
  }

  const END_TEXT := "-----END"
  const FOOTER_REST := " CERTIFICATE-----\n"

  lemma FooterOctets()
    ensures Pem.Octets(Pem.PEM_FOOTER) == END_TAG + Pem.Octets(FOOTER_REST)
  {
    assert Pem.PEM_FOOTER == END_TEXT + FOOTER_REST;
    OctetsAppend(END_TEXT, FOOTER_REST);
    assert Pem.Octets(END_TEXT) == END_TAG;
  }

  lemma HeaderOctets()
    ensures Pem.Octets(Pem.PEM_HEADER) == Pem.Octets(Pem.BEGIN_MARK) + [LF]
  {
    OctetsAppend(Pem.BEGIN_MARK, "\n");
    assert Pem.Octets("\n") == [LF];
  }

  lemma OctetsOfThree(header: string, lines: string, footer: string)
    ensures Pem.Octets(header + lines + footer) == Pem.Octets(header) + Pem.Octets(lines) + Pem.Octets(footer)
  {
  }

  lemma ApiPemOctets(der: seq<byte>)
    ensures Pem.Octets(Pem.DerToPemText(der)) ==
      Pem.Octets(Pem.BEGIN_MARK) + [LF] + Pem.Octets(ApiLines(der)) + END_TAG + Pem.Octets(FOOTER_REST)
  {
    var header, footer := Pem.PEM_HEADER, Pem.PEM_FOOTER;
    ApiPemText(header, Strings.Join(Pem.Chunks(Pem.Text(Encode(der))), '\n'), footer);
    OctetsOfThree(header, ApiLines(der), footer);
    HeaderOctets();
    FooterOctets();
    Associative(Pem.Octets(header) + Pem.Octets(ApiLines(der)), END_TAG, Pem.Octets(FOOTER_REST));
  }

  lemma ApiPemText(header: string, lines: string, footer: string)
    ensures header + lines + "\n" + footer == header + (lines + "\n") + footer
  {
  }

  /** The runtime's converter reads what the control API's `derToPem` writes, for all non-empty contents. */
  lemma ConvertsApiPem(der: seq<byte>)
    ensures Convert(Pem.Octets(Pem.DerToPemText(der))) == if der == [] then None else Some(der)
  {
    ApiPemIsWritten(der);
    ApiPemOctets(der);
    ConvertsWrittenKey(Pem.Octets(Pem.BEGIN_MARK), Pem.Octets(ApiLines(der)), der, Pem.Octets(FOOTER_REST));
  }
}
