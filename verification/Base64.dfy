/** Base64 as in section 4 of RFC 4648, with the two decoders the processes use. */
module Base64 {
  import opened Options
  import opened Bytes

  const PAD: byte := 61

  // ---------------------------------------------------------------- six-bit groups

  newtype sextet = x: int | 0 <= x < 64

  /** A short last group is filled with zero bits, and keeps only the groups it touches. */
  function ToSextets(b: seq<byte>): seq<sextet> {
    if |b| == 0 then []
    else
      var x := b[0] as int;
      if |b| == 1 then [(x / 4) as sextet, (x % 4 * 16) as sextet]
      else
        var y := b[1] as int;
        if |b| == 2 then [(x / 4) as sextet, (x % 4 * 16 + y / 16) as sextet, (y % 16 * 4) as sextet]
        else
          var z := b[2] as int;
          [(x / 4) as sextet, (x % 4 * 16 + y / 16) as sextet, (y % 16 * 4 + z / 64) as sextet, (z % 64) as sextet]
          + ToSextets(b[3..])
  }

  /** Whole groups give three bytes each; two or three left over give one or two. */
  function FromSextets(x: seq<sextet>): seq<byte> {
    if |x| < 2 then []
    else
      var b0 := (x[0] as int * 4 + x[1] as int / 16) as byte;
      if |x| == 2 then [b0]
      else
        var b1 := (x[1] as int % 16 * 16 + x[2] as int / 4) as byte;
        if |x| == 3 then [b0, b1]
        else [b0, b1, (x[2] as int % 4 * 64 + x[3] as int) as byte] + FromSextets(x[4..])
  }

  lemma {:induction false} SextetsInverse(b: seq<byte>)
    ensures FromSextets(ToSextets(b)) == b
    decreases |b|
  {
    if |b| >= 3 {
      SextetsInverse(b[3..]);
      assert ToSextets(b)[4..] == ToSextets(b[3..]);
      assert b == [b[0], b[1], b[2]] + b[3..];
    }
  }

  // ---------------------------------------------------------------- the alphabet

  function Code(v: sextet): (c: byte) {
    var n := v as int;
    if n < 26 then (65 + n) as byte
    else if n < 52 then (71 + n) as byte
    else if n < 62 then (n - 4) as byte
    else if n == 62 then 43
    else 47
  }

  function Decoded(c: byte): Option<sextet> {
    var n := c as int;
    if 65 <= n <= 90 then Some((n - 65) as sextet)
    else if 97 <= n <= 122 then Some((n - 71) as sextet)
    else if 48 <= n <= 57 then Some((n + 4) as sextet)
    else if n == 43 then Some(62)
    else if n == 47 then Some(63)
    else None
  }

  lemma CodeInverse(v: sextet)
    ensures Decoded(Code(v)) == Some(v)
  {
  }

  /** The alphabet of table 1 of RFC 4648, in ASCII. */
  lemma CodeIsAlphabet(v: sextet)
    ensures var n := v as int;
      Code(v) as int == if n < 26 then 'A' as int + n
                        else if n < 52 then 'a' as int + (n - 26)
                        else if n < 62 then '0' as int + (n - 52)
                        else if n == 62 then '+' as int
                        else '/' as int
    ensures PAD as int == '=' as int
  {
  }

  /** Every other character is foreign. */
  lemma DecodedIsAlphabet(c: byte)
    ensures Decoded(c).Some? ==> Code(Decoded(c).value) == c
    ensures Decoded(c).None? <==> forall v: sextet :: Code(v) != c
  {
    if Decoded(c).None? {
      forall v: sextet ensures Code(v) != c {
        CodeInverse(v);
      }
    }
  }

  /** Three bytes and their four groups are the same 24 bits; a short last group is filled up with zeros. */
  lemma SameBits(b: seq<byte>)
    requires |b| >= 1
    ensures var x := ToSextets(b);
      && |x| >= (if |b| >= 3 then 4 else |b| + 1)
      && x[0] as int * 262144 + x[1] as int * 4096
         + (if |b| >= 2 then x[2] as int * 64 else 0) + (if |b| >= 3 then x[3] as int else 0)
         == b[0] as int * 65536 + (if |b| >= 2 then b[1] as int * 256 else 0) + (if |b| >= 3 then b[2] as int else 0)
      && ToSextets(b) == x[..if |b| >= 3 then 4 else |b| + 1] + ToSextets(if |b| >= 3 then b[3..] else [])
  {
  }

  function Codes(x: seq<sextet>): (r: seq<byte>)
    ensures |r| == |x| && forall i | 0 <= i < |x| :: r[i] == Code(x[i])
  {
    if x == [] then [] else [Code(x[0])] + Codes(x[1..])
  }

  // ---------------------------------------------------------------- encoding

  function PadCount(n: nat): (k: nat)
    ensures k <= 2
  {
    if n % 3 == 0 then 0 else 3 - n % 3
  }

  function Repeat(b: byte, n: nat): (r: seq<byte>)
    ensures |r| == n && forall i | 0 <= i < n :: r[i] == b
  {
    seq(n, _ => b)
  }

  function Zeros(n: nat): (r: seq<sextet>)
    ensures |r| == n && forall i | 0 <= i < n :: r[i] == 0
  {
    seq(n, _ => 0)
  }

  function Encode(b: seq<byte>): seq<byte> {
    Codes(ToSextets(b)) + Repeat(PAD, PadCount(|b|))
  }

  predicate InAlphabet(c: byte) {
    c == PAD || Decoded(c).Some?
  }

  lemma EncodedInAlphabet(b: seq<byte>)
    ensures forall c | c in Encode(b) :: InAlphabet(c)
  {
    var x := ToSextets(b);
    forall i | 0 <= i < |x| ensures Decoded(Codes(x)[i]).Some? {
      CodeInverse(x[i]);
    }
  }

  lemma {:induction false} EncodedLength(b: seq<byte>)
    ensures |Encode(b)| == (|b| + PadCount(|b|)) / 3 * 4
    ensures (|b| + PadCount(|b|)) % 3 == 0
    decreases |b|
  {
    if |b| >= 3 {
      EncodedLength(b[3..]);
    }
  }

  // ---------------------------------------------------------------- the strict decoder

  /** A pad counts as a zero group here. */
  function Value(c: byte): Option<sextet> {
    if c == PAD then Some(0) else Decoded(c)
  }

  function Values(s: seq<byte>): Option<seq<sextet>> {
    if s == [] then Some([])
    else match (Value(s[0]), Values(s[1..]))
         case (Some(v), Some(vs)) => Some([v] + vs)
         case _ => None
  }

  /** `EVP_DecodeBlock` on text without blanks: whole groups only, pads decoded as zeros. */
  function DecodeBlock(s: seq<byte>): Option<seq<byte>> {
    if |s| % 4 != 0 || Values(s).None? then None else Some(FromSextets(Values(s).value))
  }

  lemma {:induction false} ValuesLength(s: seq<byte>)
    requires Values(s).Some?
    ensures |Values(s).value| == |s|
    decreases |s|
  {
    if s != [] {
      ValuesLength(s[1..]);
    }
  }

  lemma {:induction false} WholeGroups(x: seq<sextet>)
    requires |x| % 4 == 0
    ensures |FromSextets(x)| == |x| / 4 * 3
    decreases |x|
  {
    if |x| >= 4 {
      WholeGroups(x[4..]);
    }
  }

  lemma {:induction false} ValuesOfCodes(x: seq<sextet>, pads: nat)
    ensures Values(Codes(x) + Repeat(PAD, pads)) == Some(x + Zeros(pads))
    decreases |x|
  {
    if x == [] {
      assert Codes(x) + Repeat(PAD, pads) == Repeat(PAD, pads);
      ValuesOfPads(pads);
      assert x + Zeros(pads) == Zeros(pads);
    } else {
      CodeInverse(x[0]);
      var s := Codes(x) + Repeat(PAD, pads);
      assert s[1..] == Codes(x[1..]) + Repeat(PAD, pads);
      ValuesOfCodes(x[1..], pads);
      assert [x[0]] + (x[1..] + Zeros(pads)) == x + Zeros(pads);
    }
  }

  lemma {:induction false} ValuesOfPads(pads: nat)
    ensures Values(Repeat(PAD, pads)) == Some(Zeros(pads))
  {
    if pads > 0 {
      ValuesOfPads(pads - 1);
      assert Repeat(PAD, pads)[1..] == Repeat(PAD, pads - 1);
      assert [0] + Zeros(pads - 1) == Zeros(pads);
    }
  }

  /** Zero groups for the pads are what zero bytes in their place would encode to. */
  lemma {:induction false} PaddedGroups(b: seq<byte>, pads: nat)
    requires pads == PadCount(|b|)
    ensures ToSextets(b) + Zeros(pads) == ToSextets(b + Repeat(0, pads))
    decreases |b|
  {
    var c := b + Repeat(0, pads);
    if |b| >= 3 {
      PaddedGroups(b[3..], pads);
      assert c[3..] == b[3..] + Repeat(0, pads);
    } else if |b| == 2 {
      assert c == [b[0], b[1], 0] && c[3..] == [];
    } else if |b| == 1 {
      assert c == [b[0], 0, 0] && c[3..] == [];
    }
  }

  /** The strict decoder returns the bytes followed by one zero byte for each pad. */
  lemma DecodeBlockOfEncoded(b: seq<byte>)
    ensures DecodeBlock(Encode(b)) == Some(b + Repeat(0, PadCount(|b|)))
  {
    var pads := PadCount(|b|);
    EncodedLength(b);
    assert |Encode(b)| % 4 == 0;
    ValuesOfCodes(ToSextets(b), pads);
    assert Values(Encode(b)) == Some(ToSextets(b) + Zeros(pads));
    PaddedGroups(b, pads);
    SextetsInverse(b + Repeat(0, pads));
  }

  // ---------------------------------------------------------------- the lenient decoder

  /** The groups up to the first pad; characters outside the alphabet are skipped. */
  function LenientSextets(s: seq<byte>): seq<sextet> {
    if s == [] || s[0] == PAD then []
    else (match Decoded(s[0]) case Some(v) => [v] case None => []) + LenientSextets(s[1..])
  }

  function DecodeLenient(s: seq<byte>): seq<byte> {
    FromSextets(LenientSextets(s))
  }

  lemma {:induction false} LenientOfCodes(x: seq<sextet>, pads: nat)
    ensures LenientSextets(Codes(x) + Repeat(PAD, pads)) == x
    decreases |x|
  {
    var s := Codes(x) + Repeat(PAD, pads);
    if x != [] {
      CodeInverse(x[0]);
      assert s[1..] == Codes(x[1..]) + Repeat(PAD, pads);
      LenientOfCodes(x[1..], pads);
    }
  }

  lemma DecodeLenientOfEncoded(b: seq<byte>)
    ensures DecodeLenient(Encode(b)) == b
  {
    LenientOfCodes(ToSextets(b), PadCount(|b|));
    SextetsInverse(b);
  }
  // ---------------------------------------------------------------- other texts

  /** The lenient decoder passes over foreign characters and reads nothing behind the first pad. */
  lemma {:induction false} ForeignAreSkipped(a: seq<byte>, c: byte, b: seq<byte>)
    requires ('=' as int as byte) !in a && Decoded(c).None?
    ensures DecodeLenient(a + [c] + b) == DecodeLenient(if c == '=' as int as byte then a else a + b)
  {
    if c == PAD {
      LenientAppend(a, [c] + b);
      LenientAppend(a, []);
      assert a + [] == a && a + ([c] + b) == a + [c] + b;
    } else {
      LenientAppend(a, [c] + b);
      LenientAppend(a, b);
      assert ([c] + b)[1..] == b && a + ([c] + b) == a + [c] + b;
      assert LenientSextets([c] + b) == [] + LenientSextets(b) == LenientSextets(b);
    }
  }

  lemma {:induction false} LenientAppend(a: seq<byte>, b: seq<byte>)
    requires PAD !in a
    ensures LenientSextets(a + b) == LenientSextets(a) + LenientSextets(b)
    decreases |a|
  {
    if a == [] {
      assert a + b == b;
    } else {
      assert (a + b)[0] == a[0] && (a + b)[1..] == a[1..] + b;
      assert a[0] in a;
      LenientAppend(a[1..], b);
    }
  }

  /** The strict decoder fails exactly on a foreign character or an incomplete group. */
  lemma {:induction false} StrictFailsIff(s: seq<byte>)
    ensures DecodeBlock(s).None? <==> |s| % 4 != 0 || exists c :: c in s && c != '=' as int as byte && Decoded(c).None?
    ensures DecodeBlock(s).Some? ==> |DecodeBlock(s).value| == |s| / 4 * 3
  {
    ValuesFailIff(s);
    if Values(s).Some? {
      ValuesLength(s);
      if |s| % 4 == 0 {
        WholeGroups(Values(s).value);
      }
    }
  }

  lemma {:induction false} ValuesFailIff(s: seq<byte>)
    ensures Values(s).None? <==> exists c :: c in s && c != '=' as int as byte && Decoded(c).None?
  {
    if s != [] {
      ValuesFailIff(s[1..]);
      assert forall c :: c in s <==> c == s[0] || c in s[1..];
    }
  }
}
