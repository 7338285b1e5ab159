/**
 * Node ids in their text form "ns=<digits>;s=<identifier>", printed by the config
 * generator and parsed by the runtime (section 5.3.1.10 of OPC 10000-6).
 */
module NodeId {
  import opened Options

  datatype StringId = StringId(ns: nat, identifier: string)

  const MAX_NAMESPACE := 65535
  /** The least `ULONG_MAX` the C standard allows. */
  const LEAST_ULONG_MAX := 4294967295

  // ---------------------------------------------------------------- decimal numbers

  predicate IsDigit(c: char) {
    '0' <= c <= '9'
  }

  predicate AllDigits(s: string) {
    forall i | 0 <= i < |s| :: IsDigit(s[i])
  }

  function DigitValue(c: char): nat
    requires IsDigit(c)
  {
    c as int - '0' as int
  }

  function Value(s: string): nat
    requires AllDigits(s)
  {
    if s == "" then 0 else 10 * Value(s[..|s| - 1]) + DigitValue(s[|s| - 1])
  }

  /** A number as the template string prints it. */
  function Decimal(n: nat): (s: string)
    ensures s != "" && AllDigits(s)
  {
    var last := [(n % 10 + '0' as int) as char];
    if n < 10 then last else Decimal(n / 10) + last
  }

  lemma ValueOfDecimal(n: nat)
    ensures Value(Decimal(n)) == n
  {
    var s := Decimal(n);
    if n >= 10 {
      ValueOfDecimal(n / 10);
      assert s[..|s| - 1] == Decimal(n / 10);
    } else {
      assert s[..|s| - 1] == "";
    }
  }

  // ---------------------------------------------------------------- printing

  function Print(id: StringId): string {
    "ns=" + Decimal(id.ns) + ";s=" + id.identifier
  }

  // ---------------------------------------------------------------- parsing

  /** How many digits `s` starts with. */
  function DigitCount(s: string): (n: nat)
    ensures n <= |s| && AllDigits(s[..n])
    ensures n < |s| ==> !IsDigit(s[n])
  {
    if s == "" || !IsDigit(s[0]) then 0 else 1 + DigitCount(s[1..])
  }

  predicate StartsWith(s: string, prefix: string) {
    |s| >= |prefix| && s[..|prefix|] == prefix
  }

  function Parse(s: string): Option<StringId> {
    if !StartsWith(s, "ns=") then None else
      var rest := s[3..];
      var n := DigitCount(rest);
      if n == 0 || Value(rest[..n]) > MAX_NAMESPACE || !StartsWith(rest[n..], ";s=") || |rest[n..]| == 3
      then None
      else Some(StringId(Value(rest[..n]), rest[n + 3..]))
  }

  /** `strtoul` in base 10 from position `p`: the value, capped at `ULONG_MAX`, and where the digits end. */
  method StrToUl(str: string, p: nat, ulongMax: nat) returns (value: nat, end: nat)
    requires p <= |str|
    ensures end == p + DigitCount(str[p..])
    ensures var v := Value(str[p..][..end - p]); value == if v <= ulongMax then v else ulongMax
  {
    value, end := 0, p;
    ghost var rest := str[p..];
    while end < |str| && IsDigit(str[end])
      invariant p <= end <= |str| && AllDigits(rest[..end - p])
      invariant var v := Value(rest[..end - p]); value == if v <= ulongMax then v else ulongMax
    {
      ghost var k := end - p;
      assert rest[..k + 1][..k] == rest[..k] && rest[k] == str[end];
      var next := 10 * value + DigitValue(str[end]);
      value := if next <= ulongMax then next else ulongMax;
      end := end + 1;
    }
    DigitCountIs(rest, end - p);
  }

  lemma DigitCountIs(s: string, n: nat)
    requires n <= |s| && AllDigits(s[..n]) && (n < |s| ==> !IsDigit(s[n]))
    ensures DigitCount(s) == n
  {
    var d := DigitCount(s);
    assert forall i | 0 <= i < n :: IsDigit(s[..n][i]) && s[..n][i] == s[i];
    assert forall i | 0 <= i < d :: IsDigit(s[..d][i]) && s[..d][i] == s[i];
  }

  /**
   * `parse_node_id_string`, on any platform. No string is the null pointer, and the end of
   * the sequence stands for the terminating NUL.
   */
  method ParseNodeIdString(pointer: Option<string>, ulongMax: nat) returns (id: Option<StringId>)
    requires ulongMax >= LEAST_ULONG_MAX
    ensures id == if pointer.None? then None else Parse(pointer.value)
  {
    if pointer.None? || |pointer.value| == 0 {
      return None;
    }
    var str := pointer.value;
    if !StartsWith(str, "ns=") {
      return None;
    }
    var p := 3;
    if p == |str| || !IsDigit(str[p]) {
      return None;
    }
    var nsVal, end := StrToUl(str, p, ulongMax);
    assert str[p..][end - p..] == str[end..];
    assert str[p..][end - p + 3 - 3..] == str[end..];
    if end == p {
      return None;
    }
    if nsVal > MAX_NAMESPACE {
      return None;
    }
    if !StartsWith(str[end..], ";s=") {
      return None;
    }
    var identifier := str[end + 3..];
    if |identifier| == 0 {
      return None;
    }
    assert str[p..][end - p + 3..] == identifier;
    return Some(StringId(nsVal, identifier));
  }

  // ---------------------------------------------------------------- properties

  /** The text form accepted: digits of a 16-bit number and a non-empty identifier. */
  predicate HasForm(s: string, digits: string, identifier: string) {
    && s == "ns=" + digits + ";s=" + identifier
    && digits != "" && AllDigits(digits) && Value(digits) <= 65535
    && identifier != ""
  }

  lemma ParseForm(s: string, digits: string, identifier: string)
    requires HasForm(s, digits, identifier)
    ensures Parse(s) == Some(StringId(Value(digits), identifier))
  {
    var rest := digits + ";s=" + identifier;
    assert s[..3] == "ns=" && s[3..] == rest;
    assert rest[..|digits|] == digits;
    DigitCountIs(rest, |digits|);
    assert rest[|digits|..][..3] == ";s=";
    assert rest[|digits| + 3..] == identifier;
  }

  lemma PrefixAndRest(s: string, prefix: string)
    requires StartsWith(s, prefix)
    ensures s == prefix + s[|prefix|..]
  {
  }

  lemma AcceptedHasForm(s: string)
    requires Parse(s).Some?
    ensures exists digits, identifier :: HasForm(s, digits, identifier)
  {
    var rest := s[3..];
    var n := DigitCount(rest);
    var digits, identifier := rest[..n], rest[n + 3..];
    PrefixAndRest(s, "ns=");
    PrefixAndRest(rest[n..], ";s=");
    assert rest[n..][3..] == identifier;
    assert s == "ns=" + (digits + (";s=" + identifier)) == "ns=" + digits + ";s=" + identifier;
    assert HasForm(s, digits, identifier);
  }

  /** A string is accepted if and only if it has the text form, and then the result is its parts. */
  lemma AcceptedIffForm(s: string)
    ensures Parse(s).Some? <==> exists digits, identifier :: HasForm(s, digits, identifier)
  {
    if Parse(s).Some? {
      AcceptedHasForm(s);
    }
    if digits, identifier :| HasForm(s, digits, identifier) {
      ParseForm(s, digits, identifier);
    }
  }

  /** Parsing inverts printing, also for an identifier that itself contains ";s=". */
  lemma ParsePrint(id: StringId)
    requires id.ns <= MAX_NAMESPACE && id.identifier != ""
    ensures Parse(Print(id)) == Some(id)
  {
    ValueOfDecimal(id.ns);
    ParseForm(Print(id), Decimal(id.ns), id.identifier);
  }

  lemma PrintInjective(a: StringId, b: StringId)
    requires a.ns <= MAX_NAMESPACE && a.identifier != ""
    requires b.ns <= MAX_NAMESPACE && b.identifier != ""
    requires Print(a) == Print(b)
    ensures a == b
  {
    ParsePrint(a);
    ParsePrint(b);
  }

  /** The number is the decimal one, and the printed form has no leading zero. */
  lemma DecimalDigits(s: string, c: char, n: nat)
    requires AllDigits(s) && IsDigit(c)
    ensures AllDigits(s + [c]) && Value(s + [c]) == 10 * Value(s) + (c as int - '0' as int) && Value("") == 0
    ensures Print(StringId(n, s)) == "ns=" + Decimal(n) + ";s=" + s
    ensures Decimal(n)[0] == '0' <==> n == 0
  {
    assert (s + [c])[..|s|] == s;
    NoLeadingZero(n);
  }

  lemma {:induction false} NoLeadingZero(n: nat)
    ensures Decimal(n)[0] == '0' <==> n == 0
    decreases n
  {
    if n >= 10 {
      NoLeadingZero(n / 10);
    }
  }

  // ---------------------------------------------------------------- the builder's shortcut

  /** `strstr`: the first place where `pattern` occurs. */
  function StrStr(s: string, pattern: string): Option<nat> {
    if StartsWith(s, pattern) then Some(0)
    else if s == "" then None
    else match StrStr(s[1..], pattern) case None => None case Some(k) => Some(k + 1)
  }

  lemma {:induction false} StrStrSkips(skipped: string, c: char, more: string, pattern: string)
    requires pattern != "" && pattern[0] !in skipped && StartsWith([c] + more, pattern)
    ensures StrStr(skipped + [c] + more, pattern) == Some(|skipped|)
  {
    var s := skipped + [c] + more;
    if skipped == "" {
      assert s == [c] + more;
    } else {
      assert s[0] == skipped[0] && s[..|pattern|] != pattern;
      assert s[1..] == skipped[1..] + [c] + more;
      StrStrSkips(skipped[1..], c, more, pattern);
    }
  }

  /** Whenever the parser accepts, the text behind the first ";s=" is the identifier it found. */
  lemma StrStrAgrees(s: string)
    requires Parse(s).Some?
    ensures StrStr(s, ";s=").Some?
    ensures var k := StrStr(s, ";s=").value; k + 3 <= |s| && s[k + 3..] == Parse(s).value.identifier
  {
    AcceptedIffForm(s);
    var digits, identifier :| HasForm(s, digits, identifier);
    ParseForm(s, digits, identifier);
    StrStrOfForm(digits, identifier);
  }

  lemma StrStrOfForm(digits: string, identifier: string)
    requires AllDigits(digits)
    ensures var s := "ns=" + digits + ";s=" + identifier;
      StrStr(s, ";s=") == Some(3 + |digits|) && s[3 + |digits| + 3..] == identifier
  {
    var s, head, more := "ns=" + digits + ";s=" + identifier, "ns=" + digits, "s=" + identifier;
    assert s == head + [';'] + more;
    assert ([';'] + more)[..3] == ";s=";
    assert forall i | 0 <= i < |head| :: head[i] != ';';
    StrStrSkips(head, ';', more, ";s=");
  }
}
