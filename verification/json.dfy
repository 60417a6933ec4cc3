/** `JSON.stringify` and `JSON.parse` (RFC 8259) for the one shape the session token
    carries: an object whose members are scalars (null, booleans, integers, strings). */
module Json {
  import opened Wrappers
  import opened Text

  datatype Value = JNull | JBool(b: bool) | JNumber(n: int) | JString(s: string)

  /** An object member, in document order. */
  type Member = (string, Value)

  /** JavaScript's `ToBoolean`: `null`, `false`, `0` and `""` are falsy. */
  predicate Truthy(v: Value) {
    match v
    case JNull => false
    case JBool(b) => b
    case JNumber(n) => n != 0
    case JString(s) => |s| > 0
  }

  /** The value `JSON.parse` gives a property: the LAST member with that name. */
  function Lookup(ms: seq<Member>, key: string): (r: Option<Value>)
    ensures r.None? <==> forall i :: 0 <= i < |ms| ==> ms[i].0 != key
    ensures r.Some? ==> exists i :: 0 <= i < |ms| && ms[i] == (key, r.value)
                          && forall j :: i < j < |ms| ==> ms[j].0 != key
  {
    if |ms| == 0 then None
    else if ms[|ms| - 1].0 == key then Some(ms[|ms| - 1].1)
    else Lookup(ms[..|ms| - 1], key)
  }

  // ---------------------------------------------------------------------------
  // Writing
  // ---------------------------------------------------------------------------

  predicate IsDigit(c: char) {
    '0' <= c <= '9'
  }

  function DigitChar(d: int): (c: char)
    requires 0 <= d < 10
    ensures IsDigit(c) && c as int - '0' as int == d
  {
    ('0' as int + d) as char
  }

  /** Lower-case hexadecimal digit, as `JSON.stringify` writes in `\u00XX`. */
  function HexDigit(d: int): (c: char)
    requires 0 <= d < 16
  {
    if d < 10 then ('0' as int + d) as char else ('a' as int + d - 10) as char
  }

  /** The escape `JSON.stringify` writes for one character: the two-character forms
      for `"`, `\` and the five named controls, `\u00XX` for the other controls below
      U+0020, and the character itself otherwise. */
  function EscapeChar(c: char): (r: string)
    ensures |r| > 0
    ensures r[0] != '"'
    ensures c as int <= 0xFF <==> IsLatin1(r)
  {
    if c == '"' then "\\\""
    else if c == '\\' then "\\\\"
    else if c as int == 8 then "\\b"
    else if c as int == 12 then "\\f"
    else if c == '\n' then "\\n"
    else if c == '\r' then "\\r"
    else if c == '\t' then "\\t"
    else if c as int < 0x20 then "\\u00" + [HexDigit(c as int / 16), HexDigit(c as int % 16)]
    else [c]
  }

  function Escape(s: string): (r: string)
    ensures IsLatin1(s) <==> IsLatin1(r)
  {
    if |s| == 0 then ""
    else
      var r := EscapeChar(s[0]) + Escape(s[1..]);
      Latin1Concat(EscapeChar(s[0]), Escape(s[1..]));
      Latin1Concat([s[0]], s[1..]);
      assert [s[0]] + s[1..] == s;
      r
  }

  function Quote(s: string): string {
    "\"" + Escape(s) + "\""
  }

  /** Decimal digits of a natural number, without leading zeros. */
  function Digits(n: nat): (r: string)
    ensures |r| > 0
    ensures forall i :: 0 <= i < |r| ==> IsDigit(r[i])
    ensures n > 0 ==> r[0] != '0'
  {
    if n < 10 then [DigitChar(n)] else Digits(n / 10) + [DigitChar(n % 10)]
  }

  /** `JSON.stringify` of an integral number. */
  function Decimal(n: int): string {
    if n < 0 then "-" + Digits(-n) else Digits(n)
  }

  function WriteValue(v: Value): (r: string)
    ensures |r| > 0
  {
    match v
    case JNull => "null"
    case JBool(b) => if b then "true" else "false"
    case JNumber(n) => Decimal(n)
    case JString(s) => Quote(s)
  }

  function WriteMember(m: Member): (r: string)
    ensures |r| > 0 && r[0] == '"'
  {
    Quote(m.0) + ":" + WriteValue(m.1)
  }

  function WriteMembers(ms: seq<Member>): (r: string)
    ensures |ms| > 0 ==> |r| > 0 && r[0] == '"'
  {
    if |ms| == 0 then ""
    else if |ms| == 1 then WriteMember(ms[0])
    else WriteMember(ms[0]) + "," + WriteMembers(ms[1..])
  }

  /** `JSON.stringify` of an object: no whitespace, members in insertion order. */
  function WriteObject(ms: seq<Member>): string {
    "{" + WriteMembers(ms) + "}"
  }

  // ---------------------------------------------------------------------------
  // Parsing
  // ---------------------------------------------------------------------------

  /** The four whitespace characters RFC 8259 allows between tokens. */
  predicate IsWhitespace(c: char) {
    c == ' ' || c == '\t' || c == '\n' || c == '\r'
  }

  function SkipWhitespace(s: string): (r: string)
    ensures |r| <= |s| && r == s[|s| - |r|..]
    ensures |r| > 0 ==> !IsWhitespace(r[0])
  {
    if |s| > 0 && IsWhitespace(s[0]) then SkipWhitespace(s[1..]) else s
  }

  function HexValue(c: char): Option<int> {
    if '0' <= c <= '9' then Some(c as int - '0' as int)
    else if 'a' <= c <= 'f' then Some(c as int - 'a' as int + 10)
    else if 'A' <= c <= 'F' then Some(c as int - 'A' as int + 10)
    else None
  }

  /** Four hexadecimal digits: one UTF-16 code unit. */
  function ParseHex4(s: string): (r: Option<int>)
    ensures r.Some? ==> |s| >= 4 && 0 <= r.value < 0x10000
  {
    if |s| < 4 then None
    else
      var h0 :- HexValue(s[0]);
      var h1 :- HexValue(s[1]);
      var h2 :- HexValue(s[2]);
      var h3 :- HexValue(s[3]);
      if 0 <= h0 < 16 && 0 <= h1 < 16 && 0 <= h2 < 16 && 0 <= h3 < 16
      then Some(h0 * 4096 + h1 * 256 + h2 * 16 + h3)
      else None
  }

  predicate IsHighSurrogate(u: int) {
    0xD800 <= u <= 0xDBFF
  }

  predicate IsLowSurrogate(u: int) {
    0xDC00 <= u <= 0xDFFF
  }

  /** The rest of a `\uXXXX` escape, `s` starting after the `u`. A surrogate pair
      written as two escapes makes one character; a lone surrogate has no
      character of its own here and is refused. */
  function ParseUnicodeEscape(s: string): (r: Option<(char, string)>)
    ensures r.Some? ==> |r.value.1| < |s|
  {
    var u :- ParseHex4(s);
    if !IsHighSurrogate(u) && !IsLowSurrogate(u) then Some((u as char, s[4..]))
    else if IsHighSurrogate(u) && |s| >= 10 && s[4] == '\\' && s[5] == 'u' then
      var l :- ParseHex4(s[6..]);
      if IsLowSurrogate(l) then Some(((0x10000 + (u - 0xD800) * 0x400 + (l - 0xDC00)) as char, s[10..]))
      else None
    else None
  }

  /** The character of an escape, `s` starting after the backslash. */
  function ParseEscape(s: string): (r: Option<(char, string)>)
    ensures r.Some? ==> |r.value.1| < |s|
  {
    if |s| == 0 then None
    else if s[0] == '"' || s[0] == '\\' || s[0] == '/' then Some((s[0], s[1..]))
    else if s[0] == 'b' then Some((8 as char, s[1..]))
    else if s[0] == 'f' then Some((12 as char, s[1..]))
    else if s[0] == 'n' then Some(('\n', s[1..]))
    else if s[0] == 'r' then Some(('\r', s[1..]))
    else if s[0] == 't' then Some(('\t', s[1..]))
    else if s[0] == 'u' then ParseUnicodeEscape(s[1..])
    else None
  }

  /** One character of string content: an escape, or any character except the
      closing quote and the raw controls below U+0020. */
  function ParseChar(s: string): (r: Option<(char, string)>)
    requires |s| > 0 && s[0] != '"'
    ensures r.Some? ==> |r.value.1| < |s|
  {
    if s[0] == '\\' then ParseEscape(s[1..])
    else if s[0] as int < 0x20 then None
    else Some((s[0], s[1..]))
  }

  /** String content up to and including the closing quote, `s` starting after the
      opening quote. */
  function ParseStringBody(s: string): (r: Option<(string, string)>)
    ensures r.Some? ==> |r.value.1| < |s|
    decreases |s|
  {
    if |s| == 0 then None
    else if s[0] == '"' then Some(("", s[1..]))
    else
      var (c, rest) :- ParseChar(s);
      var (tail, rest') :- ParseStringBody(rest);
      Some(([c] + tail, rest'))
  }

  function DigitPrefixLength(s: string): (n: nat)
    ensures n <= |s|
    ensures forall i :: 0 <= i < n ==> IsDigit(s[i])
    ensures n < |s| ==> !IsDigit(s[n])
  {
    if |s| > 0 && IsDigit(s[0]) then 1 + DigitPrefixLength(s[1..]) else 0
  }

  function DigitsValue(ds: string): (n: nat)
    requires forall i :: 0 <= i < |ds| ==> IsDigit(ds[i])
  {
    if |ds| == 0 then 0
    else
      var last := ds[|ds| - 1];
      assert IsDigit(last);
      DigitsValue(ds[..|ds| - 1]) * 10 + (last as int - '0' as int)
  }

  /** An integer: optional minus, then `0` or digits without a leading zero. A
      fraction or exponent, which `JSON.parse` would read as a floating-point
      number, is refused here. */
  function ParseNumber(s: string): (r: Option<(int, string)>)
    ensures r.Some? ==> |r.value.1| < |s|
  {
    var neg := |s| > 0 && s[0] == '-';
    var body := if neg then s[1..] else s;
    var k := DigitPrefixLength(body);
    if k == 0 || (k > 1 && body[0] == '0') then None
    else
      var rest := body[k..];
      if |rest| > 0 && (rest[0] == '.' || rest[0] == 'e' || rest[0] == 'E') then None
      else
        var v: int := DigitsValue(body[..k]);
        Some((if neg then -v else v, rest))
  }

  /** A member value. Arrays and nested objects are refused here. */
  function ParseScalar(s: string): (r: Option<(Value, string)>)
    ensures r.Some? ==> |r.value.1| < |s|
  {
    if |s| == 0 then None
    else if s[0] == '"' then
      var (str, rest) :- ParseStringBody(s[1..]);
      Some((JString(str), rest))
    else if s[0] == '-' || IsDigit(s[0]) then
      var (n, rest) :- ParseNumber(s);
      Some((JNumber(n), rest))
    else if |s| >= 4 && s[..4] == "true" then Some((JBool(true), s[4..]))
    else if |s| >= 5 && s[..5] == "false" then Some((JBool(false), s[5..]))
    else if |s| >= 4 && s[..4] == "null" then Some((JNull, s[4..]))
    else None
  }

  /** `"name" : value`, `s` starting at the opening quote of the name. */
  function ParseMember(s: string): (r: Option<(Member, string)>)
    ensures r.Some? ==> |r.value.1| < |s|
  {
    if |s| == 0 || s[0] != '"' then None
    else
      var (key, r1) :- ParseStringBody(s[1..]);
      var r2 := SkipWhitespace(r1);
      if |r2| == 0 || r2[0] != ':' then None
      else
        var (v, r3) :- ParseScalar(SkipWhitespace(r2[1..]));
        Some(((key, v), r3))
  }

  /** One or more members separated by commas and closed by `}`. */
  function ParseMembers(s: string): (r: Option<(seq<Member>, string)>)
    ensures r.Some? ==> |r.value.0| > 0 && |r.value.1| < |s|
    decreases |s|
  {
    var (m, rest) :- ParseMember(s);
    var r := SkipWhitespace(rest);
    if |r| > 0 && r[0] == ',' then
      var (ms, rest') :- ParseMembers(SkipWhitespace(r[1..]));
      Some(([m] + ms, rest'))
    else if |r| > 0 && r[0] == '}' then Some(([m], r[1..]))
    else None
  }

  /** The inside of an object, `s` starting after `{` and any whitespace: either
      `}` at once or one or more members. */
  function ParseObjectBody(s: string): (r: Option<(seq<Member>, string)>)
    ensures r.Some? ==> |r.value.1| < |s|
  {
    if |s| > 0 && s[0] == '}' then Some(([], s[1..])) else ParseMembers(s)
  }

  /** A whole JSON text that is an object, surrounded by optional whitespace. */
  function ParseObject(text: string): Option<seq<Member>> {
    var t := SkipWhitespace(text);
    if |t| == 0 || t[0] != '{' then None
    else
      var (ms, rest) :- ParseObjectBody(SkipWhitespace(t[1..]));
      if SkipWhitespace(rest) == "" then Some(ms) else None
  }

  // ---------------------------------------------------------------------------
  // Round trip: JSON.parse(JSON.stringify(o)) has the members of o
  // ---------------------------------------------------------------------------

  /** The two-character escapes of `"`, `\\` and the five named controls. */
  lemma ShortEscapeRoundTrip(c: char, tail: string)
    requires c == '"' || c == '\\' || c as int == 8 || c as int == 12 || c == '\n' || c == '\r' || c == '\t'
    ensures var t := EscapeChar(c) + tail; |t| > 0 && t[0] != '"' && ParseChar(t) == Some((c, tail))
  {
    var e := EscapeChar(c);
    var t := e + tail;
    assert |e| == 2 && e[0] == '\\';
    assert t[1..] == [e[1]] + tail;
    assert t[1..][1..] == tail;
  }

  /** The `\u00XX` escape of the other controls below U+0020. */
  lemma ControlEscapeRoundTrip(c: char, tail: string)
    requires c as int < 0x20 && c != '\n' && c != '\r' && c != '\t' && c as int != 8 && c as int != 12
    ensures var t := EscapeChar(c) + tail; |t| > 0 && t[0] != '"' && ParseChar(t) == Some((c, tail))
  {
    var t := EscapeChar(c) + tail;
    var d := c as int;
    var e := ['u', '0', '0', HexDigit(d / 16), HexDigit(d % 16)] + tail;
    assert t == ['\\'] + e;
    assert t[1..] == e;
    assert e[1..][..4] == ['0', '0', HexDigit(d / 16), HexDigit(d % 16)];
    assert ParseHex4(e[1..]) == Some(d);
    assert e[1..][4..] == tail;
  }

  lemma {:induction false} EscapeCharRoundTrip(c: char, tail: string)
    ensures var t := EscapeChar(c) + tail; |t| > 0 && t[0] != '"' && ParseChar(t) == Some((c, tail))
  {
    if c == '"' || c == '\\' || c as int == 8 || c as int == 12 || c == '\n' || c == '\r' || c == '\t' {
      ShortEscapeRoundTrip(c, tail);
    } else if c as int < 0x20 {
      ControlEscapeRoundTrip(c, tail);
    } else {
      var t := EscapeChar(c) + tail;
      assert t == [c] + tail;
      assert t[1..] == tail;
    }
  }

  /** `ParseStringBody` of one content character followed by more string content. */
  lemma ParseStringBodyStep(s: string, c: char, rest: string, tail: string, rest': string)
    requires |s| > 0 && s[0] != '"'
    requires ParseChar(s) == Some((c, rest))
    requires ParseStringBody(rest) == Some((tail, rest'))
    ensures ParseStringBody(s) == Some(([c] + tail, rest'))
  {
  }

  /** The escaped text of a string, then the closing quote and what follows, starts
      with the escape of its first character. */
  lemma EscapeFirst(s: string, rest: string)
    requires |s| > 0
    ensures Escape(s) + "\"" + rest == EscapeChar(s[0]) + (Escape(s[1..]) + "\"" + rest)
  {
    var a, b := EscapeChar(s[0]), Escape(s[1..]);
    EscapeCons(s);
    Regroup3(a, b, "\"", rest);
  }

  lemma EscapeCons(s: string)
    requires |s| > 0
    ensures Escape(s) == EscapeChar(s[0]) + Escape(s[1..])
  {
  }

  lemma Regroup2(a: string, b: string, c: string)
    ensures a + b + c == a + (b + c)
  {
  }

  lemma Regroup3(a: string, b: string, c: string, d: string)
    ensures a + b + c + d == a + (b + c + d)
  {
  }

  lemma {:induction false} StringRoundTrip(s: string, rest: string)
    ensures ParseStringBody(Escape(s) + "\"" + rest) == Some((s, rest))
    decreases |s|
  {
    if |s| > 0 {
      var t := Escape(s[1..]) + "\"" + rest;
      var u := Escape(s) + "\"" + rest;
      EscapeCharRoundTrip(s[0], t);
      EscapeFirst(s, rest);
      StringRoundTrip(s[1..], rest);
      ParseStringBodyStep(u, s[0], t, s[1..], rest);
      assert [s[0]] + s[1..] == s;
    } else {
      assert Escape(s) + "\"" + rest == "\"" + rest;
    }
  }

  lemma {:induction false} DigitPrefixOfDigits(ds: string, rest: string)
    requires forall i :: 0 <= i < |ds| ==> IsDigit(ds[i])
    requires |rest| == 0 || !IsDigit(rest[0])
    ensures DigitPrefixLength(ds + rest) == |ds|
    decreases |ds|
  {
    if |ds| > 0 {
      DigitPrefixOfDigits(ds[1..], rest);
      assert (ds + rest)[1..] == ds[1..] + rest;
    } else {
      assert ds + rest == rest;
    }
  }

  lemma {:induction false} DigitsValueOfDigits(n: nat)
    ensures DigitsValue(Digits(n)) == n
  {
    var ds := Digits(n);
    if n >= 10 {
      DigitsValueOfDigits(n / 10);
      assert ds[..|ds| - 1] == Digits(n / 10);
    }
  }

  /** A written number is read back, whatever follows it, as long as that does not
      continue the number. */
  lemma {:induction false} NumberRoundTrip(n: int, rest: string)
    requires |rest| == 0 || !(IsDigit(rest[0]) || rest[0] == '.' || rest[0] == 'e' || rest[0] == 'E')
    ensures ParseNumber(Decimal(n) + rest) == Some((n, rest))
  {
    if n < 0 {
      var ds := Digits(-n);
      NegativeRoundTrip(-n, rest);
      assert Decimal(n) == "-" + ds;
      Regroup2("-", ds, rest);
    } else {
      NaturalRoundTrip(n, rest);
    }
  }

  lemma NaturalRoundTrip(m: nat, rest: string)
    requires |rest| == 0 || !(IsDigit(rest[0]) || rest[0] == '.' || rest[0] == 'e' || rest[0] == 'E')
    ensures ParseNumber(Digits(m) + rest) == Some((m, rest))
  {
    var body := Digits(m) + rest;
    DigitsBody(m, rest);
    assert body[0] == Digits(m)[0] != '-';
  }

  lemma NegativeRoundTrip(m: nat, rest: string)
    requires m > 0
    requires |rest| == 0 || !(IsDigit(rest[0]) || rest[0] == '.' || rest[0] == 'e' || rest[0] == 'E')
    ensures ParseNumber("-" + (Digits(m) + rest)) == Some((-(m as int), rest))
  {
    var body := Digits(m) + rest;
    var s := "-" + body;
    DigitsBody(m, rest);
    assert s[1..] == body;
  }

  /** The digits of `m`, followed by something that is not a digit, are read as
      exactly those digits and their value. */
  lemma {:induction false} DigitsBody(m: nat, rest: string)
    requires |rest| == 0 || !IsDigit(rest[0])
    ensures var ds := Digits(m); var body := ds + rest;
            && DigitPrefixLength(body) == |ds|
            && body[..|ds|] == ds && body[|ds|..] == rest
            && DigitsValue(ds) == m
  {
    var ds := Digits(m);
    DigitPrefixOfDigits(ds, rest);
    assert (ds + rest)[..|ds|] == ds;
    DigitsValueOfDigits(m);
  }

  lemma {:induction false} StringScalarRoundTrip(str: string, rest: string)
    ensures ParseScalar(Quote(str) + rest) == Some((JString(str), rest))
  {
    var s := Quote(str) + rest;
    assert s == "\"" + (Escape(str) + "\"" + rest);
    assert s[1..] == Escape(str) + "\"" + rest;
    StringRoundTrip(str, rest);
  }

  lemma {:induction false} NumberScalarRoundTrip(n: int, rest: string)
    requires |rest| > 0 && (rest[0] == ',' || rest[0] == '}')
    ensures ParseScalar(Decimal(n) + rest) == Some((JNumber(n), rest))
  {
    var s := Decimal(n) + rest;
    NumberRoundTrip(n, rest);
    if n >= 0 {
      assert s[0] == Digits(n)[0];
    }
  }

  lemma {:induction false} LiteralScalarRoundTrip(v: Value, rest: string)
    requires v.JNull? || v.JBool?
    ensures ParseScalar(WriteValue(v) + rest) == Some((v, rest))
  {
    var s := WriteValue(v) + rest;
    if v == JBool(false) {
      assert s[0] == 'f';
      assert s[..5] == "false" && s[5..] == rest;
    } else {
      assert s[..4] == WriteValue(v) && s[4..] == rest;
    }
  }

  /** A written value is read back when a comma or a closing brace follows it. */
  lemma {:induction false} ScalarRoundTrip(v: Value, rest: string)
    requires |rest| > 0 && (rest[0] == ',' || rest[0] == '}')
    ensures ParseScalar(WriteValue(v) + rest) == Some((v, rest))
  {
    match v
    case JNumber(n) => NumberScalarRoundTrip(n, rest);
    case JString(str) => StringScalarRoundTrip(str, rest);
    case _ => LiteralScalarRoundTrip(v, rest);
  }

  /** A written value never starts with whitespace. */
  lemma WriteValueStart(v: Value, rest: string)
    ensures var s := WriteValue(v) + rest; |s| > 0 && !IsWhitespace(s[0]) && SkipWhitespace(s) == s
  {
    var s := WriteValue(v) + rest;
    if v.JNumber? && v.n >= 0 {
      assert s[0] == Digits(v.n)[0];
    }
  }

  /** `ParseMember` of a quoted key, a colon and a value, put together from the
      results of its parts. */
  lemma ParseMemberOfParts(s: string, key: string, afterKey: string, v: Value, rest: string)
    requires |s| > 0 && s[0] == '"'
    requires ParseStringBody(s[1..]) == Some((key, afterKey))
    requires |afterKey| > 0 && afterKey[0] == ':'
    requires SkipWhitespace(afterKey[1..]) == afterKey[1..]
    requires ParseScalar(afterKey[1..]) == Some((v, rest))
    ensures ParseMember(s) == Some(((key, v), rest))
  {
    assert SkipWhitespace(afterKey) == afterKey;
  }

  /** The text of a member is a quote, the escaped key, a quote, a colon and the
      value. */
  lemma MemberText(m: Member, rest: string)
    ensures var s := WriteMember(m) + rest;
            s[0] == '"' && s[1..] == Escape(m.0) + "\"" + (":" + (WriteValue(m.1) + rest))
  {
  }

  lemma {:induction false} MemberRoundTrip(m: Member, rest: string)
    requires |rest| > 0 && (rest[0] == ',' || rest[0] == '}')
    ensures ParseMember(WriteMember(m) + rest) == Some((m, rest))
  {
    var s := WriteMember(m) + rest;
    var afterColon := WriteValue(m.1) + rest;
    var afterKey := ":" + afterColon;
    MemberText(m, rest);
    StringRoundTrip(m.0, afterKey);
    assert afterKey[1..] == afterColon;
    WriteValueStart(m.1, rest);
    ScalarRoundTrip(m.1, rest);
    ParseMemberOfParts(s, m.0, afterKey, m.1, rest);
  }

  /** `ParseMembers` after a member followed directly by the closing brace. */
  lemma ParseMembersLast(s: string, m: Member, rest: string)
    requires ParseMember(s) == Some((m, "}" + rest))
    ensures ParseMembers(s) == Some(([m], rest))
  {
    var closing := "}" + rest;
    assert SkipWhitespace(closing) == closing;
    assert closing[1..] == rest;
  }

  /** `ParseMembers` after a member followed directly by a comma. */
  lemma ParseMembersNext(s: string, m: Member, tail: string, ms: seq<Member>, rest: string)
    requires ParseMember(s) == Some((m, "," + tail))
    requires SkipWhitespace(tail) == tail
    requires ParseMembers(tail) == Some((ms, rest))
    ensures ParseMembers(s) == Some(([m] + ms, rest))
  {
    var comma := "," + tail;
    assert SkipWhitespace(comma) == comma;
    assert comma[1..] == tail;
  }

  lemma Regroup(a: string, b: string, c: string, d: string, e: string)
    ensures a + b + c + d + e == a + (b + (c + d + e))
  {
  }

  lemma SingleMemberRoundTrip(m: Member, rest: string)
    ensures ParseMembers(WriteMembers([m]) + "}" + rest) == Some(([m], rest))
  {
    var s := WriteMembers([m]) + "}" + rest;
    assert s == WriteMember(m) + ("}" + rest);
    MemberRoundTrip(m, "}" + rest);
    ParseMembersLast(s, m, rest);
  }

  /** The text of two or more members is the first member, a comma, and the rest. */
  lemma WriteMembersSplit(ms: seq<Member>, rest: string)
    requires |ms| > 1
    ensures var tail := WriteMembers(ms[1..]) + "}" + rest;
            && WriteMembers(ms) + "}" + rest == WriteMember(ms[0]) + ("," + tail)
            && SkipWhitespace(tail) == tail
  {
    var w := WriteMembers(ms[1..]);
    var tail := w + "}" + rest;
    assert WriteMembers(ms) == WriteMember(ms[0]) + "," + w;
    Regroup(WriteMember(ms[0]), ",", w, "}", rest);
    assert tail[0] == w[0] == '"';
    assert !IsWhitespace(tail[0]);
  }

  lemma MembersRoundTripStep(ms: seq<Member>, rest: string)
    requires |ms| > 1
    requires ParseMembers(WriteMembers(ms[1..]) + "}" + rest) == Some((ms[1..], rest))
    ensures ParseMembers(WriteMembers(ms) + "}" + rest) == Some((ms, rest))
  {
    var s := WriteMembers(ms) + "}" + rest;
    var tail := WriteMembers(ms[1..]) + "}" + rest;
    var comma := "," + tail;
    WriteMembersSplit(ms, rest);
    assert s == WriteMember(ms[0]) + comma;
    MemberRoundTrip(ms[0], comma);
    assert ParseMember(s) == Some((ms[0], comma));
    ParseMembersNext(s, ms[0], tail, ms[1..], rest);
    assert [ms[0]] + ms[1..] == ms;
  }

  lemma {:induction false} MembersRoundTrip(ms: seq<Member>, rest: string)
    requires |ms| > 0
    ensures ParseMembers(WriteMembers(ms) + "}" + rest) == Some((ms, rest))
    decreases |ms|
  {
    if |ms| == 1 {
      SingleMemberRoundTrip(ms[0], rest);
      assert [ms[0]] == ms;
    } else {
      MembersRoundTrip(ms[1..], rest);
      MembersRoundTripStep(ms, rest);
    }
  }

  /** `ParseObject` of an opening brace directly followed by the object's inside. */
  lemma ParseObjectOfBody(body: string, ms: seq<Member>)
    requires |body| > 0 && !IsWhitespace(body[0])
    requires ParseObjectBody(body) == Some((ms, ""))
    ensures ParseObject("{" + body) == Some(ms)
  {
    var text := "{" + body;
    assert SkipWhitespace(text) == text;
    assert text[1..] == body;
    assert SkipWhitespace(body) == body;
  }

  /** `JSON.parse(JSON.stringify(o))` has exactly the members of `o`, in order. */
  lemma ObjectRoundTrip(ms: seq<Member>)
    ensures ParseObject(WriteObject(ms)) == Some(ms)
  {
    var body := WriteMembers(ms) + "}";
    assert WriteObject(ms) == "{" + body;
    if |ms| == 0 {
      assert body == "}" && body[1..] == "";
    } else {
      assert body == WriteMembers(ms) + "}" + "";
      MembersRoundTrip(ms, "");
    }
    ParseObjectOfBody(body, ms);
  }

  // ---------------------------------------------------------------------------
  // Which texts `btoa` accepts
  // ---------------------------------------------------------------------------

  /** A member whose name, and whose value if it is a string, are Latin-1. */
  predicate MemberLatin1(m: Member) {
    IsLatin1(m.0) && (m.1.JString? ==> IsLatin1(m.1.s))
  }

  lemma {:induction false} DecimalLatin1(n: int)
    ensures IsLatin1(Decimal(n))
  {
    var ds := if n < 0 then Digits(-n) else Digits(n);
    assert IsLatin1(ds);
    if n < 0 {
      Latin1Concat("-", ds);
    }
  }

  lemma {:induction false} QuoteLatin1(s: string)
    ensures IsLatin1(Quote(s)) <==> IsLatin1(s)
  {
    Latin1Concat("\"" + Escape(s), "\"");
    Latin1Concat("\"", Escape(s));
  }

  lemma {:induction false} MemberLatin1Text(m: Member)
    ensures IsLatin1(WriteMember(m)) <==> MemberLatin1(m)
  {
    QuoteLatin1(m.0);
    Latin1Concat(Quote(m.0) + ":", WriteValue(m.1));
    Latin1Concat(Quote(m.0), ":");
    match m.1
    case JNull =>
    case JBool(b) =>
    case JNumber(n) => DecimalLatin1(n);
    case JString(str) => QuoteLatin1(str);
  }

  predicate AllMembersLatin1(ms: seq<Member>) {
    forall i :: 0 <= i < |ms| ==> MemberLatin1(ms[i])
  }

  lemma AllMembersLatin1Split(ms: seq<Member>)
    requires |ms| > 0
    ensures AllMembersLatin1(ms) <==> MemberLatin1(ms[0]) && AllMembersLatin1(ms[1..])
  {
    if MemberLatin1(ms[0]) && AllMembersLatin1(ms[1..]) {
      forall i | 0 <= i < |ms| ensures MemberLatin1(ms[i]) {
        if i > 0 {
          assert ms[i] == ms[1..][i - 1];
        }
      }
    }
  }

  /** The text of a member list is Latin-1 exactly when every member is. */
  lemma {:induction false} MembersLatin1Text(ms: seq<Member>)
    ensures IsLatin1(WriteMembers(ms)) <==> AllMembersLatin1(ms)
    decreases |ms|
  {
    if |ms| == 1 {
      MemberLatin1Text(ms[0]);
    } else if |ms| > 1 {
      var head, tail := WriteMember(ms[0]), WriteMembers(ms[1..]);
      assert WriteMembers(ms) == head + "," + tail;
      MemberLatin1Text(ms[0]);
      MembersLatin1Text(ms[1..]);
      Latin1Concat(head + ",", tail);
      Latin1Concat(head, ",");
      AllMembersLatin1Split(ms);
    }
  }

  /** `btoa(JSON.stringify(o))` succeeds exactly when every member name and string
      value of `o` is Latin-1. */
  lemma {:induction false} ObjectLatin1Text(ms: seq<Member>)
    ensures IsLatin1(WriteObject(ms)) <==> AllMembersLatin1(ms)
  {
    MembersLatin1Text(ms);
    Latin1Concat("{" + WriteMembers(ms), "}");
    Latin1Concat("{", WriteMembers(ms));
  }
}
