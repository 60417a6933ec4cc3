/** The browser's `btoa` and `atob`: base64 per section 4 of RFC 4648 with `=` padding
    on the encoding side, and the WHATWG "forgiving-base64 decode" on the decoding
    side. Both work on strings whose characters stand for single bytes. */
module Base64 {
  import opened Wrappers
  import opened Text

  /** A character of the base64 alphabet (padding excluded). */
  predicate IsAlphabetChar(c: char) {
    'A' <= c <= 'Z' || 'a' <= c <= 'z' || '0' <= c <= '9' || c == '+' || c == '/'
  }

  predicate IsAlphabet(s: string) {
    forall i :: 0 <= i < |s| ==> IsAlphabetChar(s[i])
  }

  /** The six-bit value of an alphabet character. */
  function CharValue(c: char): (v: int)
    requires IsAlphabetChar(c)
    ensures 0 <= v < 64
  {
    if 'A' <= c <= 'Z' then c as int - 'A' as int
    else if 'a' <= c <= 'z' then c as int - 'a' as int + 26
    else if '0' <= c <= '9' then c as int - '0' as int + 52
    else if c == '+' then 62
    else 63
  }

  /** The alphabet character of a six-bit value; `CharValue` undoes it. */
  function ValueChar(v: int): (c: char)
    requires 0 <= v < 64
    ensures IsAlphabetChar(c) && CharValue(c) == v
  {
    if v < 26 then ('A' as int + v) as char
    else if v < 52 then ('a' as int + v - 26) as char
    else if v < 62 then ('0' as int + v - 52) as char
    else if v == 62 then '+'
    else '/'
  }

  /** The byte a decoded value stands for. */
  function ByteChar(b: int): (c: char)
    requires 0 <= b < 256
    ensures c as int == b
  {
    b as char
  }

  /** Division by 16 is unique; the sextet round trips rest on this and on `DivBy4`. */
  lemma DivBy16(q: int, r: int)
    requires 0 <= r < 16
    ensures (q * 16 + r) / 16 == q && (q * 16 + r) % 16 == r
  {
  }

  lemma DivBy4(q: int, r: int)
    requires 0 <= r < 4
    ensures (q * 4 + r) / 4 == q && (q * 4 + r) % 4 == r
  {
  }

  /** The four characters encoding three bytes. */
  function EncodeTriple(b0: int, b1: int, b2: int): (r: string)
    requires 0 <= b0 < 256 && 0 <= b1 < 256 && 0 <= b2 < 256
    ensures |r| == 4 && IsAlphabet(r)
  {
    [ValueChar(b0 / 4), ValueChar((b0 % 4) * 16 + b1 / 16),
     ValueChar((b1 % 16) * 4 + b2 / 64), ValueChar(b2 % 64)]
  }

  /** The three bytes carried by four alphabet characters. */
  function DecodeQuad(c0: int, c1: int, c2: int, c3: int): (r: string)
    requires 0 <= c0 < 64 && 0 <= c1 < 64 && 0 <= c2 < 64 && 0 <= c3 < 64
    ensures |r| == 3 && IsLatin1(r)
  {
    [ByteChar(c0 * 4 + c1 / 16), ByteChar((c1 % 16) * 16 + c2 / 4), ByteChar((c2 % 4) * 64 + c3)]
  }

  /** Three bytes survive the trip through four sextets. */
  lemma {:induction false} TripleRoundTrip(b0: int, b1: int, b2: int)
    requires 0 <= b0 < 256 && 0 <= b1 < 256 && 0 <= b2 < 256
    ensures var e := EncodeTriple(b0, b1, b2);
            DecodeQuad(CharValue(e[0]), CharValue(e[1]), CharValue(e[2]), CharValue(e[3]))
              == [b0 as char, b1 as char, b2 as char]
  {
    DivBy16(b0 % 4, b1 / 16);
    DivBy4(b1 % 16, b2 / 64);
  }

  /** Unpadded base64 of a Latin-1 string: four characters per three bytes, and two
      or three characters for a trailing one or two bytes. */
  function EncodeUnpadded(s: string): (r: string)
    requires IsLatin1(s)
    ensures IsAlphabet(r)
    ensures |r| == 4 * (|s| / 3) + (if |s| % 3 == 0 then 0 else |s| % 3 + 1)
    decreases |s|
  {
    if |s| >= 3 then
      EncodeTriple(s[0] as int, s[1] as int, s[2] as int) + EncodeUnpadded(s[3..])
    else if |s| == 2 then
      var b0, b1 := s[0] as int, s[1] as int;
      [ValueChar(b0 / 4), ValueChar((b0 % 4) * 16 + b1 / 16), ValueChar((b1 % 16) * 4)]
    else if |s| == 1 then
      var b0 := s[0] as int;
      [ValueChar(b0 / 4), ValueChar((b0 % 4) * 16)]
    else
      []
  }

  /** The `=` characters that bring an encoding of `n` bytes to a multiple of four. */
  function Padding(n: nat): string {
    if n % 3 == 1 then "==" else if n % 3 == 2 then "=" else ""
  }

  /** `btoa`: fails (throws `InvalidCharacterError`) on any character above U+00FF. */
  function Btoa(s: string): (r: Option<string>)
    ensures r.Some? <==> IsLatin1(s)
    ensures r.Some? ==> |r.value| % 4 == 0 && IsLatin1(r.value)
    ensures r.Some? ==> (|r.value| == 0 <==> |s| == 0)
  {
    if IsLatin1(s) then
      var e, p := EncodeUnpadded(s), Padding(|s|);
      assert IsLatin1(e);
      assert IsLatin1(p);
      Latin1Concat(e, p);
      PaddedLength(|s|);
      Some(e + p)
    else None
  }

  /** Padding brings the unpadded length of `n` bytes to a multiple of four, and
      only nothing encodes to nothing. */
  lemma PaddedLength(n: nat)
    ensures var k := 4 * (n / 3) + (if n % 3 == 0 then 0 else n % 3 + 1) + |Padding(n)|;
            k % 4 == 0 && (k == 0 <==> n == 0)
  {
  }

  /** The whitespace the forgiving decoder skips: TAB, LF, FF, CR and SPACE. */
  predicate IsAsciiWhitespace(c: char) {
    c == '\t' || c == '\n' || c == 12 as char || c == '\r' || c == ' '
  }

  /** `s` with its ASCII whitespace dropped and every other character kept, in
      order. With `RemoveWhitespaceConcat`, the one-character cases below determine
      it on every string. */
  function RemoveWhitespace(s: string): (r: string)
    ensures |r| <= |s|
    ensures forall i :: 0 <= i < |r| ==> !IsAsciiWhitespace(r[i])
    ensures |s| == 0 ==> r == []
    ensures |s| == 1 ==> r == (if IsAsciiWhitespace(s[0]) then [] else s)
  {
    if |s| == 0 then []
    else if IsAsciiWhitespace(s[0]) then RemoveWhitespace(s[1..])
    else [s[0]] + RemoveWhitespace(s[1..])
  }

  /** Dropping whitespace works piece by piece: the result for a concatenation is
      the concatenation of the results. */
  lemma {:induction false} RemoveWhitespaceConcat(a: string, b: string)
    ensures RemoveWhitespace(a + b) == RemoveWhitespace(a) + RemoveWhitespace(b)
  {
    if |a| > 0 {
      assert (a + b)[0] == a[0];
      assert (a + b)[1..] == a[1..] + b;
      RemoveWhitespaceConcat(a[1..], b);
    } else {
      assert a + b == b;
    }
  }

  /** Step 2 of the forgiving decoder: a length divisible by four loses one or two
      trailing `=`. */
  function RemovePadding(s: string): string {
    if |s| % 4 == 0 && |s| >= 2 && s[|s| - 2] == '=' && s[|s| - 1] == '=' then s[..|s| - 2]
    else if |s| % 4 == 0 && |s| >= 1 && s[|s| - 1] == '=' then s[..|s| - 1]
    else s
  }

  /** Decoding of unpadded alphabet text; the bits left over after the last whole
      byte are discarded, as the forgiving decoder does. */
  function DecodeUnpadded(d: string): (r: string)
    requires IsAlphabet(d)
    ensures IsLatin1(r)
    decreases |d|
  {
    if |d| >= 4 then
      DecodeQuad(CharValue(d[0]), CharValue(d[1]), CharValue(d[2]), CharValue(d[3]))
      + DecodeUnpadded(d[4..])
    else if |d| == 3 then
      var c0, c1, c2 := CharValue(d[0]), CharValue(d[1]), CharValue(d[2]);
      [ByteChar(c0 * 4 + c1 / 16), ByteChar((c1 % 16) * 16 + c2 / 4)]
    else if |d| == 2 then
      var c0, c1 := CharValue(d[0]), CharValue(d[1]);
      [ByteChar(c0 * 4 + c1 / 16)]
    else
      []
  }

  /** `atob`: fails (throws `InvalidCharacterError`) when, after whitespace removal
      and the removal of padding from a length divisible by four, the length leaves
      remainder 1 modulo 4 or a non-alphabet character remains. */
  function Atob(s: string): (r: Option<string>)
    ensures r.Some? <==> var d := RemovePadding(RemoveWhitespace(s)); |d| % 4 != 1 && IsAlphabet(d)
    ensures r.Some? ==> IsLatin1(r.value)
  {
    var d := RemovePadding(RemoveWhitespace(s));
    if |d| % 4 == 1 || !IsAlphabet(d) then None else Some(DecodeUnpadded(d))
  }

  lemma {:induction false} DecodeEncode(s: string)
    requires IsLatin1(s)
    ensures DecodeUnpadded(EncodeUnpadded(s)) == s
    decreases |s|
  {
    if |s| >= 3 {
      DecodeEncode(s[3..]);
      DecodeEncodeStep(s);
    } else if |s| == 2 {
      DecodeEncodeTwo(s);
    } else if |s| == 1 {
      DecodeEncodeOne(s);
    }
  }

  /** The first three bytes encode to four characters that decode back to them,
      in front of the encoding of the rest. */
  lemma {:induction false} DecodeEncodeStep(s: string)
    requires IsLatin1(s) && |s| >= 3
    requires DecodeUnpadded(EncodeUnpadded(s[3..])) == s[3..]
    ensures DecodeUnpadded(EncodeUnpadded(s)) == s
  {
    var b0, b1, b2 := s[0] as int, s[1] as int, s[2] as int;
    var q := EncodeTriple(b0, b1, b2);
    var tail := EncodeUnpadded(s[3..]);
    EncodeCons(s);
    DecodeConcat(q, tail);
    TripleRoundTrip(b0, b1, b2);
    assert s == [s[0], s[1], s[2]] + s[3..];
  }

  /** Encoding takes three bytes at a time. */
  lemma {:induction false} EncodeCons(s: string)
    requires IsLatin1(s) && |s| >= 3
    ensures EncodeUnpadded(s) == EncodeTriple(s[0] as int, s[1] as int, s[2] as int) + EncodeUnpadded(s[3..])
  {
  }

  /** Decoding takes four characters at a time. */
  lemma {:induction false} DecodeConcat(q: string, tail: string)
    requires |q| == 4 && IsAlphabet(q) && IsAlphabet(tail)
    ensures IsAlphabet(q + tail)
    ensures DecodeUnpadded(q + tail)
            == DecodeQuad(CharValue(q[0]), CharValue(q[1]), CharValue(q[2]), CharValue(q[3])) + DecodeUnpadded(tail)
  {
    var d := q + tail;
    assert IsAlphabet(d) by {
      forall i | 0 <= i < |d|
        ensures IsAlphabetChar(d[i])
      {
        if i >= 4 {
          assert d[i] == tail[i - 4];
        }
      }
    }
    assert d[4..] == tail;
    assert d[0] == q[0] && d[1] == q[1] && d[2] == q[2] && d[3] == q[3];
  }

  lemma {:induction false} DecodeEncodeTwo(s: string)
    requires IsLatin1(s) && |s| == 2
    ensures DecodeUnpadded(EncodeUnpadded(s)) == s
  {
    var b0, b1 := s[0] as int, s[1] as int;
    var v0, v1, v2 := b0 / 4, (b0 % 4) * 16 + b1 / 16, (b1 % 16) * 4;
    var e := EncodeUnpadded(s);
    assert e == [ValueChar(v0), ValueChar(v1), ValueChar(v2)];
    DivBy16(b0 % 4, b1 / 16);
    DivBy4(b1 % 16, 0);
    assert v0 * 4 + v1 / 16 == b0;
    assert (v1 % 16) * 16 + v2 / 4 == b1;
    var d := DecodeUnpadded(e);
    assert d == [ByteChar(v0 * 4 + v1 / 16), ByteChar((v1 % 16) * 16 + v2 / 4)];
    assert d == [s[0], s[1]];
  }

  lemma {:induction false} DecodeEncodeOne(s: string)
    requires IsLatin1(s) && |s| == 1
    ensures DecodeUnpadded(EncodeUnpadded(s)) == s
  {
    var b0 := s[0] as int;
    var v0, v1 := b0 / 4, (b0 % 4) * 16;
    var e := EncodeUnpadded(s);
    assert e == [ValueChar(v0), ValueChar(v1)];
    DivBy16(b0 % 4, 0);
    assert v0 * 4 + v1 / 16 == b0;
    var d := DecodeUnpadded(e);
    assert d == [ByteChar(v0 * 4 + v1 / 16)];
    assert d == [s[0]];
  }

  lemma {:induction false} RemoveWhitespaceOfAlphabet(s: string)
    requires forall i :: 0 <= i < |s| ==> IsAlphabetChar(s[i]) || s[i] == '='
    ensures RemoveWhitespace(s) == s
    decreases |s|
  {
    if |s| > 0 {
      RemoveWhitespaceOfAlphabet(s[1..]);
      assert s == [s[0]] + s[1..];
    }
  }

  /** The padding `btoa` appends is exactly what the forgiving decoder removes. */
  lemma {:induction false} RemovePaddingOfEncoding(s: string)
    requires IsLatin1(s)
    ensures RemovePadding(EncodeUnpadded(s) + Padding(|s|)) == EncodeUnpadded(s)
  {
    var e := EncodeUnpadded(s);
    var p := Padding(|s|);
    var t := e + p;
    PaddedLength(|s|);
    assert |t| % 4 == 0;
    if |s| % 3 == 1 {
      assert p == "==";
      assert t[|t| - 2] == '=' && t[|t| - 1] == '=';
      assert t[..|t| - 2] == e;
    } else if |s| % 3 == 2 {
      assert p == "=";
      assert t[|t| - 2] == e[|e| - 1] && IsAlphabetChar(e[|e| - 1]);
      assert t[..|t| - 1] == e;
    } else {
      assert p == "" && t == e;
      assert |e| > 0 ==> IsAlphabetChar(e[|e| - 1]);
    }
  }

  /** `atob(btoa(s)) == s` for every string `btoa` accepts. */
  lemma AtobBtoa(s: string)
    requires IsLatin1(s)
    ensures Btoa(s).Some? && Atob(Btoa(s).value) == Some(s)
  {
    var e := EncodeUnpadded(s);
    var t := e + Padding(|s|);
    assert Btoa(s).value == t;
    assert forall i :: 0 <= i < |t| ==> IsAlphabetChar(t[i]) || t[i] == '=' by {
      forall i | 0 <= i < |t|
        ensures IsAlphabetChar(t[i]) || t[i] == '='
      {
        if i < |e| {
          assert t[i] == e[i];
        }
      }
    }
    RemoveWhitespaceOfAlphabet(t);
    RemovePaddingOfEncoding(s);
    var k := if |s| % 3 == 0 then 0 else |s| % 3 + 1;
    assert |e| == (|s| / 3) * 4 + k;
    DivBy4(|s| / 3, k);
    DecodeEncode(s);
  }
}
