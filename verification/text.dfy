/** Character-level helpers for JavaScript strings, which the model writes as `seq<char>`. */
module Text {

  /** Every character is a single Latin-1 byte, the only input `btoa` accepts. */
  predicate IsLatin1(s: string) {
    forall i :: 0 <= i < |s| ==> s[i] as int <= 0xFF
  }

  lemma Latin1Concat(a: string, b: string)
    ensures IsLatin1(a + b) <==> IsLatin1(a) && IsLatin1(b)
  {
    var ab := a + b;
    if IsLatin1(ab) {
      forall i | 0 <= i < |b|
        ensures b[i] as int <= 0xFF
      {
        assert b[i] == ab[|a| + i];
      }
      forall i | 0 <= i < |a|
        ensures a[i] as int <= 0xFF
      {
        assert a[i] == ab[i];
      }
    }
    if IsLatin1(a) && IsLatin1(b) {
      forall i | 0 <= i < |ab|
        ensures ab[i] as int <= 0xFF
      {
        if i < |a| {
          assert ab[i] == a[i];
        } else {
          assert ab[i] == b[i - |a|];
        }
      }
    }
  }

  /** ASCII upper-case letter. */
  predicate IsUpper(c: char) {
    'A' <= c <= 'Z'
  }

  /** `String.prototype.toLowerCase`, restricted to the ASCII letters. */
  function LowerChar(c: char): (r: char)
    ensures !IsUpper(r)
    ensures IsUpper(c) ==> r as int == c as int + 32
    ensures !IsUpper(c) ==> r == c
  {
    if IsUpper(c) then (c as int + 32) as char else c
  }

  /** `String.prototype.toLowerCase`, character by character. */
  function Lower(s: string): (r: string)
    ensures |r| == |s|
    ensures forall i :: 0 <= i < |s| ==> r[i] == LowerChar(s[i])
  {
    seq(|s|, i requires 0 <= i < |s| => LowerChar(s[i]))
  }

  /** Lower-casing keeps a string inside Latin-1: the lower-case form of a Latin-1
      character is again Latin-1. */
  lemma LowerLatin1(s: string)
    ensures IsLatin1(s) ==> IsLatin1(Lower(s))
  {
    var r := Lower(s);
    if IsLatin1(s) {
      forall i | 0 <= i < |r| ensures r[i] as int <= 0xFF {
        assert r[i] == LowerChar(s[i]);
      }
    }
  }

  /** Which characters lie outside the Basic Multilingual Plane. */
  function AboveBmp(s: string): (r: seq<bool>)
    ensures |r| == |s|
    ensures forall i :: 0 <= i < |s| ==> (r[i] <==> s[i] as int > 0xFFFF)
  {
    seq(|s|, i requires 0 <= i < |s| => s[i] as int > 0xFFFF)
  }

  /** The value of JavaScript's `length` on a string: UTF-16 code units, so a
      character outside the Basic Multilingual Plane counts twice. */
  function Utf16Length(s: string): (n: nat)
    ensures n == |s| + multiset(AboveBmp(s))[true]
    ensures |s| <= n <= 2 * |s|
    ensures (forall i :: 0 <= i < |s| ==> s[i] as int <= 0xFFFF) ==> n == |s|
  {
    if |s| == 0 then 0
    else
      assert AboveBmp(s) == [s[0] as int > 0xFFFF] + AboveBmp(s[1..]);
      (if s[0] as int > 0xFFFF then 2 else 1) + Utf16Length(s[1..])
  }
}
