/** Character classes used by the manifest entry pattern, and the hexadecimal
    digits of an MD5 digest. */
module Chars {

  /** Python's `\s` in a `str` pattern: exactly the characters `str.isspace()`
      accepts (ASCII tab to carriage return, the four information separators,
      space, and the Unicode whitespace and separator characters). */
  predicate IsSpace(c: char)
    ensures c == ' ' || c == '\t' || c == '\n' || c == '\r' ==> IsSpace(c)
    ensures IsSpace(c) ==> !IsHex(c) && c != '"' && c != '<' && c != 'm' && c != 'i'
  {
    var n := c as int;
    (0x09 <= n <= 0x0D) || (0x1C <= n <= 0x20) || n == 0x85 || n == 0xA0 ||
    n == 0x1680 || (0x2000 <= n <= 0x200A) || n == 0x2028 || n == 0x2029 ||
    n == 0x202F || n == 0x205F || n == 0x3000
  }

  /** The class `[0-9A-Fa-f]`. */
  predicate IsHex(c: char) {
    ('0' <= c <= '9') || ('A' <= c <= 'F') || ('a' <= c <= 'f')
  }

  /** A hex digit as `hexdigest().upper()` writes it. */
  predicate IsUpperHex(c: char) {
    ('0' <= c <= '9') || ('A' <= c <= 'F')
  }

  predicate IsHexString(s: string) {
    forall k :: 0 <= k < |s| ==> IsHex(s[k])
  }

  predicate IsUpperHexString(s: string) {
    forall k :: 0 <= k < |s| ==> IsUpperHex(s[k])
  }

  /** The value of one hex digit, whatever its case. */
  function HexValue(c: char): (v: nat)
    requires IsHex(c)
    ensures v < 16
  {
    if '0' <= c <= '9' then c as int - '0' as int
    else if 'A' <= c <= 'F' then c as int - 'A' as int + 10
    else c as int - 'a' as int + 10
  }

  /** Two hex strings denote the same digits, ignoring letter case. */
  predicate SameHexDigits(a: string, b: string)
    requires IsHexString(a) && IsHexString(b)
  {
    |a| == |b| && forall k :: 0 <= k < |a| ==> HexValue(a[k]) == HexValue(b[k])
  }

  /** `str.upper()` on one character of an ASCII string. */
  function UpperChar(c: char): (u: char)
    ensures IsHex(c) ==> IsUpperHex(u) && HexValue(u) == HexValue(c)
    ensures !('a' <= c <= 'z') ==> u == c
  {
    if 'a' <= c <= 'z' then (c as int - 'a' as int + 'A' as int) as char else c
  }

  /** `str.upper()` on an ASCII string, character by character. */
  function Upper(s: string): (u: string)
    ensures |u| == |s|
  {
    if s == [] then [] else [UpperChar(s[0])] + Upper(s[1..])
  }

  /** `str.upper()` maps every character on its own. */
  lemma {:induction false} UpperPointwise(s: string)
    ensures forall k :: 0 <= k < |s| ==> Upper(s)[k] == UpperChar(s[k])
  {
    if s != [] {
      UpperPointwise(s[1..]);
      assert forall k :: 0 < k < |s| ==> Upper(s)[k] == Upper(s[1..])[k - 1];
    }
  }

  /** Upper-casing an upper-case hex string leaves it as it is. */
  lemma UpperOfUpperHex(d: string)
    requires IsUpperHexString(d)
    ensures Upper(d) == d
  {
    UpperPointwise(d);
    assert forall k :: 0 <= k < |d| ==> UpperChar(d[k]) == d[k];
  }

  /** An upper-case hex digit is determined by its value. */
  lemma UpperHexInjective(c: char, d: char)
    requires IsUpperHex(c) && IsUpperHex(d) && HexValue(c) == HexValue(d)
    ensures c == d
  {
  }

  /** Comparing `old.upper()` with an upper-case digest is comparing the two
      hashes case-insensitively. */
  lemma {:induction false} UpperEqualsIffSameDigits(recorded: string, digest: string)
    requires IsHexString(recorded) && IsUpperHexString(digest)
    ensures Upper(recorded) == digest <==> SameHexDigits(recorded, digest)
  {
    var u := Upper(recorded);
    UpperPointwise(recorded);
    if u == digest {
      forall k | 0 <= k < |u| ensures HexValue(recorded[k]) == HexValue(digest[k]) {
        assert u[k] == UpperChar(recorded[k]);
      }
    }
    if SameHexDigits(recorded, digest) {
      forall k | 0 <= k < |u|
        ensures u[k] == digest[k]
      {
        assert u[k] == UpperChar(recorded[k]);
        UpperHexInjective(u[k], digest[k]);
      }
    }
  }
}
