// Bytes, the ASCII constants the scanners look for, and ASCII classes.
module Bytes {
  newtype Byte = b: int | 0 <= b < 256

  type ByteString = seq<Byte>

  const TAB: Byte := 0x09
  const NEWLINE: Byte := 0x0A
  const FORM_FEED: Byte := 0x0C
  const CARRIAGE_RETURN: Byte := 0x0D
  const SPACE: Byte := 0x20
  const DOUBLE_QUOTE: Byte := 0x22
  const SINGLE_QUOTE: Byte := 0x27
  const SLASH: Byte := 0x2F
  const LT: Byte := 0x3C
  const GT: Byte := 0x3E

  /** The bytes of an ASCII string. */
  function Ascii(s: string): (r: ByteString)
    ensures |r| == |s|
  {
    if s == "" then [] else [(s[0] as int % 256) as Byte] + Ascii(s[1..])
  }

  lemma {:induction false} AsciiAt(s: string, i: nat)
    requires i < |s| && s[i] as int < 256
    ensures Ascii(s)[i] as int == s[i] as int
  {
    if i > 0 {
      AsciiAt(s[1..], i - 1);
    }
  }

  /** `u8::is_ascii_whitespace`. */
  predicate IsAsciiWhitespace(b: Byte) {
    b == SPACE || b == TAB || b == NEWLINE || b == FORM_FEED || b == CARRIAGE_RETURN
  }

  /** `u8::to_ascii_lowercase`; two bytes are equal ignoring ASCII case iff their images are. */
  function ToLower(b: Byte): Byte {
    if 0x41 <= b <= 0x5A then b + 0x20 else b
  }

  /** Number of bytes before the first `<`, or the whole length. */
  function TextLen(s: ByteString): (n: nat)
    ensures n <= |s|
    ensures forall k :: 0 <= k < n ==> s[k] != LT
    ensures n < |s| ==> s[n] == LT
  {
    if s == [] || s[0] == LT then 0 else 1 + TextLen(s[1..])
  }

  /** Front byte, then a slice of the tail, is a slice of the whole. */
  lemma ConsSlice(s: ByteString, k: nat, rest: ByteString)
    requires 0 < k <= |s|
    ensures [s[0]] + (s[1..][..k - 1] + rest) == s[..k] + rest
    ensures s[1..][k - 1..] == s[k..]
  {
    assert [s[0]] + s[1..][..k - 1] == s[..k];
  }

  /** A slice of a suffix is a slice of the whole. */
  lemma SuffixSlice(s: ByteString, i: nat, n: nat)
    requires i + n <= |s|
    ensures s[i..][..n] == s[i..i + n] && s[i..][n..] == s[i + n..]
  {
  }

  lemma Assoc(a: ByteString, b: ByteString, c: ByteString)
    ensures a + (b + c) == a + b + c
  {
  }

  lemma ConsParts<T>(x: T, rest: seq<T>)
    ensures ([x] + rest)[0] == x && ([x] + rest)[1..] == rest
  {
  }

  lemma TakeThenRest<T>(s: seq<T>, n: nat, t: seq<T>)
    requires n <= |s|
    ensures s + t == s[..n] + (s[n..] + t)
  {
  }

  lemma CutInRest<T>(s: seq<T>, n: nat, i: nat)
    requires n <= i <= |s|
    ensures s[..i] == s[..n] + s[n..][..i - n] && s[i..] == s[n..][i - n..]
  {
  }

  /** First `<` at or after `i`, or the length. */
  method FindLt(bytes: ByteString, i: nat) returns (j: nat)
    requires i <= |bytes|
    ensures j == i + TextLen(bytes[i..])
  {
    j := i;
    while j < |bytes| && bytes[j] != LT
      invariant i <= j <= |bytes|
      invariant i + TextLen(bytes[i..]) == j + TextLen(bytes[j..])
    {
      assert bytes[j..][1..] == bytes[j + 1..];
      j := j + 1;
    }
  }
}
