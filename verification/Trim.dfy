/**
 `str::trim().is_empty()`: a text of white space only, as the standard library's
 byte patterns have it and as Unicode's White_Space property has it.
 */
module Trim {
  import opened Bytes

  /** Length of the Unicode White_Space character at the front of `s`, or 0. */
  function SpaceCharLen(s: ByteString): (n: nat)
    ensures n <= |s|
  {
    if s == [] then 0
    else if 0x09 <= s[0] <= 0x0D || s[0] == SPACE then 1
    else if |s| >= 2 && s[0] == 0xC2 && (s[1] == 0x85 || s[1] == 0xA0) then 2
    else if |s| >= 3 && s[0] == 0xE1 && s[1] == 0x9A && s[2] == 0x80 then 3
    else if |s| >= 3 && s[0] == 0xE2 && s[1] == 0x80
            && (0x80 <= s[2] <= 0x8A || s[2] == 0xA8 || s[2] == 0xA9 || s[2] == 0xAF) then 3
    else if |s| >= 3 && s[0] == 0xE2 && s[1] == 0x81 && s[2] == 0x9F then 3
    else if |s| >= 3 && s[0] == 0xE3 && s[1] == 0x80 && s[2] == 0x80 then 3
    else 0
  }

  predicate IsBlank(s: ByteString)
    decreases |s|
  {
    s == [] || (SpaceCharLen(s) > 0 && IsBlank(s[SpaceCharLen(s)..]))
  }

  // ---- by code point ----

  /** The 25 code points with the White_Space property. */
  predicate IsWhiteSpace(c: nat) {
    || 0x09 <= c <= 0x0D || c == 0x20 || c == 0x85 || c == 0xA0 || c == 0x1680
    || 0x2000 <= c <= 0x200A || c == 0x2028 || c == 0x2029 || c == 0x202F || c == 0x205F || c == 0x3000
  }

  /** UTF-8 of a code point below 0x10000 (RFC 3629, section 3). */
  function Encode(c: nat): ByteString
    requires c < 0x1_0000
  {
    if c < 0x80 then [c as Byte]
    else if c < 0x800 then [(0xC0 + c / 0x40) as Byte, (0x80 + c % 0x40) as Byte]
    else [(0xE0 + c / 0x1000) as Byte, (0x80 + c / 0x40 % 0x40) as Byte, (0x80 + c % 0x40) as Byte]
  }

  predicate AreWhiteSpace(cs: seq<nat>) {
    forall k :: 0 <= k < |cs| ==> IsWhiteSpace(cs[k])
  }

  function Encoded(cs: seq<nat>): ByteString
    requires AreWhiteSpace(cs)
  {
    if cs == [] then [] else Encode(cs[0]) + Encoded(cs[1..])
  }

  /** White space and nothing else. */
  ghost predicate IsSpaces(s: ByteString) {
    exists cs: seq<nat> :: AreWhiteSpace(cs) && s == Encoded(cs)
  }

  lemma SpaceFront(c: nat, t: ByteString)
    requires IsWhiteSpace(c)
    ensures SpaceCharLen(Encode(c) + t) == |Encode(c)| > 0
  {
    var e := Encode(c);
    assert forall k :: 0 <= k < |e| ==> (e + t)[k] == e[k];
  }

  lemma SpaceIsChar(s: ByteString) returns (c: nat)
    requires SpaceCharLen(s) > 0
    ensures IsWhiteSpace(c) && s[..SpaceCharLen(s)] == Encode(c)
  {
    c := if s[0] < 0x80 then s[0] as nat
         else if s[0] == 0xC2 then s[1] as nat
         else if s[0] == 0xE1 then 0x1680
         else if s[0] == 0xE2 && s[1] == 0x80 then 0x1F80 + s[2] as nat
         else if s[0] == 0xE2 then 0x205F
         else 0x3000;
  }

  lemma {:induction false} SpacesAreBlank(cs: seq<nat>)
    requires AreWhiteSpace(cs)
    ensures IsBlank(Encoded(cs))
    decreases |cs|
  {
    if cs != [] {
      var rest := Encoded(cs[1..]);
      SpaceFront(cs[0], rest);
      SpacesAreBlank(cs[1..]);
      hide SpaceCharLen, Encode, IsWhiteSpace;
      assert (Encode(cs[0]) + rest)[|Encode(cs[0])|..] == rest;
    }
  }

  lemma {:induction false} BlankIsSpaces(s: ByteString) returns (cs: seq<nat>)
    requires IsBlank(s)
    ensures AreWhiteSpace(cs) && s == Encoded(cs)
    decreases |s|
  {
    hide *;
    if s == [] {
      cs := [];
      NoSpaces();
    } else {
      BlankStep(s);
      var n := SpaceCharLen(s);
      var c := SpaceIsChar(s);
      var later := BlankIsSpaces(s[n..]);
      cs := [c] + later;
      AddSpace(c, later);
      assert s == s[..n] + s[n..];
    }
  }

  lemma BlankStep(s: ByteString)
    requires IsBlank(s) && s != []
    ensures SpaceCharLen(s) > 0 && IsBlank(s[SpaceCharLen(s)..])
  {
    hide SpaceCharLen;
  }

  lemma NoSpaces()
    ensures AreWhiteSpace([]) && Encoded([]) == []
  {
  }

  lemma AddSpace(c: nat, cs: seq<nat>)
    requires IsWhiteSpace(c) && AreWhiteSpace(cs)
    ensures AreWhiteSpace([c] + cs) && Encoded([c] + cs) == Encode(c) + Encoded(cs)
  {
    hide IsWhiteSpace, Encode;
    ConsParts(c, cs);
  }

  /** The byte patterns are those of the White_Space characters. */
  lemma BlankIff(s: ByteString)
    ensures IsBlank(s) <==> IsSpaces(s)
  {
    hide IsBlank, Encoded, AreWhiteSpace;
    if IsBlank(s) {
      var cs := BlankIsSpaces(s);
    }
    if IsSpaces(s) {
      var cs: seq<nat> :| AreWhiteSpace(cs) && s == Encoded(cs);
      SpacesAreBlank(cs);
    }
  }
}
