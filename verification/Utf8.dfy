/**
 Well-formed UTF-8 (RFC 3629, section 4), character boundaries, and the slices
 of a `&str`, which panic off a boundary.
 */
module Utf8 {
  import opened Bytes

  const REPLACEMENT: ByteString := [0xEF, 0xBF, 0xBD]

  predicate IsTail(b: Byte) {
    0x80 <= b <= 0xBF
  }

  /** Range of the second byte after lead byte `lead` of a multi-byte character. */
  predicate SecondByteOk(lead: Byte, b: Byte) {
    if lead == 0xE0 then 0xA0 <= b <= 0xBF
    else if lead == 0xED then 0x80 <= b <= 0x9F
    else if lead == 0xF0 then 0x90 <= b <= 0xBF
    else if lead == 0xF4 then 0x80 <= b <= 0x8F
    else IsTail(b)
  }

  /** `char::len_utf8` by lead byte; 0 for a byte that starts no character. */
  function LeadLen(lead: Byte): (n: nat)
    ensures n <= 4
  {
    if lead < 0x80 then 1
    else if 0xC2 <= lead <= 0xDF then 2
    else if 0xE0 <= lead <= 0xEF then 3
    else if 0xF0 <= lead <= 0xF4 then 4
    else 0
  }

  /** Length of the well-formed character at the front of `s`, or 0. */
  function CharLen(s: ByteString): (n: nat)
    ensures n <= |s| && n <= 4
    ensures n > 1 ==> forall k :: 1 <= k < n ==> IsTail(s[k])
    ensures n > 0 ==> n == LeadLen(s[0])
  {
    if s == [] then 0
    else
      var n := LeadLen(s[0]);
      if n == 0 || n > |s| then 0
      else if n == 1 then 1
      else if !SecondByteOk(s[0], s[1]) then 0
      else if n == 2 then 2
      else if !IsTail(s[2]) then 0
      else if n == 3 then 3
      else if !IsTail(s[3]) then 0
      else 4
  }

  predicate ValidUtf8(s: ByteString)
  {
    s == [] || (CharLen(s) > 0 && ValidUtf8(s[CharLen(s)..]))
  }

  /** `str::is_char_boundary`. */
  predicate IsCharBoundary(s: ByteString, i: nat) {
    i == 0 || i == |s| || (i < |s| && !IsTail(s[i]))
  }

  /** `&s[i..j]`: the precondition is the absence of a panic. */
  function StrSlice(s: ByteString, i: nat, j: nat): (r: ByteString)
    requires i <= j <= |s|
    requires IsCharBoundary(s, i) && IsCharBoundary(s, j)
    ensures |r| == j - i
  {
    s[i..j]
  }

  lemma BoundaryAtEnds(s: ByteString)
    ensures IsCharBoundary(s, 0) && IsCharBoundary(s, |s|)
  {
  }

  /** The character at the front depends on its own bytes only. */
  lemma CharLenPrefix(s: ByteString, t: ByteString)
    requires CharLen(s) > 0
    ensures CharLen(s[..CharLen(s)] + t) == CharLen(s)
  {
  }

  /** One character in front of a valid string. */
  lemma ValidCons(c: ByteString, t: ByteString)
    requires c != [] && CharLen(c + t) == |c| && ValidUtf8(t)
    ensures ValidUtf8(c + t)
  {
    hide CharLen;
    assert (c + t)[|c|..] == t;
  }

  lemma ValidRest(s: ByteString)
    requires ValidUtf8(s) && s != []
    ensures CharLen(s) > 0 && ValidUtf8(s[CharLen(s)..])
  {
  }

  lemma {:induction false} ValidConcat(s: ByteString, t: ByteString)
    requires ValidUtf8(s) && ValidUtf8(t)
    ensures ValidUtf8(s + t)
    decreases |s|
  {
    if s == [] {
      assert s + t == t;
    } else {
      ValidRest(s);
      hide *;
      var n := CharLen(s);
      var rest := s[n..];
      CharLenPrefix(s, rest + t);
      ValidConcat(rest, t);
      ValidCons(s[..n], rest + t);
      TakeThenRest(s, n, t);
    }
  }

  /** A boundary is none inside the first character. */
  lemma BoundaryInRest(s: ByteString, i: nat)
    requires CharLen(s) > 0 && 0 < i <= |s| && IsCharBoundary(s, i)
    ensures CharLen(s) <= i && IsCharBoundary(s[CharLen(s)..], i - CharLen(s))
  {
    hide CharLen;
  }

  /** Both sides of a boundary of a valid string are valid. */
  lemma {:induction false} ValidSplit(s: ByteString, i: nat)
    requires ValidUtf8(s) && i <= |s| && IsCharBoundary(s, i)
    ensures ValidUtf8(s[..i]) && ValidUtf8(s[i..])
    decreases |s|
  {
    if i == 0 {
      assert s[..i] == [] && s[i..] == s;
    } else {
      ValidRest(s);
      hide *;
      var n := CharLen(s);
      var rest := s[n..];
      BoundaryInRest(s, i);
      ValidSplit(rest, i - n);
      var front := rest[..i - n];
      CharLenPrefix(s, front);
      ValidCons(s[..n], front);
      CutInRest(s, n, i);
    }
  }

  lemma ValidSlice(s: ByteString, i: nat, j: nat)
    requires ValidUtf8(s) && i <= j <= |s|
    requires IsCharBoundary(s, i) && IsCharBoundary(s, j)
    ensures ValidUtf8(s[i..j])
  {
    ValidSplit(s, j);
    if i < j {
      assert s[..j][i] == s[i];
    }
    ValidSplit(s[..j], i);
    assert s[..j][i..] == s[i..j];
  }

  /** A valid string does not start inside a character. */
  lemma ValidStart(s: ByteString)
    requires ValidUtf8(s) && s != []
    ensures !IsTail(s[0])
  {
  }

  /** The positions before and after an ASCII byte are boundaries. */
  lemma {:induction false} AsciiBoundary(s: ByteString, k: nat)
    requires ValidUtf8(s) && k < |s| && s[k] < 0x80
    ensures IsCharBoundary(s, k) && IsCharBoundary(s, k + 1)
    decreases |s|
  {
    var n := CharLen(s);
    var rest := s[n..];
    if k < n {
      if rest != [] {
        ValidStart(rest);
        assert rest[0] == s[n];
      }
    } else {
      AsciiBoundary(rest, k - n);
      if k + 1 < |s| {
        assert rest[k + 1 - n] == s[k + 1];
      }
    }
  }

  lemma {:induction false} AsciiValid(s: ByteString)
    requires forall k :: 0 <= k < |s| ==> s[k] < 0x80
    ensures ValidUtf8(s)
  {
    if s != [] {
      AsciiValid(s[1..]);
    }
  }

  /** A scanner that holds `out` and copies `s[i..j]` keeps valid text and loses nothing. */
  lemma CopyStep(s: ByteString, i: nat, j: nat, out: ByteString, restI: ByteString, restJ: ByteString)
    requires ValidUtf8(s) && ValidUtf8(out)
    requires i <= j <= |s| && IsCharBoundary(s, i) && IsCharBoundary(s, j)
    requires restI == s[i..j] + restJ
    ensures ValidUtf8(out + StrSlice(s, i, j))
    ensures out + restI == out + StrSlice(s, i, j) + restJ
  {
    hide ValidUtf8;
    ValidSlice(s, i, j);
    ValidConcat(out, s[i..j]);
  }

  lemma NextLtBoundary(s: ByteString, i: nat, j: nat)
    requires ValidUtf8(s) && i < |s| && j == i + TextLen(s[i..])
    ensures j <= |s| && IsCharBoundary(s, j)
  {
    hide ValidUtf8, TextLen;
    if j < |s| {
      assert s[j] == s[i..][j - i];
      AsciiBoundary(s, j);
    }
  }

  // ---- String::from_utf8_lossy ----

  /** Length of the ill-formed sequence at the front, which one U+FFFD replaces. */
  function InvalidLen(s: ByteString): (n: nat)
    requires s != []
    ensures 1 <= n <= |s|
  {
    if LeadLen(s[0]) < 3 || |s| < 2 || !SecondByteOk(s[0], s[1]) then 1
    else if LeadLen(s[0]) == 3 || |s| < 3 || !IsTail(s[2]) then 2
    else if |s| < 4 || !IsTail(s[3]) then 3
    else 4
  }

  function Lossy(s: ByteString): ByteString
    decreases |s|
  {
    if s == [] then []
    else if CharLen(s) > 0 then s[..CharLen(s)] + Lossy(s[CharLen(s)..])
    else REPLACEMENT + Lossy(s[InvalidLen(s)..])
  }

  lemma CharValid(s: ByteString)
    requires CharLen(s) > 0
    ensures ValidUtf8(s[..CharLen(s)])
  {
    var n := CharLen(s);
    CharLenPrefix(s, []);
    assert s[..n] + [] == s[..n];
    assert s[..n][n..] == [];
  }

  lemma ReplacementValid()
    ensures ValidUtf8(REPLACEMENT)
  {
    assert CharLen(REPLACEMENT) == 3 && REPLACEMENT[3..] == [];
  }

  lemma {:induction false} LossyValid(s: ByteString)
    ensures ValidUtf8(Lossy(s))
    decreases |s|
  {
    if s != [] {
      hide ValidUtf8, InvalidLen;
      if CharLen(s) > 0 {
        CharValid(s);
        LossyValid(s[CharLen(s)..]);
        ValidConcat(s[..CharLen(s)], Lossy(s[CharLen(s)..]));
      } else {
        ReplacementValid();
        LossyValid(s[InvalidLen(s)..]);
        ValidConcat(REPLACEMENT, Lossy(s[InvalidLen(s)..]));
      }
    }
  }

  lemma {:induction false} LossyKeepsValid(s: ByteString)
    requires ValidUtf8(s)
    ensures Lossy(s) == s
    decreases |s|
  {
    if s != [] {
      LossyKeepsValid(s[CharLen(s)..]);
      hide CharLen;
      assert s == s[..CharLen(s)] + s[CharLen(s)..];
    }
  }

  /** Decoding is the identity on exactly the valid byte strings. */
  lemma LossyIdentityIff(s: ByteString)
    ensures Lossy(s) == s <==> ValidUtf8(s)
  {
    LossyValid(s);
    if ValidUtf8(s) {
      LossyKeepsValid(s);
    }
  }

  /** The start of a character of which bytes are missing. */
  ghost predicate IsStart(p: ByteString) {
    exists t: ByteString :: CharLen(p + t) > |p|
  }

  lemma InvalidIsStart(s: ByteString)
    requires s != [] && CharLen(s) == 0 && InvalidLen(s) > 1
    ensures IsStart(s[..InvalidLen(s)])
  {
    var n := InvalidLen(s);
    var p := s[..n];
    var t: ByteString := if LeadLen(s[0]) - n == 1 then [0x80] else [0x80, 0x80];
    assert p[0] == s[0] && p[1] == s[1];
    assert CharLen(p + t) > |p|;
  }

  lemma NoLaterStart(s: ByteString, m: nat)
    requires s != [] && CharLen(s) == 0 && InvalidLen(s) < m <= |s|
    ensures !IsStart(s[..m])
  {
    forall t: ByteString ensures CharLen(s[..m] + t) <= m {
      var u := s[..m] + t;
      assert forall k :: 0 <= k < m ==> u[k] == s[k];
    }
  }

  /** One U+FFFD stands for the longest start of a character at the front, or for a byte that is no such start. */
  lemma LossyReplaces(s: ByteString) returns (n: nat)
    requires s != [] && CharLen(s) == 0
    ensures 1 <= n <= |s| && Lossy(s) == [0xEF, 0xBF, 0xBD] + Lossy(s[n..])
    ensures n > 1 ==> IsStart(s[..n])
    ensures forall m :: n < m <= |s| ==> !IsStart(s[..m])
  {
    n := InvalidLen(s);
    if n > 1 {
      InvalidIsStart(s);
    }
    forall m | n < m <= |s| ensures !IsStart(s[..m]) {
      NoLaterStart(s, m);
    }
    hide IsStart;
  }
}
