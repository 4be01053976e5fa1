/**
 Tag recognition shared by src/util/codespan_fixup.rs and
 src/util/codeblock_linebreaks.rs: quote-aware tag ends, opening tags and
 closing tags. The functions look at the suffix that starts at the tag; the
 methods are the source's index loops.
 */
module Tags {
  import opened Wrappers
  import opened Bytes

  const SPAN_NAME: ByteString := [0x73, 0x70, 0x61, 0x6E]
  const PRE_NAME: ByteString := [0x70, 0x72, 0x65]

  /** Lower-case ASCII letters only, as every tag name the scanners look for. */
  ghost predicate IsTagName(name: ByteString) {
    name != [] && forall k :: 0 <= k < |name| ==> 0x61 <= name[k] <= 0x7A
  }

  // ---- find_tag_end ----

  datatype Quote = Neutral | Single | Double

  /** One step of the attribute-quote automaton. */
  function StepQuote(q: Quote, b: Byte): Quote {
    match q
    case Single => if b == SINGLE_QUOTE then Neutral else Single
    case Double => if b == DOUBLE_QUOTE then Neutral else Double
    case Neutral =>
      if b == SINGLE_QUOTE then Single
      else if b == DOUBLE_QUOTE then Double
      else Neutral
  }

  /** True if, in quote state `q`, the byte at the front of `s` closes the tag. */
  predicate ClosesTag(q: Quote, s: ByteString) {
    s != [] && q.Neutral? && s[0] == GT
  }

  /** Offset of the `>` that closes the tag when `s` is entered in quote state `q`. */
  function TagEnd(q: Quote, s: ByteString): (r: Option<nat>)
    ensures r.Some? ==> r.value < |s| && s[r.value] == GT
    decreases |s|
  {
    if s == [] then None
    else if ClosesTag(q, s) then Some(0)
    else
      match TagEnd(StepQuote(q, s[0]), s[1..])
      case Some(k) => Some(k + 1)
      case None => None
  }

  function Moved(r: Option<nat>, n: nat): Option<nat> {
    if r.Some? then Some(r.value + n) else None
  }

  lemma MovedTwice(r: Option<nat>, m: nat, n: nat)
    ensures Moved(Moved(r, m), n) == Moved(r, m + n)
  {
  }

  lemma TagEndUnfold(q: Quote, bytes: ByteString, k: nat)
    requires k < |bytes|
    ensures TagEnd(q, bytes[k..]) == if q == Neutral && bytes[k] == GT then Some(0)
                                     else Moved(TagEnd(StepQuote(q, bytes[k]), bytes[k + 1..]), 1)
  {
    hide StepQuote;
    assert bytes[k..][1..] == bytes[k + 1..];
  }

  lemma TagEndNowhere(q: Quote, bytes: ByteString)
    ensures TagEnd(q, bytes[|bytes|..]) == None
  {
  }

  method FindTagEnd(bytes: ByteString, start: nat) returns (r: Option<nat>)
    requires start <= |bytes|
    ensures r.None? <==> TagEnd(Neutral, bytes[start..]).None?
    ensures r.Some? ==> start <= r.value && TagEnd(Neutral, bytes[start..]) == Some(r.value - start)
  {
    hide TagEnd;
    var k := start;
    var inSquote, inDquote := false, false;
    ghost var q := Neutral;
    while k < |bytes|
      invariant start <= k <= |bytes|
      invariant inSquote == q.Single? && inDquote == q.Double?
      invariant TagEnd(Neutral, bytes[start..]) == Moved(TagEnd(q, bytes[k..]), k - start)
    {
      var b := bytes[k];
      TagEndUnfold(q, bytes, k);
      MovedTwice(TagEnd(StepQuote(q, b), bytes[k + 1..]), 1, k - start);
      if inSquote {
        if b == SINGLE_QUOTE { inSquote := false; }
      } else if inDquote {
        if b == DOUBLE_QUOTE { inDquote := false; }
      } else if b == SINGLE_QUOTE {
        inSquote := true;
      } else if b == DOUBLE_QUOTE {
        inDquote := true;
      } else if b == GT {
        return Some(k);
      }
      q := StepQuote(q, b);
      k := k + 1;
    }
    TagEndNowhere(q, bytes);
    return None;
  }

  // ---- opening and closing tags ----

  /** `s[k..]` starts with `name`, ignoring ASCII case. */
  predicate NameAt(s: ByteString, k: nat, name: ByteString) {
    k + |name| <= |s| && forall i :: 0 <= i < |name| ==> ToLower(s[k + i]) == name[i]
  }

  lemma NameAtSuffix(s: ByteString, i: nat, k: nat, name: ByteString)
    requires i <= |s|
    ensures NameAt(s[i..], k, name) == NameAt(s, i + k, name)
  {
    if i + k + |name| <= |s| {
      var u := s[i..];
      if NameAt(u, k, name) {
        forall j | 0 <= j < |name| ensures ToLower(s[i + k + j]) == name[j] {
          assert ToLower(u[k + j]) == name[j];
        }
      }
      if NameAt(s, i + k, name) {
        forall j | 0 <= j < |name| ensures ToLower(u[k + j]) == name[j] {
          assert ToLower(s[i + k + j]) == name[j];
        }
      }
    }
  }

  /** `s` starts with `<name` followed by whitespace, `>` or `/`. */
  predicate IsOpen(s: ByteString, name: ByteString) {
    var end := 1 + |name|;
    s != [] && s[0] == LT && NameAt(s, 1, name) && end < |s|
    && (IsAsciiWhitespace(s[end]) || s[end] == GT || s[end] == SLASH)
  }

  function WhitespaceLen(s: ByteString): (n: nat)
    ensures n <= |s|
    ensures forall k :: 0 <= k < n ==> IsAsciiWhitespace(s[k])
    ensures n < |s| ==> !IsAsciiWhitespace(s[n])
  {
    if s == [] || !IsAsciiWhitespace(s[0]) then 0 else 1 + WhitespaceLen(s[1..])
  }

  lemma WhitespaceLenIs(s: ByteString, n: nat)
    requires n <= |s|
    requires forall k :: 0 <= k < n ==> IsAsciiWhitespace(s[k])
    requires n < |s| ==> !IsAsciiWhitespace(s[n])
    ensures WhitespaceLen(s) == n
  {
  }

  /** Length of the closing tag `</name`, whitespace, `>` at the front of `s`. */
  function CloseLen(s: ByteString, name: ByteString): (r: Option<nat>)
    ensures r.Some? ==> 3 <= r.value <= |s|
  {
    var after := 2 + |name|;
    if after <= |s| && s[0] == LT && s[1] == SLASH && NameAt(s, 2, name) then
      var k := after + WhitespaceLen(s[after..]);
      if k < |s| && s[k] == GT then Some(k + 1) else None
    else None
  }

  method MatchName(bytes: ByteString, at: nat, name: ByteString) returns (ok: bool)
    requires at + |name| <= |bytes|
    requires IsTagName(name)
    ensures ok <==> NameAt(bytes, at, name)
  {
    var k := 0;
    while k < |name|
      invariant 0 <= k <= |name|
      invariant forall i :: 0 <= i < k ==> ToLower(bytes[at + i]) == name[i]
    {
      if ToLower(bytes[at + k]) != ToLower(name[k]) {
        return false;
      }
      k := k + 1;
    }
    return true;
  }

  /** `is_span_open_at` and `is_tag_open_at`. */
  method IsTagOpenAt(bytes: ByteString, i: nat, name: ByteString) returns (ok: bool)
    requires i <= |bytes|
    requires IsTagName(name)
    ensures ok <==> IsOpen(bytes[i..], name)
  {
    var prefixLen := 1 + |name|;
    if i + prefixLen > |bytes| || bytes[i] != LT {
      return false;
    }
    var named := MatchName(bytes, i + 1, name);
    NameAtSuffix(bytes, i, 1, name);
    if !named {
      return false;
    }
    if i + prefixLen < |bytes| {
      var b := bytes[i + prefixLen];
      return IsAsciiWhitespace(b) || b == GT || b == SLASH;
    }
    return false;
  }

  /** `span_close_len` and `closing_tag_len`. */
  method ClosingTagLen(bytes: ByteString, j: nat, name: ByteString) returns (r: Option<nat>)
    requires j <= |bytes|
    requires IsTagName(name)
    ensures r == CloseLen(bytes[j..], name)
  {
    var prefixLen := 2 + |name|;
    if j + prefixLen > |bytes| || bytes[j] != LT || bytes[j + 1] != SLASH {
      return None;
    }
    var named := MatchName(bytes, j + 2, name);
    NameAtSuffix(bytes, j, 2, name);
    if !named {
      return None;
    }
    var k := j + prefixLen;
    while k < |bytes| && IsAsciiWhitespace(bytes[k])
      invariant j + prefixLen <= k <= |bytes|
      invariant forall i :: j + prefixLen <= i < k ==> IsAsciiWhitespace(bytes[i])
    {
      k := k + 1;
    }
    WhitespaceLenIs(bytes[j..][prefixLen..], k - j - prefixLen);
    if k < |bytes| && bytes[k] == GT {
      return Some(k + 1 - j);
    } else {
      return None;
    }
  }

  /** A closing tag holds one `<`, at its front, and one `>`, at its end. */
  lemma CloseTagShape(s: ByteString, name: ByteString)
    requires IsTagName(name) && CloseLen(s, name).Some?
    ensures var c := CloseLen(s, name).value;
            s[0] == LT && s[c - 1] == GT
            && forall k :: 1 <= k < c - 1 ==> s[k] != LT && s[k] != GT
  {
    var c := CloseLen(s, name).value;
    var after := 2 + |name|;
    forall k | 1 <= k < c - 1
      ensures s[k] != LT && s[k] != GT
    {
      if 2 <= k < after {
        assert ToLower(s[2 + (k - 2)]) == name[k - 2];
      } else if after <= k {
        assert IsAsciiWhitespace(s[after..][k - after]);
      }
    }
  }

  /** An opening and a closing tag never start at the same place. */
  lemma OpenIsNotClose(s: ByteString, name: ByteString, other: ByteString)
    requires IsTagName(name) && IsOpen(s, name)
    ensures CloseLen(s, other).None?
  {
    assert ToLower(s[1 + 0]) == name[0];
  }

  // ---- the part of the text that recognition depends on ----

  /** `s` and `t` agree up to and including the first `<` or `>`. */
  predicate SameHead(s: ByteString, t: ByteString) {
    if s == [] || t == [] then s == t
    else s[0] == t[0] && (s[0] == LT || s[0] == GT || SameHead(s[1..], t[1..]))
  }

  lemma {:induction false} SameHeadSymmetric(s: ByteString, t: ByteString)
    requires SameHead(s, t)
    ensures SameHead(t, s)
  {
    if s != [] && t != [] && s[0] != LT && s[0] != GT {
      SameHeadSymmetric(s[1..], t[1..]);
    }
  }

  /** Heads agree on any stretch free of `<` and `>`. */
  lemma {:induction false} SameHeadPrefix(s: ByteString, t: ByteString, k: nat)
    requires SameHead(s, t) && k <= |s|
    requires forall i :: 0 <= i < k ==> s[i] != LT && s[i] != GT
    ensures k <= |t| && s[..k] == t[..k] && SameHead(s[k..], t[k..])
    decreases k
  {
    if k > 0 {
      forall i | 0 <= i < k - 1 ensures s[1..][i] != LT && s[1..][i] != GT {
        assert s[1..][i] == s[i + 1];
      }
      SameHeadPrefix(s[1..], t[1..], k - 1);
      assert s[1..][k - 1..] == s[k..] && t[1..][k - 1..] == t[k..];
      assert s[..k] == [s[0]] + s[1..][..k - 1];
      assert t[..k] == [t[0]] + t[1..][..k - 1];
    } else {
      assert s[0..] == s && t[0..] == t;
    }
  }

  lemma SameHeadOpen(s: ByteString, t: ByteString, name: ByteString)
    requires IsTagName(name)
    requires s != [] && t != [] && s[0] == LT && t[0] == LT && SameHead(s[1..], t[1..])
    requires IsOpen(s, name)
    ensures IsOpen(t, name)
  {
    var n := |name|;
    forall i | 0 <= i < n ensures s[1..][i] != LT && s[1..][i] != GT {
      assert ToLower(s[1 + i]) == name[i];
    }
    SameHeadPrefix(s[1..], t[1..], n);
    assert s[1..][n..][0] == s[n + 1];
    assert t[1..][n..] != [];
    assert t[1..][n..][0] == t[n + 1];
    forall i | 0 <= i < n ensures ToLower(t[1 + i]) == name[i] {
      assert t[1..][..n][i] == s[1..][..n][i];
      assert ToLower(s[1 + i]) == name[i];
    }
  }

  lemma SameHeadUpTo(s: ByteString, t: ByteString, c: nat)
    requires s != [] && t != [] && s[0] == LT && t[0] == LT && SameHead(s[1..], t[1..])
    requires 2 <= c <= |s| && forall k :: 1 <= k < c - 1 ==> s[k] != LT && s[k] != GT
    ensures c <= |t| && s[..c] == t[..c]
  {
    var u, v := s[1..], t[1..];
    forall i | 0 <= i < c - 2 ensures u[i] != LT && u[i] != GT {
      assert u[i] == s[i + 1];
    }
    SameHeadPrefix(u, v, c - 2);
    assert u[c - 2..][0] == v[c - 2..][0];
    hide *;
    assert u[..c - 1] == u[..c - 2] + [u[c - 2]] && v[..c - 1] == v[..c - 2] + [v[c - 2]];
    assert s[..c] == [s[0]] + u[..c - 1] && t[..c] == [t[0]] + v[..c - 1];
  }

  lemma SamePrefixName(s: ByteString, t: ByteString, name: ByteString, c: nat)
    requires 2 + |name| <= c <= |s| && c <= |t| && s[..c] == t[..c] && NameAt(s, 2, name)
    ensures NameAt(t, 2, name)
  {
    forall i | 0 <= i < |name| ensures ToLower(t[2 + i]) == name[i] {
      assert t[2 + i] == t[..c][2 + i] && s[2 + i] == s[..c][2 + i];
    }
  }

  lemma SameHeadClose(s: ByteString, t: ByteString, name: ByteString)
    requires IsTagName(name)
    requires s != [] && t != [] && s[0] == LT && t[0] == LT && SameHead(s[1..], t[1..])
    requires CloseLen(s, name).Some?
    ensures CloseLen(t, name) == CloseLen(s, name)
  {
    var c := CloseLen(s, name).value;
    CloseTagShape(s, name);
    SameHeadUpTo(s, t, c);
    SamePrefixName(s, t, name, c);
    var after := 2 + |name|;
    var v := WhitespaceLen(s[after..]);
    hide NameAt, SameHead, IsTagName;
    assert s[..c][1] == t[..c][1] && s[..c][c - 1] == t[..c][c - 1];
    forall k | after <= k < c - 1 ensures IsAsciiWhitespace(t[k]) {
      assert s[..c][k] == t[..c][k] && s[after..][k - after] == s[k];
    }
    WhitespaceLenIs(t[after..], v);
  }

  /** Recognition of an opening tag depends on the head only. */
  lemma SameHeadRecognition(s: ByteString, t: ByteString, name: ByteString)
    requires IsTagName(name)
    requires s != [] && t != [] && s[0] == LT && t[0] == LT && SameHead(s[1..], t[1..])
    ensures IsOpen(s, name) == IsOpen(t, name)
    ensures CloseLen(s, name) == CloseLen(t, name)
  {
    SameHeadSymmetric(s[1..], t[1..]);
    if IsOpen(s, name) { SameHeadOpen(s, t, name); }
    if IsOpen(t, name) { SameHeadOpen(t, s, name); }
    if CloseLen(s, name).Some? { SameHeadClose(s, t, name); }
    if CloseLen(t, name).Some? { SameHeadClose(t, s, name); }
  }
}
