/** Where the span pass writes sentinels: between an opening span tag and a closing one. */
module SentinelSites {
  import opened Bytes
  import opened TagExtent
  import opened Tags
  import opened CodespanFixup
  import opened SpanLaws
  import opened WhitespaceRestore

  ghost predicate HasTagBefore(t: ByteString, k: nat) {
    exists i :: 0 <= i < k && TagBefore(t, i, k, SPAN_NAME)
  }

  /** A sentinel at `k` stands directly between an opening and a closing span tag. */
  ghost predicate IsSentinelSite(t: ByteString, k: nat) {
    && k + 3 <= |t| && CloseLen(t[k + 3..], SPAN_NAME).Some?
    && HasTagBefore(t, k)
  }

  ghost predicate InTag(t: ByteString, pos: nat, a: SpanState) {
    a.Tag? ==> exists i :: 0 <= i < pos && Tied(t, i, pos, a.q, SPAN_NAME)
  }

  lemma InTagNext(t: ByteString, pos: nat, s: ByteString, a: SpanState)
    requires s != [] && pos <= |t| && t[pos..] == SpanRun(s, a, SENTINEL)
    requires !AtSubstitution(s, a) && InTag(t, pos, a)
    ensures pos < |t| && t[pos + 1..] == SpanRun(s[1..], NextSpan(s, a), SENTINEL)
    ensures InTag(t, pos + 1, NextSpan(s, a))
  {
    SpanStep(s, a, SENTINEL);
    var u := t[pos..];
    assert u[1..] == t[pos + 1..] && t[pos] == s[0];
    if a.Text? && EntersSpan(s) {
      SameHeadRecognition(s, u, SPAN_NAME);
      TiedOpen(t, pos, SPAN_NAME);
    } else if a.Tag? && !ClosesTag(a.q, s) {
      hide SpanRun, IsOpen, SameHead, AtSubstitution;
      var i :| 0 <= i < pos && Tied(t, i, pos, a.q, SPAN_NAME);
      TiedStep(t, i, pos, a.q, SPAN_NAME);
    }
  }

  /** The sentinel that replaces the body behind the tag ending at `pos`. */
  lemma SubstitutionSite(t: ByteString, pos: nat, s: ByteString, a: SpanState)
    requires SpanOk(s, a) && AtSubstitution(s, a)
    requires pos <= |t| && t[pos..] == SpanRun(s, a, SENTINEL) && InTag(t, pos, a)
    ensures pos + 4 <= |t| && t[pos] == GT && t[pos + 1..pos + 4] == SENTINEL
    ensures t[pos + 4..] == SpanRun(s[1..][TextLen(s[1..])..], Text, SENTINEL)
    ensures IsSentinelSite(t, pos + 1)
  {
    SpanStepSubstitution(s, a, SENTINEL);
    SubstitutedBody(s, a);
    var rest := s[1..][TextLen(s[1..])..];
    var x := SpanRun(rest, Text, SENTINEL);
    BehindBody(s, a, SENTINEL);
    CloseIsKept(rest);
    EndsHere(t, pos, s, a);
    hide *;
    var u := t[pos..];
    assert u[1..] == SENTINEL + x && |SENTINEL| == 3 by { SentinelSize(); }
    assert t[pos + 1..pos + 4] == u[1..][..3] && t[pos + 4..] == u[1..][3..];
    SiteFrom(t, pos);
  }

  lemma SentinelSize()
    ensures |SENTINEL| == 3
  {
  }

  lemma CloseIsKept(rest: ByteString)
    requires rest != [] && CloseLen(rest, SPAN_NAME).Some?
    ensures CloseLen(SpanRun(rest, Text, SENTINEL), SPAN_NAME).Some?
  {
    SpanStep(rest, Text, SENTINEL);
    SameHeadRecognition(rest, SpanRun(rest, Text, SENTINEL), SPAN_NAME);
  }

  lemma EndsHere(t: ByteString, pos: nat, s: ByteString, a: SpanState)
    requires AtSubstitution(s, a) && pos < |t| && t[pos] == GT && InTag(t, pos, a)
    ensures HasTagBefore(t, pos + 1)
  {
    hide IsOpen;
    var i :| 0 <= i < pos && Tied(t, i, pos, a.q, SPAN_NAME);
    assert t[pos..][0] == GT;
    TiedEnd(t, i, pos, a.q, SPAN_NAME);
  }

  lemma SiteFrom(t: ByteString, pos: nat)
    requires pos + 4 <= |t| && CloseLen(t[pos + 4..], SPAN_NAME).Some?
    requires HasTagBefore(t, pos + 1)
    ensures IsSentinelSite(t, pos + 1)
  {
    hide HasTagBefore, CloseLen;
    assert t[pos + 1 + 3..] == t[pos + 4..];
  }

  lemma InsideSentinel(t: ByteString, pos: nat, k: nat)
    requires pos + 4 <= |t| && t[pos] == GT && t[pos + 1..pos + 4] == SENTINEL
    requires pos <= k < pos + 4 && SentinelAt(t[k..])
    ensures k == pos + 1
  {
    assert t[k..][0] == t[k];
    assert t[pos + 1..pos + 4][1] == t[pos + 2] && t[pos + 1..pos + 4][2] == t[pos + 3];
  }

  lemma NothingHasNoSite(t: ByteString, pos: nat, a: SpanState, k: nat)
    requires pos <= k <= |t| && t[pos..] == SpanRun([], a, SENTINEL)
    ensures !SentinelAt(t[k..])
  {
  }

  /** Behind a replaced body the scan goes on outside any tag. */
  lemma BehindSubstitution(t: ByteString, pos: nat, s: ByteString, a: SpanState, k: nat) returns (rest: ByteString)
    requires SpanOk(s, a) && !HasSentinel(s) && AtSubstitution(s, a)
    requires pos <= k <= |t| && t[pos..] == SpanRun(s, a, SENTINEL) && InTag(t, pos, a)
    requires SentinelAt(t[k..])
    ensures |rest| < |s| && SpanOk(rest, Text) && !HasSentinel(rest) && InTag(t, pos + 4, Text)
    ensures pos + 4 <= |t| && t[pos + 4..] == SpanRun(rest, Text, SENTINEL)
    ensures k >= pos + 4 || IsSentinelSite(t, k)
  {
    SubstitutionSite(t, pos, s, a);
    if k < pos + 4 {
      InsideSentinel(t, pos, k);
    }
    SubstitutedBody(s, a);
    hide *;
    var n := TextLen(s[1..]);
    rest := s[1..][n..];
    assert rest == s[n + 1..];
    NoSentinelSuffix(s, n + 1);
    EverTextOk(rest);
    NotInTag(t, pos + 4);
  }

  lemma {:induction false} SitesOf(t: ByteString, pos: nat, s: ByteString, a: SpanState, k: nat)
    requires SpanOk(s, a) && !HasSentinel(s)
    requires pos <= k <= |t| && t[pos..] == SpanRun(s, a, SENTINEL) && InTag(t, pos, a)
    requires SentinelAt(t[k..])
    ensures IsSentinelSite(t, k)
    decreases |s|
  {
    hide *;
    if s == [] {
      NothingHasNoSite(t, pos, a, k);
    } else if AtSubstitution(s, a) {
      var rest := BehindSubstitution(t, pos, s, a, k);
      if k >= pos + 4 {
        SitesOf(t, pos + 4, rest, Text, k);
      }
    } else {
      ImageStartsNoSentinel(s, a, SENTINEL);
      NoSentinelFront(s);
      InTagNext(t, pos, s, a);
      SpanOkNext(s, a);
      NoSentinelSuffix(s, 1);
      SitesOf(t, pos + 1, s[1..], NextSpan(s, a), k);
    }
  }

  lemma NoSentinelFront(s: ByteString)
    requires !HasSentinel(s)
    ensures !SentinelAt(s)
  {
  }

  lemma NotInTag(t: ByteString, pos: nat)
    ensures InTag(t, pos, Text)
  {
  }

  /** Every sentinel in the output stands directly between a span's opening and closing tag. */
  lemma SentinelsSitInEmptySpans(html: ByteString, k: nat)
    requires !HasSentinel(html) && k <= |Preserved(html)| && SentinelAt(Preserved(html)[k..])
    ensures IsSentinelSite(Preserved(html), k)
  {
    EverTextOk(html);
    var t := Preserved(html);
    assert t[0..] == t;
    NotInTag(t, 0);
    SitesOf(t, 0, html, Text, k);
  }
}
