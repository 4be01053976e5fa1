/** What rewriting spans preserves, and that doing it twice changes nothing more. */
module SpanLaws {
  import opened Bytes
  import opened Tags
  import opened CodespanFixup

  /** Text that no scanner state reacts to. */
  ghost predicate IsInert(s: ByteString) {
    forall k :: 0 <= k < |s| ==> s[k] != LT && s[k] != GT && s[k] != SINGLE_QUOTE && s[k] != DOUBLE_QUOTE
  }

  lemma {:induction false} InertTagEnd(q: Quote, s: ByteString, rest: ByteString)
    requires IsInert(s)
    ensures TagEnd(q, s + rest).Some? == TagEnd(q, rest).Some?
    decreases |s|
  {
    if s == [] {
      assert s + rest == rest;
    } else {
      InertTagEnd(q, s[1..], rest);
      assert (s + rest)[1..] == s[1..] + rest;
    }
  }

  lemma SpanOkNext(s: ByteString, a: SpanState)
    requires s != [] && SpanOk(s, a)
    ensures SpanOk(s[1..], NextSpan(s, a))
  {
  }

  /** The body behind a tag to be rewritten: whitespace up to a closing tag. */
  lemma SubstitutedBody(s: ByteString, a: SpanState)
    requires AtSubstitution(s, a) && SpanOk(s, a)
    ensures var t := s[1..]; var n := TextLen(t);
            0 < n < |t| && IsBlankBody(t[..n]) && IsInert(t[..n]) && CloseLen(t[n..], SPAN_NAME).Some?
  {
    hide CloseLen;
    var t := s[1..];
    LookBodyUnfold(t, false);
    hide LookBody, TextLen;
    var u := t[..TextLen(t)];
    assert forall k :: 0 <= k < |u| ==> IsBodyWhitespace(u[k]);
  }

  // ---- what tags see is unchanged ----

  lemma {:induction false} SpanKeepsHead(s: ByteString, a: SpanState, fill: ByteString)
    ensures SameHead(s, SpanRun(s, a, fill))
    decreases |s|
  {
    hide NextSpan, BehindTag;
    if s != [] && s[0] != LT && s[0] != GT {
      SpanKeepsHead(s[1..], NextSpan(s, a), fill);
      assert SpanRun(s, a, fill)[1..] == SpanRun(s[1..], NextSpan(s, a), fill);
    }
  }

  /** One copied byte: the image's tail is the tail's image. */
  lemma SpanStep(s: ByteString, a: SpanState, fill: ByteString)
    requires s != [] && !AtSubstitution(s, a)
    ensures var r := SpanRun(s, a, fill);
            r != [] && r[0] == s[0] && r[1..] == SpanRun(s[1..], NextSpan(s, a), fill)
            && SameHead(s[1..], r[1..])
  {
    SpanKeepsHead(s[1..], NextSpan(s, a), fill);
    hide NextSpan, BehindTag, AtSubstitution;
  }

  /** One rewritten body. */
  lemma SpanStepSubstitution(s: ByteString, a: SpanState, fill: ByteString)
    requires AtSubstitution(s, a)
    ensures var t := s[1..]; var r := SpanRun(s, a, fill);
            r != [] && r[0] == GT && r[1..] == fill + SpanRun(t[TextLen(t)..], Text, fill)
  {
    hide NextSpan;
  }

  /** Whether a tag closes does not depend on the rewriting. */
  lemma {:induction false} SpanKeepsTagEnd(q: Quote, s: ByteString, a: SpanState, fill: ByteString)
    requires SpanOk(s, a) && IsInert(fill)
    ensures TagEnd(q, SpanRun(s, a, fill)).Some? == TagEnd(q, s).Some?
    decreases |s|
  {
    if s != [] {
      var r := SpanRun(s, a, fill);
      if AtSubstitution(s, a) {
        SpanStepSubstitution(s, a, fill);
        SubstitutedBody(s, a);
        var t := s[1..];
        var n := TextLen(t);
        hide SpanRun, TextLen, IsInert, AtSubstitution, SpanOk;
        SpanKeepsTagEndBehind(q, s, r, t, n, fill);
        if !ClosesTag(q, s) {
          assert SpanOk(t[n..], Text) by { EverTextOk(t[n..]); }
          SpanKeepsTagEnd(q, t[n..], Text, fill);
        }
      } else {
        SpanStep(s, a, fill);
        SpanOkNext(s, a);
        var a' := NextSpan(s, a);
        hide SpanRun, NextSpan, SpanOk, AtSubstitution;
        if !ClosesTag(q, s) {
          SpanKeepsTagEnd(StepQuote(q, s[0]), s[1..], a', fill);
        }
      }
    }
  }

  lemma EverTextOk(s: ByteString)
    ensures SpanOk(s, Text)
  {
  }

  lemma SpanKeepsTagEndBehind(q: Quote, s: ByteString, r: ByteString, t: ByteString, n: nat, fill: ByteString)
    requires s != [] && s[0] == GT && t == s[1..] && n <= |t| && IsInert(t[..n]) && IsInert(fill)
    requires r != [] && r[0] == GT && r[1..] == fill + SpanRun(t[n..], Text, fill)
    ensures q.Neutral? ==> TagEnd(q, r).Some? && TagEnd(q, s).Some?
    ensures !q.Neutral? ==> TagEnd(q, s).Some? == TagEnd(q, t[n..]).Some?
    ensures !q.Neutral? ==> TagEnd(q, r).Some? == TagEnd(q, SpanRun(t[n..], Text, fill)).Some?
  {
    hide SpanRun, IsInert;
    InertTagEnd(q, t[..n], t[n..]);
    assert t[..n] + t[n..] == t;
    InertTagEnd(q, fill, SpanRun(t[n..], Text, fill));
  }

  lemma {:induction false} SpanKeepsLookBody(s: ByteString, seen: bool, fill: ByteString)
    ensures LookBody(SpanRun(s, Text, fill), seen) == LookBody(s, seen)
    decreases |s|
  {
    if s != [] {
      SpanStep(s, Text, fill);
      if s[0] == LT {
        hide SpanRun, CloseLen;
        SameHeadRecognition(s, SpanRun(s, Text, fill), SPAN_NAME);
      } else {
        SpanKeepsLookBody(s[1..], true, fill);
        hide SpanRun, CloseLen;
      }
    }
  }

  /** Seen from inside a rewritten tag, the body is not blank any more. */
  lemma {:induction false} SpanSettlesTag(q: Quote, s: ByteString, sub: bool, fill: ByteString)
    requires SpanOk(s, Tag(q, sub))
    requires fill != [] && fill[0] != LT && !IsBodyWhitespace(fill[0])
    ensures LookTag(q, SpanRun(s, Tag(q, sub), fill)) == Leave
    decreases |s|
  {
    var a := Tag(q, sub);
    if ClosesTag(q, s) {
      if sub {
        SpanStepSubstitution(s, a, fill);
        hide SpanRun, TextLen;
      } else {
        SpanStep(s, a, fill);
        SpanKeepsLookBody(s[1..], false, fill);
        hide SpanRun, LookBody;
      }
    } else {
      SpanStep(s, a, fill);
      SpanSettlesTag(StepQuote(q, s[0]), s[1..], sub, fill);
      hide SpanRun, LookBody;
    }
  }

  // ---- idempotence ----

  /** The state in which a second pass meets the output of the first. */
  function Settled(a: SpanState): SpanState {
    match a
    case Text => Text
    case Tag(q, _) => Tag(q, false)
  }

  /** The second pass takes the same turn at every copied byte. */
  lemma SettledNext(s: ByteString, a: SpanState)
    requires s != [] && SpanOk(s, a) && !AtSubstitution(s, a)
    ensures var r := SpanRun(s, a, SENTINEL);
            r != [] && NextSpan(r, Settled(a)) == Settled(NextSpan(s, a))
  {
    var r := SpanRun(s, a, SENTINEL);
    SpanStep(s, a, SENTINEL);
    if a.Text? && s[0] == LT {
      SameHeadRecognition(s, r, SPAN_NAME);
      SpanKeepsTagEnd(Neutral, s, a, SENTINEL);
      LookTagUnfold(Neutral, s);
      LookTagUnfold(Neutral, r);
      hide SpanRun, IsOpen, TagEnd, LookBody;
      if EntersSpan(s) {
        SettledEntry(s);
      }
    } else {
      hide SpanRun;
    }
  }

  lemma SettledEntry(s: ByteString)
    requires EntersSpan(s)
    ensures LookTag(Neutral, SpanRun(s, Text, SENTINEL)) == Leave
  {
    SpanStep(s, Text, SENTINEL);
    SpanOkNext(s, Text);
    var r := SpanRun(s, Text, SENTINEL);
    var sub := LookTag(Neutral, s) == Substitute;
    SpanSettlesTag(Neutral, s[1..], sub, SENTINEL);
    hide SpanRun, LookBody;
    assert LookTag(Neutral, r) == LookTag(Neutral, r[1..]);
  }

  lemma {:induction false} SpanRunTwice(s: ByteString, a: SpanState)
    requires SpanOk(s, a)
    ensures SpanRun(SpanRun(s, a, SENTINEL), Settled(a), SENTINEL) == SpanRun(s, a, SENTINEL)
    decreases |s|
  {
    if s != [] {
      var r := SpanRun(s, a, SENTINEL);
      if AtSubstitution(s, a) {
        var t := s[1..];
        var rest := t[TextLen(t)..];
        SpanStepSubstitution(s, a, SENTINEL);
        SpanRunTwice(rest, Text);
        var image := SpanRun(rest, Text, SENTINEL);
        SpanStep(r, Settled(a), SENTINEL);
        RunText(r[1..], |SENTINEL|, SENTINEL);
        assert r[1..][..3] == SENTINEL && r[1..][3..] == image;
      } else {
        SpanStep(s, a, SENTINEL);
        SettledNext(s, a);
        SpanOkNext(s, a);
        SpanRunTwice(s[1..], NextSpan(s, a));
        SpanStep(r, Settled(a), SENTINEL);
      }
    }
  }

  /** Rewriting spans twice is rewriting them once, on every input. */
  lemma PreserveIsIdempotent(html: ByteString)
    ensures Preserved(Preserved(html)) == Preserved(html)
  {
    SpanRunTwice(html, Text);
  }
}
