/**
 The two rewriting passes together, as src/util/extract.rs:272 composes them:
 when they commute, and that the composition is idempotent.
 */
module RewriteOrder {
  import opened Bytes
  import opened TagExtent
  import opened Tags
  import opened CodespanFixup
  import opened CodeblockLinebreaks
  import opened SpanLaws
  import opened BreakLaws

  /** `patched` in `extract_from_html_impl`. */
  function Patched(html: ByteString): ByteString {
    Broken(Preserved(html))
  }

  /**
   Number of whitespace-only spans whose opening tag ends in a line-boundary
   close recognised inside a pre, in a joint scan of `s`.
   */
  function Conflicts(s: ByteString, a: SpanState, b: BreakState): nat
    decreases |s|
  {
    if s == [] then 0
    else if AtSubstitution(s, a) then
      (if AtBoundary(s, b) then 1 else 0)
      + Conflicts(s[1..][TextLen(s[1..])..], Text, NextBreak(s, b))
    else Conflicts(s[1..], NextSpan(s, a), NextBreak(s, b))
  }

  // ---- each pass over the output of the other ----

  lemma SpanKeepsAtLt(s: ByteString, a: SpanState, inPre: bool)
    requires s != [] && s[0] == LT && SpanOk(s, a)
    ensures var r := SpanRun(s, a, SENTINEL); r != [] && AtLt(r, inPre) == AtLt(s, inPre)
  {
    hide AtLt, TagEnd, SameHead, NextSpan, SpanRun;
    SpanStep(s, a, SENTINEL);
    SpanKeepsTagEnd(Neutral, s, a, SENTINEL);
    SameHeadAtLt(s, SpanRun(s, a, SENTINEL), inPre);
  }

  lemma SpanKeepsNeed(s: ByteString, a: SpanState)
    ensures NeedsBreak(SpanRun(s, a, SENTINEL)) == NeedsBreak(s)
  {
    if s != [] {
      if AtSubstitution(s, a) {
        SpanStepSubstitution(s, a, SENTINEL);
        hide SpanRun, NextSpan;
      } else {
        SpanStep(s, a, SENTINEL);
        if |s| > 1 && s[0] == LT {
          SpanFront(s[1..], NextSpan(s, a));
        }
        hide SpanRun, NextSpan;
      }
    }
  }

  lemma SpanFront(s: ByteString, a: SpanState)
    requires s != []
    ensures SpanRun(s, a, SENTINEL) != [] && SpanRun(s, a, SENTINEL)[0] == s[0]
  {
    hide NextSpan, BehindTag;
  }

  /** Breaking takes the same turn before and after the span pass. */
  lemma BreakTurn(s: ByteString, a: SpanState, b: BreakState)
    requires s != [] && SpanOk(s, a) && !AtSubstitution(s, a)
    ensures var r := SpanRun(s, a, SENTINEL);
            r != [] && NextBreak(r, b) == NextBreak(s, b) && Inserted(r, b) == Inserted(s, b)
  {
    SpanStep(s, a, SENTINEL);
    SpanKeepsNeed(s[1..], NextSpan(s, a));
    if s[0] == LT && b.Plain? {
      SpanKeepsAtLt(s, a, b.inPre);
    }
    hide SpanRun, NextSpan, NeedsBreak, AtLt, AtSubstitution, SpanOk;
  }

  /** The span pass takes the same turn before and after breaking. */
  lemma SpanTurn(s: ByteString, a: SpanState, b: BreakState)
    requires s != []
    ensures var r := BreakRun(s, b);
            r != [] && r[0] == s[0] && NextSpan(r, a) == NextSpan(s, a)
            && AtSubstitution(r, a) == AtSubstitution(s, a)
  {
    BreakStep(s, b);
    var r := BreakRun(s, b);
    BreakKeepsLookTag(Neutral, s, b);
    hide BreakRun, NextBreak, LookTag, BreakDue, SameHead;
    if s[0] == LT {
      SameHeadRecognition(s, r, SPAN_NAME);
    }
  }

  lemma SpanOverNewline(s: ByteString, a: SpanState)
    ensures SpanRun([NEWLINE] + s, a, SENTINEL) == [NEWLINE] + SpanRun(s, a, SENTINEL)
  {
    var t := [NEWLINE] + s;
    assert t[1..] == s && t[0] == NEWLINE;
    hide BehindTag, LookTag;
  }

  /** Inert text is copied by the break pass, outside closing tags. */
  lemma {:induction false} BreakOverInert(u: ByteString, s: ByteString, b: BreakState)
    requires IsInert(u) && !b.Closing?
    ensures BreakRun(u + s, b) == u + BreakRun(s, b)
    decreases |u|
  {
    if u == [] {
      assert u + s == s && u + BreakRun(s, b) == BreakRun(s, b);
    } else {
      assert (u + s)[1..] == u[1..] + s && (u + s)[0] == u[0];
      InertStep(u, u + s, b);
      assert IsInert(u[1..]);
      hide IsInert, BreakDue, NextBreak;
      BreakOverInert(u[1..], s, b);
      assert u + BreakRun(s, b) == [u[0]] + (u[1..] + BreakRun(s, b));
    }
  }

  lemma InertStep(u: ByteString, s: ByteString, b: BreakState)
    requires u != [] && IsInert(u) && s != [] && s[0] == u[0] && !b.Closing?
    ensures !BreakDue(s, b) && NextBreak(s, b) == b
  {
    hide AtLt, NeedsBreak;
  }

  // ---- the joint scan ----

  function BreakAfterSpan(s: ByteString, a: SpanState, b: BreakState): ByteString {
    BreakRun(SpanRun(s, a, SENTINEL), b)
  }

  function SpanAfterBreak(s: ByteString, a: SpanState, b: BreakState): ByteString {
    SpanRun(BreakRun(s, b), a, SENTINEL)
  }

  /** A byte both passes copy. */
  lemma CopiedByBoth(s: ByteString, a: SpanState, b: BreakState)
    requires s != [] && SpanOk(s, a) && !AtSubstitution(s, a)
    ensures var t := s[1..]; var a' := NextSpan(s, a); var b' := NextBreak(s, b);
            && BreakAfterSpan(s, a, b) == [s[0]] + (Inserted(s, b) + BreakAfterSpan(t, a', b'))
            && SpanAfterBreak(s, a, b) == [s[0]] + (Inserted(s, b) + SpanAfterBreak(t, a', b'))
  {
    hide SpanRun, BreakRun, NextSpan, NextBreak, Inserted, AtSubstitution, SpanOk;
    CopiedBySpan(s, a, b);
    CopiedByBreak(s, a, b);
  }

  lemma CopiedBySpan(s: ByteString, a: SpanState, b: BreakState)
    requires s != [] && SpanOk(s, a) && !AtSubstitution(s, a)
    ensures BreakAfterSpan(s, a, b) ==
            [s[0]] + (Inserted(s, b) + BreakAfterSpan(s[1..], NextSpan(s, a), NextBreak(s, b)))
  {
    hide SpanRun, BreakRun, NextSpan, NextBreak, Inserted, AtSubstitution, SpanOk, SameHead;
    var r := SpanRun(s, a, SENTINEL);
    SpanStep(s, a, SENTINEL);
    BreakTurn(s, a, b);
    BreakStep(r, b);
  }

  lemma CopiedByBreak(s: ByteString, a: SpanState, b: BreakState)
    requires s != [] && !AtSubstitution(s, a)
    ensures SpanAfterBreak(s, a, b) ==
            [s[0]] + (Inserted(s, b) + SpanAfterBreak(s[1..], NextSpan(s, a), NextBreak(s, b)))
  {
    hide SpanRun, BreakRun, NextSpan, NextBreak, AtSubstitution, BreakDue, SameHead;
    var r := BreakRun(s, b);
    var image := BreakRun(s[1..], NextBreak(s, b));
    BreakStep(s, b);
    SpanTurn(s, a, b);
    SpanStep(r, a, SENTINEL);
    SpanOverNewline(image, NextSpan(s, a));
    assert [] + image == image;
    var tail := SpanRun(image, NextSpan(s, a), SENTINEL);
    assert [] + tail == tail;
  }

  /** A body the span pass rewrites. */
  lemma SubstitutedBySpan(s: ByteString, a: SpanState, b: BreakState)
    requires s != [] && SpanOk(s, a) && AtSubstitution(s, a)
    ensures var rest := s[1..][TextLen(s[1..])..]; var b' := NextBreak(s, b);
            BreakAfterSpan(s, a, b) ==
            [GT] + ((if AtBoundary(s, b) then [NEWLINE] else []) + (SENTINEL + BreakAfterSpan(rest, Text, b')))
  {
    var r := SpanRun(s, a, SENTINEL);
    var rest := s[1..][TextLen(s[1..])..];
    var x := SpanRun(rest, Text, SENTINEL);
    SpanStepSubstitution(s, a, SENTINEL);
    BreakStep(r, b);
    BreakOverInert(SENTINEL, x, NextBreak(s, b));
    hide SpanRun, BreakRun, SpanOk, TextLen, AtLt, SameHead;
    assert NextBreak(r, b) == NextBreak(s, b);
    assert r[1..][0] == SENTINEL[0];
    assert BreakDue(r, b) == AtBoundary(s, b);
  }

  lemma SubstitutedByBreak(s: ByteString, a: SpanState, b: BreakState)
    requires s != [] && SpanOk(s, a) && AtSubstitution(s, a)
    ensures var rest := s[1..][TextLen(s[1..])..]; var b' := NextBreak(s, b);
            SpanAfterBreak(s, a, b) == [GT] + (SENTINEL + SpanAfterBreak(rest, Text, b'))
  {
    var t := s[1..];
    var n := TextLen(t);
    var r := BreakRun(s, b);
    var image := BreakRun(t[n..], NextBreak(s, b));
    BrokenBody(s, a, b);
    SpanTurn(s, a, b);
    SpanStepSubstitution(r, a, SENTINEL);
    BrokenBodyLen(s, a, b);
    hide *;
    assert (t[..n] + image)[n..] == image;
  }

  /** The body of a span to be rewritten takes no newline. */
  lemma BrokenBody(s: ByteString, a: SpanState, b: BreakState)
    requires s != [] && SpanOk(s, a) && AtSubstitution(s, a)
    ensures var t := s[1..]; var n := TextLen(t);
            BreakRun(s, b)[1..] == t[..n] + BreakRun(t[n..], NextBreak(s, b))
  {
    hide *;
    var t := s[1..];
    var n := TextLen(t);
    SubstitutedBody(s, a);
    BodyTakesNoBreak(s, a, b);
    assert t[..n] + t[n..] == t;
    BreakOverInert(t[..n], t[n..], NextBreak(s, b));
  }

  lemma BodyTakesNoBreak(s: ByteString, a: SpanState, b: BreakState)
    requires s != [] && SpanOk(s, a) && AtSubstitution(s, a)
    ensures !NextBreak(s, b).Closing? && BreakRun(s, b)[1..] == BreakRun(s[1..], NextBreak(s, b))
  {
    var t := s[1..];
    var image := BreakRun(t, NextBreak(s, b));
    SubstitutedBody(s, a);
    assert IsBodyWhitespace(t[..TextLen(t)][0]);
    BreakStep(s, b);
    hide BreakRun, SpanOk, TextLen, AtLt, SameHead, AtSubstitution, IsInert, IsBlankBody, CloseLen;
    assert !BreakDue(s, b);
    assert [] + image == image;
  }

  lemma BrokenBodyLen(s: ByteString, a: SpanState, b: BreakState)
    requires s != [] && SpanOk(s, a) && AtSubstitution(s, a)
    ensures var t := s[1..]; var n := TextLen(t);
            n < |t| && TextLen(t[..n] + BreakRun(t[n..], NextBreak(s, b))) == n
  {
    var t := s[1..];
    var n := TextLen(t);
    SubstitutedBody(s, a);
    BreakStep(t[n..], NextBreak(s, b));
    hide BreakRun, SpanOk, TextLen, NextBreak, SameHead, AtSubstitution, IsInert, IsBlankBody, CloseLen;
    TextLenOf(t[..n], BreakRun(t[n..], NextBreak(s, b)));
  }

  lemma {:induction false} TextLenOf(u: ByteString, rest: ByteString)
    requires IsInert(u) && rest != [] && rest[0] == LT
    ensures TextLen(u + rest) == |u|
    decreases |u|
  {
    if u == [] {
      assert u + rest == rest;
    } else {
      assert (u + rest)[1..] == u[1..] + rest;
      TextLenOf(u[1..], rest);
    }
  }

  /** The two orders differ by one newline per conflict, and by nothing else. */
  lemma {:induction false} OrdersDiffer(s: ByteString, a: SpanState, b: BreakState)
    requires SpanOk(s, a)
    ensures |BreakAfterSpan(s, a, b)| == |SpanAfterBreak(s, a, b)| + Conflicts(s, a, b)
    ensures Conflicts(s, a, b) == 0 ==> BreakAfterSpan(s, a, b) == SpanAfterBreak(s, a, b)
    decreases |s|
  {
    if s != [] {
      var b' := NextBreak(s, b);
      if AtSubstitution(s, a) {
        var rest := s[1..][TextLen(s[1..])..];
        EverTextOk(rest);
        hide SpanRun, BreakRun, NextSpan, NextBreak, AtSubstitution, AtBoundary, SpanOk, BreakAfterSpan, SpanAfterBreak, TextLen;
        SubstitutedBySpan(s, a, b);
        SubstitutedByBreak(s, a, b);
        OrdersDiffer(rest, Text, b');
      } else {
        SpanOkNext(s, a);
        hide SpanRun, BreakRun, NextSpan, NextBreak, AtSubstitution, Inserted, SpanOk, BreakAfterSpan, SpanAfterBreak;
        CopiedByBoth(s, a, b);
        OrdersDiffer(s[1..], NextSpan(s, a), b');
      }
    }
  }

  /** The passes commute on exactly the documents without a conflict. */
  lemma PassesCommuteIff(html: ByteString)
    ensures Broken(Preserved(html)) == Preserved(Broken(html)) <==> Conflicts(html, Text, Plain(false)) == 0
    ensures |Broken(Preserved(html))| == |Preserved(Broken(html))| + Conflicts(html, Text, Plain(false))
  {
    EverTextOk(html);
    OrdersDiffer(html, Text, Plain(false));
    hide SpanRun, BreakRun, Conflicts;
  }

  // ---- a condition on the document alone ----

  /** No `<` before the end of the tag entered in quote state `q`. */
  ghost predicate CleanTag(q: Quote, s: ByteString)
    decreases |s|
  {
    s != [] && !ClosesTag(q, s) ==> s[0] != LT && CleanTag(StepQuote(q, s[0]), s[1..])
  }

  lemma {:induction false} CleanTagFromIndices(q: Quote, s: ByteString)
    requires TagEnd(q, s).Some? && forall k :: 0 <= k <= TagEnd(q, s).value ==> s[k] != LT
    ensures CleanTag(q, s)
    decreases |s|
  {
    if !ClosesTag(q, s) {
      var t := s[1..];
      forall k | 0 <= k <= TagEnd(StepQuote(q, s[0]), t).value ensures t[k] != LT {
        assert t[k] == s[k + 1];
      }
      CleanTagFromIndices(StepQuote(q, s[0]), t);
    }
  }

  lemma CleanSuffix(s: ByteString, n: nat)
    requires CleanTags(s, SPAN_NAME) && n <= |s|
    ensures CleanTags(s[n..], SPAN_NAME)
  {
    hide IsOpen, TagEnd;
    var t := s[n..];
    forall i | 0 <= i < |t| && IsOpen(t[i..], SPAN_NAME) && TagEnd(Neutral, t[i..]).Some?
      ensures forall k :: 1 <= k <= TagEnd(Neutral, t[i..]).value ==> t[i..][k] != LT
    {
      assert t[i..] == s[n + i..];
    }
  }

  lemma CleanEntry(s: ByteString)
    requires CleanTags(s, SPAN_NAME) && EntersSpan(s)
    ensures CleanTag(Neutral, s[1..])
  {
    assert s[0..] == s;
    LookTagUnfold(Neutral, s);
    var t := s[1..];
    forall k | 0 <= k <= TagEnd(Neutral, t).value ensures t[k] != LT {
      assert t[k] == s[0..][k + 1];
    }
    CleanTagFromIndices(Neutral, t);
  }

  /** The scans are never inside a span tag and a closing tag at once. */
  ghost predicate Apart(s: ByteString, a: SpanState, b: BreakState) {
    && (a.Tag? ==> CleanTag(a.q, s) && !b.Closing?)
    && (b.Closing? ==> CleanClose(s))
  }

  lemma ApartNext(s: ByteString, a: SpanState, b: BreakState)
    requires s != [] && CleanTags(s, SPAN_NAME) && Apart(s, a, b)
    ensures Apart(s[1..], NextSpan(s, a), NextBreak(s, b))
  {
    var a' := NextSpan(s, a);
    var b' := NextBreak(s, b);
    if b'.Closing? {
      CleanCloseNext(s, b);
    }
    if a.Text? && a'.Tag? {
      CleanEntry(s);
      OpenIsNotClose(s, SPAN_NAME, PRE_NAME);
      OpenIsNotClose(s, SPAN_NAME, DIV_NAME);
      OpenIsNotClose(s, SPAN_NAME, P_NAME);
      OpenIsNotClose(s, SPAN_NAME, TR_NAME);
      OpenIsNotClose(s, SPAN_NAME, LI_NAME);
      hide CloseLen, LookTag, TagEnd;
    } else {
      hide CloseLen, LookTag, TagEnd, IsOpen, AtLt;
    }
  }

  lemma {:induction false} ApartHasNoConflict(s: ByteString, a: SpanState, b: BreakState)
    requires CleanTags(s, SPAN_NAME) && Apart(s, a, b)
    ensures Conflicts(s, a, b) == 0
    decreases |s|
  {
    if s != [] {
      hide CleanTags, LookTag, AtLt, CleanTag, CleanClose, EntersSpan;
      CleanSuffix(s, 1);
      if AtSubstitution(s, a) {
        var t := s[1..];
        CleanSuffix(t, TextLen(t));
        ApartHasNoConflict(t[TextLen(t)..], Text, NextBreak(s, b));
      } else {
        ApartNext(s, a, b);
        ApartHasNoConflict(s[1..], NextSpan(s, a), NextBreak(s, b));
      }
    }
  }

  /** With no `<` inside span opening tags the order of the passes is immaterial. */
  lemma CleanDocumentsCommute(html: ByteString)
    requires CleanTags(html, SPAN_NAME)
    ensures Broken(Preserved(html)) == Preserved(Broken(html))
  {
    hide CleanTags;
    ApartHasNoConflict(html, Text, Plain(false));
    PassesCommuteIff(html);
  }

  // ---- idempotence of the composition ----

  lemma {:induction false} FixedHasNoConflict(s: ByteString, a: SpanState, b: BreakState)
    requires SpanOk(s, a) && SpanRun(s, a, SENTINEL) == s
    ensures Conflicts(s, a, b) == 0
    decreases |s|
  {
    if s != [] {
      if AtSubstitution(s, a) {
        SubstitutedBody(s, a);
        SpanStepSubstitution(s, a, SENTINEL);
        assert false;
      } else {
        SpanStep(s, a, SENTINEL);
        SpanOkNext(s, a);
        FixedHasNoConflict(s[1..], NextSpan(s, a), NextBreak(s, b));
      }
    }
  }

  /** Patching a patched document changes nothing, on every input. */
  lemma PatchingIsIdempotent(html: ByteString)
    ensures Patched(Patched(html)) == Patched(html)
  {
    var y := Preserved(html);
    PreserveIsIdempotent(html);
    EverTextOk(y);
    FixedHasNoConflict(y, Text, Plain(false));
    hide SpanRun, BreakRun, Conflicts, SpanOk;
    PassesCommuteIff(y);
    assert Preserved(Broken(y)) == Broken(y);
    BreaksAreIdempotent(y);
  }
}
