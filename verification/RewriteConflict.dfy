/** A document on which the order of the two passes matters. */
module RewriteConflict {
  import opened Wrappers
  import opened Bytes
  import opened Tags
  import opened CodespanFixup
  import opened CodeblockLinebreaks
  import opened SpanLaws
  import opened RewriteOrder

  /** `<pre><span </p> </span>`, cut where a scan changes state. */
  const EXAMPLE: ByteString := [LT] + (PRE_NAME + ([GT] + FROM_SPAN))
  const FROM_SPAN: ByteString := [LT] + (SPAN_NAME + [SPACE] + FROM_CLOSE)
  const FROM_CLOSE: ByteString := [LT] + ([SLASH] + P_NAME + ([GT] + BODY))
  const BODY: ByteString := [SPACE, LT, SLASH, 0x73, 0x70, 0x61, 0x6E, GT]

  lemma InertStep(s: ByteString, a: SpanState, b: BreakState)
    requires s != [] && IsInert(s[..1])
    ensures Conflicts(s, a, b) == Conflicts(s[1..], a, b)
    ensures a.Tag? ==> LookTag(a.q, s) == LookTag(a.q, s[1..])
  {
    assert s[..1][0] == s[0];
    hide IsInert, LookBody, AtLt, TextLen;
    if a.Tag? {
      assert LookTag(a.q, s) == LookTag(StepQuote(a.q, s[0]), s[1..]);
    }
    hide LookTag, Conflicts;
    assert NextSpan(s, a) == a && NextBreak(s, b) == b && !AtSubstitution(s, a);
    ConflictStep(s, a, b);
  }

  /** Letters, slashes and spaces leave both scans where they are. */
  lemma {:induction false} InertLeavesStates(u: ByteString, t: ByteString, a: SpanState, b: BreakState)
    requires IsInert(u)
    ensures Conflicts(u + t, a, b) == Conflicts(t, a, b)
    ensures a.Tag? ==> LookTag(a.q, u + t) == LookTag(a.q, t)
    decreases |u|
  {
    if u == [] {
      assert u + t == t;
    } else {
      assert IsInert(u[1..]) && IsInert((u + t)[..1]);
      hide *;
      assert (u + t)[1..] == u[1..] + t;
      InertStep(u + t, a, b);
      InertLeavesStates(u[1..], t, a, b);
    }
  }

  lemma ConflictStep(s: ByteString, a: SpanState, b: BreakState)
    requires s != [] && !AtSubstitution(s, a)
    ensures Conflicts(s, a, b) == Conflicts(s[1..], NextSpan(s, a), NextBreak(s, b))
  {
    hide AtSubstitution, NextSpan, NextBreak, TextLen;
  }

  lemma BodyIsBlank()
    ensures LookBody(BODY, false) == Substitute
  {
    var t := BODY[1..];
    assert t == [LT, SLASH, 0x73, 0x70, 0x61, 0x6E, GT];
    assert t[6..] == [GT];
    assert CloseLen(t, SPAN_NAME) == Some(7);
  }

  /** `>` ends both the tag to be rewritten and the `</p>`. */
  lemma GtConflicts(u: ByteString)
    requires u == [GT] + BODY
    ensures LookTag(Neutral, u) == Substitute
    ensures Conflicts(u, Tag(Neutral, true), Closing(true)) >= 1
  {
    BodyIsBlank();
    assert u[1..] == BODY && u[0] == GT;
    hide LookBody, TextLen, NextBreak, NextSpan;
  }

  lemma OtherName(s: ByteString, at: nat, name: ByteString, i: nat)
    requires i < |name| && at + i < |s| && ToLower(s[at + i]) != name[i]
    ensures !NameAt(s, at, name)
  {
  }

  lemma CloseOfExample(s: ByteString)
    requires |s| > 3 && s[0] == LT && s[1] == SLASH && s[2] == 0x70 && s[3] == GT
    ensures AtLt(s, true) == Closing(true)
  {
    assert CloseLen(s, P_NAME) == Some(4);
    OtherName(s, 2, PRE_NAME, 1);
  }

  lemma CloseConflicts()
    ensures LookTag(Neutral, FROM_CLOSE) == Substitute
    ensures Conflicts(FROM_CLOSE, Tag(Neutral, true), Plain(true)) >= 1
  {
    var s, u, a := FROM_CLOSE, [GT] + BODY, Tag(Neutral, true);
    assert s[1..] == [SLASH] + P_NAME + u;
    GtConflicts(u);
    CloseTurns(s, a);
    InertExample();
    hide *;
    ConflictStep(s, a, Plain(true));
    InertLeavesStates([SLASH] + P_NAME, u, a, Closing(true));
  }

  lemma CloseTurns(s: ByteString, a: SpanState)
    requires s == FROM_CLOSE && a == Tag(Neutral, true)
    ensures s != [] && LookTag(Neutral, s) == LookTag(Neutral, s[1..])
    ensures NextSpan(s, a) == a && NextBreak(s, Plain(true)) == Closing(true) && !AtSubstitution(s, a)
  {
    assert s[0] == LT && s[1] == SLASH && s[2] == 0x70 && s[3] == GT;
    CloseOfExample(s);
    hide LookBody, TextLen, CloseLen, AtLt;
  }

  lemma InertExample()
    ensures IsInert([SLASH] + P_NAME) && IsInert(SPAN_NAME + [SPACE]) && IsInert(PRE_NAME)
  {
  }

  lemma SpanOfExample(s: ByteString)
    requires |s| > 5 && s[0] == LT && s[1] == 0x73 && s[2] == 0x70 && s[3] == 0x61 && s[4] == 0x6E && s[5] == SPACE
    ensures IsOpen(s, SPAN_NAME) && AtLt(s, true) == Plain(true)
    ensures LookTag(Neutral, s) == LookTag(Neutral, s[1..])
  {
    hide LookTag, LookBody, CloseLen;
    OpenIsNotClose(s, SPAN_NAME, PRE_NAME);
    OpenIsNotClose(s, SPAN_NAME, DIV_NAME);
    OpenIsNotClose(s, SPAN_NAME, P_NAME);
    OpenIsNotClose(s, SPAN_NAME, TR_NAME);
    OpenIsNotClose(s, SPAN_NAME, LI_NAME);
    LookPast(s);
  }

  lemma LookPast(s: ByteString)
    requires s != [] && s[0] == LT
    ensures LookTag(Neutral, s) == LookTag(Neutral, s[1..])
  {
    hide LookBody;
  }

  lemma SpanConflicts()
    ensures Conflicts(FROM_SPAN, Text, Plain(true)) >= 1
  {
    var s, u := FROM_SPAN, SPAN_NAME + [SPACE];
    assert s[1..] == u + FROM_CLOSE;
    assert s[0] == LT && s[1] == 0x73 && s[2] == 0x70 && s[3] == 0x61 && s[4] == 0x6E && s[5] == SPACE;
    SpanOfExample(s);
    CloseConflicts();
    InertExample();
    hide LookTag, Conflicts, AtLt, IsOpen, IsInert;
    InertLeavesStates(u, FROM_CLOSE, Tag(Neutral, true), Plain(true));
    assert NextSpan(s, Text) == Tag(Neutral, true) && NextBreak(s, Plain(true)) == Plain(true);
    ConflictStep(s, Text, Plain(true));
  }

  lemma PreOfExample(s: ByteString, u: ByteString)
    requires |s| > 4 && s[0] == LT && s[1] == 0x70 && s[2] == 0x72 && s[3] == 0x65 && s[4] == GT
    requires u != [] && u[0] == GT && s[1..] == PRE_NAME + u
    ensures IsOpen(s, PRE_NAME) && TagEnd(Neutral, s).Some? && !IsOpen(s, SPAN_NAME)
  {
    InertExample();
    InertTagEnd(Neutral, PRE_NAME, u);
    OtherName(s, 1, SPAN_NAME, 0);
  }

  lemma ExampleConflicts()
    ensures Conflicts(EXAMPLE, Text, Plain(false)) >= 1
  {
    var s, u := EXAMPLE, [GT] + FROM_SPAN;
    assert s[1..] == PRE_NAME + u && u[1..] == FROM_SPAN && u[0] == GT;
    assert s[0] == LT && s[1] == 0x70 && s[2] == 0x72 && s[3] == 0x65 && s[4] == GT;
    PreOfExample(s, u);
    SpanConflicts();
    InertExample();
    hide LookTag, Conflicts, TagEnd, IsOpen, IsInert;
    assert NextSpan(s, Text) == Text && NextBreak(s, Plain(false)) == PreTag(Neutral);
    ConflictStep(s, Text, Plain(false));
    InertLeavesStates(PRE_NAME, u, Text, PreTag(Neutral));
    assert NextSpan(u, Text) == Text && NextBreak(u, PreTag(Neutral)) == Plain(true);
    ConflictStep(u, Text, PreTag(Neutral));
  }

  /** Spans first gives a newline that breaks first does not. */
  lemma PassesNeedNotCommute()
    ensures Broken(Preserved(EXAMPLE)) != Preserved(Broken(EXAMPLE))
  {
    hide *;
    ExampleConflicts();
    PassesCommuteIff(EXAMPLE);
  }
}
