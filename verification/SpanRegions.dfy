/**
 The span pass by position alone: which bodies it replaces, where no `<span ...>`
 tag holds a second `<`.
 */
module SpanRegions {
  import opened Wrappers
  import opened Bytes
  import opened Tags
  import opened TagExtent
  import opened TagText
  import opened CodespanFixup
  import opened WhitespaceRestore

  // ---- the bodies to replace, in bytes ----

  /** `t[i..e]` is a `<span ...>` tag, as `find_tag_end` delimits it. */
  ghost predicate SpanTag(t: ByteString, i: nat, e: nat) {
    OpenAt(t, i, "span") && i < e <= |t| && TagEnd(Neutral, t[i..]) == Some(e - 1 - i)
  }

  /** `t[e..j]` is all of a span's body, and made of spaces, tabs, newlines and carriage returns only. */
  ghost predicate BlankSpan(t: ByteString, e: nat, j: nat) {
    && e < j < |t| && (forall k :: e <= k < j ==> t[k] in {0x20, 0x09, 0x0A, 0x0D})
    && (exists i: nat :: SpanTag(t, i, e))
    && exists p: nat :: CloseAt(t, j, p, "span")
  }

  /** Position of the first `<` from `pos` on. */
  function BodyEnd(t: ByteString, pos: nat): (j: nat)
    requires pos <= |t|
    ensures pos <= j <= |t| && (forall k :: pos <= k < j ==> t[k] != 0x3C) && (j < |t| ==> t[j] == 0x3C)
  {
    assert forall k :: pos <= k < pos + TextLen(t[pos..]) ==> t[k] == t[pos..][k - pos];
    pos + TextLen(t[pos..])
  }

  /** A body to replace starts at `pos`. */
  ghost predicate BodyAt(t: ByteString, pos: nat) {
    pos <= |t| && BlankSpan(t, pos, BodyEnd(t, pos))
  }

  /** The text from `pos` on with `fill` for every such body. */
  ghost function Filled(t: ByteString, pos: nat, fill: ByteString): ByteString
    decreases |t| - pos
  {
    if pos >= |t| then []
    else if BodyAt(t, pos) then fill + Filled(t, BodyEnd(t, pos), fill)
    else [t[pos]] + Filled(t, pos + 1, fill)
  }

  /** A body has one end. */
  lemma BodyEndsOnce(t: ByteString, e: nat, j: nat)
    requires BlankSpan(t, e, j)
    ensures j == BodyEnd(t, e) && BodyAt(t, e)
  {
    var p: nat :| CloseAt(t, j, p, "span");
    assert t[j] == 0x3C;
    hide CloseAt, SpanTag;
  }

  // ---- recognition is this text ----

  lemma SpanTagMeans(t: ByteString, i: nat, e: nat)
    ensures SpanTag(t, i, e) <==> TagBefore(t, i, e, SPAN_NAME)
  {
    NamesSpelt();
    assert IsLowerName("span");
    if i < e <= |t| {
      OpenMeans(t, i, "span");
    }
    hide OpenAt, IsOpen, TagEnd, Ascii;
  }

  lemma SpanCloseMeans(t: ByteString, j: nat)
    requires j <= |t|
    ensures (exists p: nat :: CloseAt(t, j, p, "span")) <==> CloseLen(t[j..], SPAN_NAME).Some?
  {
    NamesSpelt();
    assert IsLowerName("span");
    var r := CloseLen(t[j..], SPAN_NAME);
    if r.Some? {
      CloseMeans(t, j, j + r.value, "span");
    }
    forall p: nat | CloseAt(t, j, p, "span") ensures r.Some? {
      CloseMeans(t, j, p, "span");
      hide CloseAt, CloseLen, Ascii;
    }
    hide CloseAt, CloseLen, Ascii;
  }

  lemma BlankMeans(t: ByteString, e: nat, j: nat)
    requires e <= j <= |t|
    ensures IsBlankBody(t[e..j]) <==> forall k :: e <= k < j ==> t[k] in {0x20, 0x09, 0x0A, 0x0D}
  {
    var u := t[e..j];
    assert forall k :: e <= k < j ==> t[k] == u[k - e];
    assert forall k :: 0 <= k < |u| ==> u[k] == t[k + e];
  }

  /** A body behind a tag is replaced exactly if it is blank. */
  lemma BodyMeans(t: ByteString, i: nat, e: nat)
    requires TagBefore(t, i, e, SPAN_NAME)
    ensures LookTag(Neutral, t[i..]) == Substitute <==> BodyAt(t, e)
  {
    assert e <= |t| && SpanTag(t, i, e) by { SpanTagMeans(t, i, e); }
    assert t[i..][e - i..] == t[e..];
    LookTagUnfold(Neutral, t[i..]);
    var j := BodyEnd(t, e);
    BodyVerdict(t, e, j);
    BlankMeans(t, e, j);
    SpanCloseMeans(t, j);
    hide SpanTag, CloseAt, CloseLen, IsBlankBody, LookTag, LookBody, TagEnd, IsOpen, BodyEnd;
  }

  // ---- what a scan knows of the tags around it ----

  ghost predicate TagOk(t: ByteString, i: nat, pos: nat, a: SpanState) {
    InsideTag(t, i, pos, SPAN_NAME) ==>
      && a.Tag? && TagEnd(a.q, t[pos..]) == Some(ToEnd(t, i, pos, SPAN_NAME))
      && (a.sub <==> LookTag(Neutral, t[i..]) == Substitute)
  }

  ghost predicate Informed(t: ByteString, pos: nat, a: SpanState) {
    && pos <= |t|
    && (forall i: nat :: TagOk(t, i, pos, a))
    && (a.Tag? ==> InsideAny(t, pos, SPAN_NAME))
  }

  /** At a `<` the scan is between tags. */
  lemma TextAtLt(t: ByteString, pos: nat, a: SpanState)
    requires CleanTags(t, SPAN_NAME) && Informed(t, pos, a) && pos < |t| && t[pos] == LT
    ensures a == Text
  {
    hide CleanTags, InsideTag, TagOk;
    if a.Tag? {
      var i: nat :| InsideTag(t, i, pos, SPAN_NAME);
      InsideIsClean(t, i, pos, SPAN_NAME);
    }
  }

  /** The `<` of a tag that closes. */
  lemma EnteredOk(t: ByteString, pos: nat)
    requires pos < |t| && IsOpen(t[pos..], SPAN_NAME) && TagEnd(Neutral, t[pos..]).Some?
    ensures NextSpan(t[pos..], Text) == Tag(Neutral, LookTag(Neutral, t[pos..]) == Substitute)
    ensures TagOk(t, pos, pos + 1, NextSpan(t[pos..], Text)) && InsideTag(t, pos, pos + 1, SPAN_NAME)
  {
    LookTagUnfold(Neutral, t[pos..]);
    EnterTag(t, pos, SPAN_NAME);
    hide IsOpen, TagEnd, LookTag;
  }

  /** A further byte of a tag. */
  lemma InsideStep(t: ByteString, i: nat, pos: nat, a: SpanState)
    requires pos < |t| && InsideTag(t, i, pos, SPAN_NAME) && TagOk(t, i, pos, a)
    ensures a.Tag? && (ToEnd(t, i, pos, SPAN_NAME) == 0 <==> ClosesTag(a.q, t[pos..]))
    ensures ToEnd(t, i, pos, SPAN_NAME) > 0 ==>
              && InsideTag(t, i, pos + 1, SPAN_NAME)
              && NextSpan(t[pos..], a).Tag? && TagOk(t, i, pos + 1, NextSpan(t[pos..], a))
  {
    assert t[pos..][0] == t[pos];
    TagEndStep(a.q, t, pos);
    hide IsOpen, TagEnd, StepQuote, LookTag, EntersSpan;
  }

  lemma TagOkNext(t: ByteString, i: nat, pos: nat, a: SpanState)
    requires CleanTags(t, SPAN_NAME) && Informed(t, pos, a) && pos < |t|
    ensures TagOk(t, i, pos + 1, NextSpan(t[pos..], a))
  {
    if InsideTag(t, i, pos + 1, SPAN_NAME) {
      if i == pos {
        assert t[pos] == LT by { assert t[pos..][0] == LT; }
        TextAtLt(t, pos, a);
        EnteredOk(t, pos);
      } else {
        assert InsideTag(t, i, pos, SPAN_NAME) && ToEnd(t, i, pos, SPAN_NAME) > 0;
        assert TagOk(t, i, pos, a);
        hide Informed, TagOk, InsideTag, ToEnd;
        InsideStep(t, i, pos, a);
      }
    }
  }

  lemma InsideNext(t: ByteString, pos: nat, a: SpanState)
    requires Informed(t, pos, a) && pos < |t| && NextSpan(t[pos..], a).Tag?
    ensures InsideAny(t, pos + 1, SPAN_NAME)
  {
    if a.Tag? {
      hide InsideTag, TagOk, ToEnd;
      var i: nat :| InsideTag(t, i, pos, SPAN_NAME);
      assert TagOk(t, i, pos, a);
      hide Informed;
      InsideStep(t, i, pos, a);
    } else {
      hide Informed, TagOk;
      LookTagUnfold(Neutral, t[pos..]);
      EnteredOk(t, pos);
    }
  }

  lemma InformedNext(t: ByteString, pos: nat, a: SpanState)
    requires CleanTags(t, SPAN_NAME) && Informed(t, pos, a) && pos < |t|
    ensures Informed(t, pos + 1, NextSpan(t[pos..], a))
  {
    var next := pos + 1;
    var a' := NextSpan(t[pos..], a);
    forall i: nat ensures TagOk(t, i, next, a') {
      TagOkNext(t, i, pos, a);
    }
    if a'.Tag? {
      InsideNext(t, pos, a);
    }
    hide TagOk, InsideAny, CleanTags, NextSpan;
  }

  // ---- a body is replaced exactly where it is blank ----

  /** Where the scan replaces, a body starts behind the byte. */
  lemma ReplacedIsBody(t: ByteString, pos: nat, a: SpanState)
    requires Informed(t, pos, a) && pos < |t| && AtSubstitution(t[pos..], a)
    ensures BodyAt(t, pos + 1) && t[pos] == GT
  {
    assert t[pos..][0] == t[pos];
    hide InsideTag, TagOk, ToEnd, BodyAt;
    var i: nat :| InsideTag(t, i, pos, SPAN_NAME);
    assert TagOk(t, i, pos, a);
    hide Informed;
    EndedHere(t, i, pos, a);
    BodyMeans(t, i, pos + 1);
  }

  lemma EndedHere(t: ByteString, i: nat, pos: nat, a: SpanState)
    requires pos < |t| && InsideTag(t, i, pos, SPAN_NAME) && TagOk(t, i, pos, a) && a.Tag?
    requires ClosesTag(a.q, t[pos..])
    ensures TagBefore(t, i, pos + 1, SPAN_NAME)
    ensures a.sub <==> LookTag(Neutral, t[i..]) == Substitute
  {
    InsideStep(t, i, pos, a);
    hide IsOpen, TagEnd, LookTag, ClosesTag;
  }

  /** And where a body starts behind the byte, the scan replaces it. */
  lemma BodyIsReplaced(t: ByteString, pos: nat, a: SpanState)
    requires Informed(t, pos, a) && pos < |t| && BodyAt(t, pos + 1)
    ensures AtSubstitution(t[pos..], a)
  {
    var i: nat :| SpanTag(t, i, pos + 1);
    SpanTagMeans(t, i, pos + 1);
    JustEnded(t, i, pos, SPAN_NAME);
    BodyMeans(t, i, pos + 1);
    assert TagOk(t, i, pos, a);
    hide Informed, BodyAt, SpanTag, TagBefore, LookTag, InsideTag, ToEnd;
    InsideStep(t, i, pos, a);
    SubIs(t, i, pos, a);
  }

  lemma SubIs(t: ByteString, i: nat, pos: nat, a: SpanState)
    requires InsideTag(t, i, pos, SPAN_NAME) && TagOk(t, i, pos, a)
    ensures a.Tag? && (a.sub <==> LookTag(Neutral, t[i..]) == Substitute)
  {
    hide InsideTag, LookTag;
  }

  /** Behind a replaced body the scan is between tags. */
  lemma InformedBehind(t: ByteString, pos: nat, a: SpanState)
    requires Informed(t, pos, a) && pos < |t| && AtSubstitution(t[pos..], a) && BodyAt(t, pos + 1)
    ensures Informed(t, BodyEnd(t, pos + 1), Text)
  {
    var j := BodyEnd(t, pos + 1);
    assert t[pos..][0] == GT && t[pos] == GT;
    forall i: nat ensures TagOk(t, i, j, Text) {
      assert TagOk(t, i, pos, a);
      NotInsideBehind(t, i, pos, a, j);
    }
    hide TagOk, BodyAt, BodyEnd;
  }

  lemma NotInsideBehind(t: ByteString, i: nat, pos: nat, a: SpanState, j: nat)
    requires pos < j <= |t| && t[pos] == GT && TagOk(t, i, pos, a) && a.Tag? && ClosesTag(a.q, t[pos..])
    requires forall k :: pos + 1 <= k < j ==> t[k] != LT
    ensures TagOk(t, i, j, Text)
  {
    if InsideTag(t, i, j, SPAN_NAME) {
      assert t[i..][0] == LT && t[i] == LT;
      assert InsideTag(t, i, pos, SPAN_NAME);
      InsideStep(t, i, pos, a);
    }
  }

  lemma NoBodyAtLt(t: ByteString, pos: nat)
    requires pos < |t| && t[pos] == 0x3C
    ensures !BodyAt(t, pos)
  {
    hide SpanTag, CloseAt;
  }

  lemma BodyEndIsLt(t: ByteString, pos: nat)
    requires BodyAt(t, pos)
    ensures pos < BodyEnd(t, pos) < |t| && t[BodyEnd(t, pos)] == 0x3C
    ensures t[pos..][TextLen(t[pos..])..] == t[BodyEnd(t, pos)..]
  {
    hide SpanTag, CloseAt, TextLen;
  }

  // ---- the whole pass ----

  lemma {:induction false} RunIsFilled(t: ByteString, pos: nat, a: SpanState, fill: ByteString)
    requires CleanTags(t, SPAN_NAME) && Informed(t, pos, a) && !BodyAt(t, pos)
    ensures SpanRun(t[pos..], a, fill) == Filled(t, pos, fill)
    decreases |t| - pos
  {
    assert pos <= |t|;
    if pos < |t| {
      var s := t[pos..];
      assert s[1..] == t[pos + 1..] && s[0] == t[pos];
      hide Informed, CleanTags, BodyAt, AtSubstitution, NextSpan, BodyEnd;
      if AtSubstitution(s, a) {
        ReplacedIsBody(t, pos, a);
        InformedBehind(t, pos, a);
        BodyEndIsLt(t, pos + 1);
        var j := BodyEnd(t, pos + 1);
        NoBodyAtLt(t, j);
        RunIsFilled(t, j, Text, fill);
        assert GT == 0x3E;
      } else {
        if BodyAt(t, pos + 1) {
          BodyIsReplaced(t, pos, a);
        }
        InformedNext(t, pos, a);
        RunIsFilled(t, pos + 1, NextSpan(s, a), fill);
      }
    }
  }

  lemma InformedStart(t: ByteString)
    ensures Informed(t, 0, Text) && !BodyAt(t, 0)
  {
    hide OpenAt, CloseAt;
  }

  lemma RunOfClean(html: ByteString, fill: ByteString)
    requires CleanTags(html, SPAN_NAME)
    ensures SpanRun(html, Text, fill) == Filled(html, 0, fill)
  {
    InformedStart(html);
    assert html[0..] == html;
    RunIsFilled(html, 0, Text, fill);
    hide SpanRun, Informed, BodyAt;
  }

  /**
   The pass writes U+E000 for every blank span body and copies everything else, if
   no `<span ...>` tag of the document holds a second `<`.
   */
  lemma PreservedIsFilled(html: ByteString)
    requires CleanTags(html, SPAN_NAME)
    ensures Preserved(html) == Filled(html, 0, [0xEE, 0x80, 0x80])
  {
    RunOfClean(html, SENTINEL);
    hide SpanRun, Filled;
  }

  /** The round trip writes one space for every blank span body. */
  lemma RoundTripIsFilled(html: ByteString)
    requires CleanTags(html, SPAN_NAME) && !HasSentinel(html)
    ensures Restored(Preserved(html)) == Filled(html, 0, [0x20])
  {
    RoundTripIff(html);
    RunOfClean(html, [SPACE]);
    hide SpanRun, Filled, Restored, Preserved, HasSentinel;
  }
}
