/**
 The line-break pass by position alone: which boundary closes it separates, where
 no `<pre ...>` tag holds a second `<`.
 */
module BreakRegions {
  import opened Wrappers
  import opened Bytes
  import opened TagExtent
  import opened Tags
  import opened TagText
  import opened BreakText
  import opened CodeblockLinebreaks
  import opened BreakLaws
  import opened BreakSites

  // ---- the places for newlines, in bytes ----

  /** `t[i..e]` is a `<pre ...>` tag, as `find_tag_end` delimits it, and no `</pre>` starts between it and `k`. */
  ghost predicate PreFrom(t: ByteString, i: nat, e: nat, k: nat) {
    && OpenAt(t, i, "pre") && i < e <= k <= |t| && TagEnd(Neutral, t[i..]) == Some(e - 1 - i)
    && forall m: nat, p: nat :: e <= m < k ==> !CloseAt(t, m, p, "pre")
  }

  ghost predicate PreRegion(t: ByteString, k: nat) {
    exists i: nat, e: nat :: PreFrom(t, i, e, k)
  }

  /**
   Directly before `p`, `</div>`, `</p>`, `</tr>` or `</li>` closes inside a pre,
   and the text at `p` is neither whitespace nor `</`.
   */
  ghost predicate Gap(t: ByteString, p: nat) {
    Touches(t, p) && exists j: nat :: BoundaryAt(t, j, p) && PreRegion(t, j)
  }

  /** The text from `pos` on with a newline in every gap behind `pos`. */
  ghost function WithBreaks(t: ByteString, pos: nat): ByteString
    decreases |t| - pos
  {
    if pos >= |t| then []
    else [t[pos]] + ((if Gap(t, pos + 1) then [0x0A] else []) + WithBreaks(t, pos + 1))
  }

  /** Every line-boundary close inside a pre is followed by whitespace, `</` or the end. */
  ghost predicate Settled(t: ByteString) {
    forall p: nat :: !Gap(t, p)
  }

  lemma PreNotClosed(t: ByteString, e: nat, k: nat)
    requires k <= |t|
    ensures (forall m: nat :: e <= m < k ==> CloseLen(t[m..], PRE_NAME).None?)
            <==> forall m: nat, p: nat :: e <= m < k ==> !CloseAt(t, m, p, "pre")
  {
    NamesSpelt();
    PreIsLower();
    if forall m: nat :: e <= m < k ==> CloseLen(t[m..], PRE_NAME).None? {
      forall m: nat, p: nat | e <= m < k ensures !CloseAt(t, m, p, "pre") {
        CloseMeans(t, m, p, "pre");
        hide CloseAt, CloseLen, Ascii;
      }
    }
    if forall m: nat, p: nat :: e <= m < k ==> !CloseAt(t, m, p, "pre") {
      forall m: nat | e <= m < k ensures CloseLen(t[m..], PRE_NAME).None? {
        var r := CloseLen(t[m..], PRE_NAME);
        if r.Some? {
          CloseMeans(t, m, m + r.value, "pre");
        }
        hide CloseAt, CloseLen, Ascii;
      }
    }
  }

  lemma PreIsLower()
    ensures IsLowerName("pre")
  {
  }

  lemma PreMeans(t: ByteString, k: nat)
    ensures InPre(t, k) <==> PreRegion(t, k)
  {
    forall i: nat, e: nat ensures PreOpen(t, i, e, k) <==> PreFrom(t, i, e, k) {
      PreOpenMeans(t, i, e, k);
    }
    hide PreOpen, PreFrom;
  }

  lemma PreOpenMeans(t: ByteString, i: nat, e: nat, k: nat)
    ensures PreOpen(t, i, e, k) <==> PreFrom(t, i, e, k)
  {
    NamesSpelt();
    PreIsLower();
    if i < e <= k <= |t| {
      OpenMeans(t, i, "pre");
      PreNotClosed(t, e, k);
    }
    hide OpenAt, CloseAt, IsOpen, CloseLen, TagEnd, Ascii;
  }

  /** A gap, as the scanner's recognition has it. */
  ghost predicate Found(t: ByteString, j: nat, p: nat) {
    j <= p <= |t| && InPre(t, j) && BoundaryCloseLen(t[j..]) == Some(p - j) && NeedsBreak(t[p..])
  }

  ghost predicate IsFound(t: ByteString, p: nat) {
    exists j: nat :: Found(t, j, p)
  }

  lemma GapMeans(t: ByteString, p: nat)
    ensures Gap(t, p) <==> IsFound(t, p)
  {
    if p <= |t| {
      TouchesMeans(t, p);
    }
    forall j: nat ensures BoundaryAt(t, j, p) && PreRegion(t, j) && Touches(t, p) <==> Found(t, j, p) {
      BoundaryMeans(t, j, p);
      PreMeans(t, j);
      hide BoundaryAt, PreRegion, InPre, BoundaryCloseLen, Touches, NeedsBreak;
    }
    hide BoundaryAt, PreRegion, Touches, Found;
  }

  // ---- what a scan knows of the tags around it ----

  ghost predicate TagOk(t: ByteString, i: nat, pos: nat, b: BreakState) {
    InsideTag(t, i, pos, PRE_NAME) ==>
      b == Plain(true) || (b.PreTag? && TagEnd(b.q, t[pos..]) == Some(ToEnd(t, i, pos, PRE_NAME)))
  }

  /** What the state `b` at `pos` says of the tags and pre regions around `pos`. */
  ghost predicate Region(t: ByteString, pos: nat, b: BreakState) {
    && pos <= |t|
    && (InPre(t, pos) ==> b == Plain(true) || b == Closing(true))
    && (forall i: nat :: TagOk(t, i, pos, b))
    && (b.PreTag? ==> InsideAny(t, pos, PRE_NAME))
    && (b.Closing? ==> CleanClose(t[pos..]))
  }

  /** At a `<` the scan is between tags. */
  lemma PlainAtLt(t: ByteString, pos: nat, b: BreakState)
    requires CleanTags(t, PRE_NAME) && Region(t, pos, b) && pos < |t| && t[pos] == LT
    ensures b.Plain?
  {
    hide CleanTags, InsideTag, TagOk, InPre;
    assert t[pos..][0] == LT;
    if b.PreTag? {
      var i: nat :| InsideTag(t, i, pos, PRE_NAME);
      InsideIsClean(t, i, pos, PRE_NAME);
    }
  }

  // ---- inside an opening tag ----

  /** The `<` of an opening tag. */
  lemma OpenStep(t: ByteString, pos: nat, inPre: bool)
    requires pos < |t| && IsOpen(t[pos..], PRE_NAME) && TagEnd(Neutral, t[pos..]).Some?
    ensures NextBreak(t[pos..], Plain(inPre)) == if inPre then Plain(true) else PreTag(Neutral)
  {
    var u := t[pos..];
    OpenIsNotClose(u, PRE_NAME, PRE_NAME);
    OpenIsNotClose(u, PRE_NAME, DIV_NAME);
    OpenIsNotClose(u, PRE_NAME, P_NAME);
    OpenIsNotClose(u, PRE_NAME, TR_NAME);
    OpenIsNotClose(u, PRE_NAME, LI_NAME);
    assert u[0] == LT;
    hide CloseLen, IsOpen, TagEnd;
  }

  /** A further byte of a tag the scan or a pre region covers. */
  lemma InsideStep(t: ByteString, i: nat, pos: nat, b: BreakState)
    requires CleanTags(t, PRE_NAME) && InsideTag(t, i, pos, PRE_NAME) && TagOk(t, i, pos, b)
    ensures pos < |t| && TagOk(t, i, pos + 1, NextBreak(t[pos..], b))
    ensures ToEnd(t, i, pos, PRE_NAME) == 0 ==> NextBreak(t[pos..], b) == Plain(true)
    ensures ToEnd(t, i, pos, PRE_NAME) > 0 ==> InsideTag(t, i, pos + 1, PRE_NAME)
  {
    InsideIsClean(t, i, pos, PRE_NAME);
    assert t[pos..][0] == t[pos];
    if b.PreTag? && TagEnd(b.q, t[pos..]).Some? {
      TagEndStep(b.q, t, pos);
    }
    hide IsOpen, TagEnd, StepQuote, CleanTags;
  }

  lemma TagOkNext(t: ByteString, i: nat, pos: nat, b: BreakState)
    requires CleanTags(t, PRE_NAME) && Region(t, pos, b) && pos < |t|
    ensures TagOk(t, i, pos + 1, NextBreak(t[pos..], b))
  {
    if InsideTag(t, i, pos + 1, PRE_NAME) {
      if i == pos {
        assert t[pos] == LT by { assert t[pos..][0] == LT; }
        PlainAtLt(t, pos, b);
        OpenStep(t, pos, b.inPre);
        EnterTag(t, pos, PRE_NAME);
      } else {
        assert InsideTag(t, i, pos, PRE_NAME);
        assert TagOk(t, i, pos, b);
        hide Region, TagOk, InsideTag;
        InsideStep(t, i, pos, b);
      }
    }
  }

  // ---- one step of the scan ----

  lemma InPreSplit(t: ByteString, pos: nat) returns (i: nat)
    requires pos < |t| && InPre(t, pos + 1)
    ensures || (InPre(t, pos) && CloseLen(t[pos..], PRE_NAME).None?)
            || (InsideTag(t, i, pos, PRE_NAME) && ToEnd(t, i, pos, PRE_NAME) == 0)
  {
    hide CloseLen;
    var e: nat;
    i, e :| PreOpen(t, i, e, pos + 1);
    if e <= pos {
      hide TagBefore;
      assert PreOpen(t, i, e, pos);
    } else {
      JustEnded(t, i, pos, PRE_NAME);
    }
  }

  /** Inside a pre and not at its close, the scan stays inside. */
  lemma InPreStep(s: ByteString, b: BreakState)
    requires s != [] && (b == Plain(true) || b == Closing(true)) && CloseLen(s, PRE_NAME).None?
    ensures NextBreak(s, b) == Plain(true) || NextBreak(s, b) == Closing(true)
  {
    hide CloseLen;
  }

  lemma InPreOk(t: ByteString, pos: nat, b: BreakState)
    requires CleanTags(t, PRE_NAME) && Region(t, pos, b) && pos < |t| && InPre(t, pos + 1)
    ensures NextBreak(t[pos..], b) == Plain(true) || NextBreak(t[pos..], b) == Closing(true)
  {
    var i := InPreSplit(t, pos);
    assert TagOk(t, i, pos, b);
    if InPre(t, pos) && CloseLen(t[pos..], PRE_NAME).None? {
      hide InPre, CloseLen, TagOk, CleanTags, InsideAny;
      InPreStep(t[pos..], b);
    } else {
      hide *;
      InsideStep(t, i, pos, b);
    }
  }

  lemma PreTagOk(t: ByteString, pos: nat, b: BreakState)
    requires CleanTags(t, PRE_NAME) && Region(t, pos, b) && pos < |t| && NextBreak(t[pos..], b).PreTag?
    ensures InsideAny(t, pos + 1, PRE_NAME)
  {
    if b.PreTag? {
      hide CleanTags, InPre;
      var i: nat :| InsideTag(t, i, pos, PRE_NAME);
      assert TagOk(t, i, pos, b);
      hide Region;
      if ToEnd(t, i, pos, PRE_NAME) == 0 {
        InsideStep(t, i, pos, b);
      } else {
        assert InsideTag(t, i, pos + 1, PRE_NAME);
      }
    } else {
      hide Region, CleanTags, CloseLen, BoundaryCloseLen;
      EnterTag(t, pos, PRE_NAME);
    }
  }

  lemma RegionNext(t: ByteString, pos: nat, b: BreakState)
    requires CleanTags(t, PRE_NAME) && Region(t, pos, b) && pos < |t|
    ensures Region(t, pos + 1, NextBreak(t[pos..], b))
  {
    var b' := NextBreak(t[pos..], b);
    if InPre(t, pos + 1) {
      InPreOk(t, pos, b);
    }
    if b'.PreTag? {
      PreTagOk(t, pos, b);
    }
    if b'.Closing? {
      CleanCloseNext(t[pos..], b);
      assert t[pos..][1..] == t[pos + 1..];
    }
    var next := pos + 1;
    forall i: nat ensures TagOk(t, i, next, b') {
      TagOkNext(t, i, pos, b);
    }
    hide InPre, TagOk, InsideAny, CleanClose, NextBreak, CleanTags;
  }

  // ---- inside a boundary close ----

  lemma PreIsNotP(s: ByteString)
    requires CloseLen(s, PRE_NAME).Some?
    ensures CloseLen(s, P_NAME).None?
  {
    assert ToLower(s[2 + 1]) == PRE_NAME[1];
    assert s[3..][0] == s[3];
  }

  lemma BoundaryIsNotPre(s: ByteString)
    requires BoundaryCloseLen(s).Some?
    ensures CloseLen(s, PRE_NAME).None?
  {
    if CloseLen(s, PRE_NAME).Some? {
      OtherClose(s, PRE_NAME, DIV_NAME);
      OtherClose(s, PRE_NAME, TR_NAME);
      OtherClose(s, PRE_NAME, LI_NAME);
      PreIsNotP(s);
    }
  }

  lemma BoundaryGt(s: ByteString)
    requires s != [] && BoundaryCloseLen(s).Some?
    ensures var u := s[1..]; GtLen(u) > 0 && u[GtLen(u) - 1] == GT
    ensures BoundaryCloseLen(s) == Some(1 + GtLen(s[1..])) && s[0] == LT
  {
    BoundaryClosePosition(s);
    var name := BoundaryCloseName(s);
    CloseTagShape(s, name);
    hide CloseLen;
  }

  // ---- a newline is due exactly in the gaps ----

  /** Inside a boundary close within a pre the scan knows it. */
  ghost predicate CloseOk(t: ByteString, j: nat, pos: nat, b: BreakState) {
    j < pos <= |t| && InPre(t, j) && BoundaryCloseLen(t[j..]).Some? && pos < j + BoundaryCloseLen(t[j..]).value ==>
      b == Closing(true)
  }

  /** All that is known at `pos`. */
  ghost predicate Informed(t: ByteString, pos: nat, b: BreakState) {
    Region(t, pos, b) && Site(t, pos, b) && forall j: nat :: CloseOk(t, j, pos, b)
  }

  lemma BoundaryEntered(t: ByteString, pos: nat, b: BreakState)
    requires CleanTags(t, PRE_NAME) && Region(t, pos, b) && pos < |t| && InPre(t, pos)
    requires BoundaryCloseLen(t[pos..]).Some?
    ensures NextBreak(t[pos..], b) == Closing(true)
  {
    var s := t[pos..];
    BoundaryGt(s);
    BoundaryIsNotPre(s);
    PlainAtLt(t, pos, b);
    assert b == Plain(true);
    hide CleanTags, Region, InPre, CloseLen, BoundaryCloseLen;
  }

  lemma NoGtInBoundary(t: ByteString, j: nat, pos: nat)
    requires j < pos < |t| && BoundaryCloseLen(t[j..]).Some? && pos + 1 < j + BoundaryCloseLen(t[j..]).value
    ensures t[pos] != GT
  {
    var s := t[j..];
    var name := BoundaryCloseName(s);
    CloseTagShape(s, name);
    assert s[pos - j] == t[pos];
    hide CloseLen;
  }

  lemma CloseOkNext(t: ByteString, j: nat, pos: nat, b: BreakState)
    requires CleanTags(t, PRE_NAME) && Region(t, pos, b) && CloseOk(t, j, pos, b) && pos < |t|
    ensures CloseOk(t, j, pos + 1, NextBreak(t[pos..], b))
  {
    if j <= pos && InPre(t, j) && BoundaryCloseLen(t[j..]).Some? && pos + 1 < j + BoundaryCloseLen(t[j..]).value {
      if j == pos {
        BoundaryEntered(t, pos, b);
      } else {
        NoGtInBoundary(t, j, pos);
        assert t[pos..][0] == t[pos];
        hide Region, CleanTags, BoundaryCloseLen, InPre;
      }
    }
  }

  lemma InformedNext(t: ByteString, pos: nat, b: BreakState)
    requires CleanTags(t, PRE_NAME) && Informed(t, pos, b) && pos < |t|
    ensures Informed(t, pos + 1, NextBreak(t[pos..], b))
  {
    hide Region, Site, CloseOk, CleanTags, NextBreak;
    RegionNext(t, pos, b);
    SiteNext(t, pos, b);
    var next := pos + 1;
    forall j: nat ensures CloseOk(t, j, next, NextBreak(t[pos..], b)) {
      CloseOkNext(t, j, pos, b);
    }
  }

  lemma RegionStart(t: ByteString)
    ensures Region(t, 0, Plain(false))
  {
    hide IsOpen, TagEnd, CloseLen;
  }

  lemma InformedStart(t: ByteString)
    ensures Informed(t, 0, Plain(false))
  {
    RegionStart(t);
    hide Region, InPre, BoundaryCloseLen;
  }

  lemma DueHere(t: ByteString, pos: nat, b: BreakState)
    requires pos < |t| && Site(t, pos, b) && BreakDue(t[pos..], b)
    ensures InClose(t, pos) && GtLen(t[pos..]) == 1 && NeedsBreak(t[pos + 1..])
  {
    DueState(t[pos..], b);
    SiteInPre(t, pos);
    assert t[pos..][1..] == t[pos + 1..];
    hide InClose, InPre, NeedsBreak;
  }

  /** In every text a newline is due in gaps only. */
  lemma DueIsGap(t: ByteString, pos: nat, b: BreakState)
    requires pos < |t| && Site(t, pos, b) && BreakDue(t[pos..], b)
    ensures Gap(t, pos + 1)
  {
    hide *;
    DueHere(t, pos, b);
    FoundAt(t, pos);
    GapMeans(t, pos + 1);
  }

  lemma FoundAt(t: ByteString, pos: nat)
    requires pos < |t| && InClose(t, pos) && GtLen(t[pos..]) == 1 && NeedsBreak(t[pos + 1..])
    ensures IsFound(t, pos + 1)
  {
    hide NeedsBreak, BoundaryCloseLen, InPre, GtLen;
    var j: nat :| ClosesFrom(t, j, pos);
    assert Found(t, j, pos + 1);
  }

  lemma GapIsDue(t: ByteString, pos: nat, b: BreakState)
    requires Informed(t, pos, b) && pos < |t| && Gap(t, pos + 1)
    ensures BreakDue(t[pos..], b)
  {
    hide *;
    GapMeans(t, pos + 1);
    var j := FoundFrom(t, pos + 1);
    BoundaryEndsInGt(t, j, pos + 1);
    ClosingIsKnown(t, j, pos, b);
    DueAt(t, pos);
  }

  lemma FoundFrom(t: ByteString, p: nat) returns (j: nat)
    requires IsFound(t, p)
    ensures j <= p <= |t| && InPre(t, j) && BoundaryCloseLen(t[j..]) == Some(p - j) && NeedsBreak(t[p..])
  {
    hide InPre, BoundaryCloseLen, NeedsBreak;
    j :| Found(t, j, p);
  }

  lemma ClosingIsKnown(t: ByteString, j: nat, pos: nat, b: BreakState)
    requires Informed(t, pos, b) && j < pos < |t| && InPre(t, j) && BoundaryCloseLen(t[j..]) == Some(pos + 1 - j)
    ensures b == Closing(true)
  {
    hide Region, Site, InPre, BoundaryCloseLen;
    assert CloseOk(t, j, pos, b);
  }

  lemma DueAt(t: ByteString, pos: nat)
    requires pos < |t| && t[pos] == GT && NeedsBreak(t[pos + 1..])
    ensures BreakDue(t[pos..], Closing(true))
  {
    hide NeedsBreak;
    assert t[pos..][1..] == t[pos + 1..] && t[pos..][0] == t[pos];
  }

  lemma BoundaryEndsInGt(t: ByteString, j: nat, p: nat)
    requires j <= p <= |t| && BoundaryCloseLen(t[j..]) == Some(p - j)
    ensures j + 1 < p && t[p - 1] == GT
  {
    var s := t[j..];
    var name := BoundaryCloseName(s);
    CloseTagShape(s, name);
    assert s[p - 1 - j] == t[p - 1];
  }

  lemma {:induction false} RunIsWithBreaks(t: ByteString, pos: nat, b: BreakState)
    requires CleanTags(t, PRE_NAME) && Informed(t, pos, b)
    ensures BreakRun(t[pos..], b) == WithBreaks(t, pos)
    decreases |t| - pos
  {
    hide *;
    SitesAreInformed(t, pos, b);
    if pos == |t| {
      NothingAtEnd(t, b);
    } else {
      InformedNext(t, pos, b);
      if BreakDue(t[pos..], b) {
        DueIsGap(t, pos, b);
      } else if Gap(t, pos + 1) {
        GapIsDue(t, pos, b);
      }
      RunIsWithBreaks(t, pos + 1, NextBreak(t[pos..], b));
      BreakRunUnfold(t, pos, b);
      WithBreaksUnfold(t, pos);
    }
  }

  lemma SitesAreInformed(t: ByteString, pos: nat, b: BreakState)
    requires Informed(t, pos, b)
    ensures pos <= |t| && Site(t, pos, b)
  {
    hide Site, InPre, TagOk, CloseOk, InsideAny, CleanClose;
  }

  lemma NothingAtEnd(t: ByteString, b: BreakState)
    ensures BreakRun(t[|t|..], b) == WithBreaks(t, |t|)
  {
    hide BreakDue, NextBreak, Gap;
  }

  lemma BreakRunUnfold(t: ByteString, pos: nat, b: BreakState)
    requires pos < |t|
    ensures BreakRun(t[pos..], b) ==
            [t[pos]] + ((if BreakDue(t[pos..], b) then [0x0A] else [])
                        + BreakRun(t[pos + 1..], NextBreak(t[pos..], b)))
  {
    hide BreakDue, NextBreak;
    assert t[pos..][1..] == t[pos + 1..] && t[pos..][0] == t[pos];
    var image := BreakRun(t[pos + 1..], NextBreak(t[pos..], b));
    assert [] + image == image;
  }

  lemma WithBreaksUnfold(t: ByteString, pos: nat)
    requires pos < |t|
    ensures WithBreaks(t, pos) == [t[pos]] + ((if Gap(t, pos + 1) then [0x0A] else []) + WithBreaks(t, pos + 1))
  {
    hide Gap;
  }

  /**
   The output is the input with a newline in every gap and nowhere else, if none
   of its `<pre ...>` tags holds a second `<`.
   */
  lemma BreaksFillTheGaps(html: ByteString)
    requires CleanTags(html, PRE_NAME)
    ensures Broken(html) == WithBreaks(html, 0)
  {
    InformedStart(html);
    assert html[0..] == html;
    RunIsWithBreaks(html, 0, Plain(false));
    hide BreakRun, Informed;
  }

  // ---- settled texts ----

  lemma {:induction false} SettledIsSeparated(t: ByteString, pos: nat, b: BreakState)
    requires pos <= |t| && Site(t, pos, b) && Settled(t)
    ensures Separated(t[pos..], b)
    decreases |t| - pos
  {
    if pos < |t| {
      assert t[pos..][1..] == t[pos + 1..];
      hide Site, BreakDue, NextBreak, Gap;
      if BreakDue(t[pos..], b) {
        DueIsGap(t, pos, b);
      }
      SiteNext(t, pos, b);
      SettledIsSeparated(t, pos + 1, NextBreak(t[pos..], b));
    }
  }

  lemma {:induction false} WithBreaksLength(t: ByteString, pos: nat)
    requires pos <= |t|
    ensures |WithBreaks(t, pos)| >= |t| - pos
    ensures |WithBreaks(t, pos)| == |t| - pos ==> forall p: nat :: p > pos ==> !Gap(t, p)
    decreases |t| - pos
  {
    if pos < |t| {
      WithBreaksLength(t, pos + 1);
      hide Gap;
    } else {
      hide BoundaryAt, PreRegion;
    }
  }

  lemma NoGapAtStart(t: ByteString)
    ensures !Gap(t, 0)
  {
    hide PreRegion;
  }

  /**
   A text settled by position is left alone; one that is left alone is settled by
   position, if none of its `<pre ...>` tags holds a second `<`.
   */
  lemma UnchangedIffSettled(t: ByteString)
    ensures Settled(t) ==> Broken(t) == t
    ensures CleanTags(t, PRE_NAME) ==> (Broken(t) == t <==> Settled(t))
  {
    BreaksSettleEveryBoundary(t);
    assert t[0..] == t;
    assert Site(t, 0, Plain(false));
    hide Broken, Separated, CleanTags, Gap, WithBreaks, Site;
    if Settled(t) {
      SettledIsSeparated(t, 0, Plain(false));
    }
    if CleanTags(t, PRE_NAME) && Broken(t) == t {
      BreaksFillTheGaps(t);
      WithBreaksLength(t, 0);
      NoGapAtStart(t);
    }
  }

  /** The output is settled by position. */
  lemma OutputIsSettled(html: ByteString)
    requires CleanTags(Broken(html), PRE_NAME)
    ensures Settled(Broken(html))
  {
    BreaksAreIdempotent(html);
    hide Broken, Settled, CleanTags;
    UnchangedIffSettled(Broken(html));
  }
}
