/**
 Where the line-break pass writes newlines: behind a line-boundary close, while a
 `<pre>` is open. Everything else is copied.
 */
module BreakSites {
  import opened Wrappers
  import opened Bytes
  import opened TagExtent
  import opened Tags
  import opened CodeblockLinebreaks
  import opened BreakText
  import opened BreakLaws

  /** For each byte of the output, whether it was inserted. */
  function Marks(s: ByteString, b: BreakState): (m: seq<bool>)
    ensures |m| == |BreakRun(s, b)|
  {
    if s == [] then []
    else if BreakDue(s, b) then [false, true] + Marks(s[1..], NextBreak(s, b))
    else [false] + Marks(s[1..], NextBreak(s, b))
  }

  /** `t` without its marked bytes. */
  function Unmarked(t: ByteString, marks: seq<bool>): ByteString
    requires |marks| == |t|
  {
    if t == [] then []
    else if marks[0] then Unmarked(t[1..], marks[1..])
    else [t[0]] + Unmarked(t[1..], marks[1..])
  }

  // ---- pre regions, by position ----

  /** A `<pre ...>` tag takes up `t[i..e]`, and no `</pre>` starts between it and `k`. */
  ghost predicate PreOpen(t: ByteString, i: nat, e: nat, k: nat) {
    && TagBefore(t, i, e, PRE_NAME) && e <= k <= |t|
    && forall m: nat :: e <= m < k ==> CloseLen(t[m..], PRE_NAME).None?
  }

  /** A pre is open at `k`. */
  ghost predicate InPre(t: ByteString, k: nat) {
    exists i: nat, e: nat :: PreOpen(t, i, e, k)
  }

  /** A `</div>`, `</p>`, `</tr>` or `</li>` ends in the byte before `k`. */
  ghost predicate BoundaryEndsAt(t: ByteString, k: nat) {
    exists j: nat :: BoundaryAt(t, j, k)
  }

  /**
   Position `k` of `t` holds a newline right behind a line-boundary close, in
   front of text that would otherwise touch it, and a pre is open there.
   */
  ghost predicate BreakSite(t: ByteString, k: nat) {
    && k < |t| && t[k] == 0x0A
    && BoundaryEndsAt(t, k)
    && InPre(t, k)
    && Touches(t, k + 1)
  }

  lemma InPreNext(t: ByteString, k: nat)
    requires k < |t| && InPre(t, k) && CloseLen(t[k..], PRE_NAME).None?
    ensures InPre(t, k + 1)
  {
    hide CloseLen, TagBefore;
    var i: nat, e: nat :| PreOpen(t, i, e, k);
    assert PreOpen(t, i, e, k + 1);
  }

  lemma NoCloseHere(t: ByteString, k: nat)
    requires k < |t| && t[k] != LT
    ensures CloseLen(t[k..], PRE_NAME).None?
  {
  }

  // ---- what a scan knows of the text behind it ----

  /** Number of bytes up to and including the first `>`. */
  function GtLen(s: ByteString): (n: nat)
    ensures n <= |s| && (s != [] ==> n > 0)
  {
    if s == [] then 0 else if s[0] == GT then 1 else 1 + GtLen(s[1..])
  }

  lemma {:induction false} GtLenIs(s: ByteString, n: nat)
    requires 0 < n <= |s| && s[n - 1] == GT && forall k :: 0 <= k < n - 1 ==> s[k] != GT
    ensures GtLen(s) == n
    decreases n
  {
    if n > 1 {
      GtLenIs(s[1..], n - 1);
    }
  }

  /** The line-boundary close at `j`, inside a pre, ends at the first `>` from `pos` on. */
  ghost predicate ClosesFrom(t: ByteString, j: nat, pos: nat) {
    j < pos <= |t| && InPre(t, j) && BoundaryCloseLen(t[j..]) == Some(pos - j + GtLen(t[pos..]))
  }

  ghost predicate InClose(t: ByteString, pos: nat) {
    exists j: nat :: ClosesFrom(t, j, pos)
  }

  ghost predicate InPreTag(t: ByteString, pos: nat, q: Quote) {
    exists i: nat :: Tied(t, i, pos, q, PRE_NAME)
  }

  /** What is known of `t` when a scan has come to `pos` in state `b`. */
  ghost predicate Site(t: ByteString, pos: nat, b: BreakState) {
    && pos <= |t|
    && match b
       case Plain(inPre) => inPre ==> InPre(t, pos)
       case PreTag(q) => InPreTag(t, pos, q)
       case Closing(boundary) => boundary ==> InPre(t, pos) && InClose(t, pos)
  }

  lemma BoundaryClosePosition(t: ByteString)
    requires t != [] && BoundaryCloseLen(t).Some?
    ensures BoundaryCloseLen(t) == Some(1 + GtLen(t[1..]))
  {
    var name := BoundaryCloseName(t);
    CloseTagShape(t, name);
    var c := CloseLen(t, name).value;
    forall k | 0 <= k < c - 2 ensures t[1..][k] != GT {
      assert t[1..][k] == t[k + 1];
    }
    GtLenIs(t[1..], c - 1);
  }

  lemma BoundaryShape(s: ByteString)
    requires BoundaryCloseLen(s).Some?
    ensures var c := BoundaryCloseLen(s).value; c <= |s| && forall k :: 1 <= k < c ==> s[k] != LT
  {
    var name := BoundaryCloseName(s);
    CloseTagShape(s, name);
  }

  lemma NoLtInClose(t: ByteString, pos: nat)
    requires pos < |t| && InClose(t, pos)
    ensures t[pos] != LT
  {
    hide BoundaryCloseLen, GtLen, InPre;
    var j: nat :| ClosesFrom(t, j, pos);
    BoundaryShape(t[j..]);
    assert t[pos] == t[j..][pos - j];
  }

  lemma InCloseNext(t: ByteString, pos: nat)
    requires pos < |t| && t[pos] != GT && InClose(t, pos)
    ensures InClose(t, pos + 1)
  {
    hide BoundaryCloseLen, InPre;
    assert t[pos..][1..] == t[pos + 1..];
    var j: nat :| ClosesFrom(t, j, pos);
    assert ClosesFrom(t, j, pos + 1);
  }

  lemma InCloseStart(t: ByteString, pos: nat)
    requires pos < |t| && InPre(t, pos) && BoundaryCloseLen(t[pos..]).Some?
    ensures InClose(t, pos + 1)
  {
    BoundaryClosePosition(t[pos..]);
    hide BoundaryCloseLen, GtLen, InPre;
    assert t[pos..][1..] == t[pos + 1..];
    assert ClosesFrom(t, pos, pos + 1);
  }

  // ---- one step of the scan ----

  lemma PlainNext(t: ByteString, pos: nat, inPre: bool)
    requires pos < |t| && Site(t, pos, Plain(inPre))
    ensures Site(t, pos + 1, NextBreak(t[pos..], Plain(inPre)))
  {
    var u := t[pos..];
    assert u[0] == t[pos];
    if u[0] != LT {
      NoCloseHere(t, pos);
    }
    hide CloseLen, BoundaryCloseLen, IsOpen, TagEnd, InClose, InPre, InPreTag;
    if inPre {
      if CloseLen(u, PRE_NAME).None? {
        InPreNext(t, pos);
      }
      if BoundaryCloseLen(u).Some? {
        InCloseStart(t, pos);
      }
    } else if u[0] == LT && IsOpen(u, PRE_NAME) {
      PreTagStart(t, pos);
    }
  }

  lemma PreTagStart(t: ByteString, pos: nat)
    requires pos < |t| && IsOpen(t[pos..], PRE_NAME)
    ensures InPreTag(t, pos + 1, Neutral)
  {
    TiedOpen(t, pos, PRE_NAME);
  }

  lemma PreTagNext(t: ByteString, pos: nat, q: Quote)
    requires pos < |t| && InPreTag(t, pos, q)
    ensures Site(t, pos + 1, NextBreak(t[pos..], PreTag(q)))
  {
    var u := t[pos..];
    assert u[0] == t[pos];
    hide IsOpen, TagEnd, StepQuote, Tied, TagBefore, CloseLen;
    var i: nat :| Tied(t, i, pos, q, PRE_NAME);
    if ClosesTag(q, u) {
      TiedEnd(t, i, pos, q, PRE_NAME);
      PreStarts(t, i, pos + 1);
    } else {
      TiedStep(t, i, pos, q, PRE_NAME);
    }
  }

  lemma PreStarts(t: ByteString, i: nat, e: nat)
    requires TagBefore(t, i, e, PRE_NAME)
    ensures InPre(t, e)
  {
    assert e <= |t|;
    hide TagBefore;
    assert PreOpen(t, i, e, e);
  }

  lemma ClosingNext(t: ByteString, pos: nat, boundary: bool)
    requires pos < |t| && Site(t, pos, Closing(boundary))
    ensures Site(t, pos + 1, NextBreak(t[pos..], Closing(boundary)))
  {
    assert t[pos..][0] == t[pos];
    hide InPre, InClose, CloseLen;
    if boundary {
      NoLtInClose(t, pos);
      NoCloseHere(t, pos);
      InPreNext(t, pos);
      if t[pos] != GT {
        InCloseNext(t, pos);
      }
    }
  }

  lemma SiteNext(t: ByteString, pos: nat, b: BreakState)
    requires pos < |t| && Site(t, pos, b)
    ensures Site(t, pos + 1, NextBreak(t[pos..], b))
  {
    match b {
      case Plain(inPre) => PlainNext(t, pos, inPre);
      case PreTag(q) =>
        hide NextBreak, InPreTag;
        PreTagNext(t, pos, q);
      case Closing(boundary) => ClosingNext(t, pos, boundary);
    }
  }

  lemma DueState(s: ByteString, b: BreakState)
    requires BreakDue(s, b)
    ensures b == Closing(true) && s != [] && s[0] == GT && NextBreak(s, b) == Plain(true)
  {
  }

  /** A newline is only ever due inside a pre. */
  lemma DueInPre(t: ByteString, pos: nat, b: BreakState)
    requires pos < |t| && Site(t, pos, b) && BreakDue(t[pos..], b)
    ensures InPre(t, pos + 1)
  {
    DueState(t[pos..], b);
    SiteNext(t, pos, b);
    hide NextBreak, InPre;
  }

  // ---- the output ----

  /** Over its own output the scan takes the same turns. */
  lemma SameStep(s: ByteString, b: BreakState)
    requires s != []
    ensures BreakRun(s, b) != [] && NextBreak(BreakRun(s, b), b) == NextBreak(s, b)
  {
    BreakStep(s, b);
    if s[0] == LT && b.Plain? {
      BreakKeepsAtLt(s, b, b.inPre);
    }
    hide BreakRun, AtLt, BreakDue, Inserted, SameHead;
  }

  lemma OutputNext(t: ByteString, pos: nat, s: ByteString, b: BreakState)
    requires s != [] && pos <= |t| && t[pos..] == BreakRun(s, b) && Site(t, pos, b)
    ensures pos < |t| && Site(t, pos + 1, NextBreak(s, b))
  {
    SameStep(s, b);
    hide BreakRun, NextBreak, Site;
    SiteNext(t, pos, b);
  }

  /** A due newline is written, in front of text that needs it. */
  lemma WrittenBreak(t: ByteString, pos: nat, s: ByteString)
    requires s != [] && pos <= |t| && t[pos..] == BreakRun(s, Closing(true)) && BreakDue(s, Closing(true))
    ensures pos + 1 < |t| && t[pos] == GT && t[pos + 1] == NEWLINE && NeedsBreak(t[pos + 2..])
    ensures GtLen(t[pos..]) == 1
  {
    var image := BreakRun(s[1..], Plain(true));
    BreakStep(s, Closing(true));
    BreakKeepsNeed(s[1..], Plain(true));
    DueState(s, Closing(true));
    assert t[pos..][1..] == [NEWLINE] + image && t[pos..][0] == GT && GtLen(t[pos..]) == 1;
    hide *;
    ConsParts(NEWLINE, image);
    assert t[pos..][1..][0] == t[pos + 1] && t[pos..][1..][1..] == t[pos + 2..];
  }

  lemma InPreBehindBreak(t: ByteString, k: nat)
    requires k < |t| && t[k] == NEWLINE && InPre(t, k)
    ensures InPre(t, k + 1)
  {
    assert NEWLINE != LT;
    NoCloseHere(t, k);
    hide *;
    InPreNext(t, k);
  }

  lemma CloseBehind(t: ByteString, pos: nat)
    requires pos < |t| && InClose(t, pos) && GtLen(t[pos..]) == 1
    ensures BoundaryEndsAt(t, pos + 1)
  {
    hide BoundaryCloseLen, GtLen, InPre;
    var j: nat :| ClosesFrom(t, j, pos);
    BoundaryMeans(t, j, pos + 1);
  }

  lemma SiteInPre(t: ByteString, k: nat)
    requires k <= |t|
    ensures Site(t, k, Plain(true)) <==> InPre(t, k)
    ensures Site(t, k, Closing(true)) ==> InClose(t, k)
  {
    hide InPre, InClose;
  }

  lemma BreakSiteFrom(t: ByteString, k: nat)
    requires k < |t| && t[k] == NEWLINE && BoundaryEndsAt(t, k) && InPre(t, k) && NeedsBreak(t[k + 1..])
    ensures BreakSite(t, k)
  {
    TouchesMeans(t, k + 1);
    hide BoundaryEndsAt, InPre, NeedsBreak, Touches;
  }

  /** The newline written behind the boundary close that ends at `pos`. */
  lemma SiteOfBreak(t: ByteString, pos: nat, s: ByteString)
    requires s != [] && pos <= |t| && t[pos..] == BreakRun(s, Closing(true)) && Site(t, pos, Closing(true))
    requires BreakDue(s, Closing(true))
    ensures BreakSite(t, pos + 1) && Site(t, pos + 2, Plain(true))
  {
    hide *;
    WrittenBreak(t, pos, s);
    OutputNext(t, pos, s, Closing(true));
    DueState(s, Closing(true));
    SiteInPre(t, pos);
    SiteInPre(t, pos + 1);
    CloseBehind(t, pos);
    BreakSiteFrom(t, pos + 1);
    InPreBehindBreak(t, pos + 1);
    SiteInPre(t, pos + 2);
  }

  lemma {:induction false} MarkedSites(t: ByteString, pos: nat, s: ByteString, b: BreakState, k: nat)
    requires pos <= |t| && t[pos..] == BreakRun(s, b) && Site(t, pos, b)
    requires k < |Marks(s, b)| && Marks(s, b)[k]
    ensures BreakSite(t, pos + k)
    decreases |s|
  {
    hide *;
    MarksStep(s, b, k);
    var b' := NextBreak(s, b);
    if BreakDue(s, b) {
      DueState(s, b);
      SiteOfBreak(t, pos, s);
      TailOfDue(t, pos, s, b);
      if k > 1 {
        MarkedSites(t, pos + 2, s[1..], b', k - 2);
      }
    } else {
      OutputNext(t, pos, s, b);
      TailOfCopied(t, pos, s, b);
      MarkedSites(t, pos + 1, s[1..], b', k - 1);
    }
  }

  lemma MarksStep(s: ByteString, b: BreakState, k: nat)
    requires k < |Marks(s, b)| && Marks(s, b)[k]
    ensures s != []
    ensures var m := Marks(s[1..], NextBreak(s, b));
            if BreakDue(s, b) then k == 1 || (k >= 2 && k - 2 < |m| && m[k - 2])
            else k >= 1 && k - 1 < |m| && m[k - 1]
  {
    hide NextBreak, BreakDue, BreakRun;
  }

  lemma TailOfDue(t: ByteString, pos: nat, s: ByteString, b: BreakState)
    requires s != [] && pos <= |t| && t[pos..] == BreakRun(s, b) && BreakDue(s, b)
    ensures pos + 1 < |t| && t[pos + 2..] == BreakRun(s[1..], NextBreak(s, b))
  {
    hide NextBreak, BreakDue;
    assert t[pos..][1..][1..] == t[pos + 2..];
    var image := BreakRun(s[1..], NextBreak(s, b));
    assert BreakRun(s, b)[1..] == [NEWLINE] + image;
    assert ([NEWLINE] + image)[1..] == image;
  }

  lemma TailOfCopied(t: ByteString, pos: nat, s: ByteString, b: BreakState)
    requires s != [] && pos <= |t| && t[pos..] == BreakRun(s, b) && !BreakDue(s, b)
    ensures pos < |t| && t[pos + 1..] == BreakRun(s[1..], NextBreak(s, b))
  {
    hide NextBreak, BreakDue;
    assert t[pos..][1..] == t[pos + 1..];
  }

  lemma {:induction false} UnmarkedIsInput(s: ByteString, b: BreakState)
    ensures Unmarked(BreakRun(s, b), Marks(s, b)) == s
    decreases |s|
  {
    if s != [] {
      UnmarkedIsInput(s[1..], NextBreak(s, b));
      RunParts(s, b);
      hide BreakRun, Marks, NextBreak, BreakDue;
      UnmarkedStep(BreakRun(s, b), Marks(s, b));
      assert s == [s[0]] + s[1..];
    }
  }

  /** The run and its marks, one input byte at a time. */
  lemma RunParts(s: ByteString, b: BreakState)
    requires s != []
    ensures var t := BreakRun(s, b); var m := Marks(s, b); var n := if BreakDue(s, b) then 2 else 1;
            && n <= |t| && t[0] == s[0] && !m[0] && (n == 2 ==> m[1])
            && t[n..] == BreakRun(s[1..], NextBreak(s, b)) && m[n..] == Marks(s[1..], NextBreak(s, b))
  {
    hide NextBreak, BreakDue;
    var image, marks := BreakRun(s[1..], NextBreak(s, b)), Marks(s[1..], NextBreak(s, b));
    if BreakDue(s, b) {
      assert BreakRun(s, b) == [s[0]] + ([NEWLINE] + image) && Marks(s, b) == [false, true] + marks;
      assert ([s[0]] + ([NEWLINE] + image))[2..] == image;
    } else {
      assert BreakRun(s, b) == [s[0]] + image && Marks(s, b) == [false] + marks;
    }
  }

  lemma UnmarkedStep(t: ByteString, m: seq<bool>)
    requires |t| == |m| > 0 && !m[0]
    ensures Unmarked(t, m) == [t[0]] + Unmarked(t[1..], m[1..])
    ensures |t| > 1 && m[1] ==> Unmarked(t, m) == [t[0]] + Unmarked(t[2..], m[2..])
  {
    if |t| > 1 && m[1] {
      assert t[1..][1..] == t[2..] && m[1..][1..] == m[2..];
    }
  }

  /**
   The pass only inserts newlines: some bytes of the output are break sites, each
   inside a pre, and the others are the input, in order.
   */
  lemma BreaksOnlyInsert(html: ByteString)
    ensures var t := Broken(html); var m := Marks(html, Plain(false));
            |m| == |t| && Unmarked(t, m) == html
            && forall k :: 0 <= k < |t| && m[k] ==> BreakSite(t, k)
  {
    hide BreakRun, BreakSite, Unmarked, Marks;
    UnmarkedIsInput(html, Plain(false));
    var t := Broken(html);
    assert Site(t, 0, Plain(false));
    forall k | 0 <= k < |t| && Marks(html, Plain(false))[k] ensures BreakSite(t, k) {
      assert t[0..] == t;
      MarkedSites(t, 0, html, Plain(false), k);
    }
  }

  // ---- the input outside its pre regions ----

  /** The scan of `h` from `pos` comes to `i`, having written `n` bytes. */
  lemma {:induction false} ScanTo(h: ByteString, pos: nat, b: BreakState, i: nat) returns (n: nat, b': BreakState)
    requires pos <= i <= |h| && Site(h, pos, b)
    ensures Site(h, i, b')
    ensures var t := BreakRun(h[pos..], b); var m := Marks(h[pos..], b);
            && n <= |t| && t[n..] == BreakRun(h[i..], b') && m[n..] == Marks(h[i..], b')
            && Unmarked(t[..n], m[..n]) == h[pos..i]
    decreases i - pos
  {
    hide *;
    if pos == i {
      n, b' := 0, b;
      NothingWritten(h, pos, b);
    } else {
      var s := h[pos..];
      assert s[1..] == h[pos + 1..] && s[0] == h[pos];
      SiteNext(h, pos, b);
      RunParts(s, b);
      var d := if BreakDue(s, b) then 2 else 1;
      n, b' := ScanTo(h, pos + 1, NextBreak(s, b), i);
      FrontUnmarked(BreakRun(s, b), Marks(s, b), d, n);
      n := n + d;
      assert h[pos..i] == [h[pos]] + h[pos + 1..i];
    }
  }

  lemma NothingWritten(h: ByteString, pos: nat, b: BreakState)
    requires pos <= |h|
    ensures var t := BreakRun(h[pos..], b); var m := Marks(h[pos..], b);
            t[0..] == t && m[0..] == m && Unmarked(t[..0], m[..0]) == h[pos..pos]
  {
  }

  /** One input byte and what it wrote, in front of `n` more output bytes. */
  lemma FrontUnmarked(t: ByteString, m: seq<bool>, d: nat, n: nat)
    requires |t| == |m| && 1 <= d <= 2 && d + n <= |t| && !m[0] && (d == 2 ==> m[1])
    ensures Unmarked(t[..d + n], m[..d + n]) == [t[0]] + Unmarked(t[d..][..n], m[d..][..n])
    ensures t[d..][n..] == t[d + n..] && m[d..][n..] == m[d + n..]
  {
    var u, w := t[..d + n], m[..d + n];
    UnmarkedStep(u, w);
    assert u[d..] == t[d..][..n] && w[d..] == m[d..][..n];
  }

  /** From a place where no pre is open up to `j`, bytes are copied. */
  lemma {:induction false} CopiedTo(h: ByteString, pos: nat, b: BreakState, j: nat)
    requires pos <= j <= |h| && Site(h, pos, b)
    requires forall k: nat :: pos < k <= j ==> !InPre(h, k)
    ensures var t := BreakRun(h[pos..], b); var m := Marks(h[pos..], b); var n := j - pos;
            n <= |t| && t[..n] == h[pos..j] && Unmarked(t[n..], m[n..]) == h[j..]
    decreases j - pos
  {
    hide *;
    var s := h[pos..];
    var t, m := BreakRun(s, b), Marks(s, b);
    if pos == j {
      NothingWritten(h, pos, b);
      UnmarkedIsInput(s, b);
    } else {
      assert s[1..] == h[pos + 1..] && s[0] == h[pos];
      SiteNext(h, pos, b);
      RunParts(s, b);
      if BreakDue(s, b) {
        DueInPre(h, pos, b);
        assert false;
      }
      CopiedTo(h, pos + 1, NextBreak(s, b), j);
      var n := j - pos - 1;
      CutInRest(t, 1, n + 1);
      CutInRest(m, 1, n + 1);
      assert t[..1] == [t[0]] && h[pos..j] == [h[pos]] + h[pos + 1..j];
    }
  }

  /**
   Text outside the pre regions of the input is in the output byte for byte, in
   its place: what comes before and after it is, newlines aside, what came before
   and after it in the input.
   */
  lemma OutsidePreIsCopied(html: ByteString, i: nat, j: nat) returns (n: nat)
    requires i <= j <= |html| && forall k: nat :: i < k <= j ==> !InPre(html, k)
    ensures var t := Broken(html); var m := Marks(html, Plain(false)); var e := n + (j - i);
            && e <= |t| && t[n..e] == html[i..j]
            && Unmarked(t[..n], m[..n]) == html[..i] && Unmarked(t[e..], m[e..]) == html[j..]
  {
    var t, m := Broken(html), Marks(html, Plain(false));
    assert Site(html, 0, Plain(false));
    hide *;
    assert html[0..] == html;
    var b;
    n, b := ScanTo(html, 0, Plain(false), i);
    CopiedTo(html, i, b, j);
    assert t == BreakRun(html, Plain(false)) by { BrokenIs(html); }
    CutInRest(t, n, n + (j - i));
    CutInRest(m, n, n + (j - i));
    assert t[n..n + (j - i)] == t[n..][..j - i];
  }

  lemma BrokenIs(html: ByteString)
    ensures Broken(html) == BreakRun(html, Plain(false))
  {
  }
}
