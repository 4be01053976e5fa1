/** What inserting line breaks preserves, and that doing it twice changes nothing more. */
module BreakLaws {
  import opened Bytes
  import opened Tags
  import opened CodeblockLinebreaks
  import CodespanFixup

  // ---- one step ----

  /** Newline inserted behind the byte at the front of `s`, if any. */
  function Inserted(s: ByteString, b: BreakState): ByteString {
    if BreakDue(s, b) then [NEWLINE] else []
  }

  lemma {:induction false} BreakKeepsHead(s: ByteString, b: BreakState)
    ensures SameHead(s, BreakRun(s, b))
    decreases |s|
  {
    hide NextBreak, NeedsBreak;
    if s != [] && s[0] != LT && s[0] != GT {
      BreakKeepsHead(s[1..], NextBreak(s, b));
      assert BreakRun(s, b)[1..] == BreakRun(s[1..], NextBreak(s, b));
    }
  }

  lemma BreakStep(s: ByteString, b: BreakState)
    requires s != []
    ensures var r := BreakRun(s, b); var image := BreakRun(s[1..], NextBreak(s, b));
            r != [] && r[0] == s[0] && r[1..] == Inserted(s, b) + image
            && SameHead(s[1..], image)
            && (s[0] != GT ==> r[1..] == image)
  {
    BreakKeepsHead(s[1..], NextBreak(s, b));
    hide NextBreak, NeedsBreak, SameHead;
    var image := BreakRun(s[1..], NextBreak(s, b));
    assert [] + image == image;
  }

  // ---- what tags see is unchanged ----

  lemma {:induction false} BreakKeepsTagEnd(q: Quote, s: ByteString, b: BreakState)
    ensures TagEnd(q, BreakRun(s, b)).Some? == TagEnd(q, s).Some?
    decreases |s|
  {
    if s != [] {
      BreakStep(s, b);
      var q' := StepQuote(q, s[0]);
      var image := BreakRun(s[1..], NextBreak(s, b));
      BreakKeepsTagEnd(q', s[1..], NextBreak(s, b));
      hide BreakRun, NextBreak, BreakDue;
      NewlineKeepsQuote(q', image);
      var inserted := if BreakDue(s, b) then [NEWLINE] else [];
      ConsParts(s[0], inserted + image);
      assert [] + image == image;
    }
  }

  lemma NewlineKeepsQuote(q: Quote, s: ByteString)
    ensures TagEnd(q, [NEWLINE] + s).Some? == TagEnd(q, s).Some?
  {
    ConsParts(NEWLINE, s);
  }

  /** The verdict on a body, one byte at a time. */
  lemma LookBodyByte(s: ByteString, seen: bool)
    requires s != [] && s[0] != LT
    ensures CodespanFixup.LookBody(s, seen) ==
            if CodespanFixup.IsBodyWhitespace(s[0]) then CodespanFixup.LookBody(s[1..], true)
            else CodespanFixup.Leave
  {
  }

  lemma LookBodyAtLt(s: ByteString, r: ByteString, seen: bool)
    requires s != [] && r != [] && s[0] == LT && r[0] == LT && SameHead(s[1..], r[1..])
    ensures CodespanFixup.LookBody(r, seen) == CodespanFixup.LookBody(s, seen)
  {
    SameHeadRecognition(s, r, SPAN_NAME);
    hide CloseLen, SameHead;
  }

  lemma NextNotClosing(s: ByteString, b: BreakState)
    requires s != [] && s[0] != LT && !b.Closing?
    ensures !NextBreak(s, b).Closing?
  {
    hide AtLt;
  }

  lemma {:induction false} BreakKeepsLookBody(s: ByteString, seen: bool, b: BreakState)
    requires !b.Closing?
    ensures CodespanFixup.LookBody(BreakRun(s, b), seen) == CodespanFixup.LookBody(s, seen)
    decreases |s|
  {
    if s == [] {
      assert BreakRun(s, b) == [];
    } else {
      BreakStep(s, b);
      var r := BreakRun(s, b);
      if s[0] == LT {
        assert LT != GT;
        hide *;
        LookBodyAtLt(s, r, seen);
      } else {
        NextNotClosing(s, b);
        assert !BreakDue(s, b);
        var image := BreakRun(s[1..], NextBreak(s, b));
        assert Inserted(s, b) == [];
        hide *;
        assert [] + image == image;
        LookBodyByte(s, seen);
        LookBodyByte(r, seen);
        BreakKeepsLookBody(s[1..], true, NextBreak(s, b));
      }
    }
  }

  /** Text that needs a break in front of it is no blank span body. */
  lemma NeedsBreakIsNoBody(s: ByteString, seen: bool)
    requires NeedsBreak(s)
    ensures CodespanFixup.LookBody(s, seen).Leave?
  {
  }

  lemma {:induction false} BreakKeepsLookTag(q: Quote, s: ByteString, b: BreakState)
    ensures CodespanFixup.LookTag(q, BreakRun(s, b)) == CodespanFixup.LookTag(q, s)
    decreases |s|
  {
    if s != [] {
      BreakStep(s, b);
      var b' := NextBreak(s, b);
      var image := BreakRun(s[1..], b');
      if ClosesTag(q, s) {
        BreakKeepsLookBody(s[1..], false, b');
        BreakKeepsLookBody(s[1..], true, b');
        if BreakDue(s, b) {
          NeedsBreakIsNoBody(s[1..], true);
          NeedsBreakIsNoBody(s[1..], false);
          hide BreakRun, NextBreak, NeedsBreak, CloseLen;
          assert ([NEWLINE] + image)[1..] == image;
        } else {
          hide BreakRun, NextBreak, NeedsBreak, CloseLen;
          assert [] + image == image;
        }
      } else {
        BreakKeepsLookTag(StepQuote(q, s[0]), s[1..], b');
        hide BreakRun, NextBreak, NeedsBreak, CodespanFixup.LookBody;
        assert ([NEWLINE] + image)[1..] == image;
        assert [] + image == image;
      }
    }
  }

  lemma SameHeadAtLt(s: ByteString, r: ByteString, inPre: bool)
    requires s != [] && r != [] && s[0] == LT && r[0] == LT && SameHead(s[1..], r[1..])
    requires TagEnd(Neutral, s).Some? == TagEnd(Neutral, r).Some?
    ensures AtLt(r, inPre) == AtLt(s, inPre)
  {
    hide IsOpen, CloseLen, TagEnd, SameHead;
    SameHeadRecognition(s, r, PRE_NAME);
    SameHeadRecognition(s, r, DIV_NAME);
    SameHeadRecognition(s, r, P_NAME);
    SameHeadRecognition(s, r, TR_NAME);
    SameHeadRecognition(s, r, LI_NAME);
  }

  lemma BreakKeepsAtLt(s: ByteString, b: BreakState, inPre: bool)
    requires s != [] && s[0] == LT
    ensures BreakRun(s, b) != [] && AtLt(BreakRun(s, b), inPre) == AtLt(s, inPre)
  {
    hide AtLt, TagEnd, SameHead, NextBreak, BreakDue, BreakRun;
    BreakStep(s, b);
    BreakKeepsTagEnd(Neutral, s, b);
    SameHeadAtLt(s, BreakRun(s, b), inPre);
  }

  /** Whether text needs a break in front of it survives breaking it. */
  lemma BreakKeepsNeed(s: ByteString, b: BreakState)
    ensures NeedsBreak(BreakRun(s, b)) == NeedsBreak(s)
  {
    if s != [] {
      BreakStep(s, b);
      if |s| > 1 {
        BreakStep(s[1..], NextBreak(s, b));
      }
      hide BreakRun, NextBreak, BreakDue;
    }
  }

  // ---- idempotence ----

  lemma SameTurn(s: ByteString, b: BreakState)
    requires s != [] && !BreakDue(s, b)
    ensures var r := BreakRun(s, b);
            r != [] && !BreakDue(r, b) && NextBreak(r, b) == NextBreak(s, b)
  {
    BreakStep(s, b);
    var image := BreakRun(s[1..], NextBreak(s, b));
    assert [] + image == image;
    BreakKeepsNeed(s[1..], NextBreak(s, b));
    if s[0] == LT && b.Plain? {
      BreakKeepsAtLt(s, b, b.inPre);
    }
    hide BreakRun, NeedsBreak, AtLt;
  }

  lemma {:induction false} BreakRunTwice(s: ByteString, b: BreakState)
    ensures BreakRun(BreakRun(s, b), b) == BreakRun(s, b)
    decreases |s|
  {
    if s != [] {
      var r := BreakRun(s, b);
      BreakStep(s, b);
      BreakRunTwice(s[1..], NextBreak(s, b));
      var image := BreakRun(s[1..], NextBreak(s, b));
      if BreakDue(s, b) {
        BreakStep(r, b);
        assert r[1..] == [NEWLINE] + image;
        RunText(r[1..], 1, true);
        assert r[1..][1..] == image && r[1..][..1] == [NEWLINE];
        assert BreakRun(r[1..], Plain(true)) == r[1..];
        hide BreakRun;
        assert [] + r[1..] == r[1..];
      } else {
        SameTurn(s, b);
        BreakStep(r, b);
        hide BreakRun, NextBreak;
        assert [] + image == image;
      }
    }
  }

  /** Inserting breaks twice is inserting them once, unclosed `<pre>` or not. */
  lemma BreaksAreIdempotent(html: ByteString)
    ensures Broken(Broken(html)) == Broken(html)
  {
    BreakRunTwice(html, Plain(false));
  }

  /** No break is due anywhere in a scan of `s` from state `b`. */
  ghost predicate Separated(s: ByteString, b: BreakState) {
    s != [] ==> !BreakDue(s, b) && Separated(s[1..], NextBreak(s, b))
  }

  lemma {:induction false} BreakRunLength(s: ByteString, b: BreakState)
    ensures |s| <= |BreakRun(s, b)|
    decreases |s|
  {
    if s != [] {
      BreakRunLength(s[1..], NextBreak(s, b));
      hide NextBreak, NeedsBreak;
    }
  }

  lemma {:induction false} UnchangedIffSeparated(s: ByteString, b: BreakState)
    ensures BreakRun(s, b) == s <==> Separated(s, b)
    decreases |s|
  {
    if s != [] {
      BreakStep(s, b);
      BreakRunLength(s[1..], NextBreak(s, b));
      UnchangedIffSeparated(s[1..], NextBreak(s, b));
      var image := BreakRun(s[1..], NextBreak(s, b));
      hide BreakRun, NextBreak, NeedsBreak;
      assert [] + image == image;
      assert |[NEWLINE] + image| > |s[1..]|;
      if BreakRun(s, b) == s {
        assert !BreakDue(s, b);
      }
    }
  }

  /**
   The pass changes a document iff some boundary close inside a pre lacks a
   separator, and its output has none left.
   */
  lemma BreaksSettleEveryBoundary(html: ByteString)
    ensures Broken(html) == html <==> Separated(html, Plain(false))
    ensures Separated(Broken(html), Plain(false))
  {
    UnchangedIffSeparated(html, Plain(false));
    BreakRunTwice(html, Plain(false));
    UnchangedIffSeparated(Broken(html), Plain(false));
  }

  // ---- inside a closing tag ----

  /** No `<` before the `>` of a closing tag under way. */
  ghost predicate CleanClose(s: ByteString) {
    s != [] && (s[0] == GT || (s[0] != LT && CleanClose(s[1..])))
  }

  lemma {:induction false} CleanCloseFromIndices(s: ByteString, n: nat)
    requires n < |s| && s[n] == GT && forall k :: 0 <= k < n ==> s[k] != LT
    ensures CleanClose(s)
    decreases n
  {
    if n > 0 {
      CleanCloseFromIndices(s[1..], n - 1);
    }
  }

  lemma CleanCloseEntry(s: ByteString, name: ByteString)
    requires IsTagName(name) && CloseLen(s, name).Some?
    ensures CleanClose(s[1..])
  {
    CloseTagShape(s, name);
    var c := CloseLen(s, name).value;
    forall k | 0 <= k < c - 2 ensures s[1..][k] != LT {
      assert s[1..][k] == s[k + 1];
    }
    CleanCloseFromIndices(s[1..], c - 2);
  }

  lemma CleanCloseNext(s: ByteString, b: BreakState)
    requires s != [] && (b.Closing? ==> CleanClose(s)) && NextBreak(s, b).Closing?
    ensures CleanClose(s[1..])
    ensures s[0] == LT ==> forall name :: CloseLen(s, name).None? ==> !b.Closing?
  {
    hide IsOpen, CloseLen, TagEnd;
    if !b.Closing? {
      if CloseLen(s, PRE_NAME).Some? {
        CleanCloseEntry(s, PRE_NAME);
      } else {
        var name := BoundaryCloseName(s);
        CleanCloseEntry(s, name);
      }
    }
  }
}
