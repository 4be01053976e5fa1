/**
 src/util/codespan_fixup.rs: whitespace-only `<span>` bodies become a sentinel
 on the way into the extractor.

 The scanner is specified by a byte-at-a-time automaton. Its state says
 whether the scan is inside a span opening tag, in which quote state, and
 whether the body behind that tag is to be replaced. The state does not count
 bytes, so it survives any rewriting of the text that leaves tags alone.
 */
module CodespanFixup {
  import opened Wrappers
  import opened Bytes
  import opened Utf8
  import opened TagExtent
  import opened Tags

  /** U+E000 in UTF-8. */
  const SENTINEL: ByteString := [0xEE, 0x80, 0x80]

  /** The four characters a span body may consist of (form feed is not one). */
  predicate IsBodyWhitespace(b: Byte) {
    b == SPACE || b == TAB || b == NEWLINE || b == CARRIAGE_RETURN
  }

  predicate IsBlankBody(s: ByteString) {
    forall k :: 0 <= k < |s| ==> IsBodyWhitespace(s[k])
  }

  lemma BlankBodyCons(b: Byte, s: ByteString)
    ensures IsBlankBody([b] + s) <==> IsBodyWhitespace(b) && IsBlankBody(s)
  {
    var u := [b] + s;
    assert u[1..] == s && u[0] == b;
    if IsBlankBody(u) {
      forall k | 0 <= k < |s| ensures IsBodyWhitespace(s[k]) {
        assert IsBodyWhitespace(u[k + 1]);
      }
    }
  }

  // ---- look-ahead from a span opening tag ----

  datatype Look = Unclosed | Leave | Substitute

  /** Verdict on the text behind an opening tag; `seen` whitespace bytes or not. */
  function LookBody(s: ByteString, seen: bool): (r: Look)
    ensures r != Unclosed
  {
    if s == [] then Leave
    else if s[0] == LT then
      if seen && CloseLen(s, SPAN_NAME).Some? then Substitute else Leave
    else if IsBodyWhitespace(s[0]) then LookBody(s[1..], true)
    else Leave
  }

  /** Verdict on a span opening tag entered in quote state `q`. */
  function LookTag(q: Quote, s: ByteString): Look
    decreases |s|
  {
    if s == [] then Unclosed
    else if ClosesTag(q, s) then LookBody(s[1..], false)
    else LookTag(StepQuote(q, s[0]), s[1..])
  }

  // ---- the automaton ----

  datatype SpanState = Text | Tag(q: Quote, sub: bool)

  /** A state that a scan of `s` can be in: the tag closes, with that verdict. */
  predicate SpanOk(s: ByteString, a: SpanState) {
    a.Tag? ==> LookTag(a.q, s) == if a.sub then Substitute else Leave
  }

  /** The byte at the front ends a span opening tag whose body is replaced. */
  predicate AtSubstitution(s: ByteString, a: SpanState) {
    a.Tag? && a.sub && ClosesTag(a.q, s)
  }

  predicate EntersSpan(s: ByteString) {
    IsOpen(s, SPAN_NAME) && LookTag(Neutral, s) != Unclosed
  }

  /** State after the byte at the front of `s`. */
  function NextSpan(s: ByteString, a: SpanState): SpanState
    requires s != []
  {
    match a
    case Text =>
      if EntersSpan(s) then Tag(Neutral, LookTag(Neutral, s) == Substitute) else Text
    case Tag(q, sub) =>
      if ClosesTag(q, s) then Text else Tag(StepQuote(q, s[0]), sub)
  }

  /** The rewritten text, with `fill` in place of each whitespace-only body. */
  function SpanRun(s: ByteString, a: SpanState, fill: ByteString): ByteString
    decreases |s|, 1
  {
    if s == [] then []
    else if AtSubstitution(s, a) then
      [GT] + BehindTag(s[1..], fill)
    else [s[0]] + SpanRun(s[1..], NextSpan(s, a), fill)
  }

  /** Text behind a tag whose body is replaced: the body makes way for `fill`. */
  function BehindTag(s: ByteString, fill: ByteString): ByteString
    decreases |s|, 2
  {
    fill + SpanRun(s[TextLen(s)..], Text, fill)
  }

  /** What `preserve_whitespace_only_spans` returns. */
  function Preserved(html: ByteString): ByteString {
    SpanRun(html, Text, SENTINEL)
  }

  // ---- the automaton block by block ----

  lemma {:induction false} LookTagUnfold(q: Quote, s: ByteString)
    ensures TagEnd(q, s).None? <==> LookTag(q, s) == Unclosed
    ensures TagEnd(q, s).Some? ==> LookTag(q, s) == LookBody(s[TagEnd(q, s).value + 1..], false)
    decreases |s|
  {
    if s != [] && !ClosesTag(q, s) {
      LookTagUnfold(StepQuote(q, s[0]), s[1..]);
      if TagEnd(q, s).Some? {
        var k := TagEnd(q, s).value;
        assert s[1..][k..] == s[k + 1..];
      }
    }
  }

  /** `ws_only` and the closing tag, as the source computes them from indices. */
  lemma {:induction false} LookBodyUnfold(s: ByteString, seen: bool)
    ensures LookBody(s, seen) == Substitute <==>
              var n := TextLen(s);
              n < |s| && (seen || n > 0) && CloseLen(s[n..], SPAN_NAME).Some?
              && IsBlankBody(s[..n])
    decreases |s|
  {
    if s != [] && s[0] != LT {
      var n := TextLen(s);
      var t := s[1..];
      LookBodyUnfold(t, true);
      assert TextLen(t) == n - 1;
      if n < |s| {
        assert t[n - 1..] == s[n..];
      }
      assert s[..n] == [s[0]] + t[..n - 1];
      BlankBodyCons(s[0], t[..n - 1]);
    } else if s != [] {
      assert s[0..] == s;
    }
  }

  /** A tag entered in state `Tag(q, sub)` is copied whole. */
  lemma {:induction false} RunTag(s: ByteString, q: Quote, sub: bool, fill: ByteString)
    requires TagEnd(q, s).Some?
    ensures var e := TagEnd(q, s).value + 1;
            SpanRun(s, Tag(q, sub), fill) ==
            s[..e] + if sub then BehindTag(s[e..], fill) else SpanRun(s[e..], Text, fill)
    decreases |s|
  {
    hide EntersSpan, BehindTag, LookTag;
    var e := TagEnd(q, s).value + 1;
    if ClosesTag(q, s) {
      assert s[..1] == [GT];
    } else {
      var t := s[1..];
      RunTag(t, StepQuote(q, s[0]), sub, fill);
      ConsSlice(s, e, if sub then BehindTag(s[e..], fill) else SpanRun(s[e..], Text, fill));
    }
  }

  /** A recognised opening tag is copied whole, and its body replaced or not. */
  lemma RunOpenTag(s: ByteString, fill: ByteString)
    requires IsOpen(s, SPAN_NAME) && TagEnd(Neutral, s).Some?
    ensures var e := TagEnd(Neutral, s).value + 1;
            SpanRun(s, Text, fill) ==
            s[..e] + if LookBody(s[e..], false) == Substitute then BehindTag(s[e..], fill)
                     else SpanRun(s[e..], Text, fill)
  {
    hide LookTag, LookBody, BehindTag, CloseLen;
    LookTagUnfold(Neutral, s);
    var e := TagEnd(Neutral, s).value + 1;
    var t := s[1..];
    assert TagEnd(Neutral, t) == Some(e - 2);
    var sub := LookTag(Neutral, s) == Substitute;
    RunTag(t, Neutral, sub, fill);
    ConsSlice(s, e, if sub then BehindTag(s[e..], fill) else SpanRun(s[e..], Text, fill));
  }

  /** Text free of `<` is copied. */
  lemma {:induction false} RunText(s: ByteString, k: nat, fill: ByteString)
    requires k <= |s| && forall i :: 0 <= i < k ==> s[i] != LT
    ensures SpanRun(s, Text, fill) == s[..k] + SpanRun(s[k..], Text, fill)
    decreases k
  {
    if k == 0 {
      assert s[..0] == [] && s[0..] == s;
    } else {
      RunText(s[1..], k - 1, fill);
      ConsSlice(s, k, SpanRun(s[k..], Text, fill));
    }
  }

  /** A `</span>` is copied. */
  lemma RunCloseTag(s: ByteString, fill: ByteString)
    requires CloseLen(s, SPAN_NAME).Some?
    ensures var c := CloseLen(s, SPAN_NAME).value;
            SpanRun(s, Text, fill) == s[..c] + SpanRun(s[c..], Text, fill)
  {
    var c := CloseLen(s, SPAN_NAME).value;
    CloseTagShape(s, SPAN_NAME);
    if IsOpen(s, SPAN_NAME) {
      OpenIsNotClose(s, SPAN_NAME, SPAN_NAME);
    }
    var t := s[1..];
    forall i | 0 <= i < c - 1 ensures t[i] != LT {
      assert t[i] == s[i + 1];
    }
    RunText(t, c - 1, fill);
    ConsSlice(s, c, SpanRun(s[c..], Text, fill));
  }

  // ---- preserve_whitespace_only_spans ----

  method IsWhitespaceOnly(between: ByteString) returns (ok: bool)
    ensures ok <==> between != [] && IsBlankBody(between)
  {
    if between == [] {
      return false;
    }
    var k := 0;
    while k < |between|
      invariant 0 <= k <= |between|
      invariant forall i :: 0 <= i < k ==> IsBodyWhitespace(between[i])
    {
      if !IsBodyWhitespace(between[k]) {
        return false;
      }
      k := k + 1;
    }
    return true;
  }

  /** The scan has reached boundary `i` of `html` and written `out`. */
  ghost predicate Scanned(html: ByteString, i: nat, out: ByteString) {
    && i <= |html| && IsCharBoundary(html, i)
    && out + SpanRun(html[i..], Text, SENTINEL) == Preserved(html)
    && ValidUtf8(out)
  }

  lemma ScanCopies(html: ByteString, i: nat, j: nat, out: ByteString)
    requires ValidUtf8(html) && Scanned(html, i, out)
    requires i <= j <= |html| && IsCharBoundary(html, j)
    requires SpanRun(html[i..], Text, SENTINEL) == html[i..j] + SpanRun(html[j..], Text, SENTINEL)
    ensures Scanned(html, j, out + StrSlice(html, i, j))
  {
    hide SpanRun, ValidUtf8;
    CopyStep(html, i, j, out, SpanRun(html[i..], Text, SENTINEL), SpanRun(html[j..], Text, SENTINEL));
  }

  lemma ScanSubstitutes(html: ByteString, i: nat, e: nat, j: nat, k: nat, out: ByteString)
    requires ValidUtf8(html) && Scanned(html, i, out)
    requires i <= e <= j <= k <= |html|
    requires IsCharBoundary(html, e) && IsCharBoundary(html, j) && IsCharBoundary(html, k)
    requires SpanRun(html[i..], Text, SENTINEL) ==
             html[i..e] + (SENTINEL + (html[j..k] + SpanRun(html[k..], Text, SENTINEL)))
    ensures Scanned(html, k, out + StrSlice(html, i, e) + SENTINEL + StrSlice(html, j, k))
  {
    hide SpanRun, ValidUtf8;
    var rest := SpanRun(html[k..], Text, SENTINEL);
    CopyStep(html, i, e, out, html[i..e] + (SENTINEL + (html[j..k] + rest)), SENTINEL + (html[j..k] + rest));
    SentinelValid();
    ValidConcat(out + html[i..e], SENTINEL);
    CopyStep(html, j, k, out + html[i..e] + SENTINEL, html[j..k] + rest, rest);
    Assoc(out + html[i..e], SENTINEL, html[j..k] + rest);
  }

  /** The verdict on the body from `e` on, by indices. */
  lemma BodyVerdict(html: ByteString, e: nat, j: nat)
    requires e <= |html| && j == e + TextLen(html[e..])
    ensures j <= |html|
    ensures LookBody(html[e..], false) == Substitute <==>
              j < |html| && j > e && CloseLen(html[j..], SPAN_NAME).Some? && IsBlankBody(html[e..j])
  {
    hide *;
    LookBodyUnfold(html[e..], false);
    SuffixSlice(html, e, j - e);
  }

  /** The opening tag at `i` ends before `e`; `j` is the next `<`. */
  lemma ScanOpenTag(html: ByteString, i: nat, e: nat, j: nat)
    requires i < |html| && IsOpen(html[i..], SPAN_NAME)
    requires i < e && TagEnd(Neutral, html[i..]) == Some(e - 1 - i)
    requires e <= |html| && j == e + TextLen(html[e..])
    ensures SpanRun(html[i..], Text, SENTINEL) ==
            html[i..e] + if j < |html| && j > e && CloseLen(html[j..], SPAN_NAME).Some?
                            && IsBlankBody(html[e..j])
                         then SENTINEL + SpanRun(html[j..], Text, SENTINEL)
                         else SpanRun(html[e..], Text, SENTINEL)
  {
    hide *;
    RunOpenTag(html[i..], SENTINEL);
    SuffixSlice(html, i, e - i);
    BodyVerdict(html, e, j);
    BehindTagIs(html[e..], SENTINEL);
    assert html[e..][j - e..] == html[j..];
  }

  lemma BehindTagIs(s: ByteString, fill: ByteString)
    ensures BehindTag(s, fill) == fill + SpanRun(s[TextLen(s)..], Text, fill)
  {
    hide SpanRun, TextLen;
  }

  lemma SpanIsTagName()
    ensures IsTagName(SPAN_NAME)
  {
  }

  lemma ScanCloseTag(html: ByteString, j: nat)
    requires ValidUtf8(html) && j < |html| && CloseLen(html[j..], SPAN_NAME).Some?
    ensures var k := j + CloseLen(html[j..], SPAN_NAME).value;
            k <= |html| && IsCharBoundary(html, j) && IsCharBoundary(html, k)
            && SpanRun(html[j..], Text, SENTINEL) == html[j..k] + SpanRun(html[k..], Text, SENTINEL)
  {
    hide *;
    SpanIsTagName();
    CloseTagBoundaries(html, j, SPAN_NAME);
    var t := html[j..];
    RunCloseTag(t, SENTINEL);
    SuffixSlice(html, j, CloseLen(t, SPAN_NAME).value);
  }

  lemma ScanText(html: ByteString, i: nat, j: nat)
    requires i < |html| && j == i + TextLen(html[i..])
    ensures j <= |html|
    ensures SpanRun(html[i..], Text, SENTINEL) == html[i..j] + SpanRun(html[j..], Text, SENTINEL)
  {
    hide SpanRun, TextLen;
    RunText(html[i..], j - i, SENTINEL);
    SuffixSlice(html, i, j - i);
  }

  /** A `<` that starts no closed span tag is copied alone. */
  lemma ScanLt(html: ByteString, i: nat)
    requires ValidUtf8(html) && i < |html| && html[i] == LT
    requires !IsOpen(html[i..], SPAN_NAME) || TagEnd(Neutral, html[i..]).None?
    ensures IsCharBoundary(html, i) && IsCharBoundary(html, i + 1)
    ensures html[i..i + 1] == [LT]
    ensures SpanRun(html[i..], Text, SENTINEL) == html[i..i + 1] + SpanRun(html[i + 1..], Text, SENTINEL)
  {
    hide ValidUtf8, LookTag, TagEnd, IsOpen;
    AsciiBoundary(html, i);
    LookTagUnfold(Neutral, html[i..]);
    assert html[i..][1..] == html[i + 1..];
    assert html[i..i + 1] == [html[i]];
  }

  /**
   The source's loop. `StrSlice` demands a character boundary at both ends, so
   that the method verifies means no slice panics on valid UTF-8.
   */
  method PreserveWhitespaceOnlySpans(html: ByteString) returns (out: ByteString)
    requires ValidUtf8(html)
    ensures out == Preserved(html)
    ensures ValidUtf8(out)
  {
    hide SpanRun, ValidUtf8, TagEnd, IsOpen, CloseLen, TextLen, IsBlankBody, IsCharBoundary;
    out := [];
    var i := 0;
    assert html[0..] == html;
    EmptyRun();
    BoundaryAtEnds(html);
    while i < |html|
      invariant Scanned(html, i, out)
      decreases |html| - i
    {
      if html[i] == LT {
        var opens := IsTagOpenAt(html, i, SPAN_NAME);
        if opens {
          var tagEnd := FindTagEnd(html, i);
          if tagEnd.Some? {
            var openTagEnd := tagEnd.value + 1;
            assert html[tagEnd.value] == html[i..][tagEnd.value - i];
            AsciiBoundary(html, tagEnd.value);
            var j := FindLt(html, openTagEnd);
            ScanOpenTag(html, i, openTagEnd, j);
            if j < |html| {
              var closeLen := ClosingTagLen(html, j, SPAN_NAME);
              if closeLen.Some? {
                ScanCloseTag(html, j);
                var between := StrSlice(html, openTagEnd, j);
                var wsOnly := IsWhitespaceOnly(between);
                if wsOnly {
                  ScanSubstitutes(html, i, openTagEnd, j, j + closeLen.value, out);
                  out := out + StrSlice(html, i, openTagEnd);
                  out := out + SENTINEL;
                  out := out + StrSlice(html, j, j + closeLen.value);
                  i := j + closeLen.value;
                  continue;
                }
              }
            }
            ScanCopies(html, i, openTagEnd, out);
            out := out + StrSlice(html, i, openTagEnd);
            i := openTagEnd;
            continue;
          }
        }
        ScanLt(html, i);
        ScanCopies(html, i, i + 1, out);
        out := out + [LT];
        i := i + 1;
        continue;
      }
      BoundaryAtEnds(html);
      var rest := StrSlice(html, i, |html|);
      var offset := FindLt(rest, 0);
      assert rest[0..] == rest == html[i..];
      var nextLt := i + offset;
      ScanText(html, i, nextLt);
      NextLtBoundary(html, i, nextLt);
      ScanCopies(html, i, nextLt, out);
      out := out + StrSlice(html, i, nextLt);
      i := nextLt;
    }
    assert html[i..] == [];
  }

  lemma EmptyRun()
    ensures ValidUtf8([]) && SpanRun([], Text, SENTINEL) == []
  {
  }

  lemma SentinelValid()
    ensures ValidUtf8(SENTINEL)
  {
    assert CharLen(SENTINEL) == 3;
    assert SENTINEL[3..] == [];
  }
}
