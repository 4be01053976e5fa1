/**
 src/util/extract.rs:226-387: which text an extraction serves, and its cap. What
 the extractor and the whole-document dump return are arbitrary strings here.
 */
module ExtractCascade {
  import opened Wrappers
  import opened Bytes
  import opened Trim
  import opened Utf8
  import opened WhitespaceRestore

  const WHOLE_DOC_CHECK_FLOOR: nat := 3_000
  const HEALTHY_MARKDOWN_FLOOR: nat := 1_500
  const MIN_FALLBACK_CHARS: nat := 200
  const LARGE_PAGE_RAW_BYTES: nat := 512 * 1024

  datatype Extraction = Extraction(markdown: Option<ByteString>, text: ByteString)

  datatype ExtractMethod = Markdown | TextFallback | WholeDocFallback

  /** `ratio` is the pair of lengths whose quotient the source logs. */
  datatype Outcome = Outcome(content: Option<ByteString>, how: ExtractMethod, ratio: Option<(nat, nat)>)

  datatype Page = Page(result: Option<Extraction>, wholeDoc: ByteString, rawBytes: nat)

  datatype Config = Config(outputMarkdown: bool, maxContentChars: nat)

  /** The strings of a page are Rust strings. */
  ghost predicate IsPage(p: Page) {
    && ValidUtf8(p.wholeDoc)
    && (p.result.Some? ==>
          ValidUtf8(p.result.value.text)
          && (p.result.value.markdown.Some? ==> ValidUtf8(p.result.value.markdown.value)))
  }

  // ---- truncate_at_char_boundary ----

  /** End of the last character of `s` that ends at or before `max`. */
  function CutPoint(s: ByteString, max: nat): (n: nat)
    ensures n <= |s| && n <= max
    decreases |s|
  {
    var n := CharLen(s);
    if n == 0 || n > max then 0 else n + CutPoint(s[n..], max - n)
  }

  function Truncated(s: ByteString, max: nat): (r: ByteString)
    ensures |r| <= max && |r| <= |s|
  {
    if |s| <= max then s else s[..CutPoint(s, max)]
  }

  lemma CutStep(s: ByteString, max: nat)
    requires CharLen(s) > 0
    ensures CutPoint(s, max) ==
            if CharLen(s) > max then 0 else CharLen(s) + CutPoint(s[CharLen(s)..], max - CharLen(s))
  {
  }

  method TruncateAtCharBoundary(s: ByteString, maxBytes: nat) returns (r: ByteString)
    requires ValidUtf8(s)
    ensures r == Truncated(s, maxBytes)
  {
    hide *;
    TruncatedIs(s, maxBytes);
    if |s| <= maxBytes {
      return s;
    }
    var boundary := 0;
    assert s[0..] == s;
    while boundary < |s|
      invariant 0 <= boundary <= |s| && boundary <= maxBytes
      invariant ValidUtf8(s[boundary..])
      invariant boundary + CutPoint(s[boundary..], maxBytes - boundary) == CutPoint(s, maxBytes)
      decreases |s| - boundary
    {
      FrontChar(s[boundary..]);
      CutStep(s[boundary..], maxBytes - boundary);
      var n := LeadLen(s[boundary]);
      SuffixSlice(s, boundary, n);
      var end := boundary + n;
      if end > maxBytes {
        break;
      }
      boundary := end;
    }
    EmptyCut(s, boundary, maxBytes - boundary);
    CutPointIsLast(s, maxBytes);
    BoundaryAtEnds(s);
    StrSliceIs(s, boundary);
    return StrSlice(s, 0, boundary);
  }

  lemma StrSliceIs(s: ByteString, end: nat)
    requires end <= |s| && IsCharBoundary(s, 0) && IsCharBoundary(s, end)
    ensures StrSlice(s, 0, end) == s[..end]
  {
  }

  lemma TruncatedIs(s: ByteString, max: nat)
    ensures Truncated(s, max) == if |s| <= max then s else s[..CutPoint(s, max)]
  {
  }

  lemma EmptyCut(s: ByteString, boundary: nat, max: nat)
    requires boundary <= |s|
    ensures boundary == |s| ==> CutPoint(s[boundary..], max) == 0
  {
  }

  lemma BoundaryAfterFront(s: ByteString, k: nat)
    requires ValidUtf8(s) && s != [] && k <= |s| - CharLen(s) && IsCharBoundary(s[CharLen(s)..], k)
    ensures IsCharBoundary(s, CharLen(s) + k)
  {
    ValidRest(s);
    var rest := s[CharLen(s)..];
    if rest != [] {
      ValidStart(rest);
    }
    hide CharLen, ValidUtf8;
  }

  lemma NothingToCut(max: nat)
    ensures CutPoint([], max) == 0 && IsCharBoundary([], 0)
  {
  }

  /** The cut is a boundary, and no later boundary fits. */
  lemma {:induction false} CutPointIsLast(s: ByteString, max: nat)
    requires ValidUtf8(s)
    ensures IsCharBoundary(s, CutPoint(s, max))
    ensures forall k :: CutPoint(s, max) < k <= |s| && IsCharBoundary(s, k) ==> k > max
    ensures |s| > max ==> CutPoint(s, max) + 3 >= max
    decreases |s|
  {
    hide *;
    if s == [] {
      NothingToCut(max);
    } else {
      ValidRest(s);
      CutStep(s, max);
      BoundaryAtEnds(s);
      var n := CharLen(s);
      if n <= max {
        CutPointIsLast(s[n..], max - n);
        BoundaryAfterFront(s, CutPoint(s[n..], max - n));
      }
      forall k | CutPoint(s, max) < k <= |s| && IsCharBoundary(s, k) ensures k > max {
        BoundaryInRest(s, k);
      }
    }
  }

  /** The longest prefix of whole characters within the cap. */
  lemma TruncatedIsLongestPrefix(s: ByteString, max: nat)
    requires ValidUtf8(s)
    ensures var r := Truncated(s, max);
            && ValidUtf8(r) && r == s[..|r|] && IsCharBoundary(s, |r|) && |r| <= max
            && (forall k :: 0 <= k <= |s| && IsCharBoundary(s, k) && k <= max ==> k <= |r|)
            && (|s| > max ==> |r| + 3 >= max)
  {
    CutPointIsLast(s, max);
    ValidSplit(s, CutPoint(s, max));
    hide ValidUtf8, CutPoint;
    assert s[..|s|] == s;
  }

  // ---- the cascade ----

  /** Step 2: the extractor's own selection, if it made one. */
  function Selection(p: Page, c: Config): (r: (Option<ByteString>, ExtractMethod))
    ensures r.1 != WholeDocFallback
  {
    if p.result.None? then (None, TextFallback)
    else
      var e := p.result.value;
      if c.outputMarkdown && e.markdown.Some? && !IsBlank(e.markdown.value) then
        (Some(Restored(e.markdown.value)), Markdown)
      else if IsBlank(Restored(e.text)) then (None, TextFallback)
      else (Some(Restored(e.text)), TextFallback)
  }

  function LenOf(s: Option<ByteString>): nat {
    if s.Some? then |s.value| else 0
  }

  predicate IsLargePage(p: Page) {
    p.rawBytes >= LARGE_PAGE_RAW_BYTES
  }

  /** Step 3: the selection is held against the whole document. */
  predicate IsAudited(p: Page, c: Config) {
    var (sel, how) := Selection(p, c);
    (LenOf(sel) < WHOLE_DOC_CHECK_FLOOR && !(how == Markdown && LenOf(sel) >= HEALTHY_MARKDOWN_FLOOR))
    || (IsLargePage(p) && sel.Some? && LenOf(sel) < c.maxContentChars)
  }

  /** Step 4: `chosen / whole` below 0.30, or 0.05 on a large page. */
  predicate IsTooSmall(p: Page, chosen: nat) {
    if IsLargePage(p) then 20 * chosen < |p.wholeDoc| else 10 * chosen < 3 * |p.wholeDoc|
  }

  predicate IsReplaced(p: Page, c: Config) {
    IsAudited(p, c) && p.wholeDoc != [] && IsTooSmall(p, LenOf(Selection(p, c).0))
  }

  /** The whole text served, before the cap. */
  function Served(p: Page, c: Config): Option<ByteString> {
    if !IsReplaced(p, c) then Selection(p, c).0
    else if |p.wholeDoc| >= MIN_FALLBACK_CHARS then Some(p.wholeDoc)
    else None
  }

  function Content(p: Page, c: Config): Option<ByteString> {
    if Served(p, c).Some? then Some(Truncated(Served(p, c).value, c.maxContentChars)) else None
  }

  function How(p: Page, c: Config): ExtractMethod {
    if IsReplaced(p, c) && |p.wholeDoc| >= MIN_FALLBACK_CHARS then WholeDocFallback else Selection(p, c).1
  }

  /** The lengths compared, when they are compared. */
  function Ratio(p: Page, c: Config): Option<(nat, nat)> {
    if IsAudited(p, c) && p.wholeDoc != [] then Some((LenOf(Selection(p, c).0), |p.wholeDoc|)) else None
  }

  method ExtractFromHtml(p: Page, c: Config) returns (o: Outcome)
    requires IsPage(p)
    ensures o == Outcome(Content(p, c), How(p, c), Ratio(p, c))
  {
    hide IsBlank, Truncated, Restored, ValidUtf8;
    var chosen: Option<ByteString> := None;
    var how := TextFallback;
    if p.result.Some? {
      var e := p.result.value;
      if c.outputMarkdown && e.markdown.Some? && !IsBlank(e.markdown.value) {
        var content := RestoreWhitespacePlaceholders(e.markdown.value);
        chosen, how := Some(content), Markdown;
      } else {
        var text := RestoreWhitespacePlaceholders(e.text);
        if !IsBlank(text) {
          chosen := Some(text);
        }
      }
    }
    SelectionValid(p, c);
    var ratio: Option<(nat, nat)> := None;
    var chosenLen := if chosen.Some? then |chosen.value| else 0;
    var healthyMarkdownInBand := how == Markdown && chosenLen >= HEALTHY_MARKDOWN_FLOOR;
    var isLargePage := p.rawBytes >= LARGE_PAGE_RAW_BYTES;
    var largePageAudit := isLargePage && chosen.Some? && chosenLen < c.maxContentChars;
    var auditNeeded := (chosenLen < WHOLE_DOC_CHECK_FLOOR && !healthyMarkdownInBand) || largePageAudit;
    if auditNeeded {
      if p.wholeDoc != [] {
        ratio := Some((chosenLen, |p.wholeDoc|));
        var tooSmall := if isLargePage then 20 * chosenLen < |p.wholeDoc| else 10 * chosenLen < 3 * |p.wholeDoc|;
        if tooSmall {
          if |p.wholeDoc| >= MIN_FALLBACK_CHARS {
            chosen := Some(p.wholeDoc);
            how := WholeDocFallback;
          } else {
            chosen := None;
          }
        }
      }
    }
    if chosen.Some? {
      var capped := TruncateAtCharBoundary(chosen.value, c.maxContentChars);
      chosen := Some(capped);
    }
    o := Outcome(chosen, how, ratio);
  }

  /** The restored selection is a string again. */
  lemma SelectionValid(p: Page, c: Config)
    requires IsPage(p)
    ensures Selection(p, c).0.Some? ==> ValidUtf8(Selection(p, c).0.value)
  {
    hide IsBlank, ValidUtf8, Restored;
    if p.result.Some? {
      var e := p.result.value;
      RestoredValid(e.text);
      if e.markdown.Some? {
        RestoredValid(e.markdown.value);
      }
    }
  }

  lemma RestoredValid(s: ByteString)
    requires ValidUtf8(s)
    ensures ValidUtf8(Restored(s))
  {
    RestoringValid([], s);
  }

  lemma {:induction false} RestoringValid(out: ByteString, s: ByteString)
    requires ValidUtf8(out) && ValidUtf8(s)
    ensures ValidUtf8(Restoring(out, s))
    decreases |s|
  {
    if s != [] {
      FrontChar(s);
      SentinelChar(s);
      hide ValidUtf8, CharLen, Restoring;
      if SentinelAt(s) {
        RestoreSentinel(out, s);
        PopSpaceValid(out);
        if s[3..] != [] && s[3..][0] == SPACE {
          FrontChar(s[3..]);
        }
        RestoringValid(PopSpace(out) + [SPACE], SkipSpace(s[3..]));
      } else {
        PushChar(out, s);
        ValidConcat(out, s[..CharLen(s)]);
        RestoringValid(out + s[..CharLen(s)], s[CharLen(s)..]);
      }
    }
  }

  // ---- what a client can rely on ----

  /**
   Served content is the longest whole-character prefix within the cap of exactly
   the text its method names.
   */
  lemma ContentIsLongestPrefix(p: Page, c: Config)
    requires IsPage(p) && Content(p, c).Some?
    ensures var text := match How(p, c)
                        case Markdown => Restored(p.result.value.markdown.value)
                        case TextFallback => Restored(p.result.value.text)
                        case WholeDocFallback => p.wholeDoc;
            var r := Content(p, c).value;
            && ValidUtf8(r) && |r| <= c.maxContentChars && r == text[..|r|] && IsCharBoundary(text, |r|)
            && forall k :: 0 <= k <= |text| && IsCharBoundary(text, k) && k <= c.maxContentChars ==> k <= |r|
  {
    hide IsBlank, ValidUtf8, Restored, Truncated;
    SelectionValid(p, c);
    TruncatedIsLongestPrefix(Served(p, c).value, c.maxContentChars);
  }

  /** A rescue is at most 3 bytes shorter than what it replaces would have been. */
  lemma RescueIsNoShorter(p: Page, c: Config)
    requires IsPage(p) && How(p, c) == WholeDocFallback && Selection(p, c).0.Some?
    ensures Content(p, c).Some?
    ensures |Content(p, c).value| + 3 >= |Truncated(Selection(p, c).0.value, c.maxContentChars)|
  {
    hide IsBlank, ValidUtf8, Restored, Truncated;
    var sel := Selection(p, c).0.value;
    TruncatedIsLongestPrefix(p.wholeDoc, c.maxContentChars);
    TruncatedShort(p.wholeDoc, c.maxContentChars);
    TruncatedShort(sel, c.maxContentChars);
    assert |sel| < |p.wholeDoc|;
  }

  lemma TruncatedShort(s: ByteString, max: nat)
    ensures |s| <= max ==> Truncated(s, max) == s
    ensures |Truncated(s, max)| <= |s| && |Truncated(s, max)| <= max
  {
  }

  /** When nothing is served. */
  lemma NoContentIff(p: Page, c: Config)
    ensures Content(p, c).None? <==>
              |p.wholeDoc| < MIN_FALLBACK_CHARS && (Selection(p, c).0.None? || IsReplaced(p, c))
  {
    hide IsBlank, Restored;
  }

  /** A selection of 60 bytes (10 on a large page) or more is never lost. */
  lemma SelectionIsNeverLost(p: Page, c: Config)
    requires Selection(p, c).0.Some? && LenOf(Selection(p, c).0) >= if IsLargePage(p) then 10 else 60
    ensures Content(p, c).Some?
  {
    hide IsBlank, Restored;
  }

  /** Healthy markdown on a page that is not large is always served as it is. */
  lemma HealthyMarkdownIsKept(p: Page, c: Config)
    requires Selection(p, c).1 == Markdown && LenOf(Selection(p, c).0) >= HEALTHY_MARKDOWN_FLOOR && !IsLargePage(p)
    ensures Selection(p, c).0.Some? && Served(p, c) == Selection(p, c).0 && How(p, c) == Markdown
  {
    hide IsBlank, Restored;
  }

  // ---- cap-saturated selections ----

  /** The extractor's raw output behind a selection. */
  function RawSelection(p: Page, c: Config): ByteString
    requires p.result.Some?
  {
    var e := p.result.value;
    if Selection(p, c).1 == Markdown then e.markdown.value else e.text
  }

  /**
   An extractor output that fills the cap on a large page escapes the audit iff
   it holds no sentinel and is past the absolute floors; restoring a sentinel
   takes it below the cap again.
   */
  lemma SaturatedIsTrustedIff(p: Page, c: Config)
    requires IsLargePage(p) && Selection(p, c).0.Some?
    requires |RawSelection(p, c)| == c.maxContentChars
    ensures !IsAudited(p, c) <==>
              && !HasSentinel(RawSelection(p, c))
              && (c.maxContentChars >= WHOLE_DOC_CHECK_FLOOR
                  || (Selection(p, c).1 == Markdown && c.maxContentChars >= HEALTHY_MARKDOWN_FLOOR))
  {
    hide IsBlank, Restored, HasSentinel;
    RestoreLength(RawSelection(p, c));
  }

  function Letters(n: nat): ByteString {
    seq(n, _ => 0x61)
  }

  function LargeTextPage(text: ByteString): Page {
    Page(Some(Extraction(None, text)), [], LARGE_PAGE_RAW_BYTES)
  }

  lemma LettersAreText(n: nat)
    ensures ValidUtf8(Letters(n)) && !HasSentinel(Letters(n))
    ensures Restored(Letters(n)) == Letters(n)
    ensures n > 0 ==> !IsBlank(Letters(n))
  {
    AsciiValid(Letters(n));
    NoSentinelInLetters(n);
    RestoreLength(Letters(n));
  }

  lemma {:induction false} NoSentinelInLetters(n: nat)
    ensures !HasSentinel(Letters(n))
  {
    if n > 0 {
      NoSentinelInLetters(n - 1);
      assert Letters(n)[1..] == Letters(n - 1);
    }
  }

  lemma SentinelThenLetters(n: nat)
    requires n > 0
    ensures var text := CodespanFixup.SENTINEL + Letters(n);
            ValidUtf8(text) && HasSentinel(text) && !IsBlank(Restored(text))
  {
    var text := CodespanFixup.SENTINEL + Letters(n);
    LettersAreText(n);
    CodespanFixup.SentinelValid();
    assert SentinelAt(text);
    ValidConcat(CodespanFixup.SENTINEL, Letters(n));
    hide ValidUtf8, HasSentinel;
    assert text[3..] == Letters(n) && SkipSpace(text[3..]) == Letters(n);
    assert PopSpace([]) + [SPACE] == [SPACE];
    assert Restored(text) == Restoring([SPACE], Letters(n));
    forall k | 0 <= k < n ensures !SentinelAt(Letters(n)[k..]) {
      assert Letters(n)[k..][0] == 0x61;
    }
    PushBytes([SPACE], Letters(n), n);
    assert Letters(n)[n..] == [] && [SPACE] + Letters(n)[..n] == [SPACE] + Letters(n);
    assert ([SPACE] + Letters(n))[1..] == Letters(n);
    hide Restoring, Restored;
  }

  /**
   An output that fills the cap and still is audited: at every cap from 4 bytes
   up because of a sentinel, and at every cap under the floor without one.
   */
  lemma SaturatedNeedNotBeTrusted(cap: nat, outputMarkdown: bool)
    ensures cap > 3 ==>
              var p := LargeTextPage(CodespanFixup.SENTINEL + Letters(cap - 3)); var c := Config(outputMarkdown, cap);
              IsPage(p) && Selection(p, c).0.Some? && |RawSelection(p, c)| == cap && IsAudited(p, c)
    ensures 0 < cap < WHOLE_DOC_CHECK_FLOOR ==>
              var p := LargeTextPage(Letters(cap)); var c := Config(outputMarkdown, cap);
              IsPage(p) && Selection(p, c).0.Some? && |RawSelection(p, c)| == cap && IsAudited(p, c)
  {
    var c := Config(outputMarkdown, cap);
    if cap > 3 {
      SentinelThenLetters(cap - 3);
      FilledIsAudited(CodespanFixup.SENTINEL + Letters(cap - 3), c);
    }
    if 0 < cap < WHOLE_DOC_CHECK_FLOOR {
      LettersAreText(cap);
      FilledIsAudited(Letters(cap), c);
    }
  }

  lemma FilledIsAudited(text: ByteString, c: Config)
    requires ValidUtf8(text) && |text| == c.maxContentChars && !IsBlank(Restored(text))
    requires HasSentinel(text) || c.maxContentChars < WHOLE_DOC_CHECK_FLOOR
    ensures var p := LargeTextPage(text);
            IsPage(p) && Selection(p, c).0.Some? && |RawSelection(p, c)| == c.maxContentChars && IsAudited(p, c)
  {
    var p := LargeTextPage(text);
    assert ValidUtf8([]);
    hide ValidUtf8, IsBlank, Restored, HasSentinel;
    SaturatedIsTrustedIff(p, c);
  }

  // ---- the cascade in numbers, from the extractor's output ----

  /** The output format decides: markdown is served only where it is configured, and made of more than white space. */
  lemma FormatDecides(p: Page, c: Config)
    ensures How(p, c) == Markdown ==>
              && c.outputMarkdown && p.result.Some? && p.result.value.markdown.Some?
              && !IsSpaces(p.result.value.markdown.value)
    ensures c.outputMarkdown && p.result.Some? && p.result.value.markdown.Some?
            && !IsSpaces(p.result.value.markdown.value) ==>
              How(p, c) == Markdown || How(p, c) == WholeDocFallback
  {
    if p.result.Some? && p.result.value.markdown.Some? {
      BlankIff(p.result.value.markdown.value);
    }
    hide IsBlank, Restored, IsSpaces, IsReplaced;
  }

  /** The extraction offers `text`: the markdown where configured, otherwise the plain text. */
  ghost predicate Offers(p: Page, c: Config, text: ByteString, isMarkdown: bool) {
    && p.result.Some?
    && var e := p.result.value; var usable := c.outputMarkdown && e.markdown.Some? && !IsSpaces(e.markdown.value);
       if isMarkdown then usable && text == Restored(e.markdown.value)
       else !usable && text == Restored(e.text) && !IsSpaces(text)
  }

  lemma OfferIsSelected(p: Page, c: Config, text: ByteString, isMarkdown: bool)
    requires Offers(p, c, text, isMarkdown)
    ensures Selection(p, c) == (Some(text), if isMarkdown then Markdown else TextFallback)
  {
    var e := p.result.value;
    BlankIff(text);
    if e.markdown.Some? {
      BlankIff(e.markdown.value);
    }
    hide IsBlank, Restored, IsSpaces;
  }

  /**
   What becomes of an offered text of `n` bytes beside a whole document of `w`. It
   is audited under 3000 bytes (markdown under 1500), and on pages of 512 KB or
   more also under the cap; it is replaced under 30 (there 5) percent of `w`, by
   the document if that has 200 bytes and by nothing otherwise.
   */
  lemma OfferInNumbers(p: Page, c: Config, text: ByteString, isMarkdown: bool)
    requires Offers(p, c, text, isMarkdown)
    ensures var n, w, large := |text|, |p.wholeDoc|, p.rawBytes >= 524_288;
            var audited := (n < 3000 && !(isMarkdown && n >= 1500)) || (large && n < c.maxContentChars);
            var small := if large then 20 * n < w else 10 * n < 3 * w;
            if audited && small then
              Content(p, c) == (if w >= 200 then Some(Truncated(p.wholeDoc, c.maxContentChars)) else None)
              && (w >= 200 ==> How(p, c) == WholeDocFallback)
            else
              Content(p, c) == Some(Truncated(text, c.maxContentChars))
              && How(p, c) == if isMarkdown then Markdown else TextFallback
  {
    OfferIsSelected(p, c, text, isMarkdown);
    hide Selection, Truncated, Offers;
  }

  /** Without an offer the document is served if it has 200 bytes. */
  lemma NothingOffered(p: Page, c: Config)
    requires forall text, isMarkdown :: !Offers(p, c, text, isMarkdown)
    ensures var w := |p.wholeDoc|;
            && Content(p, c) == (if w >= 200 then Some(Truncated(p.wholeDoc, c.maxContentChars)) else None)
            && (w >= 200 ==> How(p, c) == WholeDocFallback)
  {
    NoSelection(p, c);
    hide Selection, Restored, Offers, Truncated;
  }

  lemma NoSelection(p: Page, c: Config)
    requires forall text, isMarkdown :: !Offers(p, c, text, isMarkdown)
    ensures Selection(p, c) == (None, TextFallback)
  {
    if p.result.Some? {
      var e := p.result.value;
      assert !Offers(p, c, Restored(e.text), false);
      BlankIff(Restored(e.text));
      if e.markdown.Some? {
        assert !Offers(p, c, Restored(e.markdown.value), true);
        BlankIff(e.markdown.value);
      }
    }
    hide IsBlank, Restored, IsSpaces;
  }
}
