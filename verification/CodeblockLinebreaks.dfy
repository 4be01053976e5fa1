/**
 src/util/codeblock_linebreaks.rs: inside `<pre>`, a newline goes behind every
 `</div>`, `</p>`, `</tr>` or `</li>` that has no separator.

 As for spans, the scanner is specified by a byte-at-a-time automaton whose
 state counts nothing.
 */
module CodeblockLinebreaks {
  import opened Wrappers
  import opened Bytes
  import opened Utf8
  import opened TagExtent
  import opened Tags

  const DIV_NAME: ByteString := [0x64, 0x69, 0x76]
  const P_NAME: ByteString := [0x70]
  const TR_NAME: ByteString := [0x74, 0x72]
  const LI_NAME: ByteString := [0x6C, 0x69]

  /** First of the line-boundary closing tags that matches at the front of `s`. */
  function BoundaryCloseLen(s: ByteString): Option<nat> {
    if CloseLen(s, DIV_NAME).Some? then CloseLen(s, DIV_NAME)
    else if CloseLen(s, P_NAME).Some? then CloseLen(s, P_NAME)
    else if CloseLen(s, TR_NAME).Some? then CloseLen(s, TR_NAME)
    else CloseLen(s, LI_NAME)
  }

  /** Text right behind a boundary close that has no separator in front of it. */
  predicate NeedsBreak(s: ByteString) {
    s != [] && !IsAsciiWhitespace(s[0]) && !(s[0] == LT && |s| > 1 && s[1] == SLASH)
  }

  // ---- the automaton ----

  /**
   `Plain(inPre)`: between tags. `PreTag(q)`: inside a `<pre ...>` opening tag.
   `Closing(boundary)`: inside a closing tag recognised within a pre, either a
   line boundary or `</pre>`.
   */
  datatype BreakState = Plain(inPre: bool) | PreTag(q: Quote) | Closing(boundary: bool)

  /** State after the `<` at the front of `s`, met between tags. */
  function AtLt(s: ByteString, inPre: bool): BreakState {
    if !inPre then
      if IsOpen(s, PRE_NAME) && TagEnd(Neutral, s).Some? then PreTag(Neutral) else Plain(false)
    else if CloseLen(s, PRE_NAME).Some? then Closing(false)
    else if BoundaryCloseLen(s).Some? then Closing(true)
    else Plain(true)
  }

  function NextBreak(s: ByteString, b: BreakState): BreakState
    requires s != []
  {
    match b
    case Plain(inPre) => if s[0] == LT then AtLt(s, inPre) else b
    case PreTag(q) => if ClosesTag(q, s) then Plain(true) else PreTag(StepQuote(q, s[0]))
    case Closing(boundary) => if s[0] == GT then Plain(boundary) else b
  }

  /** The byte at the front ends a boundary close. */
  predicate AtBoundary(s: ByteString, b: BreakState) {
    s != [] && s[0] == GT && b == Closing(true)
  }

  /** A newline is due behind the byte at the front of `s`. */
  predicate BreakDue(s: ByteString, b: BreakState) {
    AtBoundary(s, b) && NeedsBreak(s[1..])
  }

  function BreakRun(s: ByteString, b: BreakState): ByteString {
    if s == [] then []
    else if BreakDue(s, b) then [s[0]] + ([NEWLINE] + BreakRun(s[1..], NextBreak(s, b)))
    else [s[0]] + BreakRun(s[1..], NextBreak(s, b))
  }

  /** What `preserve_code_block_line_breaks` returns. */
  function Broken(html: ByteString): ByteString {
    BreakRun(html, Plain(false))
  }

  // ---- the automaton block by block ----

  /** Text free of `<` is copied between tags. */
  lemma {:induction false} RunText(s: ByteString, k: nat, inPre: bool)
    requires k <= |s| && forall i :: 0 <= i < k ==> s[i] != LT
    ensures BreakRun(s, Plain(inPre)) == s[..k] + BreakRun(s[k..], Plain(inPre))
    decreases k
  {
    hide AtLt;
    if k == 0 {
      assert s[..0] == [] && s[0..] == s;
    } else {
      RunText(s[1..], k - 1, inPre);
      ConsSlice(s, k, BreakRun(s[k..], Plain(inPre)));
    }
  }

  lemma {:induction false} RunPreTag(s: ByteString, q: Quote)
    requires TagEnd(q, s).Some?
    ensures var e := TagEnd(q, s).value + 1;
            BreakRun(s, PreTag(q)) == s[..e] + BreakRun(s[e..], Plain(true))
    decreases |s|
  {
    hide AtLt, NeedsBreak;
    var e := TagEnd(q, s).value + 1;
    if ClosesTag(q, s) {
      assert s[..1] == [s[0]];
    } else {
      RunPreTag(s[1..], StepQuote(q, s[0]));
      ConsSlice(s, e, BreakRun(s[e..], Plain(true)));
    }
  }

  lemma RunPreOpen(s: ByteString)
    requires IsOpen(s, PRE_NAME) && TagEnd(Neutral, s).Some?
    ensures var e := TagEnd(Neutral, s).value + 1;
            BreakRun(s, Plain(false)) == s[..e] + BreakRun(s[e..], Plain(true))
  {
    hide NeedsBreak;
    var e := TagEnd(Neutral, s).value + 1;
    assert TagEnd(Neutral, s[1..]) == Some(e - 2);
    RunPreTag(s[1..], Neutral);
    ConsSlice(s, e, BreakRun(s[e..], Plain(true)));
  }

  /** What follows a closing tag: a newline first, if one is due. */
  function BehindClose(s: ByteString, boundary: bool): ByteString {
    if boundary && NeedsBreak(s) then [NEWLINE] + BreakRun(s, Plain(boundary)) else BreakRun(s, Plain(boundary))
  }

  lemma {:induction false} RunClosing(s: ByteString, k: nat, boundary: bool)
    requires 0 < k <= |s| && s[k - 1] == GT && forall i :: 0 <= i < k - 1 ==> s[i] != GT
    ensures BreakRun(s, Closing(boundary)) == s[..k] + BehindClose(s[k..], boundary)
    decreases k
  {
    hide AtLt, NeedsBreak;
    if k == 1 {
      assert s[..1] == [s[0]];
    } else {
      RunClosing(s[1..], k - 1, boundary);
      hide BehindClose;
      ConsSlice(s, k, BehindClose(s[k..], boundary));
    }
  }

  /** A closing tag recognised within a pre is copied whole. */
  lemma RunClose(s: ByteString, name: ByteString, boundary: bool)
    requires IsTagName(name) && CloseLen(s, name).Some?
    requires AtLt(s, true) == Closing(boundary)
    ensures var c := CloseLen(s, name).value;
            BreakRun(s, Plain(true)) == s[..c] + BehindClose(s[c..], boundary)
  {
    hide AtLt, NeedsBreak;
    var c := CloseLen(s, name).value;
    CloseTagShape(s, name);
    var t := s[1..];
    forall i | 0 <= i < c - 2 ensures t[i] != GT {
      assert t[i] == s[i + 1];
    }
    RunClosing(t, c - 1, boundary);
    hide BehindClose, CloseLen;
    ConsSlice(s, c, BehindClose(s[c..], boundary));
  }

  /** The boundary names exclude each other, and none of them is `pre`. */
  lemma BoundaryCloseName(s: ByteString) returns (name: ByteString)
    requires BoundaryCloseLen(s).Some?
    ensures IsTagName(name) && CloseLen(s, name) == BoundaryCloseLen(s)
    ensures name == DIV_NAME || name == P_NAME || name == TR_NAME || name == LI_NAME
  {
    hide CloseLen;
    name := if CloseLen(s, DIV_NAME).Some? then DIV_NAME
            else if CloseLen(s, P_NAME).Some? then P_NAME
            else if CloseLen(s, TR_NAME).Some? then TR_NAME
            else LI_NAME;
  }

  // ---- preserve_code_block_line_breaks ----

  method MatchBoundaryClose(bytes: ByteString, i: nat) returns (r: Option<nat>)
    requires i <= |bytes|
    ensures r == BoundaryCloseLen(bytes[i..])
  {
    hide CloseLen;
    r := ClosingTagLen(bytes, i, DIV_NAME);
    if r.None? {
      r := ClosingTagLen(bytes, i, P_NAME);
    }
    if r.None? {
      r := ClosingTagLen(bytes, i, TR_NAME);
    }
    if r.None? {
      r := ClosingTagLen(bytes, i, LI_NAME);
    }
  }

  /** The scan has reached boundary `i` of `html`, with `inPre`, and written `out`. */
  ghost predicate Scanned(html: ByteString, i: nat, inPre: bool, out: ByteString) {
    && i <= |html| && IsCharBoundary(html, i)
    && out + BreakRun(html[i..], Plain(inPre)) == Broken(html)
    && ValidUtf8(out)
  }

  lemma ScanCopies(html: ByteString, i: nat, p: bool, j: nat, p': bool, out: ByteString)
    requires ValidUtf8(html) && Scanned(html, i, p, out)
    requires i <= j <= |html| && IsCharBoundary(html, j)
    requires BreakRun(html[i..], Plain(p)) == html[i..j] + BreakRun(html[j..], Plain(p'))
    ensures Scanned(html, j, p', out + StrSlice(html, i, j))
  {
    hide BreakRun, ValidUtf8;
    CopyStep(html, i, j, out, BreakRun(html[i..], Plain(p)), BreakRun(html[j..], Plain(p')));
  }

  lemma ScanBreaks(html: ByteString, i: nat, j: nat, out: ByteString)
    requires ValidUtf8(html) && Scanned(html, i, true, out)
    requires i <= j <= |html| && IsCharBoundary(html, j)
    requires BreakRun(html[i..], Plain(true)) == html[i..j] + ([NEWLINE] + BreakRun(html[j..], Plain(true)))
    ensures Scanned(html, j, true, out + StrSlice(html, i, j) + [NEWLINE])
  {
    hide BreakRun, ValidUtf8, IsCharBoundary;
    var rest := BreakRun(html[j..], Plain(true));
    NewlineValid();
    CopyStep(html, i, j, out, BreakRun(html[i..], Plain(true)), [NEWLINE] + rest);
    ValidConcat(out + html[i..j], [NEWLINE]);
    Assoc(out + html[i..j], [NEWLINE], rest);
  }

  lemma NewlineValid()
    ensures ValidUtf8([NEWLINE])
  {
    AsciiValid([NEWLINE]);
  }

  lemma ScanPreOpen(html: ByteString, i: nat, e: nat)
    requires i < e <= |html| && IsOpen(html[i..], PRE_NAME)
    requires TagEnd(Neutral, html[i..]) == Some(e - 1 - i)
    ensures BreakRun(html[i..], Plain(false)) == html[i..e] + BreakRun(html[e..], Plain(true))
  {
    hide BreakRun, IsOpen, TagEnd;
    RunPreOpen(html[i..]);
    SuffixSlice(html, i, e - i);
  }

  lemma ScanClose(html: ByteString, i: nat, c: nat, name: ByteString, boundary: bool)
    requires i <= |html| && IsTagName(name) && CloseLen(html[i..], name) == Some(c)
    requires AtLt(html[i..], true) == Closing(boundary)
    ensures i + c <= |html|
    ensures BreakRun(html[i..], Plain(true)) == html[i..i + c] + BehindClose(html[i + c..], boundary)
  {
    hide BreakRun, CloseLen, AtLt, BehindClose;
    RunClose(html[i..], name, boundary);
    SuffixSlice(html, i, c);
  }

  lemma ScanText(html: ByteString, i: nat, j: nat, inPre: bool)
    requires i < |html| && j == i + TextLen(html[i..])
    ensures j <= |html|
    ensures BreakRun(html[i..], Plain(inPre)) == html[i..j] + BreakRun(html[j..], Plain(inPre))
  {
    hide BreakRun, TextLen;
    RunText(html[i..], j - i, inPre);
    SuffixSlice(html, i, j - i);
  }

  /** A `<` that starts nothing of interest is copied alone. */
  lemma ScanLt(html: ByteString, i: nat, inPre: bool)
    requires ValidUtf8(html) && i < |html| && html[i] == LT
    requires AtLt(html[i..], inPre) == Plain(inPre)
    ensures IsCharBoundary(html, i) && IsCharBoundary(html, i + 1)
    ensures html[i..i + 1] == [LT]
    ensures BreakRun(html[i..], Plain(inPre)) == html[i..i + 1] + BreakRun(html[i + 1..], Plain(inPre))
  {
    hide ValidUtf8, AtLt;
    AsciiBoundary(html, i);
    assert html[i..][1..] == html[i + 1..];
    assert html[i..i + 1] == [html[i]];
  }

  lemma ScanStart(html: ByteString)
    ensures Scanned(html, 0, false, [])
  {
    assert html[0..] == html;
  }

  lemma ScanEnd(html: ByteString, inPre: bool, out: ByteString)
    requires Scanned(html, |html|, inPre, out)
    ensures out == Broken(html) && ValidUtf8(out)
  {
    assert html[|html|..] == [];
  }

  method PreserveCodeBlockLineBreaks(html: ByteString) returns (out: ByteString)
    requires ValidUtf8(html)
    ensures out == Broken(html)
    ensures ValidUtf8(out)
  {
    hide BreakRun, ValidUtf8, TagEnd, IsOpen, CloseLen, TextLen, IsCharBoundary, BoundaryCloseLen;
    out := [];
    var i := 0;
    var inPre := false;
    ScanStart(html);
    while i < |html|
      invariant Scanned(html, i, inPre, out)
      decreases |html| - i
    {
      if html[i] == LT {
        if !inPre {
          var opens := IsTagOpenAt(html, i, PRE_NAME);
          if opens {
            var tagEnd := FindTagEnd(html, i);
            if tagEnd.Some? {
              assert html[tagEnd.value] == html[i..][tagEnd.value - i];
              AsciiBoundary(html, tagEnd.value);
              ScanPreOpen(html, i, tagEnd.value + 1);
              ScanCopies(html, i, false, tagEnd.value + 1, true, out);
              out := out + StrSlice(html, i, tagEnd.value + 1);
              i := tagEnd.value + 1;
              inPre := true;
              continue;
            }
          }
        }
        if inPre {
          var closeLen := ClosingTagLen(html, i, PRE_NAME);
          if closeLen.Some? {
            CloseTagBoundaries(html, i, PRE_NAME);
            ScanClose(html, i, closeLen.value, PRE_NAME, false);
            ScanCopies(html, i, true, i + closeLen.value, false, out);
            out := out + StrSlice(html, i, i + closeLen.value);
            i := i + closeLen.value;
            inPre := false;
            continue;
          }
          var matched := MatchBoundaryClose(html, i);
          if matched.Some? {
            ghost var name := BoundaryCloseName(html[i..]);
            CloseTagBoundaries(html, i, name);
            ScanClose(html, i, matched.value, name, true);
            ghost var from, before := i, out;
            out := out + StrSlice(html, i, i + matched.value);
            i := i + matched.value;
            var needsBreak :=
              if i == |html| then false
              else if IsAsciiWhitespace(html[i]) then false
              else if html[i] == LT && i + 1 < |html| && html[i + 1] == SLASH then false
              else true;
            assert needsBreak == NeedsBreak(html[i..]);
            if needsBreak {
              ScanBreaks(html, from, i, before);
              out := out + [NEWLINE];
            } else {
              ScanCopies(html, from, true, i, true, before);
            }
            continue;
          }
        }
        ScanLt(html, i, inPre);
        ScanCopies(html, i, inPre, i + 1, inPre, out);
        out := out + [LT];
        i := i + 1;
        continue;
      }
      BoundaryAtEnds(html);
      var rest := StrSlice(html, i, |html|);
      var offset := FindLt(rest, 0);
      assert rest[0..] == rest == html[i..];
      var nextLt := i + offset;
      ScanText(html, i, nextLt, inPre);
      NextLtBoundary(html, i, nextLt);
      ScanCopies(html, i, inPre, nextLt, inPre, out);
      out := out + StrSlice(html, i, nextLt);
      i := nextLt;
    }
    ScanEnd(html, inPre, out);
  }
}
