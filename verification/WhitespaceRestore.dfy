/**
 src/util/codespan_fixup.rs:217-234: every sentinel becomes a space again and
 absorbs one space on either side; and the round trip with the span pass.
 */
module WhitespaceRestore {
  import opened Bytes
  import opened Utf8
  import opened Tags
  import opened CodespanFixup
  import opened SpanLaws

  /** A sentinel starts at the front of `s`. */
  predicate SentinelAt(s: ByteString) {
    |s| >= 3 && s[0] == 0xEE && s[1] == 0x80 && s[2] == 0x80
  }

  predicate HasSentinel(s: ByteString) {
    s != [] && (SentinelAt(s) || HasSentinel(s[1..]))
  }

  predicate EndsWithSpace(s: ByteString) {
    s != [] && s[|s| - 1] == SPACE
  }

  /** `out.pop()` if the output ends with a space. */
  function PopSpace(out: ByteString): ByteString {
    if EndsWithSpace(out) then out[..|out| - 1] else out
  }

  /** `chars.next()` if the next character is a space. */
  function SkipSpace(s: ByteString): ByteString {
    if s != [] && s[0] == SPACE then s[1..] else s
  }

  /** The output once `s` has been read on top of `out`. */
  function Restoring(out: ByteString, s: ByteString): ByteString
    decreases |s|
  {
    if s == [] then out
    else if SentinelAt(s) then Restoring(PopSpace(out) + [SPACE], SkipSpace(s[3..]))
    else Restoring(out + [s[0]], s[1..])
  }

  function Restored(content: ByteString): ByteString {
    Restoring([], content)
  }

  // ---- restore_whitespace_placeholders ----

  /** Bytes that start no sentinel are pushed. */
  lemma {:induction false} PushBytes(out: ByteString, s: ByteString, n: nat)
    requires n <= |s| && forall k :: 0 <= k < n ==> !SentinelAt(s[k..])
    ensures Restoring(out, s) == Restoring(out + s[..n], s[n..])
    decreases n
  {
    if n == 0 {
      assert out + s[..0] == out && s[0..] == s;
    } else {
      assert s[0..] == s;
      forall k | 0 <= k < n - 1 ensures !SentinelAt(s[1..][k..]) {
        assert s[1..][k..] == s[k + 1..];
      }
      hide SentinelAt;
      PushBytes(out + [s[0]], s[1..], n - 1);
      assert s[1..][n - 1..] == s[n..];
      assert out + [s[0]] + s[1..][..n - 1] == out + s[..n];
    }
  }

  lemma SentinelChar(s: ByteString)
    requires CharLen(s) > 0
    ensures s[..CharLen(s)] == SENTINEL <==> SentinelAt(s)
    ensures SentinelAt(s) ==> CharLen(s) == 3
  {
    if s[..CharLen(s)] == SENTINEL {
      assert s[..CharLen(s)][0] == s[0] && s[..CharLen(s)][1] == s[1] && s[..CharLen(s)][2] == s[2];
    }
  }

  /** A character other than the sentinel is pushed whole. */
  lemma PushChar(out: ByteString, s: ByteString)
    requires CharLen(s) > 0 && s[..CharLen(s)] != SENTINEL
    ensures Restoring(out, s) == Restoring(out + s[..CharLen(s)], s[CharLen(s)..])
  {
    var n := CharLen(s);
    forall k | 0 <= k < n ensures !SentinelAt(s[k..]) {
      if k > 0 {
        assert s[k..][0] == s[k];
      } else {
        assert s[0..] == s;
        SentinelChar(s);
      }
    }
    hide *;
    PushBytes(out, s, n);
  }

  lemma PopSpaceValid(out: ByteString)
    requires ValidUtf8(out)
    ensures ValidUtf8(PopSpace(out) + [SPACE])
  {
    AsciiValid([SPACE]);
    hide ValidUtf8;
    if EndsWithSpace(out) {
      ValidSplit(out, |out| - 1);
    }
    ValidConcat(PopSpace(out), [SPACE]);
  }

  lemma FrontChar(s: ByteString)
    requires ValidUtf8(s) && s != []
    ensures var n := CharLen(s);
            n > 0 && n == LeadLen(s[0]) && ValidUtf8(s[..n]) && ValidUtf8(s[n..])
  {
    var n := CharLen(s);
    assert s[..n][n..] == [];
    CharLenPrefix(s, []);
    assert s[..n] + [] == s[..n];
  }

  /** The source's loop over the characters of `content`. */
  method RestoreWhitespacePlaceholders(content: ByteString) returns (out: ByteString)
    requires ValidUtf8(content)
    ensures out == Restored(content)
    ensures ValidUtf8(out)
  {
    hide Restoring, ValidUtf8, CharLen;
    out := [];
    var i := 0;
    assert content[0..] == content;
    EmptyValid();
    while i < |content|
      invariant 0 <= i <= |content|
      invariant ValidUtf8(content[i..]) && ValidUtf8(out)
      invariant Restoring(out, content[i..]) == Restored(content)
      decreases |content| - i
    {
      ghost var s := content[i..];
      FrontChar(s);
      var n := LeadLen(content[i]);
      var c := content[i..i + n];
      SuffixSlice(content, i, n);
      SentinelChar(s);
      i := i + n;
      if c == SENTINEL {
        RestoreSentinel(out, s);
        PopSpaceValid(out);
        if i < |content| && content[i] == SPACE {
          FrontChar(content[i..]);
          assert content[i..][1..] == content[i + 1..];
          i := i + 1;
        }
        if EndsWithSpace(out) {
          out := out[..|out| - 1];
        }
        out := out + [SPACE];
      } else {
        PushChar(out, s);
        ValidConcat(out, c);
        out := out + c;
      }
    }
    assert content[i..] == [];
    RestoringNothing(out);
  }

  lemma EmptyValid()
    ensures ValidUtf8([])
  {
  }

  lemma RestoringNothing(out: ByteString)
    ensures Restoring(out, []) == out
  {
  }

  lemma RestoreSentinel(out: ByteString, s: ByteString)
    requires SentinelAt(s)
    ensures Restoring(out, s) == Restoring(PopSpace(out) + [SPACE], SkipSpace(s[3..]))
  {
  }

  // ---- no sentinel is left ----

  lemma {:induction false} SentinelPosition(s: ByteString)
    ensures HasSentinel(s) <==> exists j :: 0 <= j < |s| && SentinelAt(s[j..])
    decreases |s|
  {
    if s != [] {
      hide SentinelAt;
      assert s[0..] == s;
      SentinelPosition(s[1..]);
      if HasSentinel(s[1..]) {
        var j :| 0 <= j < |s[1..]| && SentinelAt(s[1..][j..]);
        assert s[1..][j..] == s[j + 1..];
      }
      if j :| 0 <= j < |s| && SentinelAt(s[j..]) {
        if j > 0 {
          assert s[1..][j - 1..] == s[j..];
        }
      }
    }
  }

  /** No sentinel of the text `out + s` starts in `out`. */
  ghost predicate Cleared(out: ByteString, s: ByteString) {
    forall j :: 0 <= j < |out| ==> !SentinelAt((out + s)[j..])
  }

  lemma ClearedAfterSentinel(out: ByteString, s: ByteString)
    requires Cleared(out, s)
    ensures Cleared(PopSpace(out) + [SPACE], SkipSpace(s[3..]))
    requires SentinelAt(s)
  {
    var kept := PopSpace(out);
    var rest := SkipSpace(s[3..]);
    var t := kept + [SPACE] + rest;
    assert t[|kept|] == SPACE;
    forall j | 0 <= j < |kept| + 1 ensures !SentinelAt(t[j..]) {
      if j + 2 < |kept| {
        var u, v := (out + s)[j..], t[j..];
        assert u[0] == v[0] && u[1] == v[1] && u[2] == v[2];
        assert !SentinelAt(u);
      } else {
        assert t[j..][|kept| - j] == SPACE;
      }
    }
  }

  lemma {:induction false} RestoringClears(out: ByteString, s: ByteString)
    requires Cleared(out, s)
    ensures !HasSentinel(Restoring(out, s))
    decreases |s|
  {
    if s == [] {
      assert out + s == out;
      SentinelPosition(out);
    } else if SentinelAt(s) {
      ClearedAfterSentinel(out, s);
      hide Cleared, SentinelAt, HasSentinel;
      RestoringClears(PopSpace(out) + [SPACE], SkipSpace(s[3..]));
    } else {
      assert (out + [s[0]]) + s[1..] == out + s;
      assert (out + s)[|out|..] == s;
      hide HasSentinel, SentinelAt;
      RestoringClears(out + [s[0]], s[1..]);
    }
  }

  lemma RestoreLeavesNoSentinel(content: ByteString)
    ensures !HasSentinel(Restored(content))
  {
    RestoringClears([], content);
  }

  // ---- length, and when nothing happens ----

  lemma {:induction false} RestoringLength(out: ByteString, s: ByteString)
    ensures |Restoring(out, s)| <= |out| + |s|
    ensures HasSentinel(s) ==> |Restoring(out, s)| <= |out| + |s| - 2
    ensures !HasSentinel(s) ==> Restoring(out, s) == out + s
    decreases |s|
  {
    if s != [] {
      if SentinelAt(s) {
        RestoringLength(PopSpace(out) + [SPACE], SkipSpace(s[3..]));
      } else {
        RestoringLength(out + [s[0]], s[1..]);
        hide SentinelAt;
        assert out + [s[0]] + s[1..] == out + s;
      }
    } else {
      assert out + s == out;
    }
  }

  /** Restoring shortens text by 2 bytes or more iff it holds a sentinel. */
  lemma RestoreLength(content: ByteString)
    ensures Restored(content) == content <==> !HasSentinel(content)
    ensures HasSentinel(content) ==> |Restored(content)| + 2 <= |content|
  {
    RestoringLength([], content);
    hide Restoring, HasSentinel;
    assert [] + content == content;
  }

  // ---- everything but spaces and sentinels is kept ----

  /** The bytes of `s` other than spaces. */
  function NonSpaces(s: ByteString): ByteString {
    if s == [] then []
    else if s[0] == SPACE then NonSpaces(s[1..])
    else [s[0]] + NonSpaces(s[1..])
  }

  /** The bytes of `s` outside spaces and sentinels. */
  function Tokens(s: ByteString): ByteString
    decreases |s|
  {
    if s == [] then []
    else if SentinelAt(s) then Tokens(s[3..])
    else if s[0] == SPACE then Tokens(s[1..])
    else [s[0]] + Tokens(s[1..])
  }

  lemma {:induction false} NonSpacesConcat(s: ByteString, t: ByteString)
    ensures NonSpaces(s + t) == NonSpaces(s) + NonSpaces(t)
    decreases |s|
  {
    if s == [] {
      assert s + t == t;
    } else {
      assert (s + t)[1..] == s[1..] + t && (s + t)[0] == s[0];
      NonSpacesConcat(s[1..], t);
    }
  }

  lemma NonSpacesPop(out: ByteString)
    ensures NonSpaces(PopSpace(out) + [SPACE]) == NonSpaces(out)
  {
    NonSpacesConcat(PopSpace(out), [SPACE]);
    if EndsWithSpace(out) {
      assert PopSpace(out) + [SPACE] == out;
    }
  }

  lemma TokensSkip(s: ByteString)
    ensures Tokens(SkipSpace(s)) == Tokens(s)
  {
  }

  lemma NonSpacesByte(out: ByteString, b: Byte)
    ensures NonSpaces(out + [b]) == if b == SPACE then NonSpaces(out) else NonSpaces(out) + [b]
  {
    NonSpacesConcat(out, [b]);
  }

  lemma {:induction false} RestoringKeepsTokens(out: ByteString, s: ByteString)
    ensures NonSpaces(Restoring(out, s)) == NonSpaces(out) + Tokens(s)
    decreases |s|
  {
    if s != [] {
      hide NonSpaces, PopSpace, SkipSpace;
      if SentinelAt(s) {
        RestoringKeepsTokens(PopSpace(out) + [SPACE], SkipSpace(s[3..]));
        TokensSkip(s[3..]);
        NonSpacesPop(out);
      } else {
        RestoringKeepsTokens(out + [s[0]], s[1..]);
        NonSpacesByte(out, s[0]);
        if s[0] != SPACE {
          Assoc(NonSpaces(out), [s[0]], Tokens(s[1..]));
        }
      }
    } else {
      assert NonSpaces(out) + [] == NonSpaces(out);
    }
  }

  /** Restoring never loses, adds or reorders anything but spaces. */
  lemma RestoreKeepsTokens(content: ByteString)
    ensures NonSpaces(Restored(content)) == Tokens(content)
  {
    RestoringKeepsTokens([], content);
    hide Restoring, Tokens;
    assert [] + Tokens(content) == Tokens(content);
  }

  // ---- runs of spaces and sentinels ----

  function Spaces(n: nat): ByteString {
    seq(n, _ => SPACE)
  }

  predicate IsRun(s: ByteString)
    decreases |s|
  {
    if s == [] then true
    else if s[0] == SPACE then IsRun(s[1..])
    else SentinelAt(s) && IsRun(s[3..])
  }

  lemma SkipKeepsRun(s: ByteString)
    requires IsRun(s)
    ensures IsRun(SkipSpace(s))
  {
  }

  /** Number of spaces, outside sentinels, of a run. */
  function SpaceCount(run: ByteString): (n: nat)
    requires IsRun(run)
    ensures n <= |run|
    decreases |run|
  {
    if run == [] then 0
    else if run[0] == SPACE then 1 + SpaceCount(run[1..])
    else SpaceCount(run[3..])
  }

  /** Spaces a run leaves when the output already ends with `k` of them. */
  function RunWidth(k: nat, run: ByteString): nat
    requires IsRun(run)
    decreases |run|
  {
    if run == [] then k
    else if run[0] == SPACE then RunWidth(k + 1, run[1..])
    else
      SkipKeepsRun(run[3..]);
      RunWidth(if k == 0 then 1 else k, SkipSpace(run[3..]))
  }

  /** `s` starts with neither a space nor a sentinel. */
  predicate StartsWithToken(s: ByteString) {
    s != [] && s[0] != SPACE && !SentinelAt(s)
  }

  lemma SentinelFront(s: ByteString, t: ByteString)
    requires |s| >= 3
    ensures SentinelAt(s + t) == SentinelAt(s)
  {
  }

  lemma {:induction false} RestoringRun(out: ByteString, k: nat, run: ByteString, post: ByteString)
    requires !EndsWithSpace(out) && IsRun(run) && (post == [] || StartsWithToken(post))
    ensures Restoring(out + Spaces(k), run + post) == Restoring(out + Spaces(RunWidth(k, run)), post)
    decreases |run|
  {
    if run == [] {
      assert run + post == post;
    } else if run[0] == SPACE {
      RestoringRun(out, k + 1, run[1..], post);
      ReadSpace(out + Spaces(k), run, post);
      hide *;
      WidenSpaces(out, k);
      RunWidthStep(k, run);
    } else {
      var k' := if k == 0 then 1 else k;
      SkipKeepsRun(run[3..]);
      RestoringRun(out, k', SkipSpace(run[3..]), post);
      ReadSentinel(out + Spaces(k), run, post);
      RunWidthStep(k, run);
      hide *;
      PopSpaces(out, k);
    }
  }

  lemma WidenSpaces(out: ByteString, k: nat)
    ensures out + Spaces(k) + [SPACE] == out + Spaces(k + 1)
  {
    assert Spaces(k) + [SPACE] == Spaces(k + 1);
  }

  lemma RunWidthStep(k: nat, run: ByteString)
    requires IsRun(run) && run != []
    ensures run[0] == SPACE ==> RunWidth(k, run) == RunWidth(k + 1, run[1..])
    ensures run[0] != SPACE ==> IsRun(SkipSpace(run[3..]))
    ensures run[0] != SPACE ==> RunWidth(k, run) == RunWidth(if k == 0 then 1 else k, SkipSpace(run[3..]))
  {
    if run[0] != SPACE {
      SkipKeepsRun(run[3..]);
    }
  }

  lemma ReadSpace(out: ByteString, run: ByteString, post: ByteString)
    requires run != [] && run[0] == SPACE
    ensures Restoring(out, run + post) == Restoring(out + [SPACE], run[1..] + post)
  {
    var s := run + post;
    assert s[1..] == run[1..] + post && s[0] == SPACE;
  }

  lemma ReadSentinel(out: ByteString, run: ByteString, post: ByteString)
    requires SentinelAt(run) && (post == [] || post[0] != SPACE)
    ensures Restoring(out, run + post) == Restoring(PopSpace(out) + [SPACE], SkipSpace(run[3..]) + post)
  {
    var s := run + post;
    SentinelFront(run, post);
    assert s[3..] == run[3..] + post;
    assert SkipSpace(s[3..]) == SkipSpace(run[3..]) + post;
    hide SentinelAt, PopSpace, SkipSpace;
  }

  lemma PopSpaces(out: ByteString, k: nat)
    requires !EndsWithSpace(out)
    ensures PopSpace(out + Spaces(k)) + [SPACE] == out + Spaces(if k == 0 then 1 else k)
  {
    var t := out + Spaces(k);
    if k == 0 {
      assert t == out;
    } else {
      assert t[|t| - 1] == SPACE;
      assert t[..|t| - 1] == out + Spaces(k - 1);
    }
  }

  lemma {:induction false} RunWidthBounds(k: nat, run: ByteString)
    requires IsRun(run)
    ensures !HasSentinel(run) ==> RunWidth(k, run) == k + |run|
    ensures HasSentinel(run) ==> RunWidth(k, run) >= 1
    ensures RunWidth(k, run) >= k
    ensures k >= 1 ==> RunWidth(k, run) <= k + SpaceCount(run)
    ensures k >= 1 && run != [] && run[0] != SPACE ==>
              RunWidth(k, run) <= k || RunWidth(k, run) <= k + SpaceCount(run) - 1
    ensures k == 0 ==> RunWidth(k, run) <= 1 || RunWidth(k, run) <= SpaceCount(run)
    decreases |run|
  {
    if run != [] {
      if run[0] == SPACE {
        RunWidthBounds(k + 1, run[1..]);
      } else {
        RunWidthBounds(if k == 0 then 1 else k, SkipSpace(run[3..]));
      }
    }
  }

  /** The last byte of a text that ends in neither a space nor a sentinel. */
  predicate EndsWithToken(s: ByteString) {
    s != [] && !EndsWithSpace(s) && !(|s| >= 3 && SentinelAt(s[|s| - 3..]))
  }

  /** Reading up to a token is reading on from what it left. */
  lemma {:induction false} RestoringPrefix(out: ByteString, pre: ByteString, rest: ByteString)
    requires pre == [] || EndsWithToken(pre)
    requires rest == [] || (rest[0] != 0x80)
    ensures Restoring(out, pre + rest) == Restoring(Restoring(out, pre), rest)
    ensures pre != [] ==> !EndsWithSpace(Restoring(out, pre))
    decreases |pre|
  {
    var s := pre + rest;
    if pre == [] {
      assert s == rest;
    } else {
      SentinelOfPrefix(pre, rest);
      if SentinelAt(pre) {
        var u := SkipSpace(pre[3..]);
        TokenSuffix(pre);
        RestoringPrefix(PopSpace(out) + [SPACE], u, rest);
        SkipOfPrefix(pre, rest);
        hide EndsWithToken, EndsWithSpace, PopSpace, SkipSpace, SentinelAt;
      } else {
        TokenSuffixByte(pre);
        RestoringPrefix(out + [pre[0]], pre[1..], rest);
        if |pre| == 1 {
          LastPushed(out, pre);
        }
        hide SentinelAt, EndsWithToken, EndsWithSpace, PopSpace, SkipSpace;
        assert s[1..] == pre[1..] + rest && s[0] == pre[0];
      }
    }
  }

  lemma SkipOfPrefix(pre: ByteString, rest: ByteString)
    requires |pre| > 3
    ensures SkipSpace((pre + rest)[3..]) == SkipSpace(pre[3..]) + rest
  {
    assert (pre + rest)[3..] == pre[3..] + rest;
  }

  lemma LastPushed(out: ByteString, pre: ByteString)
    requires |pre| == 1 && EndsWithToken(pre)
    ensures !EndsWithSpace(Restoring(out, pre))
  {
    assert Restoring(out, pre) == Restoring(out + [pre[0]], pre[1..]);
  }

  lemma SentinelOfPrefix(pre: ByteString, rest: ByteString)
    requires pre != [] && (rest == [] || rest[0] != 0x80)
    ensures SentinelAt(pre + rest) == SentinelAt(pre)
  {
    var s := pre + rest;
    if |pre| < 3 && rest != [] {
      assert s[|pre|] == rest[0];
    }
  }

  lemma TokenSuffixByte(pre: ByteString)
    requires EndsWithToken(pre)
    ensures pre[1..] == [] || EndsWithToken(pre[1..])
  {
    if |pre| > 1 {
      var u := pre[1..];
      assert u[|u| - 1] == pre[|pre| - 1];
      if |u| >= 3 {
        assert u[|u| - 3..] == pre[|pre| - 3..];
      }
    }
  }

  /** Behind a sentinel of `pre` there is a token left. */
  lemma TokenSuffix(pre: ByteString)
    requires EndsWithToken(pre) && SentinelAt(pre)
    ensures pre[3..] != []
    ensures var u := SkipSpace(pre[3..]); u != [] && EndsWithToken(u)
  {
    assert pre[0..] == pre;
    TokenSuffixByte(pre);
    var v := pre[1..];
    assert v != [];
    TokenSuffixByte(v);
    assert |v| > 1 ==> v[1..] == pre[2..];
    assert pre[2..] != [] && EndsWithToken(pre[2..]);
    TokenSuffixByte(pre[2..]);
    assert pre[2..][1..] == pre[3..];
    assert pre[3..] != [];
    if pre[3] == SPACE {
      TokenSuffixByte(pre[3..]);
    }
  }

  /** Output below the last pushed byte is never touched. */
  lemma {:induction false} RestoringFrame(below: ByteString, out: ByteString, s: ByteString)
    requires out != [] || s == [] || !SentinelAt(s)
    ensures Restoring(below + out, s) == below + Restoring(out, s)
    decreases |s|
  {
    if s != [] {
      if SentinelAt(s) {
        RestoringFrame(below, PopSpace(out) + [SPACE], SkipSpace(s[3..]));
        hide SentinelAt;
        assert (below + out)[|below + out| - 1] == out[|out| - 1];
        assert PopSpace(below + out) + [SPACE] == below + (PopSpace(out) + [SPACE]);
      } else {
        RestoringFrame(below, out + [s[0]], s[1..]);
        hide SentinelAt;
        Assoc(below, out, [s[0]]);
      }
    }
  }

  lemma RestoredIs(s: ByteString, t: ByteString)
    ensures Restored(s) == Restoring([], s) && Restored(t) == Restoring([], t)
  {
  }

  /**
   A maximal run of spaces and sentinels between two tokens becomes a run of
   spaces by itself: untouched without a sentinel; otherwise never joined to
   nothing, and never wider than the spaces it already had, or one.
   */
  lemma RestoreIsRunByRun(pre: ByteString, run: ByteString, post: ByteString)
    requires IsRun(run) && run != []
    requires pre == [] || EndsWithToken(pre)
    requires post == [] || StartsWithToken(post)
    ensures var w := RunWidth(0, run);
            && Restored(pre + run + post) == Restored(pre) + Spaces(w) + Restored(post)
            && (if HasSentinel(run) then 1 <= w && (w <= 1 || w <= SpaceCount(run)) else w == |run|)
  {
    RunWidthBounds(0, run);
    RestoreRunExactly(pre, run, post);
  }

  lemma RestoreRunExactly(pre: ByteString, run: ByteString, post: ByteString)
    requires IsRun(run) && run != []
    requires pre == [] || EndsWithToken(pre)
    requires post == [] || StartsWithToken(post)
    ensures Restored(pre + run + post) == Restored(pre) + Spaces(RunWidth(0, run)) + Restored(post)
  {
    hide *;
    var w := RunWidth(0, run);
    var r := Restoring([], pre);
    RunFront(run, post);
    RestoringPrefix([], pre, run + post);
    assert pre + run + post == pre + (run + post);
    if pre == [] {
      RestoringNothing([]);
    }
    NothingEnds();
    assert r + Spaces(0) == r;
    RestoringRun(r, 0, run, post);
    RestoringFrame(r + Spaces(w), [], post);
    assert r + Spaces(w) + [] == r + Spaces(w);
    RestoredIs(pre + run + post, post);
    RestoredIs(pre, post);
  }

  lemma RunFront(run: ByteString, post: ByteString)
    requires IsRun(run) && run != []
    requires post == [] || StartsWithToken(post)
    ensures (run + post)[0] != 0x80
    ensures post == [] || !SentinelAt(post)
  {
  }

  lemma NothingEnds()
    ensures !EndsWithSpace([])
    ensures Spaces(0) == []
  {
  }

  // ---- the round trip ----

  /** `html` with one space in place of each whitespace-only span body. */
  function Canonical(html: ByteString): ByteString {
    SpanRun(html, Text, [SPACE])
  }

  /** The span pass starts a sentinel only where it replaces a body. */
  lemma ImageStartsNoSentinel(s: ByteString, a: SpanState, fill: ByteString)
    requires s != []
    ensures SentinelAt(SpanRun(s, a, fill)) <==> SentinelAt(s)
  {
    var r := SpanRun(s, a, fill);
    SpanKeepsHead(s, a, fill);
    hide SpanRun, SameHead;
    SameHeadSymmetric(s, r);
    if SentinelAt(r) {
      SameHeadPrefix(r, s, 3);
      assert s[..3][0] == r[..3][0] && s[..3][1] == r[..3][1] && s[..3][2] == r[..3][2];
    }
    if SentinelAt(s) {
      SameHeadPrefix(s, r, 3);
      assert s[..3][0] == r[..3][0] && s[..3][1] == r[..3][1] && s[..3][2] == r[..3][2];
    }
  }

  /** What follows a rewritten body is a `<`. */
  lemma BehindBody(s: ByteString, a: SpanState, fill: ByteString)
    requires SpanOk(s, a) && AtSubstitution(s, a)
    ensures var rest := s[1..][TextLen(s[1..])..]; var x := SpanRun(rest, Text, fill);
            rest != [] && x != [] && x[0] == LT
  {
    SubstitutedBody(s, a);
    var rest := s[1..][TextLen(s[1..])..];
    SpanStep(rest, Text, fill);
  }

  lemma {:induction false} RestoringPreserved(out: ByteString, s: ByteString, a: SpanState)
    requires SpanOk(s, a) && !HasSentinel(s)
    ensures Restoring(out, SpanRun(s, a, SENTINEL)) == out + SpanRun(s, a, [SPACE])
    decreases |s|
  {
    if s == [] {
      assert out + [] == out;
    } else {
      var r := SpanRun(s, a, SENTINEL);
      ImageStartsNoSentinel(s, a, SENTINEL);
      if AtSubstitution(s, a) {
        var t := s[1..];
        var rest := t[TextLen(t)..];
        NoSentinelSuffix(s, 1 + TextLen(t));
        assert s[1 + TextLen(t)..] == rest;
        SpacedBody(out, s, a);
        EverTextOk(rest);
        RestoringPreserved(out + [GT] + [SPACE], rest, Text);
        hide *;
        assert out + [GT] + [SPACE] == out + [GT, SPACE];
        Assoc(out, [GT, SPACE], SpanRun(rest, Text, [SPACE]));
      } else {
        SpanOkNext(s, a);
        RestoringPreserved(out + [s[0]], s[1..], NextSpan(s, a));
        SpanStep(s, a, SENTINEL);
        SpanStep(s, a, [SPACE]);
        var x := SpanRun(s, a, [SPACE]);
        assert x == [x[0]] + x[1..];
        hide SpanRun, NextSpan, AtSubstitution, SpanOk, HasSentinel, SameHead;
        Assoc(out, [s[0]], x[1..]);
      }
    }
  }

  /** One rewritten body, read back. */
  lemma SpacedBody(out: ByteString, s: ByteString, a: SpanState)
    requires SpanOk(s, a) && AtSubstitution(s, a)
    ensures var rest := s[1..][TextLen(s[1..])..];
            && Restoring(out, SpanRun(s, a, SENTINEL)) ==
               Restoring(out + [GT] + [SPACE], SpanRun(rest, Text, SENTINEL))
            && SpanRun(s, a, [SPACE]) == [GT, SPACE] + SpanRun(rest, Text, [SPACE])
  {
    var rest := s[1..][TextLen(s[1..])..];
    SpanStepSubstitution(s, a, SENTINEL);
    SpanStepSubstitution(s, a, [SPACE]);
    BehindBody(s, a, SENTINEL);
    hide SpanRun, AtSubstitution, TextLen, Restoring;
    var z := SpanRun(s, a, [SPACE]);
    assert z == [GT] + z[1..];
    RestoringSpacer(out, SpanRun(s, a, SENTINEL), SpanRun(rest, Text, SENTINEL));
  }

  /** A sentinel between `>` and `<` becomes exactly one space. */
  lemma RestoringSpacer(out: ByteString, r: ByteString, x: ByteString)
    requires r != [] && r[0] == GT && r[1..] == SENTINEL + x && x != [] && x[0] == LT
    ensures Restoring(out, r) == Restoring(out + [GT] + [SPACE], x)
  {
    assert !SentinelAt(r);
    var t := r[1..];
    assert SentinelAt(t) && t[3..] == x;
    assert PopSpace(out + [GT]) == out + [GT];
  }

  lemma {:induction false} NoSentinelSuffix(s: ByteString, n: nat)
    requires !HasSentinel(s) && n <= |s|
    ensures !HasSentinel(s[n..])
    decreases n
  {
    if n > 0 {
      NoSentinelSuffix(s[1..], n - 1);
      assert s[1..][n - 1..] == s[n..];
    } else {
      assert s[0..] == s;
    }
  }

  lemma {:induction false} CanonicalKeepsSentinels(s: ByteString, a: SpanState)
    requires SpanOk(s, a) && HasSentinel(s)
    ensures HasSentinel(SpanRun(s, a, [SPACE]))
    decreases |s|
  {
    var r := SpanRun(s, a, [SPACE]);
    ImageStartsNoSentinel(s, a, [SPACE]);
    if !SentinelAt(s) {
      if AtSubstitution(s, a) {
        var t := s[1..];
        var n := TextLen(t);
        SubstitutedBody(s, a);
        BlankHasNoSentinel(t, n);
        CanonicalKeepsSentinels(t[n..], Text);
        SpanStepSubstitution(s, a, [SPACE]);
        hide SpanRun, SpanOk, TextLen, AtSubstitution, SentinelAt, IsInert, CloseLen;
        assert r[1..][1..] == SpanRun(t[n..], Text, [SPACE]);
      } else {
        SpanOkNext(s, a);
        CanonicalKeepsSentinels(s[1..], NextSpan(s, a));
        SpanStep(s, a, [SPACE]);
        hide SpanRun, SpanOk, AtSubstitution, SentinelAt, SameHead;
      }
    }
  }

  lemma {:induction false} BlankHasNoSentinel(t: ByteString, n: nat)
    requires n <= |t| && IsBlankBody(t[..n]) && HasSentinel(t)
    ensures HasSentinel(t[n..])
    decreases n
  {
    if n > 0 {
      assert t[..n] == [t[0]] + t[1..][..n - 1];
      BlankBodyCons(t[0], t[1..][..n - 1]);
      BlankHasNoSentinel(t[1..], n - 1);
      assert t[1..][n - 1..] == t[n..];
    } else {
      assert t[0..] == t;
    }
  }

  /**
   Restoring what the span pass wrote gives the document with every
   whitespace-only span body made one space, and nothing else changed, on
   exactly the documents that hold no sentinel of their own.
   */
  lemma RoundTripIff(html: ByteString)
    ensures Restored(Preserved(html)) == Canonical(html) <==> !HasSentinel(html)
  {
    EverTextOk(html);
    if HasSentinel(html) {
      CanonicalKeepsSentinels(html, Text);
      RestoreLeavesNoSentinel(Preserved(html));
    } else {
      RestoringPreserved([], html, Text);
      hide SpanRun, Restoring, HasSentinel;
      assert [] + Canonical(html) == Canonical(html);
    }
  }

  /** Every span body the pass rewrites is a single space already. */
  ghost predicate SingleSpaced(s: ByteString, a: SpanState)
    decreases |s|
  {
    if s == [] then true
    else if AtSubstitution(s, a) then
      var t := s[1..]; var n := TextLen(t);
      t[..n] == [SPACE] && SingleSpaced(t[n..], Text)
    else SingleSpaced(s[1..], NextSpan(s, a))
  }

  lemma {:induction false} CanonicalLength(s: ByteString, a: SpanState)
    requires SpanOk(s, a)
    ensures |SpanRun(s, a, [SPACE])| <= |s|
    decreases |s|
  {
    if s != [] {
      if AtSubstitution(s, a) {
        SubstitutedBody(s, a);
        SpanStepSubstitution(s, a, [SPACE]);
        var t := s[1..];
        CanonicalLength(t[TextLen(t)..], Text);
        hide SpanRun, TextLen, AtSubstitution, CloseLen, IsInert;
      } else {
        SpanOkNext(s, a);
        CanonicalLength(s[1..], NextSpan(s, a));
        SpanStep(s, a, [SPACE]);
        hide SpanRun, AtSubstitution, SameHead;
      }
    }
  }

  lemma {:induction false} CanonicalFixed(s: ByteString, a: SpanState)
    requires SpanOk(s, a)
    ensures SpanRun(s, a, [SPACE]) == s <==> SingleSpaced(s, a)
    decreases |s|
  {
    if s != [] {
      var r := SpanRun(s, a, [SPACE]);
      if AtSubstitution(s, a) {
        var t := s[1..];
        var n := TextLen(t);
        SubstitutedBody(s, a);
        SpanStepSubstitution(s, a, [SPACE]);
        CanonicalLength(t[n..], Text);
        CanonicalFixed(t[n..], Text);
        var x := SpanRun(t[n..], Text, [SPACE]);
        hide SpanRun, TextLen, CloseLen, IsInert, IsBlankBody, LookTag, IsOpen, NextSpan;
        OneSpaceBody(t, n, x);
        SameTails(r, s);
      } else {
        SpanOkNext(s, a);
        CanonicalFixed(s[1..], NextSpan(s, a));
        SpanStep(s, a, [SPACE]);
        hide SpanRun, AtSubstitution, SameHead, NextSpan, SpanOk;
        SameTails(r, s);
      }
    }
  }

  lemma SameTails(r: ByteString, s: ByteString)
    requires r != [] && s != [] && r[0] == s[0]
    ensures r == s <==> r[1..] == s[1..]
  {
    assert s == [s[0]] + s[1..] && r == [r[0]] + r[1..];
  }

  lemma OneSpaceBody(t: ByteString, n: nat, x: ByteString)
    requires 0 < n <= |t| && |x| <= |t| - n
    ensures [SPACE] + x == t <==> t[..n] == [SPACE] && x == t[n..]
  {
    if [SPACE] + x == t {
      assert n == 1;
      assert t[..1] == [t[0]] && t[0] == SPACE;
      assert t[1..] == x;
    }
    if t[..n] == [SPACE] && x == t[n..] {
      assert t == t[..n] + t[n..];
    }
  }

  /** The round trip is the identity iff spans are single-spaced and no sentinel occurs. */
  lemma RoundTripIdentityIff(html: ByteString)
    ensures Restored(Preserved(html)) == html <==> !HasSentinel(html) && SingleSpaced(html, Text)
  {
    RoundTripIff(html);
    EverTextOk(html);
    CanonicalFixed(html, Text);
    RestoreLeavesNoSentinel(Preserved(html));
  }
}
