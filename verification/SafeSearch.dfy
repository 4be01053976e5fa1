/**
 src/gateway/mod.rs:73-233: the local safe-search filter and the step both
 gateways finish a search with. `alnum` is `char::is_alphanumeric` and `host`
 the URL library's host of a result URL, empty when there is none; both are
 arbitrary here.
 */
module SafeSearch {
  import opened Bytes

  datatype Library = Library(alnum: char -> bool, host: string -> string)

  datatype SearchResult = SearchResult(url: string, title: string, snippet: string)

  const MODERATE: set<string> := {
    "porn", "xxx", "nsfw", "pornography", "explicit", "nudity", "erotic", "fetish",
    "hentai", "onlyfans", "escort", "camgirl", "stripper", "stripclub"
  }

  const STRICT: set<string> := {
    "porn", "xxx", "adult", "nsfw", "sex", "pornography", "explicit", "nude", "nudity",
    "erotic", "fetish", "hentai", "onlyfans", "escort", "camgirl", "webcam", "stripper",
    "stripclub"
  }

  /** `char::to_ascii_lowercase`. */
  function LowerChar(c: char): char {
    if 'A' <= c <= 'Z' then (c as int + 32) as char else c
  }

  function Lower(s: string): string {
    seq(|s|, i requires 0 <= i < |s| => LowerChar(s[i]))
  }

  /** Number of characters before the first separator at or after the front. */
  function WordLen(alnum: char -> bool, s: string): (n: nat)
    ensures n <= |s|
    ensures forall k :: 0 <= k < n ==> alnum(s[k])
    ensures n < |s| ==> !alnum(s[n])
  {
    if s == [] || !alnum(s[0]) then 0 else 1 + WordLen(alnum, s[1..])
  }

  /** `str::split`: the pieces between separators, empty ones included. */
  function Split(alnum: char -> bool, s: string): seq<string>
    decreases |s|
  {
    var n := WordLen(alnum, s);
    if n == |s| then [s] else [s[..n]] + Split(alnum, s[n + 1..])
  }

  function Blocklist(level: nat): set<string> {
    if level == 0 then {} else if level == 1 then MODERATE else STRICT
  }

  predicate HasListedWord(alnum: char -> bool, s: string, list: set<string>) {
    exists k :: 0 <= k < |Split(alnum, s)| && Lower(Split(alnum, s)[k]) in list
  }

  /** The predicate `retain` is given, negated. */
  predicate IsDropped(lib: Library, r: SearchResult, list: set<string>) {
    || HasListedWord(lib.alnum, r.title, list)
    || HasListedWord(lib.alnum, r.snippet, list)
    || HasListedWord(lib.alnum, lib.host(r.url), list)
  }

  /** The results that survive a block list, in order. */
  function Kept(lib: Library, results: seq<SearchResult>, list: set<string>): seq<SearchResult> {
    if results == [] then []
    else Kept(lib, results[..|results| - 1], list)
         + if IsDropped(lib, results[|results| - 1], list) then [] else [results[|results| - 1]]
  }

  /** `retain` over the vector; level 0 hands it back untouched. */
  method ApplySafeSearchFilter(lib: Library, results: seq<SearchResult>, level: nat) returns (kept: seq<SearchResult>)
    ensures kept == Kept(lib, results, Blocklist(level))
  {
    if level == 0 {
      NothingListed(lib, results);
      return results;
    }
    var list := if level == 1 then MODERATE else STRICT;
    hide IsDropped, HasListedWord;
    kept := [];
    var i := 0;
    while i < |results|
      invariant 0 <= i <= |results|
      invariant kept == Kept(lib, results[..i], list)
    {
      assert results[..i + 1][..i] == results[..i];
      if !IsDropped(lib, results[i], list) {
        kept := kept + [results[i]];
      }
      i := i + 1;
    }
    assert results[..i] == results;
  }

  lemma NothingDropped(lib: Library, r: SearchResult)
    ensures !IsDropped(lib, r, {})
  {
    hide Split, Lower;
  }

  lemma {:induction false} NothingListed(lib: Library, results: seq<SearchResult>)
    ensures Kept(lib, results, {}) == results
  {
    hide *;
    if results == [] {
      NothingKept(lib);
    } else {
      var init, r := results[..|results| - 1], results[|results| - 1];
      NothingListed(lib, init);
      NothingDropped(lib, r);
      KeptSnoc(lib, init, r, {});
      assert results == init + [r];
    }
  }

  lemma NothingKept(lib: Library)
    ensures Kept(lib, [], {}) == []
  {
    hide IsDropped;
  }

  // ---- a result is dropped exactly for a listed maximal run ----

  /** `s[i..j]` is a non-empty run of alphanumerics that no neighbour extends. */
  predicate IsMaximalRun(alnum: char -> bool, s: string, i: nat, j: nat) {
    && i < j <= |s|
    && (forall k :: i <= k < j ==> alnum(s[k]))
    && (i > 0 ==> !alnum(s[i - 1]))
    && (j < |s| ==> !alnum(s[j]))
  }

  lemma SplitShape(alnum: char -> bool, s: string)
    ensures var n := WordLen(alnum, s); var p := Split(alnum, s);
            && p != [] && p[0] == s[..n]
            && (n == |s| ==> |p| == 1)
            && (n < |s| ==> p[1..] == Split(alnum, s[n + 1..]))
  {
    hide WordLen;
    var n := WordLen(alnum, s);
    if n < |s| {
      ConsParts(s[..n], Split(alnum, s[n + 1..]));
    }
  }

  lemma FrontRun(alnum: char -> bool, s: string, i: nat, j: nat)
    ensures var n := WordLen(alnum, s);
            && (n > 0 ==> IsMaximalRun(alnum, s, 0, n))
            && (IsMaximalRun(alnum, s, i, j) ==> if i == 0 then j == n else n < i)
  {
  }

  lemma RunInTail(alnum: char -> bool, s: string, n: nat, i: nat, j: nat)
    requires 0 < n <= |s| && !alnum(s[n - 1])
    ensures IsMaximalRun(alnum, s[n..], i, j) <==> IsMaximalRun(alnum, s, i + n, j + n)
    ensures i <= j <= |s| - n ==> s[n..][i..j] == s[i + n..j + n]
  {
    if i <= j <= |s| - n {
      var t := s[n..];
      assert forall k :: i <= k < j ==> t[k] == s[k + n];
      assert forall k :: i + n <= k < j + n ==> s[k] == t[k - n];
    }
  }

  lemma {:induction false} PieceIsRun(alnum: char -> bool, s: string, k: nat) returns (i: nat, j: nat)
    requires k < |Split(alnum, s)| && Split(alnum, s)[k] != []
    ensures IsMaximalRun(alnum, s, i, j) && j <= |s| && i < j && s[i..j] == Split(alnum, s)[k]
    decreases |s|
  {
    hide IsMaximalRun, Split;
    SplitShape(alnum, s);
    var n := WordLen(alnum, s);
    if k == 0 {
      FrontRun(alnum, s, 0, n);
      i, j := 0, n;
    } else {
      i, j := PieceIsRun(alnum, s[n + 1..], k - 1);
      RunInTail(alnum, s, n + 1, i, j);
      i, j := i + n + 1, j + n + 1;
    }
  }

  lemma TailAt<T>(p: seq<T>, q: seq<T>, k: nat)
    requires p != [] && p[1..] == q && k < |q|
    ensures k + 1 < |p| && p[k + 1] == q[k]
  {
  }

  lemma RunBounds(alnum: char -> bool, s: string, i: nat, j: nat)
    requires IsMaximalRun(alnum, s, i, j)
    ensures i < j <= |s|
  {
  }

  /** A run further back is a run of what follows the first word. */
  lemma RunAfterFront(alnum: char -> bool, s: string, i: nat, j: nat) returns (t: string, x: nat, y: nat)
    requires IsMaximalRun(alnum, s, i, j) && i > 0
    ensures WordLen(alnum, s) < i < j <= |s| && t == s[WordLen(alnum, s) + 1..]
    ensures IsMaximalRun(alnum, t, x, y) && x < y <= |t| && t[x..y] == s[i..j]
  {
    RunBounds(alnum, s, i, j);
    FrontRun(alnum, s, i, j);
    hide *;
    var n := WordLen(alnum, s);
    t, x, y := s[n + 1..], i - n - 1, j - n - 1;
    RunInTail(alnum, s, n + 1, x, y);
    assert x + (n + 1) == i && y + (n + 1) == j;
  }

  /** A piece of what follows the first word is the next piece of the whole. */
  lemma LaterPiece(alnum: char -> bool, s: string, k: nat)
    requires WordLen(alnum, s) < |s| && k < |Split(alnum, s[WordLen(alnum, s) + 1..])|
    ensures k + 1 < |Split(alnum, s)| && Split(alnum, s)[k + 1] == Split(alnum, s[WordLen(alnum, s) + 1..])[k]
  {
    SplitShape(alnum, s);
    hide *;
    TailAt(Split(alnum, s), Split(alnum, s[WordLen(alnum, s) + 1..]), k);
  }

  lemma FrontPiece(alnum: char -> bool, s: string, j: nat)
    requires IsMaximalRun(alnum, s, 0, j)
    ensures j <= |s| && Split(alnum, s) != [] && Split(alnum, s)[0] == s[0..j]
  {
    SplitShape(alnum, s);
    FrontRun(alnum, s, 0, j);
    hide *;
  }

  lemma {:induction false} RunIsPiece(alnum: char -> bool, s: string, i: nat, j: nat) returns (k: nat)
    requires IsMaximalRun(alnum, s, i, j)
    ensures i < j <= |s| && k < |Split(alnum, s)| && Split(alnum, s)[k] == s[i..j]
    decreases |s|
  {
    hide *;
    RunBounds(alnum, s, i, j);
    if i == 0 {
      FrontPiece(alnum, s, j);
      k := 0;
    } else {
      var t, x, y := RunAfterFront(alnum, s, i, j);
      k := RunIsPiece(alnum, t, x, y);
      LaterPiece(alnum, s, k);
      k := k + 1;
    }
  }

  ghost predicate HasListedRun(alnum: char -> bool, s: string, list: set<string>) {
    exists i: nat, j: nat :: IsMaximalRun(alnum, s, i, j) && Lower(s[i..j]) in list
  }

  lemma ListedWordIffRun(alnum: char -> bool, s: string, list: set<string>)
    requires "" !in list
    ensures HasListedWord(alnum, s, list) <==> HasListedRun(alnum, s, list)
  {
    if HasListedWord(alnum, s, list) {
      var k :| 0 <= k < |Split(alnum, s)| && Lower(Split(alnum, s)[k]) in list;
      assert Split(alnum, s)[k] != [] by {
        assert Lower([]) == "";
      }
      var i, j := PieceIsRun(alnum, s, k);
      assert Lower(s[i..j]) in list;
    }
    if HasListedRun(alnum, s, list) {
      var i: nat, j: nat :| IsMaximalRun(alnum, s, i, j) && Lower(s[i..j]) in list;
      var k := RunIsPiece(alnum, s, i, j);
      assert Lower(Split(alnum, s)[k]) in list;
    }
  }

  lemma BlocklistWords(level: nat)
    ensures "" !in Blocklist(level)
  {
  }

  /** The same result survives a level exactly when none of its runs is listed there. */
  lemma DroppedIffListedRun(lib: Library, r: SearchResult, level: nat)
    ensures IsDropped(lib, r, Blocklist(level)) <==>
            || HasListedRun(lib.alnum, r.title, Blocklist(level))
            || HasListedRun(lib.alnum, r.snippet, Blocklist(level))
            || HasListedRun(lib.alnum, lib.host(r.url), Blocklist(level))
  {
    BlocklistWords(level);
    ListedWordIffRun(lib.alnum, r.title, Blocklist(level));
    ListedWordIffRun(lib.alnum, r.snippet, Blocklist(level));
    ListedWordIffRun(lib.alnum, lib.host(r.url), Blocklist(level));
    hide HasListedWord, HasListedRun, Blocklist;
  }

  // ---- the filter as a whole ----

  /** `a` is `b` with some elements left out and the order kept. */
  ghost predicate IsSubsequence(a: seq<SearchResult>, b: seq<SearchResult>) {
    exists at: seq<nat> :: Picks(at, a, b)
  }

  ghost predicate Picks(at: seq<nat>, a: seq<SearchResult>, b: seq<SearchResult>) {
    && |at| == |a|
    && (forall k :: 0 <= k < |a| ==> at[k] < |b| && a[k] == b[at[k]])
    && (forall k, l :: 0 <= k < l < |a| ==> at[k] < at[l])
  }

  lemma {:induction false} KeptPicks(lib: Library, results: seq<SearchResult>, list: set<string>) returns (at: seq<nat>)
    ensures Picks(at, Kept(lib, results, list), results)
  {
    hide IsDropped;
    if results == [] {
      at := [];
    } else {
      var n := |results| - 1;
      at := KeptPicks(lib, results[..n], list);
      if !IsDropped(lib, results[n], list) {
        at := at + [n];
      }
    }
  }

  /** What is left out is what is listed, copy for copy. */
  lemma {:induction false} KeptCounts(lib: Library, results: seq<SearchResult>, list: set<string>, r: SearchResult)
    ensures multiset(Kept(lib, results, list))[r] == if IsDropped(lib, r, list) then 0 else multiset(results)[r]
  {
    if results != [] {
      var init, last := results[..|results| - 1], results[|results| - 1];
      assert results == init + [last];
      KeptCounts(lib, init, list, r);
      KeptSnoc(lib, init, last, list);
      hide *;
      var kept := Kept(lib, init, list);
      assert multiset(init + [last])[r] == multiset(init)[r] + multiset([last])[r];
      assert multiset(kept + [last])[r] == multiset(kept)[r] + multiset([last])[r];
      var nothing: seq<SearchResult> := [];
      assert kept + nothing == kept;
    }
  }

  lemma DroppedMonotone(lib: Library, r: SearchResult, a: set<string>, b: set<string>)
    requires a <= b && IsDropped(lib, r, a)
    ensures IsDropped(lib, r, b)
  {
  }

  lemma {:induction false} KeptTwice(lib: Library, results: seq<SearchResult>, a: set<string>, b: set<string>)
    requires a <= b
    ensures Kept(lib, Kept(lib, results, a), b) == Kept(lib, results, b)
    ensures Kept(lib, Kept(lib, results, b), a) == Kept(lib, results, b)
  {
    if results != [] {
      var init, r := results[..|results| - 1], results[|results| - 1];
      assert results == init + [r];
      KeptTwice(lib, init, a, b);
      if IsDropped(lib, r, a) {
        DroppedMonotone(lib, r, a, b);
      }
      KeptSnoc(lib, init, r, a);
      KeptSnoc(lib, init, r, b);
      KeptSnoc(lib, Kept(lib, init, a), r, b);
      KeptSnoc(lib, Kept(lib, init, b), r, a);
      hide *;
      var nothing: seq<SearchResult> := [];
      assert Kept(lib, init, a) + nothing == Kept(lib, init, a);
      assert Kept(lib, init, b) + nothing == Kept(lib, init, b);
    }
  }

  lemma KeptSnoc(lib: Library, results: seq<SearchResult>, r: SearchResult, list: set<string>)
    ensures Kept(lib, results + [r], list) == Kept(lib, results, list) + if IsDropped(lib, r, list) then [] else [r]
  {
    hide IsDropped;
    assert (results + [r])[..|results|] == results;
  }

  lemma LevelsNest(a: nat, b: nat)
    ensures a <= b ==> Blocklist(a) <= Blocklist(b)
  {
    if a == 1 && b > 1 {
      assert MODERATE <= STRICT;
    }
  }

  /** The moderate list is the strict one without its four everyday words. */
  lemma ModerateSparesFourWords()
    ensures STRICT == MODERATE + {"adult", "sex", "nude", "webcam"}
    ensures MODERATE !! {"adult", "sex", "nude", "webcam"}
  {
    assert |"adult"| == 5 && |"sex"| == 3 && |"nude"| == 4 && |"webcam"| == 6;
    forall w | w in MODERATE ensures w !in {"adult", "sex", "nude", "webcam"} {
      assert "xxx"[0] == 'x' && "porn"[0] == 'p' && "nsfw"[1] == 's' && "hentai"[0] == 'h';
      assert "nudity"[0] == 'n' && "erotic"[0] == 'e' && "fetish"[0] == 'f' && "escort"[0] == 'e';
    }
  }

  function Stricter(a: nat, b: nat): nat {
    if a <= b then b else a
  }

  /** Filtering at one level after another is filtering at the stricter one. */
  lemma FilterTwice(lib: Library, results: seq<SearchResult>, a: nat, b: nat)
    ensures Kept(lib, Kept(lib, results, Blocklist(a)), Blocklist(b)) == Kept(lib, results, Blocklist(Stricter(a, b)))
  {
    LevelsNest(a, b);
    LevelsNest(b, a);
    hide Blocklist;
    if a <= b {
      KeptTwice(lib, results, Blocklist(a), Blocklist(b));
    } else {
      KeptTwice(lib, results, Blocklist(b), Blocklist(a));
    }
  }

  /** A stricter level keeps a subsequence of what a looser one keeps. */
  lemma StricterKeepsSubsequence(lib: Library, results: seq<SearchResult>, a: nat, b: nat)
    requires a <= b
    ensures IsSubsequence(Kept(lib, results, Blocklist(b)), Kept(lib, results, Blocklist(a)))
    ensures IsSubsequence(Kept(lib, results, Blocklist(a)), results)
  {
    FilterTwice(lib, results, a, b);
    hide Blocklist, Kept;
    var at := KeptPicks(lib, Kept(lib, results, Blocklist(a)), Blocklist(b));
    var at' := KeptPicks(lib, results, Blocklist(a));
  }

  // ---- the finalize step ----

  datatype SearchResponse = SearchResponse(results: seq<SearchResult>, total: nat, page: nat, cached: bool)

  function Min(a: nat, b: nat): nat {
    if a <= b then a else b
  }

  function Page(lib: Library, results: seq<SearchResult>, level: nat, page: nat, maxPerPage: nat): SearchResponse {
    var filtered := Kept(lib, results, Blocklist(level));
    SearchResponse(filtered[..Min(|filtered|, maxPerPage)], |filtered|, page, false)
  }

  /** `finalize_results`; `timing_ms` is left out. */
  method FinalizeResults(lib: Library, results: seq<SearchResult>, level: nat, page: nat, maxPerPage: nat)
    returns (response: SearchResponse)
    ensures response == Page(lib, results, level, page, maxPerPage)
    ensures response.results <= Kept(lib, results, Blocklist(level))
    ensures response.total == |Kept(lib, results, Blocklist(level))|
    ensures |response.results| == Min(response.total, maxPerPage)
    ensures response.page == page && !response.cached
  {
    hide Kept, Blocklist;
    var filtered := ApplySafeSearchFilter(lib, results, level);
    var total := |filtered|;
    var paginated := filtered[..Min(total, maxPerPage)];
    response := SearchResponse(paginated, total, page, false);
  }

  /** A page is the front of the filtered results, as many as fit. */
  lemma PageIsFront(lib: Library, results: seq<SearchResult>, level: nat, page: nat, maxPerPage: nat)
    ensures var p := Page(lib, results, level, page, maxPerPage); var filtered := Kept(lib, results, Blocklist(level));
            && p.results <= filtered && p.total == |filtered|
            && |p.results| == (if |filtered| <= maxPerPage then |filtered| else maxPerPage)
            && p.page == page && !p.cached
  {
    hide Kept, Blocklist;
  }

  /** A prefix of filtered results is filtered. */
  lemma {:induction false} KeptPrefix(lib: Library, results: seq<SearchResult>, list: set<string>, n: nat)
    requires Kept(lib, results, list) == results && n <= |results|
    ensures Kept(lib, results[..n], list) == results[..n]
    decreases |results| - n
  {
    hide IsDropped;
    if n < |results| {
      KeptPrefix(lib, results, list, n + 1);
      var longer := results[..n + 1];
      assert longer[..n] == results[..n];
      KeptIsNoLonger(lib, results[..n], list);
    } else {
      assert results[..n] == results;
    }
  }

  lemma {:induction false} KeptIsNoLonger(lib: Library, results: seq<SearchResult>, list: set<string>)
    ensures |Kept(lib, results, list)| <= |results|
  {
    hide IsDropped;
    if results != [] {
      KeptIsNoLonger(lib, results[..|results| - 1], list);
    }
  }

  /** A finished page passes the filter at its own level, and at any looser one, unchanged. */
  lemma PageIsFiltered(lib: Library, results: seq<SearchResult>, level: nat, page: nat, maxPerPage: nat, looser: nat)
    requires looser <= level
    ensures var p := Page(lib, results, level, page, maxPerPage);
            Kept(lib, p.results, Blocklist(looser)) == p.results
  {
    FilterTwice(lib, results, level, looser);
    hide Blocklist, Kept;
    var filtered := Kept(lib, results, Blocklist(level));
    KeptPrefix(lib, filtered, Blocklist(looser), Min(|filtered|, maxPerPage));
  }

  // ---- ASCII case does not matter ----

  /** The same character, or the same ASCII letter in the other case. */
  predicate SameLetter(c: char, d: char) {
    || c == d
    || ('A' <= c <= 'Z' && d as int == c as int + 32)
    || ('A' <= d <= 'Z' && c as int == d as int + 32)
  }

  predicate SameIgnoringCase(s: string, t: string) {
    |s| == |t| && forall i :: 0 <= i < |s| ==> SameLetter(s[i], t[i])
  }

  /** As `char::is_alphanumeric` is. */
  ghost predicate IsCaseBlind(alnum: char -> bool) {
    forall c, d :: SameLetter(c, d) ==> alnum(c) == alnum(d)
  }

  lemma SameLower(s: string, t: string)
    requires SameIgnoringCase(s, t)
    ensures Lower(s) == Lower(t)
  {
    forall i | 0 <= i < |s| ensures LowerChar(s[i]) == LowerChar(t[i]) {
      assert SameLetter(s[i], t[i]);
    }
  }

  lemma SameRun(alnum: char -> bool, s: string, t: string, i: nat, j: nat)
    requires IsCaseBlind(alnum) && SameIgnoringCase(s, t) && IsMaximalRun(alnum, s, i, j)
    ensures IsMaximalRun(alnum, t, i, j) && i < j <= |s| && Lower(s[i..j]) == Lower(t[i..j])
  {
    hide SameLetter;
    forall k | 0 <= k < |s| ensures alnum(s[k]) == alnum(t[k]) {
      assert SameLetter(s[k], t[k]);
    }
    assert SameIgnoringCase(s[i..j], t[i..j]);
    SameLower(s[i..j], t[i..j]);
    hide Lower;
  }

  lemma SameListedRun(alnum: char -> bool, s: string, t: string, list: set<string>)
    requires IsCaseBlind(alnum) && SameIgnoringCase(s, t) && HasListedRun(alnum, s, list)
    ensures HasListedRun(alnum, t, list)
  {
    hide IsCaseBlind, SameIgnoringCase;
    var i: nat, j: nat :| IsMaximalRun(alnum, s, i, j) && Lower(s[i..j]) in list;
    SameRun(alnum, s, t, i, j);
  }

  /** Results that differ in ASCII case only are dropped alike. */
  lemma CaseDoesNotMatter(lib: Library, r: SearchResult, r': SearchResult, level: nat)
    requires IsCaseBlind(lib.alnum)
    requires SameIgnoringCase(r.title, r'.title) && SameIgnoringCase(r.snippet, r'.snippet)
    requires SameIgnoringCase(lib.host(r.url), lib.host(r'.url))
    ensures IsDropped(lib, r, Blocklist(level)) == IsDropped(lib, r', Blocklist(level))
  {
    DroppedIffListedRun(lib, r, level);
    DroppedIffListedRun(lib, r', level);
    hide IsDropped, HasListedRun, SameIgnoringCase, Blocklist, IsCaseBlind;
    SameBothWays(lib.alnum, r.title, r'.title, Blocklist(level));
    SameBothWays(lib.alnum, r.snippet, r'.snippet, Blocklist(level));
    SameBothWays(lib.alnum, lib.host(r.url), lib.host(r'.url), Blocklist(level));
  }

  lemma SameBothWays(alnum: char -> bool, s: string, t: string, list: set<string>)
    requires IsCaseBlind(alnum) && SameIgnoringCase(s, t)
    ensures HasListedRun(alnum, s, list) == HasListedRun(alnum, t, list)
  {
    assert SameIgnoringCase(t, s) by {
      forall i | 0 <= i < |s| ensures SameLetter(t[i], s[i]) {
        assert SameLetter(s[i], t[i]);
      }
    }
    hide HasListedRun, SameIgnoringCase, IsCaseBlind;
    if HasListedRun(alnum, s, list) {
      SameListedRun(alnum, s, t, list);
    }
    if HasListedRun(alnum, t, list) {
      SameListedRun(alnum, t, s, list);
    }
  }
}
