/**
 src/util/ssrf.rs:104-166: tracking parameters and the fragment are dropped
 before a URL is fetched or used as a cache key.
 */
module ExtractUrl {
  import opened Wrappers
  import opened Bytes
  import opened Utf8
  import opened FormUrlencoded

  /** A parsed URL; everything but the query is opaque to this model. */
  datatype Url = Url(
    scheme: string,
    host: Option<string>,
    port: Option<nat>,
    path: ByteString,
    query: Option<ByteString>,
    fragment: Option<ByteString>)

  const TRACKING_QUERY_PARAMS: seq<string> := [
    "utm_source", "utm_medium", "utm_campaign", "utm_term", "utm_content",
    "fbclid", "gclid", "msclkid", "mc_cid", "mc_eid", "igshid", "ref",
    "ref_src", "_ga", "yclid"]

  predicate IsTracking(p: Pair) {
    exists k :: 0 <= k < |TRACKING_QUERY_PARAMS| && p.name == Ascii(TRACKING_QUERY_PARAMS[k])
  }

  /** `query_pairs()`: an absent query has no pairs. */
  function QueryPairs(query: Option<ByteString>): seq<Pair> {
    match query
    case None => []
    case Some(q) => Parse(q)
  }

  predicate HasTracking(pairs: seq<Pair>) {
    exists k :: 0 <= k < |pairs| && IsTracking(pairs[k])
  }

  /** The non-tracking pairs, in order. */
  function Retained(pairs: seq<Pair>): seq<Pair> {
    if pairs == [] then []
    else if IsTracking(pairs[0]) then Retained(pairs[1..])
    else [pairs[0]] + Retained(pairs[1..])
  }

  /** The query written for a list of pairs; no pairs, no `?`. */
  function Rebuilt(pairs: seq<Pair>): Option<ByteString> {
    if pairs == [] then None else Some(Serialize(pairs))
  }

  function NormalizedQuery(query: Option<ByteString>): Option<ByteString> {
    if HasTracking(QueryPairs(query)) then Rebuilt(Retained(QueryPairs(query))) else query
  }

  function Normalized(url: Url): Url {
    url.(fragment := None, query := NormalizedQuery(url.query))
  }

  method AnyTracking(pairs: seq<Pair>) returns (found: bool)
    ensures found == HasTracking(pairs)
  {
    hide IsTracking;
    found := false;
    for i := 0 to |pairs|
      invariant found <==> exists k :: 0 <= k < i && IsTracking(pairs[k])
    {
      if IsTracking(pairs[i]) {
        found := true;
      }
    }
  }

  method RetainPairs(pairs: seq<Pair>) returns (retained: seq<Pair>)
    ensures retained == Retained(pairs)
  {
    hide IsTracking;
    retained := [];
    for i := 0 to |pairs|
      invariant retained + Retained(pairs[i..]) == Retained(pairs)
    {
      assert pairs[i..][1..] == pairs[i + 1..];
      if !IsTracking(pairs[i]) {
        assert retained + ([pairs[i]] + Retained(pairs[i + 1..])) == retained + [pairs[i]] + Retained(pairs[i + 1..]);
        retained := retained + [pairs[i]];
      }
    }
  }

  /** The source clones the URL and edits the clone. */
  method NormalizeExtractUrl(url: Url) returns (normalized: Url)
    ensures normalized == Normalized(url)
  {
    hide HasTracking, Retained, QueryPairs, Serialize;
    normalized := url;
    normalized := normalized.(fragment := None);
    var pairs := QueryPairs(normalized.query);
    var hasTrackingParam := AnyTracking(pairs);
    if !hasTrackingParam {
      return;
    }
    var retained := RetainPairs(pairs);
    if retained == [] {
      normalized := normalized.(query := None);
    } else {
      normalized := normalized.(query := Some(Serialize(retained)));
    }
  }

  // ---- what filtering keeps ----

  lemma {:induction false} RetainedHasNoTracking(pairs: seq<Pair>)
    ensures !HasTracking(Retained(pairs))
    ensures AreText(pairs) ==> AreText(Retained(pairs))
    ensures !HasTracking(pairs) ==> Retained(pairs) == pairs
    ensures HasTracking(pairs) ==> |Retained(pairs)| < |pairs|
    ensures |Retained(pairs)| <= |pairs|
    decreases |pairs|
  {
    hide IsTracking, IsText;
    if pairs != [] {
      RetainedHasNoTracking(pairs[1..]);
      assert pairs == [pairs[0]] + pairs[1..];
      if HasTracking(pairs) && !IsTracking(pairs[0]) {
        var k :| 0 <= k < |pairs| && IsTracking(pairs[k]);
        assert IsTracking(pairs[1..][k - 1]);
      }
      if HasTracking(pairs[1..]) {
        var k :| 0 <= k < |pairs[1..]| && IsTracking(pairs[1..][k]);
        assert IsTracking(pairs[k + 1]);
      }
    }
  }

  lemma PairsAreText(query: Option<ByteString>)
    ensures AreText(QueryPairs(query))
  {
    if query.Some? {
      ParsedAreText(query.value);
    }
  }

  /** Pairs decoded from a rebuilt query are the pairs it was built from. */
  lemma RebuiltDecodes(pairs: seq<Pair>)
    requires AreText(pairs)
    ensures QueryPairs(Rebuilt(pairs)) == pairs
  {
    if pairs != [] {
      ParseSerialized(pairs);
    }
  }

  // ---- the laws of normalization ----

  /** The result decodes to exactly the non-tracking pairs of the input, in order. */
  lemma NormalizedPairs(url: Url)
    ensures QueryPairs(Normalized(url).query) == Retained(QueryPairs(url.query))
    ensures !HasTracking(QueryPairs(Normalized(url).query))
  {
    var pairs := QueryPairs(url.query);
    PairsAreText(url.query);
    RetainedHasNoTracking(pairs);
    hide QueryPairs, Retained, HasTracking, AreText, Rebuilt;
    RebuiltDecodes(Retained(pairs));
  }

  // ---- in order, copy for copy ----

  /** `a` is `b` at the increasing positions `at`. */
  ghost predicate Picks(at: seq<nat>, a: seq<Pair>, b: seq<Pair>) {
    && |at| == |a|
    && (forall k :: 0 <= k < |a| ==> at[k] < |b| && a[k] == b[at[k]])
    && (forall k, l :: 0 <= k < l < |a| ==> at[k] < at[l])
  }

  lemma PicksLater(at: seq<nat>, a: seq<Pair>, b: seq<Pair>) returns (later: seq<nat>)
    requires b != [] && Picks(at, a, b[1..])
    ensures Picks(later, a, b) && forall k :: 0 <= k < |a| ==> later[k] > 0
  {
    later := seq(|at|, k requires 0 <= k < |at| => at[k] + 1);
  }

  lemma {:induction false} RetainedPicks(pairs: seq<Pair>) returns (at: seq<nat>)
    ensures Picks(at, Retained(pairs), pairs)
    decreases |pairs|
  {
    hide IsTracking;
    if pairs == [] {
      at := [];
    } else {
      at := RetainedPicks(pairs[1..]);
      at := PicksLater(at, Retained(pairs[1..]), pairs);
      hide Picks;
      if !IsTracking(pairs[0]) {
        PicksFirst(at, Retained(pairs[1..]), pairs);
        at := [0] + at;
      }
    }
  }

  lemma PicksFirst(at: seq<nat>, a: seq<Pair>, b: seq<Pair>)
    requires b != [] && Picks(at, a, b) && forall k :: 0 <= k < |a| ==> at[k] > 0
    ensures Picks([0] + at, [b[0]] + a, b)
  {
  }

  lemma {:induction false} RetainedCounts(pairs: seq<Pair>, x: Pair)
    ensures multiset(Retained(pairs))[x] == if IsTracking(x) then 0 else multiset(pairs)[x]
    decreases |pairs|
  {
    hide IsTracking;
    if pairs != [] {
      RetainedCounts(pairs[1..], x);
      RetainedUnfold(pairs);
      hide *;
      assert pairs == [pairs[0]] + pairs[1..];
      CountFirst(pairs[0], pairs[1..], x);
      CountFirst(pairs[0], Retained(pairs[1..]), x);
    }
  }

  lemma RetainedUnfold(pairs: seq<Pair>)
    requires pairs != []
    ensures Retained(pairs) == if IsTracking(pairs[0]) then Retained(pairs[1..])
                               else [pairs[0]] + Retained(pairs[1..])
  {
    hide IsTracking;
  }

  lemma CountFirst(p: Pair, rest: seq<Pair>, x: Pair)
    ensures multiset([p] + rest)[x] == (if p == x then 1 else 0) + multiset(rest)[x]
  {
  }

  /** The pairs of the result are pairs of the input, in the input's order. */
  lemma NormalizedKeepsOrder(url: Url) returns (at: seq<nat>)
    ensures Picks(at, QueryPairs(Normalized(url).query), QueryPairs(url.query))
  {
    NormalizedPairs(url);
    hide QueryPairs, Retained, Picks, Normalized, HasTracking;
    at := RetainedPicks(QueryPairs(url.query));
  }

  /** No tracking pair is left, and of every other pair as many copies as the input has. */
  lemma NormalizedCounts(url: Url, x: Pair)
    ensures multiset(QueryPairs(Normalized(url).query))[x] ==
            if IsTracking(x) then 0 else multiset(QueryPairs(url.query))[x]
  {
    NormalizedPairs(url);
    hide QueryPairs, Retained, Normalized, HasTracking, IsTracking;
    RetainedCounts(QueryPairs(url.query), x);
  }

  /** Nothing but the query and the fragment changes; a query of tracking pairs only goes altogether. */
  lemma NormalizedElsewhere(url: Url)
    ensures var n := Normalized(url);
            && n.scheme == url.scheme && n.host == url.host && n.port == url.port && n.path == url.path
            && n.fragment.None?
            && (HasTracking(QueryPairs(url.query)) && (forall x :: x in QueryPairs(url.query) ==> IsTracking(x)) ==>
                  n.query.None?)
  {
    var pairs := QueryPairs(url.query);
    if forall x :: x in pairs ==> IsTracking(x) {
      AllTrackingGo(pairs);
    }
    hide QueryPairs, Retained, IsTracking;
  }

  lemma {:induction false} AllTrackingGo(pairs: seq<Pair>)
    requires forall x :: x in pairs ==> IsTracking(x)
    ensures Retained(pairs) == []
    decreases |pairs|
  {
    hide IsTracking;
    if pairs != [] {
      assert pairs[0] in pairs;
      AllTrackingGo(pairs[1..]);
    }
  }

  lemma NormalizeIsIdempotent(url: Url)
    ensures Normalized(Normalized(url)) == Normalized(url)
  {
    NormalizedPairs(url);
    hide QueryPairs, Retained, HasTracking;
  }

  /** The query is byte-for-byte untouched iff no tracking key decodes from it. */
  lemma QueryUntouchedIff(url: Url)
    ensures Normalized(url).query == url.query <==> !HasTracking(QueryPairs(url.query))
    ensures Normalized(url) == url <==> url.fragment.None? && !HasTracking(QueryPairs(url.query))
  {
    NormalizedPairs(url);
    hide QueryPairs, Retained, HasTracking;
  }

  // ---- one cache entry per target? ----

  /** Two URLs that both carry tracking share the result iff they share the rest. */
  lemma TrackedVariantsAgreeIff(a: Url, b: Url)
    requires HasTracking(QueryPairs(a.query)) && HasTracking(QueryPairs(b.query))
    ensures Normalized(a) == Normalized(b) <==>
              a.(query := None, fragment := None) == b.(query := None, fragment := None)
              && Retained(QueryPairs(a.query)) == Retained(QueryPairs(b.query))
  {
    NormalizedPairs(a);
    NormalizedPairs(b);
    hide QueryPairs, Retained, HasTracking;
  }

  /**
   A variant that only adds tracking parameters and a fragment gets the cache
   entry of the clean URL iff the clean query is already in serialized form.
   */
  lemma VariantSharesEntryIff(clean: Url, variant: Url)
    requires !HasTracking(QueryPairs(clean.query)) && HasTracking(QueryPairs(variant.query))
    requires Retained(QueryPairs(variant.query)) == QueryPairs(clean.query)
    requires clean.(query := None, fragment := None) == variant.(query := None, fragment := None)
    ensures Normalized(variant) == Normalized(clean) <==> clean.query == Rebuilt(QueryPairs(clean.query))
  {
    hide QueryPairs, Retained, HasTracking;
  }

  lemma RefIsTracking()
    ensures IsTracking(Pair([0x72, 0x65, 0x66], []))
  {
    var s := "ref";
    assert s[1..] == "ef" && s[1..][1..] == "f" && s[1..][1..][1..] == "";
    assert TRACKING_QUERY_PARAMS[11] == s;
    assert Ascii(s) == [0x72, 0x65, 0x66];
  }

  lemma ShortDecode(b: Byte)
    requires b < 0x80 && b != PLUS && b != PERCENT
    ensures Decode([b]) == [b]
  {
    var s: ByteString := [b];
    assert s[1..] == [];
    AsciiValid(s);
    LossyKeepsValid(s);
    assert ReplacePlus(s) == s && PercentDecode(s) == s;
  }

  lemma EscapedSpace()
    ensures Decode([PERCENT, 0x32, 0x30]) == [SPACE]
    ensures Decode([]) == []
  {
    var s: ByteString := [PERCENT, 0x32, 0x30];
    ReplacePlusKeeps(s);
    assert s[3..] == [];
    assert PercentDecode(s) == [SPACE];
    AsciiValid([SPACE]);
    LossyKeepsValid([SPACE]);
  }

  /** `q=%20`: the clean URL keeps it, `q=%20&ref` becomes `q=+`. */
  lemma VariantsNeedNotShare(clean: Url)
    requires clean.query == Some([0x71, EQUALS, PERCENT, 0x32, 0x30])
    ensures var variant := clean.(query := Some(clean.query.value + [AMPERSAND] + [0x72, 0x65, 0x66]));
            && HasTracking(QueryPairs(variant.query)) && !HasTracking(QueryPairs(clean.query))
            && Retained(QueryPairs(variant.query)) == QueryPairs(clean.query)
            && Normalized(variant) != Normalized(clean)
  {
    var q := clean.query.value;
    var r: ByteString := [0x72, 0x65, 0x66];
    var p := Pair([0x71], [SPACE]);
    var t := Pair(r, []);
    var variant := clean.(query := Some(q + [AMPERSAND] + r));
    ExamplePairs(q, r);
    assert QueryPairs(clean.query) == [p] && QueryPairs(variant.query) == [p, t];
    RefIsTracking();
    ExampleNotTracking();
    RetainedExample(p, t);
    ExampleSerialized();
    hide Parse, QueryPairs, Serialize, Retained, HasTracking, Normalized;
    VariantSharesEntryIff(clean, variant);
    assert |q| == 5;
    assert Rebuilt([p]) != clean.query;
  }

  lemma RetainedExample(p: Pair, t: Pair)
    requires !IsTracking(p) && IsTracking(t)
    ensures Retained([p, t]) == [p] && HasTracking([p, t]) && !HasTracking([p])
  {
    hide IsTracking;
    assert [p, t][1..] == [t] && [t][1..] == [] && [p][1..] == [];
    assert [p, t][1] == t;
    assert Retained([t]) == [];
  }

  lemma ExamplePairs(q: ByteString, r: ByteString)
    requires q == [0x71, EQUALS, PERCENT, 0x32, 0x30] && r == [0x72, 0x65, 0x66]
    ensures Parse(q) == [Pair([0x71], [SPACE])]
    ensures Parse(q + [AMPERSAND] + r) == [Pair([0x71], [SPACE]), Pair(r, [])]
  {
    EscapedPair();
    RefPair(r);
    hide *;
    ParseStep(q, r);
    ParseStep(r, []);
  }

  lemma EscapedPair()
    ensures ParsePair([0x71, EQUALS, PERCENT, 0x32, 0x30]) == Pair([0x71], [SPACE])
  {
    EscapedSpace();
    ShortDecode(0x71);
    hide *;
    var q: ByteString := [0x71, EQUALS, PERCENT, 0x32, 0x30];
    assert q == [0x71] + [EQUALS] + [PERCENT, 0x32, 0x30];
    PlainIsEncoded();
    ParseNameValue([0x71], [PERCENT, 0x32, 0x30]);
  }

  lemma PlainIsEncoded()
    ensures IsEncoded([0x71])
  {
  }

  lemma RefDecodes()
    ensures Decode([0x72, 0x65, 0x66]) == [0x72, 0x65, 0x66]
  {
    var s: ByteString := [0x72, 0x65, 0x66];
    ReplacePlusKeeps(s);
    assert s[1..] == [0x65, 0x66] && s[1..][1..] == [0x66] && s[1..][1..][1..] == [];
    assert PercentDecode(s) == s;
    AsciiValid(s);
    LossyKeepsValid(s);
  }

  lemma RefPair(r: ByteString)
    requires r == [0x72, 0x65, 0x66]
    ensures ParsePair(r) == Pair(r, [])
  {
    IndexOfFirst(r, EQUALS, []);
    assert r + [] == r && r[..3] == r;
    RefDecodes();
    EscapedSpace();
    hide Decode, IndexOf;
  }

  lemma ExampleNotTracking()
    ensures !IsTracking(Pair([0x71], [SPACE]))
  {
    forall k | 0 <= k < |TRACKING_QUERY_PARAMS|
      ensures |Ascii(TRACKING_QUERY_PARAMS[k])| != 1
    {
    }
  }

  lemma ExampleSerialized()
    ensures Serialize([Pair([0x71], [SPACE])]) == [0x71, EQUALS, PLUS]
  {
    var a: ByteString, b: ByteString := [0x71], [SPACE];
    assert a[1..] == [] && b[1..] == [];
    assert ByteSerialize(a) == [0x71] && ByteSerialize(b) == [PLUS];
  }
}
