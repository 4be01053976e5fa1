/**
 src/engines/duckduckgo.rs:107-188: the upstream search URL, and the validated
 request it is built from.
 */
module DuckDuckGo {
  import opened Wrappers
  import opened Bytes
  import opened Utf8
  import opened FormUrlencoded

  const SUPPORTED_LANGUAGES: seq<ByteString> := [EN, DE, FR, ES]

  const EN: ByteString := [0x65, 0x6E]
  const DE: ByteString := [0x64, 0x65]
  const FR: ByteString := [0x66, 0x72]
  const ES: ByteString := [0x65, 0x73]
  const US_EN: ByteString := [0x75, 0x73, 0x2D, 0x65, 0x6E]
  const DE_DE: ByteString := [0x64, 0x65, 0x2D, 0x64, 0x65]
  const FR_FR: ByteString := [0x66, 0x72, 0x2D, 0x66, 0x72]
  const ES_ES: ByteString := [0x65, 0x73, 0x2D, 0x65, 0x73]

  const Q: ByteString := [0x71]
  const S: ByteString := [0x73]
  const KL: ByteString := [0x6B, 0x6C]
  const KP: ByteString := [0x6B, 0x70]

  /** `ddg_region_for_language`. */
  function RegionForLanguage(lang: ByteString): Option<ByteString> {
    if lang == EN then Some(US_EN)
    else if lang == DE then Some(DE_DE)
    else if lang == FR then Some(FR_FR)
    else if lang == ES then Some(ES_ES)
    else None
  }

  /** `ddg_kp_for_safe_search`: `-2` off, `-1` moderate, `1` anything stricter. */
  function KpForSafeSearch(level: nat): ByteString {
    if level == 0 then [0x2D, 0x32] else if level == 1 then [0x2D, 0x31] else [0x31]
  }

  /** Decimal digits of a number, as `format!("{}")` writes them. */
  function Decimal(n: nat): ByteString {
    if n < 10 then [(0x30 + n) as Byte] else Decimal(n / 10) + [(0x30 + n % 10) as Byte]
  }

  datatype SearchRequest = SearchRequest(query: ByteString, page: nat, safeSearch: nat, language: Option<ByteString>)

  /** What both gateways let through to the engine. */
  ghost predicate IsValid(r: SearchRequest) {
    && ValidUtf8(r.query)
    && 1 <= r.page <= 50
    && r.safeSearch <= 2
    && (r.language.Some? ==> r.language.value in SUPPORTED_LANGUAGES)
  }

  function Offset(page: nat): nat
    requires page <= 50
  {
    (if page == 0 then 0 else page - 1) * 20
  }

  function Region(language: Option<ByteString>): Option<ByteString> {
    if language.Some? then RegionForLanguage(language.value) else None
  }

  /** The parameters sent upstream. */
  function SearchPairs(query: ByteString, offset: nat, language: Option<ByteString>, safeSearch: nat): seq<Pair> {
    var region := Region(language);
    [Pair(Q, query), Pair(S, Decimal(offset))]
    + (if region.Some? then [Pair(KL, region.value)] else [])
    + [Pair(KP, KpForSafeSearch(safeSearch))]
  }

  const QUESTION_MARK: Byte := 0x3F

  /** The source appends to a string; only the query text is encoded. */
  method BuildSearchUrl(base: ByteString, query: ByteString, offset: nat, language: Option<ByteString>, safeSearch: nat)
    returns (url: ByteString)
    ensures url == base + [QUESTION_MARK] + Serialize(SearchPairs(query, offset, language, safeSearch))
  {
    var encoded := ByteSerialize(query);
    var q := Q + [EQUALS] + encoded + [AMPERSAND] + S + [EQUALS] + Decimal(offset);
    var region := Region(language);
    if region.Some? {
      q := q + ([AMPERSAND] + KL + [EQUALS]);
      q := q + region.value;
    }
    q := q + ([AMPERSAND] + KP + [EQUALS]);
    q := q + KpForSafeSearch(safeSearch);
    SearchQueryIsSerialized(query, offset, language, safeSearch, q);
    url := base + [QUESTION_MARK] + q;
  }

  // ---- only the query text needs encoding ----

  predicate IsPlain(s: ByteString) {
    forall k :: 0 <= k < |s| ==> IsUnreserved(s[k])
  }

  lemma {:induction false} PlainIsSerialized(s: ByteString)
    requires IsPlain(s)
    ensures ByteSerialize(s) == s
    decreases |s|
  {
    if s != [] {
      PlainIsSerialized(s[1..]);
      assert EncodeByte(s[0]) == [s[0]];
    }
  }

  lemma {:induction false} DecimalIsPlain(n: nat)
    ensures IsPlain(Decimal(n)) && Decimal(n) != []
    ensures forall k :: 0 <= k < |Decimal(n)| ==> Decimal(n)[k] < 0x80
    decreases n
  {
    if n >= 10 {
      DecimalIsPlain(n / 10);
    }
  }

  lemma ParametersArePlain(offset: nat, language: Option<ByteString>, safeSearch: nat)
    ensures ByteSerialize(Q) == Q && ByteSerialize(S) == S && ByteSerialize(KL) == KL && ByteSerialize(KP) == KP
    ensures ByteSerialize(Decimal(offset)) == Decimal(offset)
    ensures Region(language).Some? ==> ByteSerialize(Region(language).value) == Region(language).value
    ensures ByteSerialize(KpForSafeSearch(safeSearch)) == KpForSafeSearch(safeSearch)
  {
    DecimalIsPlain(offset);
    hide ByteSerialize, Decimal;
    PlainIsSerialized(Q);
    PlainIsSerialized(S);
    PlainIsSerialized(KL);
    PlainIsSerialized(KP);
    PlainIsSerialized(Decimal(offset));
    if Region(language).Some? {
      PlainIsSerialized(Region(language).value);
    }
    PlainIsSerialized(KpForSafeSearch(safeSearch));
  }

  lemma SerializeThree(a: Pair, b: Pair, c: Pair)
    ensures Serialize([a, b, c]) ==
            SerializePair(a) + [AMPERSAND] + SerializePair(b) + [AMPERSAND] + SerializePair(c)
  {
    hide SerializePair;
    assert [a, b, c][1..] == [b, c] && [b, c][1..] == [c];
    assert Serialize([c]) == SerializePair(c);
    assert Serialize([b, c]) == SerializePair(b) + [AMPERSAND] + SerializePair(c);
    Assoc(SerializePair(a) + [AMPERSAND], SerializePair(b) + [AMPERSAND], SerializePair(c));
    Assoc(SerializePair(a) + [AMPERSAND], SerializePair(b), [AMPERSAND]);
  }

  lemma SerializeFour(a: Pair, b: Pair, c: Pair, d: Pair)
    ensures Serialize([a, b, c, d]) ==
            SerializePair(a) + [AMPERSAND] + SerializePair(b) + [AMPERSAND]
            + SerializePair(c) + [AMPERSAND] + SerializePair(d)
  {
    hide SerializePair;
    assert [a, b, c, d][1..] == [b, c, d];
    SerializeThree(b, c, d);
    var x := SerializePair(a) + [AMPERSAND];
    var y := SerializePair(b) + [AMPERSAND] + SerializePair(c) + [AMPERSAND];
    assert Serialize([a, b, c, d]) == x + (y + SerializePair(d));
    Assoc(x, y, SerializePair(d));
    Assoc(x, SerializePair(b) + [AMPERSAND] + SerializePair(c), [AMPERSAND]);
    Assoc(x, SerializePair(b) + [AMPERSAND], SerializePair(c));
    Assoc(x, SerializePair(b), [AMPERSAND]);
  }

  /** Appending a name, `=` and a value piece by piece appends the pair. */
  lemma AppendPair(x: ByteString, n: ByteString, v: ByteString)
    ensures x + n + [EQUALS] + v == x + (n + [EQUALS] + v)
  {
  }

  lemma AppendNextPair(x: ByteString, n: ByteString, v: ByteString)
    ensures x + ([AMPERSAND] + n + [EQUALS]) + v == x + [AMPERSAND] + (n + [EQUALS] + v)
  {
  }

  lemma SearchQueryIsSerialized(
      query: ByteString, offset: nat, language: Option<ByteString>, safeSearch: nat, q: ByteString)
    requires var region := Region(language);
             q == Q + [EQUALS] + ByteSerialize(query) + [AMPERSAND] + S + [EQUALS] + Decimal(offset)
                  + (if region.Some? then [AMPERSAND] + KL + [EQUALS] else [])
                  + (if region.Some? then region.value else [])
                  + ([AMPERSAND] + KP + [EQUALS]) + KpForSafeSearch(safeSearch)
    ensures q == Serialize(SearchPairs(query, offset, language, safeSearch))
  {
    ParametersArePlain(offset, language, safeSearch);
    hide ByteSerialize, Decimal, Serialize, Region, KpForSafeSearch;
    var a, b, d := Pair(Q, query), Pair(S, Decimal(offset)), Pair(KP, KpForSafeSearch(safeSearch));
    var region := Region(language);
    var x := SerializePair(a) + [AMPERSAND];
    AppendPair(x, S, Decimal(offset));
    var y := x + SerializePair(b);
    if region.Some? {
      var c := Pair(KL, region.value);
      assert SearchPairs(query, offset, language, safeSearch) == [a, b, c, d];
      AppendNextPair(y, KL, region.value);
      AppendNextPair(y + [AMPERSAND] + SerializePair(c), KP, KpForSafeSearch(safeSearch));
      SerializeFour(a, b, c, d);
    } else {
      assert SearchPairs(query, offset, language, safeSearch) == [a, b, d];
      assert y + [] + [] == y;
      AppendNextPair(y, KP, KpForSafeSearch(safeSearch));
      SerializeThree(a, b, d);
    }
  }

  // ---- the URL decodes back ----

  lemma TextPair(n: ByteString, v: ByteString)
    requires ValidUtf8(n) && ValidUtf8(v)
    ensures AreText([Pair(n, v)])
  {
    hide ValidUtf8;
  }

  lemma TextConcat(a: seq<Pair>, b: seq<Pair>)
    requires AreText(a) && AreText(b)
    ensures AreText(a + b)
  {
    hide IsText;
  }

  lemma ParametersAreText(query: ByteString, offset: nat, safeSearch: nat)
    requires ValidUtf8(query)
    ensures AreText([Pair(Q, query), Pair(S, Decimal(offset))])
    ensures AreText([Pair(KP, KpForSafeSearch(safeSearch))])
  {
    AsciiValid(Q);
    AsciiValid(S);
    AsciiValid(KP);
    DecimalIsPlain(offset);
    AsciiValid(Decimal(offset));
    AsciiValid(KpForSafeSearch(safeSearch));
    hide *;
    TextPair(Q, query);
    TextPair(S, Decimal(offset));
    TextPair(KP, KpForSafeSearch(safeSearch));
    TextConcat([Pair(Q, query)], [Pair(S, Decimal(offset))]);
    assert [Pair(Q, query)] + [Pair(S, Decimal(offset))] == [Pair(Q, query), Pair(S, Decimal(offset))];
  }

  lemma RegionIsText(language: Option<ByteString>)
    ensures AreText(if Region(language).Some? then [Pair(KL, Region(language).value)] else [])
  {
    AsciiValid(KL);
    if Region(language).Some? {
      AsciiValid(Region(language).value);
      TextPair(KL, Region(language).value);
    }
    NoText();
    hide AreText, ValidUtf8;
  }

  lemma SearchPairsAreText(query: ByteString, offset: nat, language: Option<ByteString>, safeSearch: nat)
    requires ValidUtf8(query)
    ensures AreText(SearchPairs(query, offset, language, safeSearch))
  {
    ParametersAreText(query, offset, safeSearch);
    RegionIsText(language);
    hide AreText, ValidUtf8, Decimal, KpForSafeSearch, Region;
    var start := [Pair(Q, query), Pair(S, Decimal(offset))];
    var middle := if Region(language).Some? then [Pair(KL, Region(language).value)] else [];
    TextConcat(start, middle);
    TextConcat(start + middle, [Pair(KP, KpForSafeSearch(safeSearch))]);
  }

  /** Form-parsing the built query yields exactly the parameters, for every query text. */
  lemma SearchQueryDecodes(query: ByteString, offset: nat, language: Option<ByteString>, safeSearch: nat)
    requires ValidUtf8(query)
    ensures Parse(Serialize(SearchPairs(query, offset, language, safeSearch)))
         == SearchPairs(query, offset, language, safeSearch)
  {
    SearchPairsAreText(query, offset, language, safeSearch);
    ParseSerialized(SearchPairs(query, offset, language, safeSearch));
  }

  lemma {:induction false} DecimalInjective(m: nat, n: nat)
    requires Decimal(m) == Decimal(n)
    ensures m == n
    decreases m
  {
    var a, b := Decimal(m), Decimal(n);
    if m >= 10 && n >= 10 {
      assert a[..|a| - 1] == Decimal(m / 10) && b[..|b| - 1] == Decimal(n / 10);
      assert a[|a| - 1] == (0x30 + m % 10) as Byte && b[|b| - 1] == (0x30 + n % 10) as Byte;
      DecimalInjective(m / 10, n / 10);
    } else if m >= 10 {
      DecimalIsPlain(m / 10);
    } else if n >= 10 {
      DecimalIsPlain(n / 10);
    }
  }

  /** The query part of the URL that a request is sent to. */
  function UpstreamQuery(r: SearchRequest): ByteString
    requires r.page <= 50
  {
    Serialize(SearchPairs(r.query, Offset(r.page), r.language, r.safeSearch))
  }

  /** Distinct validated requests go to distinct upstream URLs. */
  lemma UpstreamUrlsAreDistinct(r: SearchRequest, r': SearchRequest)
    requires IsValid(r) && IsValid(r') && UpstreamQuery(r) == UpstreamQuery(r')
    ensures r == r'
  {
    var p := SearchPairs(r.query, Offset(r.page), r.language, r.safeSearch);
    var p' := SearchPairs(r'.query, Offset(r'.page), r'.language, r'.safeSearch);
    SearchPairsFields(r);
    SearchPairsFields(r');
    hide Parse, Serialize, ValidUtf8, Decimal, SearchPairs, KpForSafeSearch;
    SearchQueryDecodes(r.query, Offset(r.page), r.language, r.safeSearch);
    SearchQueryDecodes(r'.query, Offset(r'.page), r'.language, r'.safeSearch);
    assert p == p';
    DecimalInjective(Offset(r.page), Offset(r'.page));
    KpInjective(r.safeSearch, r'.safeSearch);
    RegionInjective(r.language, r'.language, p, p');
  }

  lemma SearchPairsFields(r: SearchRequest)
    requires IsValid(r)
    ensures var p := SearchPairs(r.query, Offset(r.page), r.language, r.safeSearch); var n := |p|;
            && n == (if r.language.Some? then 4 else 3)
            && p[0] == Pair(Q, r.query) && p[1] == Pair(S, Decimal(Offset(r.page)))
            && p[n - 1] == Pair(KP, KpForSafeSearch(r.safeSearch))
            && (r.language.Some? ==> Region(r.language).Some? && p[2] == Pair(KL, Region(r.language).value))
  {
    hide Decimal, KpForSafeSearch, ValidUtf8;
  }

  lemma KpInjective(a: nat, b: nat)
    requires a <= 2 && b <= 2 && KpForSafeSearch(a) == KpForSafeSearch(b)
    ensures a == b
  {
    var x, y := KpForSafeSearch(a), KpForSafeSearch(b);
    assert |x| == |y| && x[|x| - 1] == y[|y| - 1];
  }

  lemma RegionInjective(l: Option<ByteString>, l': Option<ByteString>, p: seq<Pair>, p': seq<Pair>)
    requires l.Some? ==> l.value in SUPPORTED_LANGUAGES
    requires l'.Some? ==> l'.value in SUPPORTED_LANGUAGES
    requires p == p' && |p| >= 3 && |p'| >= 3
    requires l.Some? <==> |p| == 4
    requires l'.Some? <==> |p'| == 4
    requires l.Some? ==> p[2] == Pair(KL, Region(l).value)
    requires l'.Some? ==> p'[2] == Pair(KL, Region(l').value)
    ensures l == l'
  {
    if l.Some? {
      assert Region(l).value[0] == Region(l').value[0];
    }
  }

  // ---- the page and level a client asks for ----

  /**
   A `page` or level argument as the client writes it. `Integer` is a decimal
   integer; `Other` is whatever else there is: a fraction or an exponent, `-0`, a
   string, a null.
   */
  datatype Argument = Missing | Integer(n: int) | Other

  /** `as_u64` of a JSON value: integers past 64 bits have been read as floats. */
  function AsU64(a: Argument): Option<nat> {
    if a.Integer? && 0 <= a.n < 0x1_0000_0000_0000_0000 then Some(a.n) else None
  }

  function InRange(v: nat, low: nat, high: nat): Option<nat> {
    if low <= v <= high then Some(v) else None
  }

  /** `as_u64().unwrap_or(1) as u32`, then the range check. */
  function McpPage(a: Argument): Option<nat> {
    InRange((if AsU64(a).Some? then AsU64(a).value else 1) % 0x1_0000_0000, 1, 50)
  }

  /** `as_u64().unwrap_or(1) as u8`, then the range check. */
  function McpSafeSearch(a: Argument): Option<nat> {
    InRange((if AsU64(a).Some? then AsU64(a).value else 1) % 0x100, 0, 2)
  }

  /** A query parameter of type `u32` or `u8`, of which `limit` is the first value too large. */
  function HttpNumber(a: Argument, default: nat, limit: nat): Option<nat> {
    match a
    case Missing => Some(default)
    case Integer(n) => if 0 <= n < limit then Some(n) else None
    case Other => None
  }

  function HttpPage(a: Argument): Option<nat> {
    var page := HttpNumber(a, 1, 0x1_0000_0000);
    if page.Some? then InRange(page.value, 1, 50) else None
  }

  /** `default` is the configured level, which the configuration check keeps within 2. */
  function HttpSafeSearch(a: Argument, default: nat): Option<nat> {
    var level := HttpNumber(a, default, 0x100);
    if level.Some? then InRange(level.value, 0, 2) else None
  }

  /**
   The MCP gateway checks the low bits of the argument, and takes whatever is no
   unsigned 64-bit integer for its default; the HTTP gateway rejects both what
   does not fit the type and what is no integer.
   */
  lemma McpChecksWrappedValues(a: Argument, default: nat)
    ensures McpPage(a) == HttpPage(a) <==>
              || a.Missing?
              || (a.Integer? && 0 <= a.n < 0x1_0000_0000_0000_0000
                  && (a.n < 0x1_0000_0000 || !(1 <= a.n % 0x1_0000_0000 <= 50)))
    ensures McpSafeSearch(a) == HttpSafeSearch(a, default) <==>
              || (a.Missing? && default == 1)
              || (a.Integer? && 0 <= a.n < 0x1_0000_0000_0000_0000 && (a.n < 0x100 || a.n % 0x100 > 2))
  {
  }

  /** What HTTP rejects and MCP serves: at a wrapped value, and at the default. */
  lemma McpServesWhatHttpRejects(default: nat)
    ensures McpPage(Integer(0x1_0000_0001)) == Some(1) && HttpPage(Integer(0x1_0000_0001)).None?
    ensures McpPage(Integer(0x1_0000_0000_0000_003C)) == Some(1)
            && HttpPage(Integer(0x1_0000_0000_0000_003C)).None?
    ensures McpSafeSearch(Integer(0x100)) == Some(0) && HttpSafeSearch(Integer(0x100), default).None?
    ensures McpSafeSearch(Integer(0x1_0000_0000_0000_0003)) == Some(1)
            && HttpSafeSearch(Integer(0x1_0000_0000_0000_0003), default).None?
    ensures forall a :: a == Other || (a.Integer? && a.n < 0) ==>
              && McpPage(a) == Some(1) && HttpPage(a).None?
              && McpSafeSearch(a) == Some(1) && HttpSafeSearch(a, default).None?
  {
  }

  // ---- the built URL, parameter by parameter ----

  /** The number that decimal digits stand for. */
  function Number(s: ByteString): int {
    if s == [] then 0 else Number(s[..|s| - 1]) * 10 + (s[|s| - 1] as int - 0x30)
  }

  lemma {:induction false} DecimalReads(n: nat)
    ensures Number(Decimal(n)) == n
    decreases n
  {
    var d := Decimal(n);
    if n >= 10 {
      DecimalReads(n / 10);
      assert d[..|d| - 1] == Decimal(n / 10);
    } else {
      assert d[..|d| - 1] == [];
    }
  }

  lemma TwoLetters(s: string)
    requires |s| == 2 && s[0] as int < 256 && s[1] as int < 256
    ensures Ascii(s) == [(s[0] as int) as Byte, (s[1] as int) as Byte]
  {
    AsciiAt(s, 0);
    AsciiAt(s, 1);
    hide Ascii;
  }

  lemma ParameterNames()
    ensures Ascii("q") == Q && Ascii("s") == S && Ascii("kl") == KL && Ascii("kp") == KP
    ensures Ascii("en") == EN && Ascii("de") == DE && Ascii("fr") == FR && Ascii("es") == ES
    ensures Ascii("-2") == [0x2D, 0x32] && Ascii("-1") == [0x2D, 0x31] && Ascii("1") == [0x31]
  {
    AsciiAt("q", 0);
    AsciiAt("s", 0);
    AsciiAt("1", 0);
    TwoLetters("kl");
    TwoLetters("kp");
    TwoLetters("en");
    TwoLetters("de");
    TwoLetters("fr");
    TwoLetters("es");
    TwoLetters("-2");
    TwoLetters("-1");
    hide Ascii;
  }

  lemma FiveLetters(s: string, b: ByteString)
    requires |s| == |b| == 5 && forall i :: 0 <= i < 5 ==> s[i] as int == b[i] as int
    ensures Ascii(s) == b
  {
    forall i | 0 <= i < 5 ensures Ascii(s)[i] == b[i] {
      AsciiAt(s, i);
    }
    hide Ascii;
  }

  lemma RegionNames()
    ensures Ascii("us-en") == US_EN && Ascii("de-de") == DE_DE && Ascii("fr-fr") == FR_FR && Ascii("es-es") == ES_ES
  {
    FiveLetters("us-en", US_EN);
    FiveLetters("de-de", DE_DE);
    FiveLetters("fr-fr", FR_FR);
    FiveLetters("es-es", ES_ES);
    hide Ascii;
  }

  lemma KpReads(level: nat)
    requires level <= 2
    ensures KpForSafeSearch(level) ==
            if level == 0 then Ascii("-2") else if level == 1 then Ascii("-1") else Ascii("1")
  {
    ParameterNames();
    hide Ascii;
  }

  lemma RegionReads(l: ByteString)
    ensures l == Ascii("en") ==> RegionForLanguage(l) == Some(Ascii("us-en"))
    ensures l == Ascii("de") ==> RegionForLanguage(l) == Some(Ascii("de-de"))
    ensures l == Ascii("fr") ==> RegionForLanguage(l) == Some(Ascii("fr-fr"))
    ensures l == Ascii("es") ==> RegionForLanguage(l) == Some(Ascii("es-es"))
  {
    ParameterNames();
    RegionNames();
    hide Ascii;
  }

  /**
   What the upstream reads from the URL of a validated request: the text, the
   offset of the page in steps of 20, the region of the language, and the level.
   */
  lemma UpstreamReads(r: SearchRequest)
    requires IsValid(r)
    ensures var p := Parse(UpstreamQuery(r)); var n := |p|;
            && n == (if r.language.Some? then 4 else 3)
            && p[0] == Pair(Ascii("q"), r.query)
            && p[1].name == Ascii("s") && Number(p[1].value) == (r.page - 1) * 20
            && p[n - 1] == Pair(Ascii("kp"), if r.safeSearch == 0 then Ascii("-2")
                                             else if r.safeSearch == 1 then Ascii("-1") else Ascii("1"))
            && (r.language == Some(Ascii("en")) ==> p[2] == Pair(Ascii("kl"), Ascii("us-en")))
            && (r.language == Some(Ascii("de")) ==> p[2] == Pair(Ascii("kl"), Ascii("de-de")))
            && (r.language == Some(Ascii("fr")) ==> p[2] == Pair(Ascii("kl"), Ascii("fr-fr")))
            && (r.language == Some(Ascii("es")) ==> p[2] == Pair(Ascii("kl"), Ascii("es-es")))
  {
    SearchQueryDecodes(r.query, Offset(r.page), r.language, r.safeSearch);
    SearchPairsFields(r);
    assert r.safeSearch <= 2 && Offset(r.page) == (r.page - 1) * 20;
    assert r.language.Some? ==> Region(r.language) == RegionForLanguage(r.language.value);
    assert UpstreamQuery(r) == Serialize(SearchPairs(r.query, Offset(r.page), r.language, r.safeSearch));
    hide *;
    DecimalReads(Offset(r.page));
    ParameterNames();
    KpReads(r.safeSearch);
    if r.language.Some? {
      RegionReads(r.language.value);
    }
  }
}
