/**
 Tags byte by byte: what an opening tag, a closing tag and a quoted attribute value
 look like in a text, and that recognition finds exactly these.
 */
module TagText {
  import opened Wrappers
  import opened Bytes
  import opened Tags

  /** The five bytes that may separate: space, tab, newline, form feed, carriage return. */
  const SEPARATORS: set<Byte> := {0x20, 0x09, 0x0A, 0x0C, 0x0D}

  predicate IsLowerName(name: string) {
    name != "" && forall i :: 0 <= i < |name| ==> 'a' <= name[i] <= 'z'
  }

  /** `t` has the letters of `name` from `k` on, small or capital. */
  ghost predicate Spells(t: ByteString, k: nat, name: string) {
    k + |name| <= |t| &&
    forall i :: 0 <= i < |name| ==>
      t[k + i] as int == name[i] as int || t[k + i] as int == name[i] as int - 32
  }

  /** `<name` at `i`, and behind it a separator, `>` or `/`. */
  ghost predicate OpenAt(t: ByteString, i: nat, name: string) {
    var end := i + 1 + |name|;
    && end < |t| && t[i] == 0x3C && Spells(t, i + 1, name)
    && (t[end] in SEPARATORS || t[end] == 0x3E || t[end] == 0x2F)
  }

  /** `t[j..p]` is `</name`, separators, `>`. */
  ghost predicate CloseAt(t: ByteString, j: nat, p: nat, name: string) {
    var after := j + 2 + |name|;
    && after < p <= |t| && t[j] == 0x3C && t[j + 1] == 0x2F && Spells(t, j + 2, name)
    && t[p - 1] == 0x3E && forall k :: after <= k < p - 1 ==> t[k] in SEPARATORS
  }

  // ---- recognition is this text ----

  lemma SpellsMeans(t: ByteString, k: nat, name: string)
    requires IsLowerName(name)
    ensures NameAt(t, k, Ascii(name)) <==> Spells(t, k, name)
  {
    if k + |name| <= |t| {
      forall i | 0 <= i < |name|
        ensures ToLower(t[k + i]) == Ascii(name)[i] <==>
                t[k + i] as int == name[i] as int || t[k + i] as int == name[i] as int - 32
      {
        AsciiAt(name, i);
      }
      hide ToLower;
    }
  }

  lemma SeparatorMeans(b: Byte)
    ensures IsAsciiWhitespace(b) <==> b in SEPARATORS
  {
  }

  lemma OpenMeans(t: ByteString, i: nat, name: string)
    requires IsLowerName(name) && i <= |t|
    ensures IsOpen(t[i..], Ascii(name)) <==> OpenAt(t, i, name)
  {
    SpellsMeans(t, i + 1, name);
    NameAtSuffix(t, i, 1, Ascii(name));
    var end := i + 1 + |name|;
    if end < |t| {
      SeparatorMeans(t[end]);
      assert t[i..][1 + |name|] == t[end] && t[i..][0] == t[i];
    }
    hide NameAt, Spells, IsLowerName, IsAsciiWhitespace;
  }

  lemma CloseFound(t: ByteString, j: nat, p: nat, name: string)
    requires IsLowerName(name) && CloseAt(t, j, p, name)
    ensures CloseLen(t[j..], Ascii(name)) == Some(p - j)
  {
    hide *;
    CloseParts(t, j, p, name);
    SpellsMeans(t, j + 2, name);
    NameAtSuffix(t, j, 2, Ascii(name));
    var after := j + 2 + |name|;
    SeparatorsLen(t, after, p - 1);
    var u := t[j..];
    assert u[2 + |name|..] == t[after..];
    assert u[0] == t[j] && u[1] == t[j + 1] && u[p - 1 - j] == t[p - 1];
    CloseLenIs(u, Ascii(name), p - 1 - after);
  }

  lemma CloseParts(t: ByteString, j: nat, p: nat, name: string)
    requires CloseAt(t, j, p, name)
    ensures var after := j + 2 + |name|;
            && after < p <= |t| && t[j] == 0x3C && t[j + 1] == 0x2F && Spells(t, j + 2, name)
            && t[p - 1] == 0x3E && forall k :: after <= k < p - 1 ==> t[k] in SEPARATORS
  {
    hide Spells;
  }

  lemma CloseLenIs(u: ByteString, name: ByteString, n: nat)
    requires var after := 2 + |name|;
             && after + n < |u| && u[0] == 0x3C && u[1] == 0x2F && NameAt(u, 2, name)
             && WhitespaceLen(u[after..]) == n && u[after + n] == 0x3E
    ensures CloseLen(u, name) == Some(3 + |name| + n)
  {
    hide NameAt, WhitespaceLen;
  }

  lemma SeparatorsLen(t: ByteString, after: nat, end: nat)
    requires after <= end < |t| && t[end] == 0x3E && forall k :: after <= k < end ==> t[k] in SEPARATORS
    ensures WhitespaceLen(t[after..]) == end - after
  {
    var w := t[after..];
    forall k | 0 <= k < end - after ensures IsAsciiWhitespace(w[k]) {
      assert w[k] == t[after + k];
      SeparatorMeans(t[after + k]);
    }
    assert w[end - after] == t[end];
    WhitespaceLenIs(w, end - after);
  }

  lemma CloseIsText(t: ByteString, j: nat, p: nat, name: string)
    requires IsLowerName(name) && j <= p <= |t| && CloseLen(t[j..], Ascii(name)) == Some(p - j)
    ensures CloseAt(t, j, p, name)
  {
    SpellsMeans(t, j + 2, name);
    NameAtSuffix(t, j, 2, Ascii(name));
    var after := j + 2 + |name|;
    var u := t[j..];
    var w := u[2 + |name|..];
    assert u[0] == t[j] && u[1] == t[j + 1];
    assert p == after + WhitespaceLen(w) + 1 && u[p - 1 - j] == t[p - 1];
    forall k | after <= k < p - 1 ensures t[k] in SEPARATORS {
      assert w[k - after] == t[k];
      SeparatorMeans(t[k]);
    }
    hide NameAt, Spells, IsLowerName, IsAsciiWhitespace;
  }

  lemma CloseMeans(t: ByteString, j: nat, p: nat, name: string)
    requires IsLowerName(name)
    ensures CloseAt(t, j, p, name) <==> j <= p <= |t| && CloseLen(t[j..], Ascii(name)) == Some(p - j)
  {
    if CloseAt(t, j, p, name) {
      CloseFound(t, j, p, name);
    }
    if j <= p <= |t| && CloseLen(t[j..], Ascii(name)) == Some(p - j) {
      CloseIsText(t, j, p, name);
    }
  }

  lemma NamesSpelt()
    ensures Ascii("span") == SPAN_NAME && Ascii("pre") == PRE_NAME
  {
    forall i | 0 <= i < 4 ensures Ascii("span")[i] == SPAN_NAME[i] {
      AsciiAt("span", i);
    }
    forall i | 0 <= i < 3 ensures Ascii("pre")[i] == PRE_NAME[i] {
      AsciiAt("pre", i);
    }
  }

  // ---- what quotes do ----

  /** Outside quotes only quotes and `>` matter. */
  lemma {:induction false} TagEndSkips(u: ByteString, s: ByteString)
    requires forall k :: 0 <= k < |u| ==> u[k] != 0x27 && u[k] != 0x22 && u[k] != 0x3E
    ensures TagEnd(Neutral, u + s) == Moved(TagEnd(Neutral, s), |u|)
    decreases |u|
  {
    if u == [] {
      assert u + s == s;
    } else {
      assert (u + s)[1..] == u[1..] + s && (u + s)[0] == u[0];
      TagEndSkips(u[1..], s);
    }
  }

  function Inside(quote: Byte): Quote {
    if quote == 0x27 then Single else Double
  }

  /** Inside quotes only the same quote matters. */
  lemma {:induction false} TagEndSkipsValue(quote: Byte, v: ByteString, s: ByteString)
    requires (quote == 0x27 || quote == 0x22) && quote !in v
    ensures TagEnd(Inside(quote), v + s) == Moved(TagEnd(Inside(quote), s), |v|)
    decreases |v|
  {
    if v == [] {
      assert v + s == s;
    } else {
      assert (v + s)[1..] == v[1..] + s && (v + s)[0] == v[0] && v[0] != quote;
      TagEndSkipsValue(quote, v[1..], s);
    }
  }

  lemma TagEndAtQuote(quote: Byte, s: ByteString)
    requires quote == 0x27 || quote == 0x22
    ensures TagEnd(Neutral, [quote] + s) == Moved(TagEnd(Inside(quote), s), 1)
    ensures TagEnd(Inside(quote), [quote] + s) == Moved(TagEnd(Neutral, s), 1)
    ensures TagEnd(Inside(quote), []) == None
  {
    ConsParts(quote, s);
  }

  /** A tag without quotes ends at its first `>`. */
  lemma UnquotedTagEnd(u: ByteString, rest: ByteString)
    requires forall k :: 0 <= k < |u| ==> u[k] != 0x27 && u[k] != 0x22 && u[k] != 0x3E
    ensures TagEnd(Neutral, u) == None
    ensures TagEnd(Neutral, u + [0x3E] + rest) == Some(|u|)
  {
    TagEndSkips(u, []);
    assert u + [] == u;
    TagEndSkips(u, [0x3E] + rest);
    assert u + [0x3E] + rest == u + ([0x3E] + rest);
  }

  /** A value that is not closed swallows the end of the tag. */
  lemma OpenQuoteTagEnd(u: ByteString, quote: Byte, v: ByteString)
    requires forall k :: 0 <= k < |u| ==> u[k] != 0x27 && u[k] != 0x22 && u[k] != 0x3E
    requires (quote == 0x27 || quote == 0x22) && quote !in v
    ensures TagEnd(Neutral, u + [quote] + v) == None
  {
    hide *;
    TagEndSkips(u, [quote] + v);
    TagEndAtQuote(quote, v);
    TagEndSkipsValue(quote, v, []);
    assert u + [quote] + v == u + ([quote] + v) && v + [] == v;
    NothingMoved(|v|);
    NothingMoved(1);
    NothingMoved(|u|);
  }

  lemma NothingMoved(n: nat)
    ensures Moved(None, n) == None
  {
  }

  lemma Regroup(u: ByteString, q: ByteString, v: ByteString, rest: ByteString)
    ensures u + q + v + q + rest == u + (q + (v + (q + rest)))
  {
  }

  /** A closed value, whatever it holds, is passed over: the tag ends where the rest of it ends. */
  lemma QuotedTagEnd(u: ByteString, quote: Byte, v: ByteString, rest: ByteString)
    requires forall k :: 0 <= k < |u| ==> u[k] != 0x27 && u[k] != 0x22 && u[k] != 0x3E
    requires (quote == 0x27 || quote == 0x22) && quote !in v
    ensures TagEnd(Neutral, u + [quote] + v + [quote] + rest) ==
            Moved(TagEnd(Neutral, rest), |u| + |v| + 2)
  {
    hide *;
    var tail := v + ([quote] + rest);
    TagEndSkips(u, [quote] + tail);
    TagEndAtQuote(quote, tail);
    TagEndSkipsValue(quote, v, [quote] + rest);
    TagEndAtQuote(quote, rest);
    Regroup(u, [quote], v, rest);
    MovedTwice(TagEnd(Neutral, rest), 1, |v|);
    MovedTwice(TagEnd(Neutral, rest), 1 + |v|, 1);
    MovedTwice(TagEnd(Neutral, rest), 2 + |v|, |u|);
  }
}
