/** Opening tags by position: where one starts, and where a scan inside it finds its end. */
module TagExtent {
  import opened Wrappers
  import opened Bytes
  import opened Utf8
  import opened Tags

  /** Text from `i` opens a `name` tag that ends, as `find_tag_end` delimits it, in the byte before `k`. */
  ghost predicate TagBefore(t: ByteString, i: nat, k: nat, name: ByteString) {
    i < k <= |t| && IsOpen(t[i..], name) && TagEnd(Neutral, t[i..]) == Some(k - 1 - i)
  }

  /** A tag opened at `i` ends where the scan from `pos` in quote state `q` finds its end. */
  ghost predicate Tied(t: ByteString, i: nat, pos: nat, q: Quote, name: ByteString) {
    && i < pos <= |t| && IsOpen(t[i..], name)
    && (TagEnd(q, t[pos..]).Some? ==> TagEnd(Neutral, t[i..]) == Some(pos - i + TagEnd(q, t[pos..]).value))
  }

  lemma TiedStep(t: ByteString, i: nat, pos: nat, q: Quote, name: ByteString)
    requires pos < |t| && Tied(t, i, pos, q, name) && !ClosesTag(q, t[pos..])
    ensures Tied(t, i, pos + 1, StepQuote(q, t[pos]), name)
  {
    hide IsOpen, StepQuote;
    var u := t[pos..];
    assert u[1..] == t[pos + 1..] && u[0] == t[pos];
  }

  lemma TiedOpen(t: ByteString, pos: nat, name: ByteString)
    requires pos < |t| && IsOpen(t[pos..], name)
    ensures Tied(t, pos, pos + 1, Neutral, name)
  {
    var u := t[pos..];
    assert u[1..] == t[pos + 1..] && u[0] == LT;
    hide IsOpen;
  }

  lemma TiedEnd(t: ByteString, i: nat, pos: nat, q: Quote, name: ByteString)
    requires pos < |t| && Tied(t, i, pos, q, name) && ClosesTag(q, t[pos..])
    ensures TagBefore(t, i, pos + 1, name)
  {
    hide IsOpen;
  }

  /** No `name` opening tag of `s`, as `find_tag_end` delimits it, holds a second `<`. */
  ghost predicate CleanTags(s: ByteString, name: ByteString) {
    forall i :: 0 <= i < |s| && IsOpen(s[i..], name) && TagEnd(Neutral, s[i..]).Some? ==>
      forall k :: 1 <= k <= TagEnd(Neutral, s[i..]).value ==> s[i..][k] != LT
  }

  /** Position `pos` is behind the `<` of the `name` tag at `i`, and not behind its `>`. */
  ghost predicate InsideTag(t: ByteString, i: nat, pos: nat, name: ByteString) {
    && i < pos <= |t| && IsOpen(t[i..], name)
    && TagEnd(Neutral, t[i..]).Some? && pos <= i + TagEnd(Neutral, t[i..]).value
  }

  /** How far off the end of the tag at `i` is. */
  function ToEnd(t: ByteString, i: nat, pos: nat, name: ByteString): nat
    requires InsideTag(t, i, pos, name)
  {
    i + TagEnd(Neutral, t[i..]).value - pos
  }

  ghost predicate InsideAny(t: ByteString, pos: nat, name: ByteString) {
    exists i: nat :: InsideTag(t, i, pos, name)
  }

  lemma InsideIsClean(t: ByteString, i: nat, pos: nat, name: ByteString)
    requires CleanTags(t, name) && InsideTag(t, i, pos, name)
    ensures pos < |t| && t[pos] != LT
  {
    hide IsOpen, TagEnd;
    assert t[i..][pos - i] == t[pos];
  }

  lemma TagEndStep(q: Quote, t: ByteString, pos: nat)
    requires pos < |t| && TagEnd(q, t[pos..]).Some?
    ensures var d := TagEnd(q, t[pos..]).value;
            (d == 0 <==> ClosesTag(q, t[pos..]))
            && (d > 0 ==> TagEnd(StepQuote(q, t[pos]), t[pos + 1..]) == Some(d - 1))
  {
    assert t[pos..][1..] == t[pos + 1..] && t[pos..][0] == t[pos];
    hide StepQuote;
  }

  lemma EnterTag(t: ByteString, pos: nat, name: ByteString)
    requires pos < |t| && IsOpen(t[pos..], name) && TagEnd(Neutral, t[pos..]).Some?
    ensures InsideTag(t, pos, pos + 1, name)
    ensures TagEnd(Neutral, t[pos + 1..]) == Some(ToEnd(t, pos, pos + 1, name))
  {
    assert t[pos..][0] == LT && t[pos] == LT;
    TagEndStep(Neutral, t, pos);
    hide IsOpen, TagEnd;
  }

  /** A tag that has just ended was under way one byte before. */
  lemma JustEnded(t: ByteString, i: nat, pos: nat, name: ByteString)
    requires pos < |t| && TagBefore(t, i, pos + 1, name)
    ensures InsideTag(t, i, pos, name) && ToEnd(t, i, pos, name) == 0
  {
    assert t[i..][0] == LT && t[i] == LT;
    assert t[pos] == GT by { assert t[i..][pos - i] == t[pos]; }
    hide IsOpen, TagEnd;
  }

  lemma CloseTagEnds(t: ByteString, name: ByteString)
    requires IsTagName(name) && CloseLen(t, name).Some?
    ensures var c := CloseLen(t, name).value; 0 < c <= |t| && t[0] < 0x80 && t[c - 1] < 0x80
  {
    CloseTagShape(t, name);
  }

  /** A closing tag starts and ends on character boundaries. */
  lemma CloseTagBoundaries(t: ByteString, i: nat, name: ByteString)
    requires ValidUtf8(t) && i <= |t| && IsTagName(name) && CloseLen(t[i..], name).Some?
    ensures var k := i + CloseLen(t[i..], name).value;
            i < k <= |t| && IsCharBoundary(t, i) && IsCharBoundary(t, k)
  {
    hide *;
    var s := t[i..];
    CloseTagEnds(s, name);
    var c := CloseLen(s, name).value;
    assert t[i] == s[0] && t[i + c - 1] == s[c - 1];
    AsciiBoundary(t, i);
    AsciiBoundary(t, i + c - 1);
  }
}
