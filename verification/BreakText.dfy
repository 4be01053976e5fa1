/** Line boundaries byte by byte: the closing tags that end a line, and the text that must not touch them. */
module BreakText {
  import opened Wrappers
  import opened Bytes
  import opened Tags
  import opened TagText
  import opened CodeblockLinebreaks

  const BOUNDARY_NAMES: set<string> := {"div", "p", "tr", "li"}

  /** `t[j..p]` is `</div>`, `</p>`, `</tr>` or `</li>`. */
  ghost predicate BoundaryAt(t: ByteString, j: nat, p: nat) {
    exists name :: name in BOUNDARY_NAMES && CloseAt(t, j, p, name)
  }

  /** At `p` there is text, and neither a separator nor `</`. */
  ghost predicate Touches(t: ByteString, p: nat) {
    p < |t| && t[p] !in SEPARATORS && !(p + 1 < |t| && t[p] == 0x3C && t[p + 1] == 0x2F)
  }

  lemma TouchesMeans(t: ByteString, p: nat)
    requires p <= |t|
    ensures NeedsBreak(t[p..]) <==> Touches(t, p)
  {
    var u := t[p..];
    if p < |t| {
      assert u[0] == t[p];
      SeparatorMeans(t[p]);
      if p + 1 < |t| {
        assert u[1] == t[p + 1];
      }
    }
    hide IsAsciiWhitespace;
  }

  lemma BoundaryNamesSpelt()
    ensures Ascii("div") == DIV_NAME && Ascii("p") == P_NAME && Ascii("tr") == TR_NAME && Ascii("li") == LI_NAME
    ensures IsLowerName("div") && IsLowerName("p") && IsLowerName("tr") && IsLowerName("li")
  {
    forall i | 0 <= i < 3 ensures Ascii("div")[i] == DIV_NAME[i] {
      AsciiAt("div", i);
    }
    AsciiAt("p", 0);
    forall i | 0 <= i < 2 ensures Ascii("tr")[i] == TR_NAME[i] && Ascii("li")[i] == LI_NAME[i] {
      AsciiAt("tr", i);
      AsciiAt("li", i);
    }
  }

  /** Closing tags of names that start differently exclude each other. */
  lemma OtherClose(s: ByteString, name: ByteString, other: ByteString)
    requires name != [] && other != [] && name[0] != other[0] && CloseLen(s, name).Some?
    ensures CloseLen(s, other).None?
  {
    assert ToLower(s[2 + 0]) == name[0];
  }

  /** Whichever of the four matches is the one that is found. */
  lemma BoundaryIsOneOfFour(s: ByteString, c: nat)
    ensures BoundaryCloseLen(s) == Some(c) <==>
            || CloseLen(s, DIV_NAME) == Some(c) || CloseLen(s, P_NAME) == Some(c)
            || CloseLen(s, TR_NAME) == Some(c) || CloseLen(s, LI_NAME) == Some(c)
  {
    if CloseLen(s, DIV_NAME).Some? {
      OtherClose(s, DIV_NAME, P_NAME);
      OtherClose(s, DIV_NAME, TR_NAME);
      OtherClose(s, DIV_NAME, LI_NAME);
    } else if CloseLen(s, P_NAME).Some? {
      OtherClose(s, P_NAME, TR_NAME);
      OtherClose(s, P_NAME, LI_NAME);
    } else if CloseLen(s, TR_NAME).Some? {
      OtherClose(s, TR_NAME, LI_NAME);
    }
    hide CloseLen;
  }

  lemma BoundaryMeans(t: ByteString, j: nat, p: nat)
    ensures BoundaryAt(t, j, p) <==> j <= p <= |t| && BoundaryCloseLen(t[j..]) == Some(p - j)
  {
    BoundaryNamesSpelt();
    CloseMeans(t, j, p, "div");
    CloseMeans(t, j, p, "p");
    CloseMeans(t, j, p, "tr");
    CloseMeans(t, j, p, "li");
    if j <= p <= |t| {
      BoundaryIsOneOfFour(t[j..], p - j);
    }
    hide CloseAt, CloseLen, BoundaryCloseLen, IsLowerName, Ascii;
    assert BoundaryAt(t, j, p) <==>
        CloseAt(t, j, p, "div") || CloseAt(t, j, p, "p") || CloseAt(t, j, p, "tr") || CloseAt(t, j, p, "li") by {
      assert "div" in BOUNDARY_NAMES && "p" in BOUNDARY_NAMES && "tr" in BOUNDARY_NAMES && "li" in BOUNDARY_NAMES;
    }
  }
}
