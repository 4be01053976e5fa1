/**
 The application/x-www-form-urlencoded codec behind `Url::query_pairs`,
 `query_pairs_mut().extend_pairs` and `byte_serialize` (URL Standard, sections
 5.1 and 5.2).
 */
module FormUrlencoded {
  import opened Wrappers
  import opened Bytes
  import opened Utf8

  const AMPERSAND: Byte := 0x26
  const EQUALS: Byte := 0x3D
  const PLUS: Byte := 0x2B
  const PERCENT: Byte := 0x25

  datatype Pair = Pair(name: ByteString, value: ByteString)

  /** First position of `b` in `s`, or its length. */
  function IndexOf(s: ByteString, b: Byte): (n: nat)
    ensures n <= |s|
    ensures forall k :: 0 <= k < n ==> s[k] != b
    ensures n < |s| ==> s[n] == b
  {
    if s == [] || s[0] == b then 0 else 1 + IndexOf(s[1..], b)
  }

  // ---- parsing ----

  function HexValue(b: Byte): Option<Byte> {
    if 0x30 <= b <= 0x39 then Some(b - 0x30)
    else if 0x41 <= b <= 0x46 then Some(b - 0x37)
    else if 0x61 <= b <= 0x66 then Some(b - 0x57)
    else None
  }

  function PlusAsSpace(b: Byte): Byte {
    if b == PLUS then SPACE else b
  }

  /** `+` reads as a space before percent-decoding. */
  function ReplacePlus(s: ByteString): (r: ByteString)
    ensures |r| == |s|
  {
    if s == [] then [] else [PlusAsSpace(s[0])] + ReplacePlus(s[1..])
  }

  function PercentDecode(s: ByteString): ByteString
    decreases |s|
  {
    if s == [] then []
    else if s[0] == PERCENT && |s| >= 3 && HexValue(s[1]).Some? && HexValue(s[2]).Some? then
      var high, low := HexValue(s[1]).value as int, HexValue(s[2]).value as int;
      [((high * 16 + low) % 256) as Byte] + PercentDecode(s[3..])
    else [s[0]] + PercentDecode(s[1..])
  }

  function Decode(s: ByteString): ByteString {
    Lossy(PercentDecode(ReplacePlus(s)))
  }

  /** A non-empty sequence between ampersands, split at its first `=`. */
  function ParsePair(s: ByteString): Pair {
    var k := IndexOf(s, EQUALS);
    Pair(Decode(s[..k]), Decode(if k < |s| then s[k + 1..] else []))
  }

  function Parse(s: ByteString): seq<Pair>
    decreases |s|
  {
    if s == [] then []
    else
      var n := IndexOf(s, AMPERSAND);
      var rest := if n < |s| then Parse(s[n + 1..]) else [];
      if n == 0 then rest else [ParsePair(s[..n])] + rest
  }

  // ---- serializing ----

  function HexDigit(n: Byte): Byte
    requires n < 16
  {
    if n < 10 then 0x30 + n else 0x37 + n
  }

  /** Bytes that stand for themselves: letters, digits and `*-._`. */
  predicate IsUnreserved(b: Byte) {
    0x30 <= b <= 0x39 || 0x41 <= b <= 0x5A || 0x61 <= b <= 0x7A
    || b == 0x2A || b == 0x2D || b == 0x2E || b == 0x5F
  }

  function EncodeByte(b: Byte): ByteString {
    if IsUnreserved(b) then [b]
    else if b == SPACE then [PLUS]
    else [PERCENT, HexDigit(b / 16), HexDigit(b % 16)]
  }

  /** `byte_serialize(s).collect()`. */
  function ByteSerialize(s: ByteString): ByteString {
    if s == [] then [] else EncodeByte(s[0]) + ByteSerialize(s[1..])
  }

  function SerializePair(p: Pair): ByteString {
    ByteSerialize(p.name) + [EQUALS] + ByteSerialize(p.value)
  }

  function Serialize(pairs: seq<Pair>): ByteString {
    if pairs == [] then []
    else if |pairs| == 1 then SerializePair(pairs[0])
    else SerializePair(pairs[0]) + [AMPERSAND] + Serialize(pairs[1..])
  }

  // ---- the codec laws ----

  /** Bytes an encoded name or value may hold. */
  predicate IsEncoded(s: ByteString) {
    forall k :: 0 <= k < |s| ==> s[k] != AMPERSAND && s[k] != EQUALS
  }

  lemma {:induction false} ReplacePlusConcat(s: ByteString, t: ByteString)
    ensures ReplacePlus(s + t) == ReplacePlus(s) + ReplacePlus(t)
    decreases |s|
  {
    if s == [] {
      assert s + t == t;
    } else {
      assert (s + t)[1..] == s[1..] + t && (s + t)[0] == s[0];
      ReplacePlusConcat(s[1..], t);
      Assoc([PlusAsSpace(s[0])], ReplacePlus(s[1..]), ReplacePlus(t));
    }
  }

  lemma {:induction false} ReplacePlusKeeps(s: ByteString)
    requires forall k :: 0 <= k < |s| ==> s[k] != PLUS
    ensures ReplacePlus(s) == s
    decreases |s|
  {
    if s != [] {
      ReplacePlusKeeps(s[1..]);
    }
  }

  lemma HexRoundTrip(b: Byte)
    ensures HexValue(HexDigit(b / 16)) == Some(b / 16) && HexValue(HexDigit(b % 16)) == Some(b % 16)
    ensures (((b / 16) as int * 16 + (b % 16) as int) % 256) as Byte == b
  {
  }

  /** An encoded byte reads back as itself. */
  lemma EncodeByteDecodes(b: Byte, t: ByteString)
    ensures IsEncoded(EncodeByte(b))
    ensures PercentDecode(ReplacePlus(EncodeByte(b)) + t) == [b] + PercentDecode(t)
  {
    var e := EncodeByte(b);
    if b == SPACE {
      assert ReplacePlus(e) == [SPACE] by { assert e[1..] == []; }
      assert ([SPACE] + t)[1..] == t;
    } else if IsUnreserved(b) {
      ReplacePlusKeeps(e);
      assert (e + t)[1..] == t;
    } else {
      ReplacePlusKeeps(e);
      HexRoundTrip(b);
      assert (e + t)[3..] == t;
      assert (e + t)[0] == PERCENT && (e + t)[1] == e[1] && (e + t)[2] == e[2];
    }
  }

  lemma {:induction false} ByteSerializeDecodes(s: ByteString)
    ensures PercentDecode(ReplacePlus(ByteSerialize(s))) == s
    ensures IsEncoded(ByteSerialize(s))
    decreases |s|
  {
    if s != [] {
      var t := ByteSerialize(s[1..]);
      ByteSerializeDecodes(s[1..]);
      ReplacePlusConcat(EncodeByte(s[0]), t);
      EncodeByteDecodes(s[0], ReplacePlus(t));
      hide EncodeByte, PercentDecode, ReplacePlus;
      assert s == [s[0]] + s[1..];
    }
  }

  /** Decoding undoes serializing, on valid UTF-8. */
  lemma DecodeSerialized(s: ByteString)
    requires ValidUtf8(s)
    ensures Decode(ByteSerialize(s)) == s
  {
    ByteSerializeDecodes(s);
    LossyKeepsValid(s);
  }

  lemma {:induction false} IndexOfFirst(u: ByteString, b: Byte, t: ByteString)
    requires forall k :: 0 <= k < |u| ==> u[k] != b
    requires t == [] || t[0] == b
    ensures IndexOf(u + t, b) == |u|
    decreases |u|
  {
    if u == [] {
      assert u + t == t;
    } else {
      assert (u + t)[1..] == u[1..] + t && (u + t)[0] == u[0];
      IndexOfFirst(u[1..], b, t);
    }
  }

  ghost predicate IsText(p: Pair) {
    ValidUtf8(p.name) && ValidUtf8(p.value)
  }

  ghost predicate AreText(pairs: seq<Pair>) {
    forall k :: 0 <= k < |pairs| ==> IsText(pairs[k])
  }

  lemma EncodedHasNoAmpersand(n: ByteString, v: ByteString)
    requires IsEncoded(n) && IsEncoded(v)
    ensures forall k :: 0 <= k < |n + [EQUALS] + v| ==> (n + [EQUALS] + v)[k] != AMPERSAND
  {
  }

  lemma ParsePairSerialized(p: Pair)
    requires IsText(p)
    ensures ParsePair(SerializePair(p)) == p
    ensures forall k :: 0 <= k < |SerializePair(p)| ==> SerializePair(p)[k] != AMPERSAND
    ensures SerializePair(p) != []
  {
    var n, v := ByteSerialize(p.name), ByteSerialize(p.value);
    assert SerializePair(p) == n + [EQUALS] + v;
    assert ValidUtf8(p.name) && ValidUtf8(p.value);
    hide *;
    ByteSerializeDecodes(p.name);
    ByteSerializeDecodes(p.value);
    DecodeSerialized(p.name);
    DecodeSerialized(p.value);
    EncodedHasNoAmpersand(n, v);
    ParseNameValue(n, v);
  }

  lemma ParseNameValue(n: ByteString, v: ByteString)
    requires IsEncoded(n)
    ensures ParsePair(n + [EQUALS] + v) == Pair(Decode(n), Decode(v))
  {
    hide Decode, IndexOf;
    var s := n + [EQUALS] + v;
    assert s == n + ([EQUALS] + v);
    IndexOfFirst(n, EQUALS, [EQUALS] + v);
    assert s[..|n|] == n && s[|n| + 1..] == v;
  }

  lemma ParseStep(seg: ByteString, rest: ByteString)
    requires seg != [] && forall k :: 0 <= k < |seg| ==> seg[k] != AMPERSAND
    ensures Parse(seg) == [ParsePair(seg)]
    ensures Parse(seg + [AMPERSAND] + rest) == [ParsePair(seg)] + Parse(rest)
  {
    IndexOfFirst(seg, AMPERSAND, []);
    assert seg + [] == seg && seg[..|seg|] == seg;
    var s := seg + [AMPERSAND] + rest;
    assert s == seg + ([AMPERSAND] + rest);
    IndexOfFirst(seg, AMPERSAND, [AMPERSAND] + rest);
    hide ParsePair, IndexOf;
    assert s[..|seg|] == seg && s[|seg| + 1..] == rest;
  }

  /** Parsing undoes serializing, on every list of pairs of strings. */
  lemma {:induction false} ParseSerialized(pairs: seq<Pair>)
    requires AreText(pairs)
    ensures Parse(Serialize(pairs)) == pairs
    decreases |pairs|
  {
    if pairs != [] {
      ParsePairSerialized(pairs[0]);
      ParseSerialized(pairs[1..]);
      ParseStep(SerializePair(pairs[0]), Serialize(pairs[1..]));
      hide Parse, SerializePair, ParsePair, IsText;
      assert pairs == [pairs[0]] + pairs[1..];
    }
  }

  lemma ParseUnfold(s: ByteString)
    requires s != []
    ensures IndexOf(s, AMPERSAND) == 0 ==> Parse(s) == Parse(s[1..])
    ensures 0 < IndexOf(s, AMPERSAND) < |s| ==>
              Parse(s) == [ParsePair(s[..IndexOf(s, AMPERSAND)])] + Parse(s[IndexOf(s, AMPERSAND) + 1..])
    ensures IndexOf(s, AMPERSAND) == |s| ==> Parse(s) == [ParsePair(s[..IndexOf(s, AMPERSAND)])] + []
  {
    hide ParsePair, IndexOf;
  }

  lemma {:induction false} ParsedAreText(s: ByteString)
    ensures AreText(Parse(s))
    decreases |s|
  {
    if s == [] {
      assert Parse(s) == [];
    } else {
      ParseUnfold(s);
      hide *;
      var n := IndexOf(s, AMPERSAND);
      if n == 0 {
        ParsedAreText(s[1..]);
      } else {
        ParsedPairIsText(s[..n]);
        NoText();
        if n < |s| {
          ParsedAreText(s[n + 1..]);
          AddText(ParsePair(s[..n]), Parse(s[n + 1..]));
        } else {
          AddText(ParsePair(s[..n]), []);
        }
      }
    }
  }

  lemma NoText()
    ensures AreText([])
  {
  }

  lemma AddText(p: Pair, pairs: seq<Pair>)
    requires IsText(p) && AreText(pairs)
    ensures AreText([p] + pairs) && AreText([])
  {
    hide IsText;
  }

  lemma ParsedPairIsText(s: ByteString)
    ensures IsText(ParsePair(s))
  {
    var k := IndexOf(s, EQUALS);
    LossyValid(PercentDecode(ReplacePlus(s[..k])));
    LossyValid(PercentDecode(ReplacePlus(if k < |s| then s[k + 1..] else [])));
    hide IndexOf, ValidUtf8, Lossy;
  }

  // ---- reading escapes ----

  const LOWER_DIGITS: ByteString := Ascii("0123456789abcdef")
  const UPPER_DIGITS: ByteString := Ascii("0123456789ABCDEF")

  lemma DigitReads(n: Byte)
    requires n < 16
    ensures HexValue(LOWER_DIGITS[n]) == Some(n) && HexValue(UPPER_DIGITS[n]) == Some(n)
  {
    DigitCodes(n as nat);
    AsciiAt("0123456789abcdef", n as nat);
    AsciiAt("0123456789ABCDEF", n as nat);
    hide Ascii, HexValue;
    HexReads(LOWER_DIGITS[n], n);
    HexReads(UPPER_DIGITS[n], n);
  }

  lemma DigitCodes(n: nat)
    requires n < 16
    ensures "0123456789abcdef"[n] as int == if n < 10 then 0x30 + n else 0x57 + n
    ensures "0123456789ABCDEF"[n] as int == if n < 10 then 0x30 + n else 0x37 + n
  {
  }

  lemma HexReads(b: Byte, n: Byte)
    requires n < 16
    requires b as int == (if n < 10 then 0x30 + n as int else 0x57 + n as int)
             || b as int == (if n < 10 then 0x30 + n as int else 0x37 + n as int)
    ensures HexValue(b) == Some(n)
  {
  }

  lemma EscapeStep(high: Byte, low: Byte, t: ByteString)
    requires HexValue(high).Some? && HexValue(low).Some?
    ensures PercentDecode([PERCENT, high, low] + t) ==
            [((HexValue(high).value as int * 16 + HexValue(low).value as int) % 256) as Byte] + PercentDecode(t)
  {
    var s := [PERCENT, high, low] + t;
    assert s[3..] == t && s[0] == PERCENT && s[1] == high && s[2] == low;
    hide HexValue;
  }

  lemma EscapeReads(b: Byte, high: Byte, low: Byte, t: ByteString)
    requires HexValue(high) == Some(b / 16) && HexValue(low) == Some(b % 16)
    ensures PercentDecode([0x25, high, low] + t) == [b] + PercentDecode(t)
  {
    EscapeStep(high, low, t);
    hide HexValue, PercentDecode;
  }

  /** `%xy` reads as the byte, in small digits and in capital ones, whichever of the two. */
  lemma EscapesRead(b: Byte, t: ByteString)
    ensures PercentDecode([0x25, LOWER_DIGITS[b / 16], LOWER_DIGITS[b % 16]] + t) == [b] + PercentDecode(t)
    ensures PercentDecode([0x25, UPPER_DIGITS[b / 16], UPPER_DIGITS[b % 16]] + t) == [b] + PercentDecode(t)
    ensures PercentDecode([0x25, LOWER_DIGITS[b / 16], UPPER_DIGITS[b % 16]] + t) == [b] + PercentDecode(t)
    ensures PercentDecode([0x25, UPPER_DIGITS[b / 16], LOWER_DIGITS[b % 16]] + t) == [b] + PercentDecode(t)
  {
    DigitReads(b / 16);
    DigitReads(b % 16);
    var high, low, highUpper, lowUpper :=
      LOWER_DIGITS[b / 16], LOWER_DIGITS[b % 16], UPPER_DIGITS[b / 16], UPPER_DIGITS[b % 16];
    hide *;
    EscapeReads(b, high, low, t);
    EscapeReads(b, highUpper, lowUpper, t);
    EscapeReads(b, high, lowUpper, t);
    EscapeReads(b, highUpper, low, t);
  }

  /** A `+` reads as a space; any other byte but `%` stands for itself, and so does a `%` without two digits. */
  lemma OthersRead(b: Byte, t: ByteString)
    ensures PercentDecode(ReplacePlus([0x2B] + t)) == [0x20] + PercentDecode(ReplacePlus(t))
    ensures b != 0x2B && b != 0x25 ==>
              PercentDecode(ReplacePlus([b] + t)) == [b] + PercentDecode(ReplacePlus(t))
    ensures |t| < 2 || HexValue(t[0]).None? || HexValue(t[1]).None? ==>
              PercentDecode([0x25] + t) == [0x25] + PercentDecode(t)
  {
    ReplacePlusFront(0x2B, t);
    ReplacePlusFront(b, t);
    ConsParts(0x20, ReplacePlus(t));
    ConsParts(b, ReplacePlus(t));
    PercentStays(t);
    hide HexValue, ReplacePlus;
  }

  lemma ReplacePlusFront(b: Byte, t: ByteString)
    ensures ReplacePlus([b] + t) == [if b == 0x2B then 0x20 else b] + ReplacePlus(t)
  {
    ConsParts(b, t);
  }

  lemma PercentStays(t: ByteString)
    ensures |t| < 2 || HexValue(t[0]).None? || HexValue(t[1]).None? ==>
              PercentDecode([0x25] + t) == [0x25] + PercentDecode(t)
  {
    var s := [0x25] + t;
    ConsParts(0x25, t);
    if |t| >= 2 {
      assert s[1] == t[0] && s[2] == t[1];
    }
    hide HexValue;
  }

  /** Empty sequences between ampersands are skipped; without a `=` the whole is the name. */
  lemma EmptyAndNameOnly(s: ByteString, rest: ByteString)
    requires EQUALS !in s
    ensures Parse([0x26] + rest) == Parse(rest)
    ensures ParsePair(s) == Pair(Decode(s), Decode([]))
  {
    ConsParts(0x26, rest);
    IndexOfFirst(s, EQUALS, []);
    assert s + [] == s && s[..|s|] == s;
    AmpersandFront(rest);
    hide Decode, IndexOf, Parse;
  }

  lemma AmpersandFront(rest: ByteString)
    ensures Parse([0x26] + rest) == Parse(rest)
  {
    var s := [0x26] + rest;
    ConsParts(0x26, rest);
    assert IndexOf(s, AMPERSAND) == 0;
    ParseUnfold(s);
    hide *;
  }
}
