/** src/gateway/mod.rs:27-55: the keys of the cache that searches and extracts share. */
module CacheKeys {
  type Hash64 = h: nat | h < 0x1_0000_0000_0000_0000

  function HexDigit(d: nat): char
    requires d < 16
  {
    if d < 10 then ('0' as int + d) as char else ('a' as int + d - 10) as char
  }

  /** `{:0nx}`: the low `n` hexadecimal digits. */
  function Hex(h: nat, n: nat): string {
    if n == 0 then "" else Hex(h / 16, n - 1) + [HexDigit(h % 16)]
  }

  function Pow16(n: nat): nat {
    if n == 0 then 1 else 16 * Pow16(n - 1)
  }

  function SearchKey(h: Hash64): string {
    "serica:v1:search:" + Hex(h, 16)
  }

  function ExtractKey(h: Hash64): string {
    "serica:v1:extract:" + Hex(h, 16)
  }

  lemma {:induction false} HexInjective(a: nat, b: nat, n: nat)
    requires a < Pow16(n) && b < Pow16(n) && Hex(a, n) == Hex(b, n)
    ensures a == b
    decreases n
  {
    if n > 0 {
      var x, y := Hex(a / 16, n - 1), Hex(b / 16, n - 1);
      HexLen(a / 16, n - 1);
      HexLen(b / 16, n - 1);
      assert (x + [HexDigit(a % 16)])[..n - 1] == x;
      assert (y + [HexDigit(b % 16)])[..n - 1] == y;
      assert (x + [HexDigit(a % 16)])[n - 1] == (y + [HexDigit(b % 16)])[n - 1];
      HexInjective(a / 16, b / 16, n - 1);
    }
  }

  lemma {:induction false} HexLen(h: nat, n: nat)
    ensures |Hex(h, n)| == n
  {
    if n > 0 {
      HexLen(h / 16, n - 1);
    }
  }

  lemma HashesAreTheirDigits(p: string, a: Hash64, b: Hash64)
    ensures p + Hex(a, 16) == p + Hex(b, 16) <==> a == b
  {
    if p + Hex(a, 16) == p + Hex(b, 16) {
      assert (p + Hex(a, 16))[|p|..] == Hex(a, 16);
      assert (p + Hex(b, 16))[|p|..] == Hex(b, 16);
      assert Pow16(4) == 0x1_0000 && Pow16(8) == 0x1_0000_0000;
      assert Pow16(12) == 0x1_0000_0000_0000 && Pow16(16) == 0x1_0000_0000_0000_0000;
      HexInjective(a, b, 16);
    }
  }

  lemma SearchKeysAreHashes(a: Hash64, b: Hash64)
    ensures SearchKey(a) == SearchKey(b) <==> a == b
  {
    HashesAreTheirDigits("serica:v1:search:", a, b);
    hide Hex;
  }

  lemma ExtractKeysAreHashes(a: Hash64, b: Hash64)
    ensures ExtractKey(a) == ExtractKey(b) <==> a == b
  {
    HashesAreTheirDigits("serica:v1:extract:", a, b);
    hide Hex;
  }

  /** The two kinds of response never meet under one key, whatever the hashes. */
  lemma KeySpacesAreDisjoint(a: Hash64, b: Hash64)
    ensures SearchKey(a) != ExtractKey(b)
  {
    assert SearchKey(a)[10] == 's';
    assert ExtractKey(b)[10] == 'e';
  }
}
