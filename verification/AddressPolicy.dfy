/**
 src/util/ssrf.rs:34-65: addresses that must never be dialled, as the source
 tests octets and segments, and as the address blocks they make up.
 */
module AddressPolicy {
  newtype Octet = o: int | 0 <= o < 256
  newtype Segment = s: int | 0 <= s < 0x1_0000

  datatype IpAddr =
    | V4(o0: Octet, o1: Octet, o2: Octet, o3: Octet)
    | V6(s0: Segment, s1: Segment, s2: Segment, s3: Segment, s4: Segment, s5: Segment, s6: Segment, s7: Segment)

  // ---- the source's tests ----

  /** `is_forbidden_v4`, with the standard library's predicates written out. */
  predicate IsForbiddenV4(a: IpAddr)
    requires a.V4?
  {
    a.o0 == 127
    || (a.o0 == 10 || (a.o0 == 172 && 16 <= a.o1 <= 31) || (a.o0 == 192 && a.o1 == 168))
    || (a.o0 == 169 && a.o1 == 254)
    || (a.o0 == 255 && a.o1 == 255 && a.o2 == 255 && a.o3 == 255)
    || ((a.o0 == 192 && a.o1 == 0 && a.o2 == 2)
        || (a.o0 == 198 && a.o1 == 51 && a.o2 == 100)
        || (a.o0 == 203 && a.o1 == 0 && a.o2 == 113))
    || (a.o0 == 0 && a.o1 == 0 && a.o2 == 0 && a.o3 == 0)
    || (a.o0 == 100 && 64 <= a.o1 < 128)
    || a == METADATA_ADDRESS
  }

  /** The cloud metadata address, which the link-local test already covers. */
  const METADATA_ADDRESS := V4(169, 254, 169, 254)

  /** `to_ipv4_mapped`: the V4 address of `::ffff:a.b.c.d`. */
  predicate IsMapped(a: IpAddr) {
    a.V6? && a.s0 == 0 && a.s1 == 0 && a.s2 == 0 && a.s3 == 0 && a.s4 == 0 && a.s5 == 0xFFFF
  }

  function Mapped(a: IpAddr): IpAddr
    requires IsMapped(a)
  {
    V4((a.s6 / 256) as Octet, (a.s6 % 256) as Octet, (a.s7 / 256) as Octet, (a.s7 % 256) as Octet)
  }

  predicate IsForbiddenTarget(a: IpAddr) {
    match a
    case V4(_, _, _, _) => IsForbiddenV4(a)
    case V6(s0, s1, s2, s3, s4, s5, s6, s7) =>
      (s0 == 0 && s1 == 0 && s2 == 0 && s3 == 0 && s4 == 0 && s5 == 0 && s6 == 0 && s7 <= 1)
      || s0 - s0 % 0x200 == 0xFC00
      || s0 - s0 % 0x40 == 0xFE80
      || (IsMapped(a) && IsForbiddenV4(Mapped(a)))
  }

  // ---- the same set as address blocks ----

  /** The address as a number. */
  function Number(a: IpAddr): nat {
    match a
    case V4(o0, o1, o2, o3) =>
      ((o0 as nat * 256 + o1 as nat) * 256 + o2 as nat) * 256 + o3 as nat
    case V6(s0, s1, s2, s3, s4, s5, s6, s7) =>
      Pair32(s0, s1) * 0x1_0000_0000_0000_0000_0000_0000 + Pair32(s2, s3) * 0x1_0000_0000_0000_0000
      + Pair32(s4, s5) * 0x1_0000_0000 + Pair32(s6, s7)
  }

  function Pair32(high: Segment, low: Segment): nat {
    high as nat * 0x1_0000 + low as nat
  }

  /** Addresses `first..=last`. */
  datatype Block = Block(first: nat, last: nat)

  /** The IPv4 blocks: 0.0.0.0/32, 10/8, 100.64/10, 127/8, 169.254/16, 172.16/12,
      192.0.2/24, 192.168/16, 198.51.100/24, 203.0.113/24, 255.255.255.255/32. */
  const BLOCKS_V4: seq<Block> := [
    Block(0x00000000, 0x00000000), Block(0x0A000000, 0x0AFFFFFF), Block(0x64400000, 0x647FFFFF),
    Block(0x7F000000, 0x7FFFFFFF), Block(0xA9FE0000, 0xA9FEFFFF), Block(0xAC100000, 0xAC1FFFFF),
    Block(0xC0000200, 0xC00002FF), Block(0xC0A80000, 0xC0A8FFFF), Block(0xC6336400, 0xC63364FF),
    Block(0xCB007100, 0xCB0071FF), Block(0xFFFFFFFF, 0xFFFFFFFF)]

  /** ::/127, fc00::/7 and fe80::/10. */
  const BLOCKS_V6: seq<Block> := [
    Block(0, 1),
    Block(0xFC00_0000_0000_0000_0000_0000_0000_0000, 0xFDFF_FFFF_FFFF_FFFF_FFFF_FFFF_FFFF_FFFF),
    Block(0xFE80_0000_0000_0000_0000_0000_0000_0000, 0xFEBF_FFFF_FFFF_FFFF_FFFF_FFFF_FFFF_FFFF)]

  const MAPPED_BASE: nat := 0xFFFF_0000_0000

  predicate InBlocks(n: nat, blocks: seq<Block>) {
    exists k :: 0 <= k < |blocks| && blocks[k].first <= n <= blocks[k].last
  }

  lemma InBlocksV4(n: nat)
    ensures InBlocks(n, BLOCKS_V4) <==>
              n == 0 || 0x0A000000 <= n <= 0x0AFFFFFF || 0x64400000 <= n <= 0x647FFFFF
              || 0x7F000000 <= n <= 0x7FFFFFFF || 0xA9FE0000 <= n <= 0xA9FEFFFF || 0xAC100000 <= n <= 0xAC1FFFFF
              || 0xC0000200 <= n <= 0xC00002FF || 0xC0A80000 <= n <= 0xC0A8FFFF || 0xC6336400 <= n <= 0xC63364FF
              || 0xCB007100 <= n <= 0xCB0071FF || n == 0xFFFFFFFF
  {
    var b := BLOCKS_V4;
    assert b[0].first == 0 && b[1].first == 0x0A000000 && b[2].first == 0x64400000 && b[3].first == 0x7F000000
        && b[4].first == 0xA9FE0000 && b[5].first == 0xAC100000 && b[6].first == 0xC0000200
        && b[7].first == 0xC0A80000 && b[8].first == 0xC6336400 && b[9].first == 0xCB007100
        && b[10].first == 0xFFFFFFFF;
  }

  /** For IPv4 the tests on octets are membership in the listed blocks. */
  lemma ForbiddenV4IsBlocks(a: IpAddr)
    requires a.V4?
    ensures IsForbiddenTarget(a) <==> InBlocks(Number(a), BLOCKS_V4)
  {
    InBlocksV4(Number(a));
    hide InBlocks;
  }

  /** The first segment stands above 112 bits. */
  lemma FirstSegment(a: IpAddr) returns (low: nat)
    requires a.V6?
    ensures low < 0x1_0000_0000_0000_0000_0000_0000_0000
    ensures Number(a) == a.s0 as nat * 0x1_0000_0000_0000_0000_0000_0000_0000 + low
  {
    low := a.s1 as nat * 0x1_0000_0000_0000_0000_0000_0000
           + Pair32(a.s2, a.s3) * 0x1_0000_0000_0000_0000 + Pair32(a.s4, a.s5) * 0x1_0000_0000 + Pair32(a.s6, a.s7);
  }

  lemma MaskedSegment(s: nat)
    requires s < 0x1_0000
    ensures s - s % 0x200 == 0xFC00 <==> 0xFC00 <= s <= 0xFDFF
    ensures s - s % 0x40 == 0xFE80 <==> 0xFE80 <= s <= 0xFEBF
  {
  }

  lemma HighSegments(a: IpAddr)
    requires a.V6?
    ensures var n := Number(a);
            && (a.s0 - a.s0 % 0x200 == 0xFC00 <==> BLOCKS_V6[1].first <= n <= BLOCKS_V6[1].last)
            && (a.s0 - a.s0 % 0x40 == 0xFE80 <==> BLOCKS_V6[2].first <= n <= BLOCKS_V6[2].last)
  {
    var low := FirstSegment(a);
    MaskedSegment(a.s0 as nat);
    hide Number;
  }

  lemma LowSegments(a: IpAddr)
    requires a.V6?
    ensures a.s0 == 0 && a.s1 == 0 && a.s2 == 0 && a.s3 == 0 && a.s4 == 0 && a.s5 == 0 && a.s6 == 0 && a.s7 <= 1
            <==> Number(a) <= 1
    ensures IsMapped(a) <==> MAPPED_BASE <= Number(a) < MAPPED_BASE + 0x1_0000_0000
    ensures IsMapped(a) ==> Number(Mapped(a)) == Number(a) - MAPPED_BASE
  {
  }

  /**
   For IPv6 they are membership in the listed blocks, or in the IPv4 blocks moved
   into ::ffff:0:0/96.
   */
  lemma ForbiddenV6IsBlocks(a: IpAddr)
    requires a.V6?
    ensures IsForbiddenTarget(a) <==>
              InBlocks(Number(a), BLOCKS_V6)
              || (MAPPED_BASE <= Number(a) < MAPPED_BASE + 0x1_0000_0000
                  && InBlocks(Number(a) - MAPPED_BASE, BLOCKS_V4))
  {
    var n := Number(a);
    HighSegments(a);
    LowSegments(a);
    if IsMapped(a) {
      ForbiddenV4IsBlocks(Mapped(a));
    }
    assert BLOCKS_V6[0].first == 0 && BLOCKS_V6[0].last == 1;
    assert InBlocks(n, BLOCKS_V6) <==>
        BLOCKS_V6[0].first <= n <= BLOCKS_V6[0].last || BLOCKS_V6[1].first <= n <= BLOCKS_V6[1].last
        || BLOCKS_V6[2].first <= n <= BLOCKS_V6[2].last;
    hide InBlocks, Number, IsForbiddenV4, Mapped;
  }
}
