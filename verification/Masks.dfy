/** Masks on 32-bit addresses in host order. */
module Masks {
  predicate SamePrefix(a: bv32, b: bv32, mask: bv32) {
    a & mask == b & mask
  }

  function PrefixMask(len: int): bv32
    requires 1 <= len <= 32
  {
    if len == 32 then 0xFFFF_FFFF else 0xFFFF_FFFF << (32 - len)
  }

  lemma XorUnder(a: bv32, b: bv32, m: bv32)
    ensures (a ^ b) & m == (a & m) ^ (b & m)
  {
  }

  lemma XorOfSame(x: bv32, y: bv32)
    ensures x ^ y == 0 <==> x == y
  {
  }

  lemma DifferUnder(a: bv32, b: bv32, mask: bv32)
    ensures SamePrefix(a, b, mask) <==> (a ^ b) & mask == 0
  {
    XorUnder(a, b, mask);
    XorOfSame(a & mask, b & mask);
  }

  /** Under a mask of leading ones nothing is left exactly of the numbers the mask leaves out. */
  lemma NothingUnder(x: bv32, mask: bv32)
    requires mask | (mask - 1) == 0xFFFF_FFFF
    ensures x & mask == 0 <==> x <= 0xFFFF_FFFF - mask
  {
  }

  lemma ShiftMore(k: nat)
    requires 1 <= k < 32
    ensures (0xFFFF_FFFF as bv32) << k == ((0xFFFF_FFFF as bv32) << (k - 1)) << 1
  {
  }

  lemma TailLess(len: nat)
    requires 1 <= len < 32
    ensures (0xFFFF_FFFF as bv32) >> len == (((0xFFFF_FFFF as bv32) >> (len + 1)) << 1) | 1
  {
  }

  lemma OneShorter(m: bv32, t: bv32)
    requires m | (m - 1) == 0xFFFF_FFFF && m == 0xFFFF_FFFF - t && t < 0x7FFF_FFFF
    ensures (m << 1) | ((m << 1) - 1) == 0xFFFF_FFFF && m << 1 == 0xFFFF_FFFF - ((t << 1) | 1)
  {
  }

  lemma ShorterMask(len: int)
    requires 1 <= len < 32
    ensures PrefixMask(len) == PrefixMask(len + 1) << 1
  {
    ShiftMore(32 - len);
  }

  lemma {:induction false} MaskIsLeadingOnes(len: int)
    requires 1 <= len <= 32
    ensures var m := PrefixMask(len); m | (m - 1) == 0xFFFF_FFFF && m == 0xFFFF_FFFF - (0xFFFF_FFFF >> len)
    decreases 32 - len
  {
    if len < 32 {
      MaskIsLeadingOnes(len + 1);
      ShorterMask(len);
      TailLess(len);
      OneShorter(PrefixMask(len + 1), 0xFFFF_FFFF >> (len + 1));
    }
  }

  /** Two addresses differ only below their first len bits. */
  ghost predicate AgreeIn(a: bv32, b: bv32, len: int)
    requires 1 <= len <= 32
  {
    a ^ b <= 0xFFFF_FFFF >> len
  }

  /** Under the mask of a prefix length addresses are the same exactly when their first len bits are. */
  lemma PrefixIsLeadingBits(a: bv32, b: bv32, len: int)
    requires 1 <= len <= 32
    ensures SamePrefix(a, b, PrefixMask(len)) <==> AgreeIn(a, b, len)
  {
    hide PrefixMask, SamePrefix;
    MaskIsLeadingOnes(len);
    DifferUnder(a, b, PrefixMask(len));
    NothingUnder(a ^ b, PrefixMask(len));
  }
}
