/**
  The Internet checksum: the one's-complement sum of 16-bit words, the loops
  that compute it, and why a filled-in or incrementally updated field verifies.
*/
module Checksum {
  import opened Words

  /** The plain sum of big-endian words, an odd last byte padded with zero. */
  function Sum(s: seq<byte>): (t: nat)
    ensures t <= 0xff00 * |s|
  {
    if |s| == 0 then 0
    else if |s| == 1 then s[0] as int * 0x100
    else Be16(s[0], s[1]) + Sum(s[2..])
  }

  /** End-around carry until the sum fits in sixteen bits. */
  function Fold(x: nat): nat {
    if x < 0x1_0000 then x else Fold(x % 0x1_0000 + x / 0x1_0000)
  }

  /** The field value that complements a sum. */
  function Complement(x: nat): u16 {
    FoldIsResidue(x);
    0xffff - Fold(x)
  }

  /** What a receiver checks: all covered words, checksum included, sum to 0xffff. */
  predicate Verifies(total: nat) {
    Fold(total) == 0xffff
  }

  lemma SameResidue(a: int, b: int, q: int)
    requires a == b + 0xffff * q
    ensures a % 0xffff == b % 0xffff
  {
  }

  /** Folding keeps the value modulo 0xffff and never turns a nonzero sum into zero. */
  lemma {:induction false} FoldIsResidue(x: nat)
    ensures Fold(x) <= 0xffff && Fold(x) % 0xffff == x % 0xffff && (Fold(x) == 0 <==> x == 0)
  {
    if x >= 0x1_0000 {
      var h, l := x / 0x1_0000, x % 0x1_0000;
      FoldIsResidue(l + h);
      SameResidue(x, l + h, h);
    }
  }

  /** The worked example of section 3 of RFC 1071. */
  lemma Rfc1071Example()
    ensures Sum([0x00, 0x01, 0xf2, 0x03, 0xf4, 0xf5, 0xf6, 0xf7]) == 0x2_ddf0 && Fold(0x2_ddf0) == 0xddf2
    ensures Sum([0x12]) == 0x1200
  {
    var s: seq<byte> := [0x00, 0x01, 0xf2, 0x03, 0xf4, 0xf5, 0xf6, 0xf7];
    assert s[2..][2..][2..] == [0xf6, 0xf7];
    assert Sum(s[2..][2..][2..]) == 0xf6f7;
    assert Sum(s[2..][2..]) == 0xf4f5 + 0xf6f7;
  }

  lemma VerifiesIff(total: nat)
    ensures Verifies(total) <==> total > 0 && total % 0xffff == 0
  {
    FoldIsResidue(total);
  }

  function Put16(s: seq<byte>, k: nat, v: u16): (r: seq<byte>)
    requires k + 1 < |s|
    ensures |r| == |s| && r[k] == v / 0x100 && r[k + 1] == v % 0x100
    ensures forall i :: 0 <= i < |s| && i != k && i != k + 1 ==> r[i] == s[i]
  {
    s[k := v / 0x100][k + 1 := v % 0x100]
  }

  function Get16(s: seq<byte>, k: nat): u16
    requires k + 1 < |s|
  {
    Be16(s[k], s[k + 1])
  }

  lemma {:induction false} SumPut(s: seq<byte>, k: nat, v: u16)
    requires k % 2 == 0 && k + 1 < |s|
    ensures Sum(Put16(s, k, v)) == Sum(s) - Get16(s, k) + v
  {
    var r := Put16(s, k, v);
    if k == 0 {
      assert r[2..] == s[2..];
    } else {
      assert r[2..] == Put16(s[2..], k - 2, v);
      SumPut(s[2..], k - 2, v);
    }
  }

  lemma {:induction false} SumConcat(a: seq<byte>, b: seq<byte>)
    requires |a| % 2 == 0
    ensures Sum(a + b) == Sum(a) + Sum(b)
  {
    if a == [] {
      assert a + b == b;
    } else {
      assert (a + b)[2..] == a[2..] + b;
      SumConcat(a[2..], b);
    }
  }

  /** s with its checksum at offset k filled in, base being what is summed besides s. */
  function Sealed(s: seq<byte>, k: nat, base: nat): seq<byte>
    requires k + 1 < |s|
  {
    Put16(s, k, Complement(base + Sum(Put16(s, k, 0))))
  }

  /** The UDP variant: a zero checksum is sent as 0xffff. */
  function SealedUdp(s: seq<byte>, k: nat, base: nat): seq<byte>
    requires k + 1 < |s|
  {
    var c := Complement(base + Sum(Put16(s, k, 0)));
    Put16(s, k, if c == 0 then 0xffff else c)
  }

  lemma SealedVerifies(s: seq<byte>, k: nat, base: nat)
    requires k % 2 == 0 && k + 1 < |s|
    ensures Verifies(base + Sum(Sealed(s, k, base)))
    ensures Verifies(base + Sum(SealedUdp(s, k, base))) && Get16(SealedUdp(s, k, base), k) != 0
  {
    var z := Put16(s, k, 0);
    var t := base + Sum(z);
    FoldIsResidue(t);
    ComplementCompletes(t);
    ResealPut(s, k, Complement(t));
    ResealPut(s, k, 0xffff);
  }

  lemma ResealPut(s: seq<byte>, k: nat, v: u16)
    requires k % 2 == 0 && k + 1 < |s|
    ensures Sum(Put16(s, k, v)) == Sum(Put16(s, k, 0)) + v
  {
    SumPut(s, k, v);
    SumPut(s, k, 0);
  }

  lemma ComplementCompletes(t: nat)
    ensures Verifies(t + Complement(t))
    ensures Complement(t) == 0 ==> Verifies(t + 0xffff)
  {
    hide Fold;
    FoldIsResidue(t);
    SumOfResidues(t, Fold(t), 0xffff - Fold(t));
    SameResidue(t + 0xffff, t, 1);
    VerifiesIff(t + Complement(t));
    VerifiesIff(t + 0xffff);
  }

  lemma SumOfResidues(a: nat, b: nat, c: int)
    requires a % 0xffff == b % 0xffff
    ensures (a + c) % 0xffff == (b + c) % 0xffff
  {
    SameResidue(a + c, b + c, a / 0xffff - b / 0xffff);
  }

  /** The incremental update of section 3 of RFC 1624: HC' = ~(~HC + ~m + m'). */
  function Updated(c: u16, m: u16, m': u16): u16 {
    Complement((0xffff - c) + (0xffff - m) + m')
  }

  lemma UpdatedResidue(c: u16, m: u16, m': u16)
    ensures (Updated(c, m, m') + m') % 0xffff == (c + m) % 0xffff
  {
    hide Fold;
    var x := (0xffff - c) + (0xffff - m) + m';
    FoldIsResidue(x);
    SumOfResidues(Fold(x), x, c + m - Fold(x) - x);
    SumOfResidues(x, Fold(x), 0xffff + m' - Fold(x) - x);
    SameResidue(c + m, 0xffff - x + m', 1);
  }

  // ----- the loops

  /** checksum_add: a 32-bit accumulator over the words of data. */
  method ChecksumAdd(sum: u32, data: seq<byte>) returns (r: u32)
    ensures r == (sum + Sum(data)) % 0x1_0000_0000
    ensures sum + Sum(data) < 0x1_0000_0000 ==> r == sum + Sum(data)
  {
    r := sum;
    var i := 0;
    ghost var done: nat := sum;
    while |data| - i >= 2
      invariant 0 <= i <= |data|
      invariant r == done % 0x1_0000_0000 && done + Sum(data[i..]) == sum + Sum(data)
    {
      assert data[i..][2..] == data[i + 2..];
      var w := Be16(data[i], data[i + 1]);
      WrapAgain(done, w);
      r, done := (r + w) % 0x1_0000_0000, done + w;
      i := i + 2;
    }
    if i < |data| {
      var w: u16 := data[i] as int * 0x100;
      WrapAgain(done, w);
      r := (r + w) % 0x1_0000_0000;
    }
  }

  lemma WrapAgain(a: nat, w: nat)
    ensures (a % 0x1_0000_0000 + w) % 0x1_0000_0000 == (a + w) % 0x1_0000_0000
  {
  }

  method ChecksumFinish(sum: u32) returns (c: u16)
    ensures c == Complement(sum)
  {
    var s := sum;
    while s / 0x1_0000 != 0
      invariant Fold(s) == Fold(sum)
      decreases s
    {
      s := s % 0x1_0000 + s / 0x1_0000;
    }
    FoldIsResidue(sum);
    c := 0xffff - s;
  }

  /** With at most 64 KiB of data the accumulator does not wrap. */
  method ChecksumPlain(data: seq<byte>) returns (c: u16)
    ensures |data| <= 0x1_0000 ==> c == Complement(Sum(data))
  {
    hide Sum, Fold, Complement;
    var sum := ChecksumAdd(0, data);
    c := ChecksumFinish(sum);
  }
}
