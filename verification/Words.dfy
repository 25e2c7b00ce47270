/** Fixed-width unsigned integers as the firmware sees them, and a few shared helpers. */
module Words {
  type byte = b: int | 0 <= b < 0x100
  type u16 = w: int | 0 <= w < 0x1_0000
  type u32 = w: int | 0 <= w < 0x1_0000_0000

  const TWO32 := 0x1_0000_0000

  datatype Option<+T> = None | Some(value: T)

  function Pow2(n: nat): (p: nat)
    ensures p > 0
  {
    if n == 0 then 1 else 2 * Pow2(n - 1)
  }

  /** One more on a 32-bit counter. */
  function Inc32(n: u32): u32 {
    if n == 0xFFFF_FFFF then 0 else n + 1
  }

  /** Big-endian words from bytes. */
  function Be16(hi: byte, lo: byte): u16 {
    hi as int * 0x100 + lo
  }

  function Be32(a: byte, b: byte, c: byte, d: byte): u32 {
    a as int * 0x100_0000 + b as int * 0x1_0000 + c as int * 0x100 + d
  }

  function Bytes16(x: u16): (r: seq<byte>)
    ensures |r| == 2
  {
    [x / 0x100, x % 0x100]
  }

  /** The n low-order bytes of x, the most significant first. */
  function LowBytes(x: nat, n: nat): (r: seq<byte>)
    ensures |r| == n
    decreases x, n
  {
    if n == 0 then [] else LowBytes(x / 0x100, n - 1) + [x % 0x100]
  }

  function Bytes32(x: u32): (r: seq<byte>)
    ensures |r| == 4
  {
    LowBytes(x, 4)
  }

  lemma Bytes32Form(x: u32)
    ensures Bytes32(x) == [x / 0x100_0000, x / 0x1_0000 % 0x100, x / 0x100 % 0x100, x % 0x100]
  {
    var y := x / 0x100;
    var z := y / 0x100;
    assert LowBytes(z / 0x100, 1) == [z / 0x100];
    assert LowBytes(z, 2) == [z / 0x100, z % 0x100];
    assert LowBytes(y, 3) == [z / 0x100, z % 0x100, y % 0x100];
  }

  lemma Octets(a: byte, b: byte, c: byte, d: byte)
    ensures Bytes32(Be32(a, b, c, d)) == [a, b, c, d]
  {
    var x := Be32(a, b, c, d);
    Bytes32Form(x);
    assert x / 0x100 == a as int * 0x1_0000 + b as int * 0x100 + c;
    assert x / 0x1_0000 == a as int * 0x100 + b;
    assert x / 0x100_0000 == a;
  }

  lemma Bytes16Back(x: u16)
    ensures var b := Bytes16(x); Be16(b[0], b[1]) == x
  {
  }

  lemma Bytes32Back(x: u32)
    ensures var b := Bytes32(x); Be32(b[0], b[1], b[2], b[3]) == x
  {
    Bytes32Form(x);
    assert x / 0x1_0000 == x / 0x100_0000 * 0x100 + x / 0x1_0000 % 0x100;
    assert x / 0x100 == x / 0x1_0000 * 0x100 + x / 0x100 % 0x100;
  }

  /** Removes the element at index k. */
  function Without<T>(s: seq<T>, k: nat): (r: seq<T>)
    requires k < |s|
    ensures |r| == |s| - 1
    ensures forall i :: 0 <= i < |r| ==> r[i] == if i < k then s[i] else s[i + 1]
  {
    s[..k] + s[k + 1..]
  }

  /** Inserts x so that it ends up at index k. */
  function Inserted<T>(s: seq<T>, k: nat, x: T): (r: seq<T>)
    requires k <= |s|
    ensures |r| == |s| + 1
    ensures forall i :: 0 <= i < |r| ==> r[i] == if i < k then s[i] else if i == k then x else s[i - 1]
  {
    s[..k] + [x] + s[k..]
  }
}

/** The little nonlinear arithmetic the masks need. */
module Arithmetic {
  import opened Words

  lemma {:induction false} Pow2Divides(k: nat, n: nat)
    requires k <= n
    ensures Pow2(n) % Pow2(k) == 0 && Pow2(n) >= Pow2(k)
    decreases n - k
  {
    if k < n {
      Pow2Divides(k, n - 1);
      var q := Pow2(n - 1) / Pow2(k);
      assert Pow2(n) == (2 * q) * Pow2(k);
      MultipleMod(2 * q, Pow2(k));
    } else {
      MultipleMod(1, Pow2(k));
    }
  }

  lemma MultipleMod(q: nat, m: nat)
    requires m > 0
    ensures (q * m) % m == 0 && (q * m) / m == q
  {
    assert q * m == m * q + 0;
    DivModUnique(q * m, m, q, 0);
  }

  lemma SmallMultiple(m: int, d: int)
    requires m > 0 && -m < m * d < m
    ensures d == 0
  {
    if d >= 1 {
      MulMono(m, 1, d);
    } else if d <= -1 {
      MulMono(m, d, -1);
    }
  }

  lemma MulMono(m: int, a: int, b: int)
    requires m >= 0 && a <= b
    ensures m * a <= m * b
  {
    assert m * (b - a) >= 0;
  }

  lemma DivModUnique(x: int, m: nat, q: int, r: int)
    requires m > 0 && 0 <= r < m && x == m * q + r
    ensures x / m == q && x % m == r
  {
    var q', r' := x / m, x % m;
    assert x == m * q' + r';
    assert m * (q - q') == m * q - m * q';
    SmallMultiple(m, q - q');
  }

  /** x with the bits below the power of two m cleared. */
  function AlignDown(x: nat, m: nat): (r: nat)
    requires m > 0
    ensures r <= x < r + m
  {
    ModAtMost(x, m);
    x - x % m
  }

  /** ip & (0xffffffff << (32 - prefixLen)) */
  function Masked(ip: u32, prefixLen: nat): u32
    requires prefixLen <= 32
  {
    ClearLow(ip, 32 - prefixLen)
  }

  /** x with its k low bits cleared. */
  function ClearLow(x: nat, k: nat): (r: nat)
    ensures r <= x
  {
    if k == 0 then x else 2 * ClearLow(x / 2, k - 1)
  }

  lemma {:induction false} ClearLowAligns(x: nat, k: nat)
    ensures ClearLow(x, k) == AlignDown(x, Pow2(k))
    decreases k
  {
    if k == 0 {
      DivModUnique(x, 1, x, 0);
    } else {
      ClearLowAligns(x / 2, k - 1);
      HalfAligns(x, Pow2(k - 1));
    }
  }

  lemma HalfAligns(x: nat, m: nat)
    requires m > 0
    ensures 2 * AlignDown(x / 2, m) == AlignDown(x, 2 * m)
  {
    var h := x / 2;
    assert h == m * (h / m) + h % m;
    DivModUnique(x, 2 * m, h / m, 2 * (h % m) + x % 2);
  }

  lemma MaskedAligns(ip: u32, prefixLen: nat)
    requires prefixLen <= 32
    ensures Masked(ip, prefixLen) == AlignDown(ip, Pow2(32 - prefixLen))
  {
    ClearLowAligns(ip, 32 - prefixLen);
  }

  lemma ModAtMost(x: nat, m: nat)
    requires m > 0
    ensures 0 <= x % m <= x
  {
    if x < m {
      assert x == m * 0 + x;
      DivModUnique(x, m, 0, x);
    }
  }

  /** The block of m addresses around ip stays below any multiple of m above ip. */
  lemma MultipleFits(ip: nat, m: nat, top: nat)
    requires m > 0 && top % m == 0 && ip < top
    ensures AlignDown(ip, m) + m <= top
  {
    var q, k := ip / m, top / m;
    assert ip == m * q + ip % m && top == m * k;
    if k <= q {
      MulMono(m, k, q);
    }
    MulMono(m, q + 1, k);
    assert m * (q + 1) == m * q + m;
  }

  /** Two numbers agree above m exactly when one aligns down to the other, a multiple of m. */
  lemma SameBlock(t: nat, network: nat, m: nat)
    requires m > 0 && network % m == 0
    ensures t / m == network / m <==> AlignDown(t, m) == network
  {
    var q := t / m;
    assert t == m * q + t % m;
    assert network == m * (network / m) + network % m;
    DivModUnique(m * q, m, q, 0);
  }

  /** When m divides big, the block of m addresses around x does not cross a multiple of big. */
  lemma BlockInside(x: nat, m: nat, big: nat)
    requires m > 0 && big > 0 && big % m == 0
    ensures AlignDown(x, m) / big == (AlignDown(x, m) + m - 1) / big
  {
    var q, y := x / big, x % big;
    AlignInside(x, m, big);
    MultipleFits(y, m, big);
    DivModUnique(AlignDown(x, m), big, q, AlignDown(y, m));
    DivModUnique(AlignDown(x, m) + m - 1, big, q, AlignDown(y, m) + m - 1);
  }

  /** Aligning to a divisor of big leaves the multiple of big alone. */
  lemma AlignInside(x: nat, m: nat, big: nat)
    requires m > 0 && big > 0 && big % m == 0
    ensures AlignDown(x, m) == big * (x / big) + AlignDown(x % big, m)
  {
    var k, q, y := big / m, x / big, x % big;
    var r := y / m;
    assert x == big * q + y && big == m * k && y == m * r + y % m;
    SplitMultiple(m, k, q, r);
    DivModUnique(x, m, k * q + r, y % m);
  }

  lemma SplitMultiple(m: int, k: int, q: int, r: int)
    ensures (m * k) * q + m * r == m * (k * q + r)
  {
    MulAssoc(m, k, q);
  }

  lemma MulAssoc(a: int, b: int, c: int)
    ensures a * (b * c) == (a * b) * c
  {
  }

  lemma Pow2Of32()
    ensures Pow2(32) == TWO32 && Pow2(8) == 0x100
  {
    assert Pow2(8) == 0x100;
    assert Pow2(16) == 0x100 * Pow2(8);
    assert Pow2(24) == 0x100 * Pow2(16);
    assert Pow2(32) == 0x100 * Pow2(24);
  }
}
