/**
  Frames rewritten in place on their way through the router: the TTL override
  and the MSS clamp, each with an incremental checksum update.
*/
module NetifHooks {
  import opened Words
  import opened Checksum

  // ----- 16-bit words as a little-endian CPU reads them

  function RawGet(s: seq<byte>, k: nat): u16
    requires k + 1 < |s|
  {
    s[k] + s[k + 1] as int * 0x100
  }

  function RawPut(s: seq<byte>, k: nat, v: u16): (r: seq<byte>)
    requires k + 1 < |s|
    ensures |r| == |s| && r[k] == v % 0x100 && r[k + 1] == v / 0x100
    ensures forall i :: 0 <= i < |s| && i != k && i != k + 1 ==> r[i] == s[i]
  {
    s[k := v % 0x100][k + 1 := v / 0x100]
  }

  /** Swapping the bytes of a word multiplies it by 0x100 modulo 0xffff. */
  lemma SwapIsShift(s: seq<byte>, k: nat)
    requires k + 1 < |s|
    ensures Get16(s, k) % 0xffff == (0x100 * RawGet(s, k)) % 0xffff
  {
    SameResidue(0x100 * RawGet(s, k), Get16(s, k), s[k + 1]);
  }

  /** A word written at an odd offset enters the sum with its bytes swapped. */
  lemma SumPutOdd(s: seq<byte>, k: nat, hi: byte, lo: byte)
    requires k % 2 == 1 && k + 2 < |s|
    ensures Sum(Put16(s, k, Be16(hi, lo))) == Sum(s) + hi + lo as int * 0x100 - RawGet(s, k)
  {
    hide Sum, Put16, Be16;
    OddSums(s, k, hi, lo);
    SameByte(s[k - 1], s[k], hi);
    SameByte(s[k + 2], s[k + 1], lo);
  }

  lemma OddSums(s: seq<byte>, k: nat, hi: byte, lo: byte)
    requires k % 2 == 1 && k + 2 < |s|
    ensures Sum(Put16(s, k, Be16(hi, lo)))
      == Sum(s) - Be16(s[k - 1], s[k]) + Be16(s[k - 1], hi) - Be16(s[k + 1], s[k + 2]) + Be16(lo, s[k + 2])
  {
    hide Sum, Be16, Put16;
    OddNeighbours(k);
    var t := Put16(s, k - 1, Be16(s[k - 1], hi));
    PutBytes(s, k, hi, lo);
    PutBytes(s, k - 1, s[k - 1], hi);
    PutBytes(t, k + 1, lo, s[k + 2]);
    assert s[k := hi][k + 1 := lo] == t[k + 1 := lo][k + 2 := s[k + 2]];
    SumPut(s, k - 1, Be16(s[k - 1], hi));
    SumPut(t, k + 1, Be16(lo, s[k + 2]));
    assert Get16(t, k + 1) == Be16(s[k + 1], s[k + 2]);
  }

  /** A word put in place is its two bytes put in place. */
  lemma PutBytes(s: seq<byte>, k: nat, hi: byte, lo: byte)
    requires k + 1 < |s|
    ensures Put16(s, k, Be16(hi, lo)) == s[k := hi][k + 1 := lo]
  {
    hide Be16;
    BytesOf(hi, lo);
  }

  lemma OddNeighbours(k: nat)
    requires k % 2 == 1
    ensures (k - 1) % 2 == 0 && (k + 1) % 2 == 0
  {
  }

  lemma SameByte(a: byte, b: byte, c: byte)
    ensures Be16(a, c) - Be16(a, b) == c - b && Be16(c, a) - Be16(b, a) == 0x100 * (c - b)
  {
  }

  lemma BytesOf(hi: byte, lo: byte)
    ensures Be16(hi, lo) / 0x100 == hi && Be16(hi, lo) % 0x100 == lo
  {
  }

  // ----- TTL override

  predicate CarriesIPv4(f: seq<byte>)
    requires |f| >= 15
  {
    f[12] == 0x08 && f[13] == 0x00 && f[14] / 0x10 == 4
  }

  /** The frame with the new TTL and its header checksum patched. */
  function WithTtl(f: seq<byte>, ttl: byte): (r: seq<byte>)
    requires |f| >= 34
    ensures |r| == |f|
  {
    var g := f[22 := ttl];
    RawPut(g, 24, Updated(RawGet(f, 24), RawGet(f, 22), RawGet(g, 22)))
  }

  function Overridden(f: seq<byte>, ttl: byte): seq<byte> {
    if ttl == 0 || |f| < 34 || !CarriesIPv4(f) || f[22] == ttl then f else WithTtl(f, ttl)
  }

  method ApplyStaTtlOverride(frame: array<byte>, ttl: byte)
    modifies frame
    ensures frame[..] == Overridden(old(frame[..]), ttl)
  {
    hide Updated;
    ghost var was := frame[..];
    if ttl == 0 || frame.Length < 34 {
      return;
    }
    if frame[12] != 0x08 || frame[13] != 0x00 || frame[14] / 0x10 != 4 || frame[22] == ttl {
      return;
    }
    var oldWord := frame[22] + frame[23] as int * 0x100;
    frame[22] := ttl;
    var newWord := frame[22] + frame[23] as int * 0x100;
    var chksum := Rfc1624(frame[24] + frame[25] as int * 0x100, oldWord, newWord);
    frame[24], frame[25] := chksum % 0x100, chksum / 0x100;
    assert frame[..] == WithTtl(was, ttl);
  }

  /** The update both rewrites use, in a 32-bit accumulator. */
  method Rfc1624(chksum: u16, oldWord: u16, newWord: u16) returns (c: u16)
    ensures c == Updated(chksum, oldWord, newWord)
  {
    var sum: u32 := 0xffff - chksum;
    sum := sum + (0xffff - oldWord);
    sum := sum + newWord;
    c := ChecksumFinish(sum);
  }

  /** The bytes of the IPv4 header, as long as its length field says. */
  ghost predicate HeaderVerifies(f: seq<byte>)
    requires |f| >= 15
  {
    var n := f[14] % 0x10 * 4;
    14 + n <= |f| && Verifies(Sum(f[14..14 + n]))
  }

  /** Two 16-bit fields changed by an RFC 1624 update keep the sum modulo 0xffff. */
  lemma UpdateBalances(c: u16, m: u16, m': u16, dc: int, dm: int)
    requires (dc - 0x100 * (Updated(c, m, m') - c)) % 0xffff == 0
    requires (dm - 0x100 * (m' - m)) % 0xffff == 0
    ensures (dc + dm) % 0xffff == 0
  {
    hide Updated;
    UpdatedResidue(c, m, m');
    var c' := Updated(c, m, m');
    var q := (c' + m') / 0xffff - (c + m) / 0xffff;
    assert c' + m' == c + m + 0xffff * q;
    var a, b := (dc - 0x100 * (c' - c)) / 0xffff, (dm - 0x100 * (m' - m)) / 0xffff;
    SameResidue(dc + dm, 0, a + b + 0x100 * q);
  }

  lemma ResidueOfDifference(x: int, y: int)
    requires x % 0xffff == y % 0xffff
    ensures (x - y) % 0xffff == 0
  {
    SameResidue(x - y, 0, x / 0xffff - y / 0xffff);
  }

  /** The TTL override keeps a valid header checksum valid, whatever the header length. */
  lemma OverrideKeepsHeader(f: seq<byte>, ttl: byte)
    requires |f| >= 15 && HeaderVerifies(f)
    ensures HeaderVerifies(Overridden(f, ttl))
  {
    hide Updated, Sum, Fold;
    var g := Overridden(f, ttl);
    if g != f {
      var n := f[14] % 0x10 * 4;
      var s, t := f[14..14 + n], g[14..14 + n];
      if n < 12 {
        assert t == s;
      } else {
        TtlSums(f, ttl, n);
        KeepsVerifying(s, t);
      }
    }
  }

  lemma KeepsVerifying(s: seq<byte>, t: seq<byte>)
    requires Verifies(Sum(s)) && (Sum(t) - Sum(s)) % 0xffff == 0 && |t| >= 2 && t[0] > 0
    ensures Verifies(Sum(t))
  {
    hide Fold;
    VerifiesIff(Sum(s));
    VerifiesIff(Sum(t));
    SameResidue(Sum(t), Sum(s), (Sum(t) - Sum(s)) / 0xffff);
  }

  lemma TtlSums(f: seq<byte>, ttl: byte, n: nat)
    requires |f| >= 34 && n >= 12 && 14 + n <= |f|
    ensures (Sum(WithTtl(f, ttl)[14..14 + n]) - Sum(f[14..14 + n])) % 0xffff == 0
  {
    hide Updated, Sum;
    var g, r := f[22 := ttl], WithTtl(f, ttl);
    var s := f[14..14 + n];
    BytesOf(g[22], g[23]);
    BytesOf(r[24], r[25]);
    assert r[14..14 + n] == Put16(Put16(s, 8, Get16(g, 22)), 10, Get16(r, 24));
    SumPut(s, 8, Get16(g, 22));
    SumPut(Put16(s, 8, Get16(g, 22)), 10, Get16(r, 24));
    assert Get16(s, 8) == Get16(f, 22) && Get16(s, 10) == Get16(f, 24);
    WordsBalance(f, g, r, 24, 22);
  }

  /** The word at m changed from f to g, the checksum at c patched from f to r. */
  lemma WordsBalance(f: seq<byte>, g: seq<byte>, r: seq<byte>, c: nat, m: nat)
    requires c + 1 < |f| && m + 1 < |f| && m + 1 < |g| && c + 1 < |r|
    requires RawGet(r, c) == Updated(RawGet(f, c), RawGet(f, m), RawGet(g, m))
    ensures (Get16(r, c) - Get16(f, c) + Get16(g, m) - Get16(f, m)) % 0xffff == 0
  {
    hide Updated, RawGet, Get16;
    SwapIsShift(f, c);
    SwapIsShift(r, c);
    SwapIsShift(f, m);
    SwapIsShift(g, m);
    Shifted(Get16(f, c), RawGet(f, c), Get16(r, c), RawGet(r, c));
    Shifted(Get16(f, m), RawGet(f, m), Get16(g, m), RawGet(g, m));
    UpdateBalances(RawGet(f, c), RawGet(f, m), RawGet(g, m), Get16(r, c) - Get16(f, c), Get16(g, m) - Get16(f, m));
  }

  /** Differences of swapped words are shifted differences. */
  lemma Shifted(a: int, x: int, b: int, y: int)
    requires a % 0xffff == (0x100 * x) % 0xffff && b % 0xffff == (0x100 * y) % 0xffff
    ensures ((b - a) - 0x100 * (y - x)) % 0xffff == 0
  {
    SameResidue((b - a) - 0x100 * (y - x), 0,
                b / 0xffff - (0x100 * y) / 0xffff - a / 0xffff + (0x100 * x) / 0xffff);
  }

  // ----- MSS clamp

  /** Where the option walk finds a four-byte MSS option's value, starting at offset i of the options. */
  function MssAt(o: seq<byte>, i: nat): (r: Option<nat>)
    requires i <= |o|
    ensures r.Some? ==> i + 2 <= r.value && r.value + 2 <= |o|
    decreases |o| - i
  {
    if i == |o| || o[i] == 0 then None
    else if o[i] == 1 then MssAt(o, i + 1)
    else if i + 1 == |o| || o[i + 1] < 2 || i + o[i + 1] > |o| then None
    else if o[i] == 2 && o[i + 1] == 4 then Some(i + 2)
    else MssAt(o, i + o[i + 1])
  }

  datatype TcpOption = Nop | Opt(kind: byte, body: seq<byte>)

  ghost predicate Encodable(o: TcpOption) {
    o.Opt? ==> o.kind > 1 && |o.body| <= 253
  }

  function EncodeOne(o: TcpOption): seq<byte>
    requires Encodable(o)
  {
    match o
    case Nop => [1]
    case Opt(kind, body) => [kind, 2 + |body|] + body
  }

  function Encode(opts: seq<TcpOption>): seq<byte>
    requires forall o <- opts :: Encodable(o)
  {
    if opts == [] then [] else EncodeOne(opts[0]) + Encode(opts[1..])
  }

  predicate IsMss(o: TcpOption) {
    o.Opt? && o.kind == 2 && |o.body| == 2
  }

  /** Offset, in the encoding, of the body of the first option that is an MSS option of the right size. */
  function FirstMss(opts: seq<TcpOption>): Option<nat>
    requires forall o <- opts :: Encodable(o)
  {
    if opts == [] then None
    else if IsMss(opts[0]) then Some(2)
    else
      match FirstMss(opts[1..])
      case None => None
      case Some(j) => Some(|EncodeOne(opts[0])| + j)
  }

  /** Where the options end: nothing left, the end-of-list option, or an option whose length is cut short, below 2 or too long. */
  predicate Ends(rest: seq<byte>) {
    || rest == [] || rest[0] == 0
    || (rest[0] > 1 && (|rest| == 1 || rest[1] < 2 || rest[1] > |rest|))
  }

  /** Any option bytes are well-formed options up to such an end. */
  lemma {:induction false} EveryListDecodes(o: seq<byte>) returns (opts: seq<TcpOption>, rest: seq<byte>)
    ensures (forall x <- opts :: Encodable(x)) && Ends(rest) && o == Encode(opts) + rest
    decreases |o|
  {
    if Ends(o) {
      opts, rest := [], o;
    } else {
      var x := if o[0] == 1 then Nop else Opt(o[0], o[2..o[1]]);
      var n := |EncodeOne(x)|;
      assert o[..n] == EncodeOne(x);
      opts, rest := EveryListDecodes(o[n..]);
      opts := [x] + opts;
      assert o == o[..n] + o[n..];
    }
  }

  /** On any options the walk finds the body of the first well-formed MSS option, or nothing. */
  lemma {:induction false} WalkFindsFirstMss(pre: seq<byte>, opts: seq<TcpOption>, rest: seq<byte>)
    requires forall o <- opts :: Encodable(o)
    requires Ends(rest)
    ensures MssAt(pre + (Encode(opts) + rest), |pre|)
      == match FirstMss(opts) case None => None case Some(j) => Some(|pre| + j)
    decreases |opts|
  {
    hide MssAt, EncodeOne;
    if opts == [] {
      assert Encode(opts) + rest == rest;
      WalkEnds(pre, rest);
    } else {
      var one, tail := EncodeOne(opts[0]), Encode(opts[1..]) + rest;
      assert Encode(opts) + rest == one + tail;
      assert pre + (one + tail) == (pre + one) + tail;
      var o := (pre + one) + tail;
      OneOption(opts[0]);
      Front(o, pre, one, tail);
      WalkStep(o, |pre|, opts[0], |one|);
      WalkFindsFirstMss(pre + one, opts[1..], rest);
    }
  }

  lemma WalkEnds(pre: seq<byte>, rest: seq<byte>)
    requires Ends(rest)
    ensures MssAt(pre + rest, |pre|) == None
  {
    var o := pre + rest;
    assert rest != [] ==> o[|pre|] == rest[0];
    assert |rest| > 1 ==> o[|pre| + 1] == rest[1];
  }

  /** One round of the walk, at the offset i of an encoded option of n bytes. */
  lemma WalkStep(o: seq<byte>, i: nat, x: TcpOption, n: nat)
    requires Encodable(x) && n == |EncodeOne(x)| && i + n <= |o|
    requires if x.Nop? then o[i] == 1 else o[i] == x.kind && o[i + 1] == 2 + |x.body|
    ensures MssAt(o, i) == if IsMss(x) then Some(i + 2) else MssAt(o, i + n)
  {
    hide MssAt;
    MssAtUnfolds(o, i);
  }

  lemma OneOption(x: TcpOption)
    requires Encodable(x)
    ensures var one := EncodeOne(x);
      if x.Nop? then one == [1] else |one| == 2 + |x.body| && one[0] == x.kind && one[1] == |one|
  {
  }

  lemma Front(o: seq<byte>, pre: seq<byte>, one: seq<byte>, tail: seq<byte>)
    requires one != [] && o == pre + (one + tail)
    ensures |o| == |pre| + |one| + |tail| && o[|pre|] == one[0] && (|one| > 1 ==> o[|pre| + 1] == one[1])
  {
  }

  lemma MssAtUnfolds(o: seq<byte>, i: nat)
    requires i < |o| && o[i] != 0
    ensures o[i] == 1 ==> MssAt(o, i) == MssAt(o, i + 1)
    ensures o[i] != 1 && i + 1 < |o| && o[i + 1] >= 2 && i + o[i + 1] <= |o| ==>
      MssAt(o, i) == if o[i] == 2 && o[i + 1] == 4 then Some(i + 2) else MssAt(o, i + o[i + 1])
  {
  }

  /** Offset of the TCP header in a frame. */
  function TcpAt(f: seq<byte>): nat
    requires |f| >= 15
  {
    14 + f[14] % 0x10 * 4
  }

  /** Length of the TCP header, options included. */
  function TcpLen(f: seq<byte>): nat
    requires |f| >= 15 && |f| >= TcpAt(f) + 20
  {
    f[TcpAt(f) + 12] / 0x10 * 4
  }

  /** An IPv4 frame with a TCP SYN whose header lies inside the buffer. */
  predicate IsSyn(f: seq<byte>) {
    && |f| >= 54 && CarriesIPv4(f) && f[23] == 6 && |f| >= TcpAt(f) + 20
    && f[TcpAt(f) + 13] / 2 % 2 == 1 && 20 <= TcpLen(f) && TcpAt(f) + TcpLen(f) <= |f|
  }

  function Options(f: seq<byte>): seq<byte>
    requires IsSyn(f)
  {
    f[TcpAt(f) + 20..TcpAt(f) + TcpLen(f)]
  }

  /** Offset of the MSS value in the frame. */
  function MssOf(f: seq<byte>): (r: Option<nat>)
    requires IsSyn(f)
    ensures r.Some? ==> TcpAt(f) + 22 <= r.value && r.value + 2 <= TcpAt(f) + TcpLen(f)
  {
    match MssAt(Options(f), 0)
    case None => None
    case Some(j) => Some(TcpAt(f) + 20 + j)
  }

  /** The frame with the value at k replaced and the TCP checksum patched. */
  function WithMss(f: seq<byte>, t: nat, k: nat, mss: u16): (r: seq<byte>)
    requires t + 18 <= k && k + 1 < |f|
    ensures |r| == |f|
  {
    var g := Put16(f, k, mss);
    RawPut(g, t + 16, Updated(RawGet(f, t + 16), RawGet(f, k), RawGet(g, k)))
  }

  function Clamped(f: seq<byte>, maxMss: u16): seq<byte> {
    if maxMss == 0 || !IsSyn(f) then f
    else
      match MssOf(f)
      case None => f
      case Some(k) => if Get16(f, k) > maxMss then WithMss(f, TcpAt(f), k, maxMss) else f
  }

  method ClampTcpMss(frame: array<byte>, maxMss: u16)
    modifies frame
    ensures frame[..] == Clamped(old(frame[..]), maxMss)
  {
    hide Updated, MssAt;
    if maxMss == 0 || !IsSyn(frame[..]) {
      return;
    }
    var k := FindMss(frame);
    if k.Some? {
      ReplaceMss(frame, TcpAt(frame[..]), k.value, maxMss);
    }
  }

  /** The walk over the option bytes with a moving pointer. */
  method FindMss(frame: array<byte>) returns (k: Option<nat>)
    requires IsSyn(frame[..])
    ensures k == MssOf(frame[..])
  {
    var tcphdr := TcpAt(frame[..]);
    var opt, optEnd := tcphdr + 20, tcphdr + TcpLen(frame[..]);
    ghost var o := Options(frame[..]);
    while opt < optEnd
      invariant tcphdr + 20 <= opt <= optEnd
      invariant MssAt(o, opt - tcphdr - 20) == MssAt(o, 0)
    {
      assert o[opt - tcphdr - 20] == frame[opt];
      var kind := frame[opt];
      if kind == 0 {
        return None;
      }
      if kind == 1 {
        opt := opt + 1;
        continue;
      }
      if opt + 1 >= optEnd {
        return None;
      }
      assert o[opt - tcphdr - 19] == frame[opt + 1];
      var optLen := frame[opt + 1];
      if optLen < 2 || opt + optLen > optEnd {
        return None;
      }
      if kind == 2 && optLen == 4 {
        return Some(opt + 2);
      }
      opt := opt + optLen;
    }
    k := None;
  }

  /** The value at k capped, the checksum of the TCP header at t patched. */
  method ReplaceMss(frame: array<byte>, t: nat, k: nat, maxMss: u16)
    requires t + 18 <= k && k + 1 < frame.Length
    modifies frame
    ensures frame[..] == if Get16(old(frame[..]), k) > maxMss then WithMss(old(frame[..]), t, k, maxMss) else old(frame[..])
  {
    hide Updated;
    ghost var was := frame[..];
    if frame[k] as int * 0x100 + frame[k + 1] > maxMss {
      var oldMss := frame[k] + frame[k + 1] as int * 0x100;
      frame[k], frame[k + 1] := maxMss / 0x100, maxMss % 0x100;
      var newMss := frame[k] + frame[k + 1] as int * 0x100;
      var chksum := Rfc1624(frame[t + 16] + frame[t + 17] as int * 0x100, oldMss, newMss);
      frame[t + 16], frame[t + 17] := chksum % 0x100, chksum / 0x100;
      assert frame[..] == WithMss(was, t, k, maxMss);
    }
  }

  /** The clamp changes nothing but the MSS value and the TCP checksum. */
  lemma ClampTouches(f: seq<byte>, maxMss: u16, i: nat)
    requires i < |f| && Clamped(f, maxMss) != f
    ensures IsSyn(f) && MssOf(f).Some? && |Clamped(f, maxMss)| == |f|
    ensures var k, t := MssOf(f).value, TcpAt(f);
      i !in {k, k + 1, t + 16, t + 17} ==> Clamped(f, maxMss)[i] == f[i]
  {
    hide Updated;
  }

  lemma {:induction false} MssAtIgnoresValue(o: seq<byte>, o': seq<byte>, i: nat)
    requires i <= |o| == |o'| && MssAt(o, i).Some?
    requires forall j :: 0 <= j < |o| && j != MssAt(o, i).value && j != MssAt(o, i).value + 1 ==> o'[j] == o[j]
    ensures MssAt(o', i) == MssAt(o, i)
    decreases |o| - i
  {
    if o[i] == 1 {
      MssAtIgnoresValue(o, o', i + 1);
    } else if !(o[i] == 2 && o[i + 1] == 4) {
      MssAtIgnoresValue(o, o', i + o[i + 1]);
    }
  }

  /** g is f with another MSS value at k and another checksum. */
  ghost predicate DiffersAt(f: seq<byte>, g: seq<byte>, k: nat, t: nat) {
    |g| == |f| && forall i :: 0 <= i < |f| && i != k && i != k + 1 && i != t + 16 && i != t + 17 ==> g[i] == f[i]
  }

  lemma StillSyn(f: seq<byte>, g: seq<byte>)
    requires IsSyn(f) && MssOf(f).Some? && DiffersAt(f, g, MssOf(f).value, TcpAt(f))
    ensures IsSyn(g) && TcpAt(g) == TcpAt(f) && TcpLen(g) == TcpLen(f) && MssOf(g) == MssOf(f)
  {
    var k, t := MssOf(f).value, TcpAt(f);
    var o, o' := Options(f), g[t + 20..t + TcpLen(f)];
    forall j | 0 <= j < |o| && j != k - t - 20 && j != k - t - 19
      ensures o'[j] == o[j]
    {
      assert o[j] == f[t + 20 + j] && o'[j] == g[t + 20 + j];
    }
    MssAtIgnoresValue(o, o', 0);
  }

  lemma ClampDiffers(f: seq<byte>, maxMss: u16)
    requires Clamped(f, maxMss) != f
    ensures IsSyn(f) && MssOf(f).Some?
    ensures var g, k, t := Clamped(f, maxMss), MssOf(f).value, TcpAt(f);
      && DiffersAt(f, g, k, t) && g[k] == maxMss / 0x100 && g[k + 1] == maxMss % 0x100 && Get16(g, k) == maxMss
      && RawGet(g, t + 16) == Updated(RawGet(f, t + 16), RawGet(f, k), RawGet(g, k))
  {
    hide Updated, MssAt;
  }

  /** After the clamp the frame is still a SYN with its MSS value at the same place, at most the cap. */
  lemma ClampBounds(f: seq<byte>, maxMss: u16)
    requires maxMss > 0 && IsSyn(f) && MssOf(f).Some?
    ensures var g := Clamped(f, maxMss);
      IsSyn(g) && MssOf(g) == MssOf(f) && Get16(g, MssOf(f).value) <= maxMss
      && (Get16(f, MssOf(f).value) <= maxMss ==> g == f)
  {
    hide Updated, MssAt;
    if Clamped(f, maxMss) != f {
      ClampDiffers(f, maxMss);
      StillSyn(f, Clamped(f, maxMss));
    }
  }

  lemma ClampIsIdempotent(f: seq<byte>, maxMss: u16)
    ensures Clamped(Clamped(f, maxMss), maxMss) == Clamped(f, maxMss)
  {
    if maxMss > 0 && IsSyn(f) && MssOf(f).Some? {
      ClampBounds(f, maxMss);
    }
  }

  /** The TCP segment of a well-formed IPv4 frame, its header inside the datagram. */
  ghost predicate WellFormed(f: seq<byte>) {
    IsSyn(f) && TcpAt(f) >= 34 && TcpAt(f) + TcpLen(f) <= 14 + Get16(f, 16) <= |f|
  }

  function Segment(f: seq<byte>): seq<byte>
    requires |f| >= 18 && TcpAt(f) <= 14 + Get16(f, 16) <= |f|
  {
    f[TcpAt(f)..14 + Get16(f, 16)]
  }

  /** The TCP checksum over the pseudo-header and the segment. */
  ghost predicate TcpVerifies(f: seq<byte>)
    requires WellFormed(f)
  {
    var s := Segment(f);
    Verifies(Sum(f[26..34]) + 6 + |s| + Sum(s))
  }

  /** How far a clamp moves the sum of the segment. */
  lemma ClampedSum(f: seq<byte>, maxMss: u16)
    requires WellFormed(f) && Clamped(f, maxMss) != f
    ensures var g, k, t := Clamped(f, maxMss), MssOf(f).value, TcpAt(f);
      && WellFormed(g) && |Segment(g)| == |Segment(f)| && g[26..34] == f[26..34]
      && Sum(Segment(g)) - Sum(Segment(f)) == Get16(g, t + 16) - Get16(f, t + 16) +
         (if (k - t) % 2 == 0 then Get16(g, k) - Get16(f, k) else RawGet(g, k) - RawGet(f, k))
  {
    hide Updated, Sum, Clamped, MssAt, Get16, RawGet;
    ClampDiffers(f, maxMss);
    var g, k, t := Clamped(f, maxMss), MssOf(f).value, TcpAt(f);
    StillSyn(f, g);
    SameWord(f, g, 16);
    SliceSum(f, g, t, 14 + Get16(f, 16), k);
  }

  lemma SameWord(f: seq<byte>, g: seq<byte>, k: nat)
    requires k + 1 < |f| && k + 1 < |g| && f[k] == g[k] && f[k + 1] == g[k + 1]
    ensures Get16(f, k) == Get16(g, k)
  {
  }

  lemma SliceSum(f: seq<byte>, g: seq<byte>, t: nat, e: nat, k: nat)
    requires t + 20 <= k && k + 1 < e <= |f| && ((k - t) % 2 == 1 ==> k + 2 < e) && DiffersAt(f, g, k, t)
    ensures Sum(g[t..e]) - Sum(f[t..e]) == Get16(g, t + 16) - Get16(f, t + 16) +
      (if (k - t) % 2 == 0 then Get16(g, k) - Get16(f, k) else RawGet(g, k) - RawGet(f, k))
  {
    hide Sum;
    var s, r := f[t..e], g[t..e];
    assert forall i :: 0 <= i < e - t ==> s[i] == f[t + i] && r[i] == g[t + i];
    SegmentSum(s, r, k - t);
  }

  lemma SegmentSum(s: seq<byte>, r: seq<byte>, k: nat)
    requires k >= 20 && k + 1 < |s| && (k % 2 == 1 ==> k + 2 < |s|) && DiffersAt(s, r, k, 0)
    ensures Sum(r) - Sum(s) == Get16(r, 16) - Get16(s, 16) +
      (if k % 2 == 0 then Get16(r, k) - Get16(s, k) else RawGet(r, k) - RawGet(s, k))
  {
    hide Sum;
    var u := Put16(s, k, Get16(r, k));
    BytesOf(r[16], r[17]);
    BytesOf(r[k], r[k + 1]);
    assert r == Put16(u, 16, Get16(r, 16));
    SumPut(u, 16, Get16(r, 16));
    if k % 2 == 0 {
      SumPut(s, k, Get16(r, k));
    } else {
      SumPutOdd(s, k, r[k], r[k + 1]);
    }
  }

  /**
    A valid TCP checksum stays valid under the clamp exactly when the MSS value
    is at an even offset of the segment, or moves by a multiple of 257.
  */
  lemma ClampKeepsChecksumIff(f: seq<byte>, maxMss: u16)
    requires WellFormed(f) && TcpVerifies(f) && Clamped(f, maxMss) != f
    ensures var k := MssOf(f).value;
      WellFormed(Clamped(f, maxMss)) &&
      (TcpVerifies(Clamped(f, maxMss)) <==>
        (k - TcpAt(f)) % 2 == 0 || (Get16(f, k) - maxMss) % 257 == 0)
  {
    hide Updated, Sum, Fold, Clamped, MssAt, RawGet, Get16, Verifies;
    ClampDiffers(f, maxMss);
    ClampedSum(f, maxMss);
    var g, k, t := Clamped(f, maxMss), MssOf(f).value, TcpAt(f);
    var b := Sum(f[26..34]) + 6 + |Segment(f)|;
    VerifiesIff(b + Sum(Segment(f)));
    VerifiesIff(b + Sum(Segment(g)));
    var dc := Get16(g, t + 16) - Get16(f, t + 16);
    if (k - t) % 2 == 0 {
      WordsBalance(f, g, g, t + 16, k);
      ShiftedTotal(b + Sum(Segment(f)), dc + Get16(g, k) - Get16(f, k));
    } else {
      OddBalance(f, g, t + 16, k);
      ShiftedTotal(b + Sum(Segment(f)), dc + RawGet(g, k) - RawGet(f, k));
    }
  }

  lemma ShiftedTotal(a: int, d: int)
    requires a % 0xffff == 0
    ensures (a + d) % 0xffff == 0 <==> d % 0xffff == 0
  {
    SameResidue(a + d, d, a / 0xffff);
  }

  /** With the patched word counted byte-swapped, the two changes cancel only modulo 257. */
  lemma OddBalance(f: seq<byte>, g: seq<byte>, c: nat, m: nat)
    requires c + 1 < |f| && m + 1 < |f| && m + 1 < |g| && c + 1 < |g|
    requires RawGet(g, c) == Updated(RawGet(f, c), RawGet(f, m), RawGet(g, m))
    ensures (Get16(g, c) - Get16(f, c) + RawGet(g, m) - RawGet(f, m)) % 0xffff == 0
      <==> (Get16(f, m) - Get16(g, m)) % 257 == 0
  {
    hide Updated, RawGet, Get16;
    SwapIsShift(f, c);
    SwapIsShift(g, c);
    Shifted(Get16(f, c), RawGet(f, c), Get16(g, c), RawGet(g, c));
    UpdatedResidue(RawGet(f, c), RawGet(f, m), RawGet(g, m));
    ResidueOfDifference(RawGet(g, c) + RawGet(g, m), RawGet(f, c) + RawGet(f, m));
    OddDelta(Get16(g, c) - Get16(f, c), RawGet(g, c) - RawGet(f, c), RawGet(f, m) - RawGet(g, m));
    MirrorWords(f, g, m);
  }

  lemma MirrorWords(f: seq<byte>, g: seq<byte>, m: nat)
    requires m + 1 < |f| && m + 1 < |g|
    ensures (Get16(f, m) - Get16(g, m)) % 257 == 0 <==> (RawGet(f, m) - RawGet(g, m)) % 257 == 0
  {
    Mirror(Get16(f, m) - Get16(g, m), RawGet(f, m) - RawGet(g, m), f[m] as int + f[m + 1] - g[m] - g[m + 1]);
  }

  lemma OddDelta(dc: int, d: int, x: int)
    requires (dc - 0x100 * d) % 0xffff == 0 && (d - x) % 0xffff == 0
    ensures (dc - x) % 0xffff == 0 <==> x % 257 == 0
  {
    var a, b := (dc - 0x100 * d) / 0xffff, (d - x) / 0xffff;
    assert dc - x == 255 * x + 0xffff * (a + 0x100 * b);
    SameResidue(dc - x, 255 * x, a + 0x100 * b);
    if (255 * x) % 0xffff == 0 {
      assert x == 257 * (255 * x / 0xffff);
    }
    if x % 257 == 0 {
      assert 255 * x == 0xffff * (x / 257);
    }
  }

  lemma Mirror(y: int, x: int, w: int)
    requires y == 257 * w - x
    ensures y % 257 == 0 <==> x % 257 == 0
  {
  }

  // ----- a frame the clamp breaks

  /** The bytes of a SYN from 10.0.0.1 to 10.0.0.2 whose options are NOP, MSS 1460, two NOPs and the end of the list. */
  function OddByte(i: nat): byte {
    match i
    case 12 => 8
    case 14 => 0x45
    case 17 => 48
    case 22 => 64
    case 23 => 6
    case 26 => 10
    case 29 => 1
    case 30 => 10
    case 33 => 2
    case 34 => 4
    case 37 => 80
    case 41 => 1
    case 46 => 0x70
    case 47 => 2
    case 48 => 0xff
    case 49 => 0xff
    case 50 => 0xbd
    case 51 => 0x7e
    case 54 => 1
    case 55 => 2
    case 56 => 4
    case 57 => 0x05
    case 58 => 0xb4
    case 59 => 1
    case 60 => 1
    case _ => 0
  }

  function OddSyn(): (f: seq<byte>)
    ensures |f| == 62 && forall i :: 0 <= i < 62 ==> f[i] == OddByte(i)
  {
    seq(62, i requires 0 <= i < 62 => OddByte(i))
  }

  /** The four words of s from offset i on, in front of the rest. */
  lemma FourWords(s: seq<byte>, i: nat)
    requires i + 8 <= |s|
    ensures Sum(s[i..]) == Be16(s[i], s[i + 1]) + Be16(s[i + 2], s[i + 3]) + Be16(s[i + 4], s[i + 5])
                           + Be16(s[i + 6], s[i + 7]) + Sum(s[i + 8..])
  {
    hide Be16;
    assert s[i..][2..] == s[i + 2..];
    assert s[i + 2..][2..] == s[i + 4..];
    assert s[i + 4..][2..] == s[i + 6..];
    assert s[i + 6..][2..] == s[i + 8..];
    assert Sum(s[i..]) == Be16(s[i], s[i + 1]) + Sum(s[i + 2..]);
    assert Sum(s[i + 2..]) == Be16(s[i + 2], s[i + 3]) + Sum(s[i + 4..]);
    assert Sum(s[i + 4..]) == Be16(s[i + 4], s[i + 5]) + Sum(s[i + 6..]);
  }

  lemma SumOfAddresses(f: seq<byte>)
    requires f == OddSyn()
    ensures Sum(f[26..34]) == 0x1403
  {
    hide Sum, OddSyn;
    var s := f[26..34];
    assert forall i :: 0 <= i < 8 ==> s[i] == OddByte(26 + i);
    assert s[0..] == s;
    FourWords(s, 0);
    SumNothing(s[8..]);
  }

  lemma SumNothing(s: seq<byte>)
    requires s == []
    ensures Sum(s) == 0
  {
  }

  lemma SumOfSegment(f: seq<byte>)
    requires f == OddSyn()
    ensures Sum(f[34..62]) == 0x2_ebd8
  {
    hide Sum, OddByte;
    PortsAndSequence(f);
    AckAndWindow(f);
    ChecksumAndOptions(f);
    LastOptions(f);
    assert f[34..62] == f[34..];
  }

  lemma PortsAndSequence(f: seq<byte>)
    requires f == OddSyn()
    ensures Sum(f[34..]) == 0x451 + Sum(f[42..])
  {
    hide Sum;
    FourWords(f, 34);
  }

  lemma AckAndWindow(f: seq<byte>)
    requires f == OddSyn()
    ensures Sum(f[42..]) == 0x1_7001 + Sum(f[50..])
  {
    hide Sum;
    FourWords(f, 42);
  }

  lemma ChecksumAndOptions(f: seq<byte>)
    requires f == OddSyn()
    ensures Sum(f[50..]) == 0xc285 + Sum(f[58..])
  {
    hide Sum;
    FourWords(f, 50);
  }

  lemma LastOptions(f: seq<byte>)
    requires f == OddSyn()
    ensures Sum(f[58..]) == 0xb501
  {
    var s := f[58..];
    assert s[0] == 0xb4 && s[1] == 1 && s[2] == 1 && s[3] == 0;
    assert Sum(s[2..]) == 0x100 + Sum(s[2..][2..]);
  }

  lemma OddSynShape()
    ensures WellFormed(OddSyn()) && TcpAt(OddSyn()) == 34 && MssOf(OddSyn()) == Some(57)
    ensures Segment(OddSyn()) == OddSyn()[34..62] && Get16(OddSyn(), 57) == 1460
  {
    hide OddSyn;
    var f := OddSyn();
    assert IsSyn(f) && TcpLen(f) == 28;
    var o := Options(f);
    assert |o| == 8 && forall i :: 0 <= i < 8 ==> o[i] == OddByte(54 + i);
    assert MssAt(o, 1) == Some(3);
  }

  /** Its checksum is valid, and clamping the value to 1400 leaves it invalid. */
  lemma OddSynBreaks()
    ensures WellFormed(OddSyn()) && TcpVerifies(OddSyn())
    ensures WellFormed(Clamped(OddSyn(), 1400)) && !TcpVerifies(Clamped(OddSyn(), 1400))
  {
    hide Sum, Fold, Verifies, MssOf, WithMss, OddSyn, OddByte, WellFormed, IsSyn, TcpAt, Get16, Segment;
    var f := OddSyn();
    OddSynShape();
    SumOfAddresses(f);
    SumOfSegment(f);
    VerifiesIff(0x1403 + 6 + 28 + 0x2_ebd8);
    OddSynLength(f);
    OddSynChanges(f);
    ClampKeepsChecksumIff(f, 1400);
  }

  lemma OddSynLength(f: seq<byte>)
    requires f == OddSyn()
    ensures |f| == 62
  {
  }

  lemma OddSynChanges(f: seq<byte>)
    requires WellFormed(f) && MssOf(f) == Some(57) && Get16(f, 57) == 1460
    ensures Clamped(f, 1400) != f
  {
    hide MssAt;
    ClampBounds(f, 1400);
  }
}
