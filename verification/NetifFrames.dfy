/** What the TTL override and the MSS clamp do to a frame put together from its headers. */
module NetifFrames {
  import opened Words
  import opened Checksum
  import opened NetifHooks

  ghost predicate LinkOf(link: seq<byte>, ipv4: bool) {
    |link| == 14 && (ipv4 <==> link[12] == 0x08 && link[13] == 0x00)
  }

  /** An IPv4 header as long as its length field says. */
  ghost predicate HeaderOf(header: seq<byte>) {
    |header| >= 20 && header[0] / 0x10 == 4 && header[0] % 0x10 * 4 == |header|
  }

  // ----- TTL override

  /** Every IPv4 frame leaves with the overriding TTL; nothing else but the header checksum changes. */
  lemma OverrideSetsTtl(link: seq<byte>, rest: seq<byte>, ttl: byte)
    requires LinkOf(link, true) && |rest| >= 20 && rest[0] / 0x10 == 4 && ttl > 0
    ensures var f := link + rest; var g := Overridden(f, ttl);
      && |g| == |f| && g[22] == ttl
      && forall i :: 0 <= i < |f| && i !in {22, 24, 25} ==> g[i] == f[i]
  {
    hide Updated;
    var f := link + rest;
    assert f[12] == link[12] && f[13] == link[13] && f[14] == rest[0];
  }

  /** An override of 0 and anything that is not a whole IPv4 header change nothing. */
  lemma OverrideLeavesOthers(link: seq<byte>, rest: seq<byte>, ttl: byte)
    requires |link| == 14
    requires ttl == 0 || LinkOf(link, false) || |rest| < 20 || rest[0] / 0x10 != 4
    ensures Overridden(link + rest, ttl) == link + rest
  {
    hide Updated;
    var f := link + rest;
    assert f[12] == link[12] && f[13] == link[13] && (rest != [] ==> f[14] == rest[0]);
  }

  // ----- MSS clamp

  /** A TCP segment on Ethernet: its headers, the options up to where they end, that end, and what follows. */
  datatype Frame = Frame(link: seq<byte>, header: seq<byte>, tcp: seq<byte>, opts: seq<TcpOption>, end: seq<byte>, rest: seq<byte>)

  ghost predicate AllEncodable(opts: seq<TcpOption>) {
    forall o <- opts :: Encodable(o)
  }

  ghost predicate Good(x: Frame) {
    && LinkOf(x.link, true) && HeaderOf(x.header) && x.header[9] == 6 && |x.tcp| == 20
    && AllEncodable(x.opts) && Ends(x.end) && x.tcp[12] / 0x10 * 4 == 20 + |Encode(x.opts)| + |x.end|
  }

  function Bytes(x: Frame): seq<byte>
    requires AllEncodable(x.opts)
  {
    x.link + x.header + x.tcp + (Encode(x.opts) + x.end) + x.rest
  }

  ghost predicate SynBit(x: Frame)
    requires |x.tcp| == 20
  {
    x.tcp[13] / 2 % 2 == 1
  }

  ghost predicate FourByteMss(o: TcpOption) {
    o.Opt? && o.kind == 2 && |o.body| == 2
  }

  /** Option i is the first with a four-byte MSS. */
  ghost predicate FirstMssIs(opts: seq<TcpOption>, i: nat) {
    i < |opts| && FourByteMss(opts[i]) && forall j :: 0 <= j < i ==> !FourByteMss(opts[j])
  }

  /** Where its value lies among the encoded options. */
  function ValueAt(opts: seq<TcpOption>, i: nat): nat
    requires i < |opts| && AllEncodable(opts)
  {
    |Encode(opts[..i])| + 2
  }

  lemma {:induction false} FindsFirstMss(opts: seq<TcpOption>, i: nat)
    requires AllEncodable(opts) && FirstMssIs(opts, i)
    ensures FirstMss(opts) == Some(ValueAt(opts, i))
  {
    hide EncodeOne;
    assert opts[0] in opts;
    if i > 0 {
      assert opts[..i][0] == opts[0] && opts[..i][1..] == opts[1..][..i - 1];
      FindsFirstMss(opts[1..], i - 1);
    }
  }

  lemma {:induction false} FindsNoMss(opts: seq<TcpOption>)
    requires AllEncodable(opts) && forall o <- opts :: !FourByteMss(o)
    ensures FirstMss(opts) == None
  {
    if opts != [] {
      assert opts[0] in opts;
      FindsNoMss(opts[1..]);
    }
  }

  lemma {:induction false} EncodeSplits(opts: seq<TcpOption>, i: nat)
    requires AllEncodable(opts) && i < |opts|
    ensures Encode(opts) == Encode(opts[..i]) + (EncodeOne(opts[i]) + Encode(opts[i + 1..]))
  {
    hide Encodable, EncodeOne;
    if i > 0 {
      assert opts[..i][0] == opts[0] && opts[..i][1..] == opts[1..][..i - 1];
      EncodeSplits(opts[1..], i - 1);
    }
  }

  /** The two bytes behind an option's kind and length. */
  lemma BodyAt(front: seq<byte>, mss: u16, back: seq<byte>)
    ensures var f, k := front + (EncodeOne(Opt(2, Bytes16(mss))) + back), |front| + 2;
      k + 2 <= |f| && f[k..k + 2] == Bytes16(mss)
  {
    hide Bytes16;
    var one := EncodeOne(Opt(2, Bytes16(mss)));
    var f, k := front + (one + back), |front| + 2;
    assert one[2..] == Bytes16(mss);
    assert f[k] == one[2] && f[k + 1] == one[3];
  }

  /** Where the parts of a frame lie. */
  lemma Parts(x: Frame)
    requires Good(x)
    ensures var f := Bytes(x);
      && |f| >= 54 && TcpAt(f) == 14 + |x.header| && TcpAt(f) + 20 <= |f|
      && (IsSyn(f) <==> SynBit(x)) && (SynBit(x) ==> Options(f) == Encode(x.opts) + x.end)
  {
    hide Encode, Ends;
    var f, options := Bytes(x), Encode(x.opts) + x.end;
    assert f[12] == x.link[12] && f[13] == x.link[13] && f[14] == x.header[0] && f[23] == x.header[9];
    assert f[14 + |x.header| + 12] == x.tcp[12] && f[14 + |x.header| + 13] == x.tcp[13];
    assert f[14 + |x.header| + 20..34 + |x.header| + |options|] == options;
  }

  /** Nothing but the value at k and the checksum of the TCP header at t differs. */
  ghost predicate MssOnly(f: seq<byte>, g: seq<byte>, k: nat, t: nat) {
    |g| == |f| && forall i :: 0 <= i < |f| && i !in {k, k + 1, t + 16, t + 17} ==> g[i] == f[i]
  }

  lemma ClampAt(f: seq<byte>, k: nat, mss: u16, maxMss: u16)
    requires IsSyn(f) && MssOf(f) == Some(k) && k + 2 <= |f| && f[k..k + 2] == Bytes16(mss)
    ensures var g := Clamped(f, maxMss);
      |g| == |f| &&
      if 0 < maxMss < mss then g[k..k + 2] == Bytes16(maxMss) && MssOnly(f, g, k, TcpAt(f)) else g == f
  {
    hide Updated, MssOf, IsSyn;
    var b := Bytes16(mss);
    assert f[k] == b[0] && f[k + 1] == b[1];
    Bytes16Back(mss);
  }

  lemma NotSyn(f: seq<byte>, maxMss: u16)
    requires !IsSyn(f)
    ensures Clamped(f, maxMss) == f
  {
  }

  lemma Regroup(pre: seq<byte>, a: seq<byte>, one: seq<byte>, b: seq<byte>, end: seq<byte>, rest: seq<byte>)
    ensures pre + ((a + (one + b)) + end) + rest == (pre + a) + (one + (b + end + rest))
  {
  }

  lemma ValueLiesAt(x: Frame, i: nat, mss: u16)
    requires Good(x) && FirstMssIs(x.opts, i) && x.opts[i].body == Bytes16(mss)
    ensures var f, k := Bytes(x), 34 + |x.header| + ValueAt(x.opts, i); k + 2 <= |f| && f[k..k + 2] == Bytes16(mss)
  {
    hide Encode, EncodeOne, Bytes16, Ends, Encodable;
    EncodeSplits(x.opts, i);
    var pre, a, b := x.link + x.header + x.tcp, Encode(x.opts[..i]), Encode(x.opts[i + 1..]);
    Regroup(pre, a, EncodeOne(x.opts[i]), b, x.end, x.rest);
    assert x.opts[i] == Opt(2, Bytes16(mss));
    BodyAt(pre + a, mss, b + x.end + x.rest);
  }

  lemma WalkFinds(x: Frame, i: nat)
    requires Good(x) && FirstMssIs(x.opts, i)
    ensures MssAt(Encode(x.opts) + x.end, 0) == Some(ValueAt(x.opts, i))
  {
    hide Encode, FirstMss, MssAt, Ends, ValueAt, Encodable;
    FindsFirstMss(x.opts, i);
    assert [] + (Encode(x.opts) + x.end) == Encode(x.opts) + x.end;
    WalkFindsFirstMss([], x.opts, x.end);
  }

  /**
    A SYN, whatever its other flags, leaves with its first four-byte MSS value lowered to
    the cap if it was above, and untouched if it was not; other TCP segments are left alone.
  */
  lemma SynIsClamped(x: Frame, i: nat, mss: u16, maxMss: u16)
    requires Good(x) && FirstMssIs(x.opts, i) && x.opts[i].body == Bytes16(mss)
    ensures var f, k := Bytes(x), 34 + |x.header| + ValueAt(x.opts, i); var g := Clamped(f, maxMss);
      && k + 2 <= |f| == |g| && f[k..k + 2] == Bytes16(mss)
      && if SynBit(x) && 0 < maxMss < mss
         then g[k..k + 2] == Bytes16(maxMss) && MssOnly(f, g, k, 14 + |x.header|) else g == f
  {
    hide Bytes, ValueAt, MssAt, IsSyn, Clamped, TcpAt, Bytes16, MssOnly, Encode, Ends, Encodable;
    var f := Bytes(x);
    Parts(x);
    WalkFinds(x, i);
    ValueLiesAt(x, i, mss);
    if SynBit(x) {
      ClampAt(f, 34 + |x.header| + ValueAt(x.opts, i), mss, maxMss);
    } else {
      NotSyn(f, maxMss);
    }
  }

  /** Without a four-byte MSS option the frame is left alone. */
  lemma OthersAreLeft(x: Frame, maxMss: u16)
    requires Good(x) && forall o <- x.opts :: !FourByteMss(o)
    ensures Clamped(Bytes(x), maxMss) == Bytes(x)
  {
    hide Bytes, MssAt, IsSyn, FirstMss, Encode;
    Parts(x);
    FindsNoMss(x.opts);
    assert [] + (Encode(x.opts) + x.end) == Encode(x.opts) + x.end;
    WalkFindsFirstMss([], x.opts, x.end);
  }

  /** So is anything but TCP over IPv4. */
  lemma NonTcpIsLeft(link: seq<byte>, header: seq<byte>, rest: seq<byte>, maxMss: u16)
    requires |link| == 14 && HeaderOf(header) && (LinkOf(link, false) || header[9] != 6)
    ensures var f := link + header + rest; Clamped(f, maxMss) == f
  {
    var f := link + header + rest;
    assert f[12] == link[12] && f[13] == link[13] && f[23] == header[9];
  }
}
