/**
  The 4via6 translation on values: which packets it takes, what it makes of
  them, and why replies find their way back and every checksum verifies.
*/
module FourVia6 {
  import opened Words
  import opened Arithmetic
  import opened Checksum
  import opened FlowTable

  const VIA_PREFIX: seq<byte> := [0xfd, 0x7a, 0x11, 0x5c, 0xa1, 0xe0, 0x0b, 0x1a]

  /** A packet buffer: its total length is a 16-bit field. */
  type Packet = p: seq<byte> | |p| < 0x1_0000

  datatype Config = Config(enabled: bool, network: u32, prefixLen: nat, site: u16)

  ghost predicate ValidConfig(c: Config) {
    c.prefixLen <= 32 && c.network == Masked(c.network, c.prefixLen)
  }

  function Read32(s: seq<byte>, k: nat): u32
    requires k + 3 < |s|
  {
    Be32(s[k], s[k + 1], s[k + 2], s[k + 3])
  }

  lemma Bytes32RoundTrip(s: seq<byte>, k: nat)
    requires k + 3 < |s|
    ensures Bytes32(Read32(s, k)) == s[k..k + 4]
  {
    Octets(s[k], s[k + 1], s[k + 2], s[k + 3]);
  }

  lemma Get16Bytes16(s: seq<byte>, k: nat, x: u16)
    requires k + 1 < |s| && s[k..k + 2] == Bytes16(x)
    ensures Get16(s, k) == x
  {
    assert s[k] == s[k..k + 2][0] && s[k + 1] == s[k..k + 2][1];
  }

  // ----- from IPv6 to IPv4

  predicate Special(ip: u32) {
    ip / 0x100_0000 == 127 || ip / 0x1000_0000 == 0xe || ip == 0 || ip == 0xffff_ffff ||
    AlignDown(ip, 0x40_0000) == 0x6440_0000
  }

  predicate TargetAllowed(c: Config, ip: u32)
    requires c.prefixLen <= 32
  {
    !Special(ip) && Masked(ip, c.prefixLen) == c.network
  }

  function PayloadLen(p: seq<byte>): u16
    requires |p| >= 40
  {
    Get16(p, 4)
  }

  function TargetOf(p: seq<byte>): u32
    requires |p| >= 40
  {
    Read32(p, 36)
  }

  /** Inside the configured site of the 4via6 range. */
  predicate Ours(c: Config, p: seq<byte>) {
    |p| >= 40 && p[0] / 0x10 == 6 && c.enabled && p[24..32] == VIA_PREFIX && Read32(p, 32) == c.site
  }

  predicate Acceptable(c: Config, p: seq<byte>, peer: u32)
    requires |p| >= 40 && c.prefixLen <= 32
  {
    TargetAllowed(c, TargetOf(p)) && peer != 0 && |p| >= 40 + PayloadLen(p) && p[7] > 1 && p[6] in {6, 17, 58}
  }

  /** The payload holds the header its protocol needs, and an ICMPv6 payload is an echo. */
  predicate Carriable(p: seq<byte>)
    requires |p| >= 40 && |p| >= 40 + PayloadLen(p)
  {
    PayloadLen(p) >= 8 && (p[6] == 6 ==> PayloadLen(p) >= 20) && (p[6] == 58 ==> p[40] in {128, 129})
  }

  predicate Translatable(c: Config, p: seq<byte>, peer: u32)
    requires c.prefixLen <= 32
  {
    Ours(c, p) && Acceptable(c, p, peer) && Carriable(p)
  }

  function TupleOf(p: seq<byte>, peer: u32): FiveTuple
    requires |p| >= 48
  {
    if p[6] == 58 then FiveTuple(1, peer, TargetOf(p), Get16(p, 44), 0)
    else FiveTuple(p[6], peer, TargetOf(p), Get16(p, 40), Get16(p, 42))
  }

  function PseudoHeader4(src: u32, dst: u32, protocol: byte, length: u16): seq<byte> {
    Bytes32(src) + Bytes32(dst) + [0, protocol] + Bytes16(length)
  }

  function Body4(payload: seq<byte>, next: byte, src: u32, dst: u32): (r: seq<byte>)
    requires 8 <= |payload| < 0x1_0000 && (next == 6 ==> |payload| >= 20)
    ensures |r| == |payload|
  {
    if next == 6 then Sealed(payload, 16, Sum(PseudoHeader4(src, dst, 6, |payload|)))
    else if next == 17 then SealedUdp(payload, 6, Sum(PseudoHeader4(src, dst, 17, |payload|)))
    else Sealed(payload[0 := if payload[0] == 128 then 8 else 0], 2, 0)
  }

  function BareHeader4(tos: byte, length: u16, ident: u16, ttl: byte, protocol: byte, src: u32, dst: u32): (r: seq<byte>)
    ensures |r| == 20
  {
    [0x45, tos] + Bytes16(length) + Bytes16(ident) + [0x40, 0, ttl, protocol, 0, 0] + Bytes32(src) + Bytes32(dst)
  }

  /** The IPv4 packet made of an IPv6 packet. */
  function V4Of(p: seq<byte>, peer: u32, ident: u16): (r: seq<byte>)
    requires |p| < 0x1_0000 && |p| >= 40 && |p| >= 40 + PayloadLen(p) && Carriable(p) && p[7] > 1
    ensures |r| == 20 + PayloadLen(p)
  {
    var n := PayloadLen(p);
    Sealed(BareHeader4(p[0] % 0x10, 20 + n, ident, p[7] - 1, if p[6] == 58 then 1 else p[6], peer, TargetOf(p)), 10, 0)
    + Body4(p[40..40 + n], p[6], peer, TargetOf(p))
  }

  /** Not for the translator, refused, taken but not forwarded, or forwarded as this IPv4 packet. */
  datatype InputResult = NotOurs | Dropped | Swallowed | Forwarded(v4: seq<byte>)

  function InputVerdict(c: Config, p: Packet, peer: u32, ident: u16): InputResult
    requires c.prefixLen <= 32
  {
    if !Ours(c, p) then NotOurs
    else if !Acceptable(c, p, peer) then Dropped
    else if !Carriable(p) then Swallowed
    else Forwarded(V4Of(p, peer, ident))
  }

  // ----- from IPv4 to IPv6

  predicate IsIPv4(q: seq<byte>) {
    |q| >= 20 && 0x40 <= q[0] <= 0x4f
  }

  function HeaderLen(q: seq<byte>): nat
    requires IsIPv4(q)
  {
    (q[0] - 0x40) * 4
  }

  function TotalLen(q: seq<byte>): u16
    requires |q| >= 20
  {
    Get16(q, 2)
  }

  /** A whole, unfragmented TCP, UDP or ICMP echo packet with eight payload bytes. */
  predicate Returnable(q: seq<byte>) {
    && IsIPv4(q)
    && 20 <= HeaderLen(q) <= TotalLen(q) <= |q| && Get16(q, 6) in {0, 0x4000, 0x8000, 0xc000}
    && q[9] in {6, 17, 1} && TotalLen(q) >= HeaderLen(q) + 8
    && (q[9] == 1 ==> q[HeaderLen(q)] in {0, 8})
  }

  function ReplyTuple(q: seq<byte>): FiveTuple
    requires Returnable(q)
  {
    var k := HeaderLen(q);
    if q[9] == 1 then FiveTuple(1, Read32(q, 16), Read32(q, 12), Get16(q, k + 4), 0)
    else FiveTuple(q[9], Read32(q, 16), Read32(q, 12), Get16(q, k + 2), Get16(q, k))
  }

  /** The new packet has a 16-bit length and its checksum field lies inside it. */
  predicate Fits(q: seq<byte>)
    requires Returnable(q)
  {
    var n := TotalLen(q) - HeaderLen(q);
    40 + n < 0x1_0000 && (q[9] == 6 ==> n >= 18)
  }

  function PseudoTail6(length: nat, next: byte): seq<byte>
    requires length < 0x1_0000
  {
    Bytes32(length) + [0, 0, 0, next]
  }

  function Base6(src: seq<byte>, dst: seq<byte>, length: nat, next: byte): nat
    requires length < 0x1_0000
  {
    Sum(src) + Sum(dst) + Sum(PseudoTail6(length, next))
  }

  function Body6(payload: seq<byte>, protocol: byte, src: seq<byte>, dst: seq<byte>): (r: seq<byte>)
    requires 8 <= |payload| < 0x1_0000 && (protocol == 6 ==> |payload| >= 18)
    ensures |r| == |payload|
  {
    if protocol == 6 then Sealed(payload, 16, Base6(src, dst, |payload|, 6))
    else if protocol == 17 then SealedUdp(payload, 6, Base6(src, dst, |payload|, 17))
    else Sealed(payload[0 := if payload[0] == 0 then 129 else 128], 2, Base6(src, dst, |payload|, 58))
  }

  /** The 4via6 address of an IPv4 host of the site. */
  function SiteAddress(site: u16, target: u32): (r: seq<byte>)
    ensures |r| == 16
  {
    VIA_PREFIX + [0, 0] + Bytes16(site) + Bytes32(target)
  }

  function Header6(site: u16, q: seq<byte>, client: seq<byte>): (r: seq<byte>)
    requires Returnable(q) && |client| == 16
    ensures |r| == 40 && r[0] / 0x10 == 6 && r[4..6] == Bytes16(TotalLen(q) - HeaderLen(q))
    ensures r[6] == if q[9] == 1 then 58 else q[9]
    ensures r[8..24] == SiteAddress(site, Read32(q, 12)) && r[24..40] == client
  {
    [0x60 + q[1] / 0x10, 0, 0, 0] + Bytes16(TotalLen(q) - HeaderLen(q))
    + [if q[9] == 1 then 58 else q[9], if q[8] > 1 then q[8] - 1 else 1]
    + SiteAddress(site, Read32(q, 12)) + client
  }

  /** What a receiver of an IPv6 packet checks, with the pseudo-header of section 8.1 of RFC 8200. */
  predicate Verifies6(o: seq<byte>) {
    && |o| >= 40 && 0x60 <= o[0] <= 0x6f && |o| == 40 + Get16(o, 4)
    && Verifies(Sum(o[8..24]) + Sum(o[24..40]) + Sum(Bytes32(|o| - 40) + [0, 0, 0, o[6]]) + Sum(o[40..]))
  }

  /** An IPv6 packet from src to dst. */
  ghost predicate Between(o: seq<byte>, src: seq<byte>, dst: seq<byte>) {
    |o| >= 40 && o[8..24] == src && o[24..40] == dst
  }

  /** The IPv6 packet made of an IPv4 packet on its way back: it verifies, and goes from the target to the client. */
  function V6Of(site: u16, q: seq<byte>, client: seq<byte>): (r: seq<byte>)
    requires Returnable(q) && Fits(q) && |client| == 16
    ensures |r| == 40 + TotalLen(q) - HeaderLen(q)
    ensures Verifies6(r) && Between(r, SiteAddress(site, Read32(q, 12)), client)
  {
    Lengths(q);
    var payload, src := q[HeaderLen(q)..TotalLen(q)], SiteAddress(site, Read32(q, 12));
    var h, body := Header6(site, q, client), Body6(payload, q[9], src, client);
    BodyVerifies6(payload, q[9], src, client);
    Shape6(site, q, client, payload, src);
    Assemble6(h, body, src, client, if q[9] == 1 then 58 else q[9]);
    h + body
  }

  /** Left alone, sent on as this IPv6 packet, or beyond what the output buffer holds. */
  datatype OutputResult = Passed | Sent(v6: seq<byte>) | Oversized

  function OutputVerdict(c: Config, q: seq<byte>, found: Option<Flow>): OutputResult
    requires Returnable(q) && (found.Some? ==> |found.value.client| == 16)
  {
    if found.None? then Passed
    else if !Fits(q) then Oversized
    else Sent(V6Of(c.site, q, found.value.client))
  }

  // ----- every packet sent out verifies

  /** What a receiver of an IPv4 packet checks, read off the packet alone. */
  predicate Verifies4(o: seq<byte>) {
    && |o| >= 20 && o[0] == 0x45 && TotalLen(o) == |o| && Verifies(Sum(o[..20]))
    && var body := o[20..];
       if o[9] == 1 then Verifies(Sum(body))
       else Verifies(Sum(o[12..20]) + Sum([0, o[9]] + Bytes16(|body|)) + Sum(body))
  }

  lemma TranslatedVerifies4(p: Packet, peer: u32, ident: u16)
    requires |p| >= 40 && |p| >= 40 + PayloadLen(p) && Carriable(p) && p[7] > 1 && p[6] in {6, 17, 58}
    ensures Verifies4(V4Of(p, peer, ident))
  {
    hide Sum, Fold, Complement, Verifies, Verifies4, Bytes32, Read32, Sealed, SealedUdp, Body4, Bytes16, Get16;
    var n := PayloadLen(p);
    var protocol: byte := if p[6] == 58 then 1 else p[6];
    var h := BareHeader4(p[0] % 0x10, 20 + n, ident, p[7] - 1, protocol, peer, TargetOf(p));
    BodyVerifies4(p[40..40 + n], p[6], peer, TargetOf(p));
    HeaderVerifies4(p[0] % 0x10, 20 + n, ident, p[7] - 1, protocol, peer, TargetOf(p));
    Assemble4(Sealed(h, 10, 0), Body4(p[40..40 + n], p[6], peer, TargetOf(p)), Bytes32(peer) + Bytes32(TargetOf(p)), protocol);
  }

  lemma HeaderVerifies4(tos: byte, length: u16, ident: u16, ttl: byte, protocol: byte, src: u32, dst: u32)
    ensures var h := Sealed(BareHeader4(tos, length, ident, ttl, protocol, src, dst), 10, 0);
      && |h| == 20 && h[0] == 0x45 && h[2..4] == Bytes16(length) && h[9] == protocol
      && h[12..20] == Bytes32(src) + Bytes32(dst) && Verifies(Sum(h))
  {
    hide Sum, Fold, Complement, Verifies, Bytes32, Bytes16;
    SealedVerifies(BareHeader4(tos, length, ident, ttl, protocol, src, dst), 10, 0);
  }

  lemma Assemble4(h: seq<byte>, body: seq<byte>, ends: seq<byte>, protocol: byte)
    requires |h| == 20 && |body| < 0xffec && h[0] == 0x45 && h[2..4] == Bytes16(20 + |body|) && h[9] == protocol
    requires h[12..20] == ends && Verifies(Sum(h))
    requires if protocol == 1 then Verifies(Sum(body))
             else Verifies(Sum(ends) + Sum([0, protocol] + Bytes16(|body|)) + Sum(body))
    ensures Verifies4(h + body)
  {
    hide Sum, Fold, Complement, Verifies, Verifies4, Bytes16, Get16;
    var o := h + body;
    assert o[..20] == h && o[20..] == body && o[12..20] == ends && o[2..4] == h[2..4];
    Get16Bytes16(o, 2, 20 + |body|);
    Parts4(o, body, ends);
  }

  lemma Parts4(o: seq<byte>, body: seq<byte>, ends: seq<byte>)
    requires |o| >= 20 && |body| < 0x1_0000 && o[0] == 0x45 && TotalLen(o) == |o| && Verifies(Sum(o[..20]))
    requires o[12..20] == ends && o[20..] == body
    requires if o[9] == 1 then Verifies(Sum(body))
             else Verifies(Sum(ends) + Sum([0, o[9]] + Bytes16(|body|)) + Sum(body))
    ensures Verifies4(o)
  {
    hide Sum, Fold, Complement, Verifies, Bytes16, Get16;
  }

  lemma BodyVerifies4(payload: seq<byte>, next: byte, src: u32, dst: u32)
    requires 8 <= |payload| < 0x1_0000 && (next == 6 ==> |payload| >= 20)
    ensures var body := Body4(payload, next, src, dst);
      if next in {6, 17} then
        Verifies(Sum(Bytes32(src) + Bytes32(dst)) + Sum([0, next] + Bytes16(|payload|)) + Sum(body))
      else Verifies(Sum(body))
  {
    hide Sum, Fold, Complement, Verifies, Bytes32;
    if next in {6, 17} {
      var base := PseudoHeader4(src, dst, next, |payload|);
      SumConcat(Bytes32(src) + Bytes32(dst), [0, next] + Bytes16(|payload|));
      assert base == Bytes32(src) + Bytes32(dst) + ([0, next] + Bytes16(|payload|));
      SealedVerifies(payload, if next == 6 then 16 else 6, Sum(base));
    } else {
      SealedVerifies(payload[0 := if payload[0] == 128 then 8 else 0], 2, 0);
    }
  }

  lemma Lengths(q: seq<byte>)
    requires Returnable(q)
    ensures 20 <= |q| && 20 <= HeaderLen(q) <= TotalLen(q) <= |q| && q[9] in {6, 17, 1}
    ensures 8 <= TotalLen(q) - HeaderLen(q) < 0x1_0000
    ensures Fits(q) && q[9] == 6 ==> TotalLen(q) - HeaderLen(q) >= 18
  {
  }

  /** What the header and the body of a reply promise on their own. */
  lemma Shape6(site: u16, q: seq<byte>, client: seq<byte>, payload: seq<byte>, src: seq<byte>)
    requires Returnable(q) && Fits(q) && |client| == 16
    requires payload == q[HeaderLen(q)..TotalLen(q)] && src == SiteAddress(site, Read32(q, 12))
    ensures var h := Header6(site, q, client);
      && |h| == 40 && h[0] / 0x10 == 6 && h[4..6] == Bytes16(|payload|)
      && h[6] == (if q[9] == 1 then 58 else q[9]) && h[8..24] == src && h[24..40] == client
    ensures |Body6(payload, q[9], src, client)| == |payload|
  {
    hide Sum, Read32, Base6, Sealed, SealedUdp, Bytes16, Bytes32, Get16;
  }

  lemma Assemble6(h: seq<byte>, body: seq<byte>, src: seq<byte>, dst: seq<byte>, next: byte)
    requires |h| == 40 && |body| < 0x1_0000 && h[0] / 0x10 == 6 && h[4..6] == Bytes16(|body|) && h[6] == next
    requires h[8..24] == src && h[24..40] == dst && Verifies(Base6(src, dst, |body|, next) + Sum(body))
    ensures Verifies6(h + body) && Between(h + body, src, dst)
  {
    hide Sum, Fold, Complement, Verifies, Bytes32, Bytes16, Get16;
    var o := h + body;
    assert o[8..24] == src && o[24..40] == dst && o[40..] == body && o[4..6] == h[4..6];
    Get16Bytes16(o, 4, |body|);
  }

  lemma BodyVerifies6(payload: seq<byte>, protocol: byte, src: seq<byte>, dst: seq<byte>)
    requires 8 <= |payload| < 0x1_0000 && (protocol == 6 ==> |payload| >= 18) && protocol in {1, 6, 17}
    ensures Verifies(Base6(src, dst, |payload|, if protocol == 1 then 58 else protocol)
                     + Sum(Body6(payload, protocol, src, dst)))
  {
    hide Sum, Fold, Complement, Verifies, Base6;
    var base := Base6(src, dst, |payload|, if protocol == 1 then 58 else protocol);
    if protocol == 1 {
      SealedVerifies(payload[0 := if payload[0] == 0 then 129 else 128], 2, base);
    } else {
      SealedVerifies(payload, if protocol == 6 then 16 else 6, base);
    }
  }

  // ----- replies find their way back

  /** q answers the IPv4 packet o: addresses and ports swapped, or an echo request turned into its reply. */
  ghost predicate Answers(q: seq<byte>, o: seq<byte>) {
    && Returnable(q) && |o| >= 28
    && Read32(q, 12) == Read32(o, 16) && Read32(q, 16) == Read32(o, 12) && q[9] == o[9]
    && var k := HeaderLen(q);
       if o[9] == 1 then o[20] == 8 && q[k] == 0 && Get16(q, k + 4) == Get16(o, 24)
       else Get16(q, k) == Get16(o, 22) && Get16(q, k + 2) == Get16(o, 20)
  }

  /** What an IPv4 packet shows of the IPv6 packet it came from. */
  ghost predicate Shows(o: seq<byte>, p: seq<byte>, peer: u32)
    requires |p| >= 48
  {
    && |o| >= 28 && o[9] == (if p[6] == 58 then 1 else p[6]) && Read32(o, 12) == peer && Read32(o, 16) == TargetOf(p)
    && (p[6] == 58 ==> o[20] == (if p[40] == 128 then 8 else 0) && Get16(o, 24) == Get16(p, 44))
    && (p[6] != 58 ==> Get16(o, 20) == Get16(p, 40) && Get16(o, 22) == Get16(p, 42))
  }

  lemma TranslationShows(p: Packet, peer: u32, ident: u16)
    requires |p| >= 40 && |p| >= 40 + PayloadLen(p) && Carriable(p) && p[7] > 1 && p[6] in {6, 17, 58}
    ensures |p| >= 48 && Shows(V4Of(p, peer, ident), p, peer)
  {
    hide Sum, Fold, Complement, Sealed, SealedUdp, Bytes32, Bytes16, Be32, Read32, Body4, BareHeader4, Shows;
    var n := PayloadLen(p);
    var protocol: byte := if p[6] == 58 then 1 else p[6];
    var h := Sealed(BareHeader4(p[0] % 0x10, 20 + n, ident, p[7] - 1, protocol, peer, TargetOf(p)), 10, 0);
    var body := Body4(p[40..40 + n], p[6], peer, TargetOf(p));
    HeaderVerifies4(p[0] % 0x10, 20 + n, ident, p[7] - 1, protocol, peer, TargetOf(p));
    BodyPorts(p[40..40 + n], p[6], peer, TargetOf(p));
    HeadAndBodyShow(p, peer, h, body);
  }

  lemma HeadAndBodyShow(p: Packet, peer: u32, h: seq<byte>, body: seq<byte>)
    requires |p| >= 48 && |h| == 20 && |body| >= 8 && h[9] == (if p[6] == 58 then 1 else p[6])
    requires h[12..20] == Bytes32(peer) + Bytes32(TargetOf(p))
    requires if p[6] == 58 then body[0] == (if p[40] == 128 then 8 else 0) && body[4] == p[44] && body[5] == p[45]
             else body[0] == p[40] && body[1] == p[41] && body[2] == p[42] && body[3] == p[43]
    ensures Shows(h + body, p, peer)
  {
    hide Bytes32, Read32, TargetOf;
    var o := h + body;
    ReadPeer(h, o, peer, TargetOf(p));
    assert forall i :: 0 <= i < 6 ==> o[20 + i] == body[i];
  }

  lemma BodyPorts(payload: seq<byte>, next: byte, src: u32, dst: u32)
    requires 8 <= |payload| < 0x1_0000 && (next == 6 ==> |payload| >= 20) && next in {6, 17, 58}
    ensures var body := Body4(payload, next, src, dst);
      if next == 58 then body[0] == (if payload[0] == 128 then 8 else 0) && body[4] == payload[4] && body[5] == payload[5]
      else forall i :: 0 <= i < 4 ==> body[i] == payload[i]
  {
    hide Sum, Fold, Complement;
  }

  lemma ReadPeer(h: seq<byte>, o: seq<byte>, src: u32, dst: u32)
    requires |h| == 20 && |o| >= 20 && h[12..20] == Bytes32(src) + Bytes32(dst)
    requires forall i :: 12 <= i < 20 ==> o[i] == h[i]
    ensures Read32(o, 12) == src && Read32(o, 16) == dst
  {
    hide Bytes32, Be32;
    var a, b := Bytes32(src), Bytes32(dst);
    Bytes32Back(src);
    Bytes32Back(dst);
    assert forall i :: 0 <= i < 8 ==> h[12..20][i] == o[12 + i];
    assert forall i :: 0 <= i < 4 ==> (a + b)[i] == a[i] && (a + b)[4 + i] == b[i];
  }

  /** An answer to a translated packet carries the five-tuple remembered for it. */
  lemma AnswerHasTuple(c: Config, p: Packet, peer: u32, o: seq<byte>, q: seq<byte>)
    requires c.prefixLen <= 32 && Translatable(c, p, peer) && Shows(o, p, peer) && Answers(q, o)
    ensures ReplyTuple(q) == TupleOf(p, peer)
  {
    hide Read32, Get16, Special, Masked;
  }

  /** Inside the site, an IPv6 destination is the site address of its embedded target. */
  lemma SiteAddressOfTarget(c: Config, p: seq<byte>)
    requires Ours(c, p)
    ensures p[24..40] == SiteAddress(c.site, TargetOf(p))
  {
    hide Be32, Bytes32;
    Bytes32RoundTrip(p, 32);
    Bytes32RoundTrip(p, 36);
    SiteBytes(c.site);
    assert p[24..40] == p[24..32] + p[32..36] + p[36..40];
  }

  lemma SiteBytes(site: u16)
    ensures Bytes32(site) == [0, 0] + Bytes16(site)
  {
    Bytes32Form(site);
  }

  /** The checksum's offset in a payload. */
  function CheckAt(protocol: byte): nat {
    if protocol == 6 then 16 else if protocol == 17 then 6 else 2
  }

  /** The payload is passed on as it is, the checksum and an ICMP type aside. */
  lemma PayloadIsKept(site: u16, q: Packet, client: seq<byte>, i: nat)
    requires Returnable(q) && Fits(q) && |client| == 16 && i < TotalLen(q) - HeaderLen(q)
    requires i != CheckAt(q[9]) && i != CheckAt(q[9]) + 1 && (q[9] == 1 ==> i != 0)
    ensures V6Of(site, q, client)[40 + i] == q[HeaderLen(q) + i]
  {
    hide Sum, Fold, Complement, Header6, SiteAddress;
    var payload := q[HeaderLen(q)..TotalLen(q)];
    var body := Body6(payload, q[9], SiteAddress(site, Read32(q, 12)), client);
    assert body[i] == payload[i];
  }

  /**
    A reply q to a packet o that shows p, as translations of p do, is translated back
    to an IPv6 packet from the original destination to the original source, whatever
    undisturbing traffic came between the translation at time and the reply, as long as
    the protocol's timeout has not run out since the flow was last used.
  */
  lemma ReplyReturns(c: Config, p: Packet, peer: u32, o: seq<byte>, q: Packet, states: seq<seq<Flow>>,
                     events: seq<Event>, time: Time, later: Time, next: seq<Flow>, found: Option<Flow>)
    requires c.prefixLen <= 32 && Translatable(c, p, peer) && Shows(o, p, peer) && Answers(q, o) && Fits(q)
    requires Undisturbed(states, events, TupleOf(p, peer), p[8..24], time)
    requires Bound(states[0], TupleOf(p, peer), p[8..24], time)
    requires later - Touched(events, TupleOf(p, peer), time) <= Timeout(TupleOf(p, peer).protocol)
    requires Answered(states[|events|], next, ReplyTuple(q), later, found)
    ensures found.Some? && |found.value.client| == 16
    ensures Between(V6Of(c.site, q, found.value.client), p[24..40], p[8..24])
    ensures Bound(next, TupleOf(p, peer), p[8..24], later)
  {
    hide Special, Masked, Bytes32, Be32, Answered, Undisturbed, Bound, V6Of, SiteAddress, Shows, Answers, TargetOf, Get16;
    var t := TupleOf(p, peer);
    AnswerHasTuple(c, p, peer, o, q);
    TrafficKeepsBound(states, events, t, p[8..24], time);
    BoundIsFound(states[|events|], next, t, p[8..24], Touched(events, t, time), later, found);
    SameTarget(p, peer, o, q);
    SiteAddressOfTarget(c, p);
  }

  lemma SameTarget(p: Packet, peer: u32, o: seq<byte>, q: seq<byte>)
    requires |p| >= 48 && Shows(o, p, peer) && Answers(q, o)
    ensures Returnable(q) && Read32(q, 12) == TargetOf(p)
  {
    hide Read32, TargetOf, Get16;
  }

  // ----- the advertised prefix

  /** fourvia6_calculate_prefix: the address part of the advertised prefix, and its length. */
  function AdvertisedPrefix(network: u32, bits: nat, site: u16): (seq<byte>, nat) {
    (SiteAddress(site, network), 96 + bits)
  }

  function AddressNumber(a: seq<byte>): nat {
    if a == [] then 0 else AddressNumber(a[..|a| - 1]) * 0x100 + a[|a| - 1]
  }

  /** Two addresses agree in their first length bits. */
  ghost predicate InPrefix(a: seq<byte>, prefix: seq<byte>, length: nat)
    requires length <= 128
  {
    AddressNumber(a) / Pow2(128 - length) == AddressNumber(prefix) / Pow2(128 - length)
  }

  lemma {:induction false} NumberIsInjective(a: seq<byte>, b: seq<byte>)
    requires |a| == |b| && AddressNumber(a) == AddressNumber(b)
    ensures a == b
  {
    if a != [] {
      var n := |a| - 1;
      NumberIsInjective(a[..n], b[..n]);
      assert a == a[..n] + [a[n]] && b == b[..n] + [b[n]];
    }
  }

  lemma NumberSplits(h: seq<byte>, t: seq<byte>)
    requires |t| == 4
    ensures AddressNumber(h + t) == AddressNumber(h) * 0x1_0000_0000 + Be32(t[0], t[1], t[2], t[3])
  {
    NumberSnoc(h, t[0]);
    NumberSnoc(h + [t[0]], t[1]);
    NumberSnoc(h + [t[0]] + [t[1]], t[2]);
    NumberSnoc(h + [t[0]] + [t[1]] + [t[2]], t[3]);
    assert h + t == h + [t[0]] + [t[1]] + [t[2]] + [t[3]];
  }

  lemma NumberSnoc(a: seq<byte>, b: byte)
    ensures AddressNumber(a + [b]) == AddressNumber(a) * 0x100 + b
  {
    assert (a + [b])[..|a|] == a;
  }

  /** Dividing by a divisor of 2^32 keeps the high part and the low part apart. */
  lemma QuotientsAgree(h: nat, t: u32, h': nat, t': u32, m: nat)
    requires m > 0 && 0x1_0000_0000 % m == 0
    ensures (h * 0x1_0000_0000 + t) / m == (h' * 0x1_0000_0000 + t') / m <==> h == h' && t / m == t' / m
  {
    var k := 0x1_0000_0000 / m;
    assert 0x1_0000_0000 == m * k;
    SplitQuotient(h, t, m, k);
    SplitQuotient(h', t', m, k);
    Digits(k, h, t / m, h', t' / m);
  }

  lemma Digits(k: nat, h: nat, q: nat, h': nat, q': nat)
    requires q < k && q' < k
    ensures k * h + q == k * h' + q' <==> h == h' && q == q'
  {
    if k * h + q == k * h' + q' {
      assert k * (h - h') == k * h - k * h';
      SmallMultiple(k, h - h');
    }
  }

  lemma SplitQuotient(h: nat, t: nat, m: nat, k: nat)
    requires m > 0 && 0x1_0000_0000 == m * k && t < 0x1_0000_0000
    ensures (h * 0x1_0000_0000 + t) / m == k * h + t / m && t / m < k
  {
    var q, r := t / m, t % m;
    assert t == m * q + r;
    MulAssoc(m, k, h);
    assert m * (k * h + q) == m * (k * h) + m * q;
    DivModUnique(h * 0x1_0000_0000 + t, m, k * h + q, r);
    if q >= k {
      MulMono(m, k, q);
    }
  }

  /** The checks on prefix, site and target pass exactly inside the advertised prefix, special targets aside. */
  lemma PassesIffAdvertised(c: Config, p: Packet)
    requires ValidConfig(c) && c.enabled && |p| >= 40 && p[0] / 0x10 == 6
    ensures var (prefix, length) := AdvertisedPrefix(c.network, c.prefixLen, c.site);
      Ours(c, p) && TargetAllowed(c, TargetOf(p)) <==> InPrefix(p[24..40], prefix, length) && !Special(TargetOf(p))
  {
    hide Be32, Bytes32, Special, Pow2, Masked;
    MaskedAligns(c.network, c.prefixLen);
    MaskedAligns(TargetOf(p), c.prefixLen);
    var head, site := p[24..36], VIA_PREFIX + [0, 0] + Bytes16(c.site);
    var m := Pow2(32 - c.prefixLen);
    Pow2Divides(32 - c.prefixLen, 32);
    Pow2Of32();
    HeadIsSite(c, p);
    Octets(p[36], p[37], p[38], p[39]);
    assert p[24..40] == head + p[36..40];
    NumberSplits(head, p[36..40]);
    NumberSplits(site, Bytes32(c.network));
    Bytes32Back(c.network);
    assert SiteAddress(c.site, c.network) == site + Bytes32(c.network);
    QuotientsAgree(AddressNumber(head), TargetOf(p), AddressNumber(site), c.network, m);
    SameBlock(TargetOf(p), c.network, m);
    if AddressNumber(head) == AddressNumber(site) {
      NumberIsInjective(head, site);
    }
  }

  lemma HeadIsSite(c: Config, p: seq<byte>)
    requires |p| >= 40 && c.enabled && p[0] / 0x10 == 6
    ensures Ours(c, p) <==> p[24..36] == VIA_PREFIX + [0, 0] + Bytes16(c.site)
  {
    hide Bytes32;
    var head := p[24..36];
    assert head[..8] == p[24..32] && head[8..] == p[32..36] && head == head[..8] + head[8..];
    SiteBytes(c.site);
    Bytes32RoundTrip(p, 32);
    Bytes32Back(c.site);
    var right := VIA_PREFIX + [0, 0] + Bytes16(c.site);
    assert right[..8] == VIA_PREFIX && right[8..] == Bytes32(c.site);
    if p[32..36] == Bytes32(c.site) {
      assert forall i :: 0 <= i < 4 ==> p[32 + i] == Bytes32(c.site)[i];
    }
  }
}
