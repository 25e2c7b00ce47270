/** What the 4via6 translator does with a packet put together from its parts, field by field. */
module FourVia6Packets {
  import opened Words
  import opened Arithmetic
  import opened Checksum
  import opened FlowTable
  import opened FourVia6

  // ----- from IPv6 to IPv4

  /** Loopback, multicast, zero, broadcast and the tailnet's own range are no targets. */
  lemma SpecialRanges(ip: u32)
    ensures Special(ip) <==> || 0x7f00_0000 <= ip <= 0x7fff_ffff || 0xe000_0000 <= ip <= 0xefff_ffff
                             || ip == 0 || ip == 0xffff_ffff || 0x6440_0000 <= ip <= 0x647f_ffff
  {
    assert ip == 0x40_0000 * (ip / 0x40_0000) + ip % 0x40_0000;
  }

  /** Every payload byte arrives, the checksum and an ICMP type aside. */
  lemma InputKeepsPayload(c: Config, p: Packet, peer: u32, ident: u16, o: seq<byte>, i: nat)
    requires c.prefixLen <= 32 && InputVerdict(c, p, peer, ident) == Forwarded(o)
    requires i < PayloadLen(p) && i != CheckAt(p[6]) && i != CheckAt(p[6]) + 1 && (p[6] == 58 ==> i != 0)
    ensures |o| == 20 + PayloadLen(p) <= |p| - 20 && o[20 + i] == p[40 + i]
  {
    hide Sum, Fold, Complement, BareHeader4, Special, Masked, Ours;
    var payload := p[40..40 + PayloadLen(p)];
    var body := Body4(payload, p[6], peer, TargetOf(p));
    assert body[i] == payload[i];
    assert o[20 + i] == body[i];
  }

  /** The IPv4 header of a forwarded packet, its length, addresses and checksum aside, and the ICMP type. */
  lemma InputFields(c: Config, p: Packet, peer: u32, ident: u16, o: seq<byte>)
    requires c.prefixLen <= 32 && InputVerdict(c, p, peer, ident) == Forwarded(o)
    ensures |p| >= 48 && |o| >= 28 && o[0] == 0x45 && o[1] == p[0] % 0x10
    ensures o[4] == ident / 0x100 && o[5] == ident % 0x100 && o[6] == 0x40 && o[7] == 0
    ensures o[8] == p[7] - 1 && o[9] == if p[6] == 58 then 1 else p[6]
    ensures p[6] == 58 ==> p[40] in {128, 129} && o[20] == if p[40] == 128 then 8 else 0
  {
    hide Sum, Fold, Complement, Sealed, SealedUdp, Special, Masked, Ours, Bytes32, Get16, TargetOf, BareHeader4, Body4;
    var n := PayloadLen(p);
    var protocol: byte := if p[6] == 58 then 1 else p[6];
    BareFields(p[0] % 0x10, 20 + n, ident, p[7] - 1, protocol, peer, TargetOf(p));
    BodyPorts(p[40..40 + n], p[6], peer, TargetOf(p));
  }

  lemma BareFields(tos: byte, length: u16, ident: u16, ttl: byte, protocol: byte, src: u32, dst: u32)
    ensures var h := Sealed(BareHeader4(tos, length, ident, ttl, protocol, src, dst), 10, 0);
      && |h| == 20 && h[0] == 0x45 && h[1] == tos && h[4] == ident / 0x100 && h[5] == ident % 0x100
      && h[6] == 0x40 && h[7] == 0 && h[8] == ttl && h[9] == protocol
  {
    hide Sum, Fold, Complement, Bytes32;
  }

  /** An IPv6 packet: a first word, the length the header states, next header, hop limit, both addresses, and what follows. */
  function Ip6(head: seq<byte>, n: u16, next: byte, hops: byte, src: seq<byte>, dst: seq<byte>, rest: seq<byte>): (p: seq<byte>)
    requires |head| == 4 && |src| == 16 && |dst| == 16
    ensures |p| == 40 + |rest|
  {
    head + Bytes16(n) + [next, hops] + src + dst + rest
  }

  lemma Ip6Fields(head: seq<byte>, n: u16, next: byte, hops: byte, src: seq<byte>, dst: seq<byte>, rest: seq<byte>)
    requires |head| == 4 && |src| == 16 && |dst| == 16
    ensures var p := Ip6(head, n, next, hops, src, dst, rest);
      && p[0] == head[0] && PayloadLen(p) == n && p[6] == next && p[7] == hops && p[8..24] == src && p[24..40] == dst
      && p[40..] == rest
  {
    var p, b := Ip6(head, n, next, hops, src, dst, rest), Bytes16(n);
    assert p[4] == b[0] && p[5] == b[1];
    Bytes16Back(n);
  }

  /** A packet is the translator's business exactly when it is enabled and the packet goes to an address of the site. */
  lemma OursIffToSite(c: Config, head: seq<byte>, n: u16, next: byte, hops: byte, src: seq<byte>, dst: seq<byte>,
                      rest: seq<byte>, peer: u32, ident: u16)
    requires c.prefixLen <= 32 && |head| == 4 && |src| == 16 && |dst| == 16 && 40 + |rest| < 0x1_0000
    ensures InputVerdict(c, Ip6(head, n, next, hops, src, dst, rest), peer, ident) != NotOurs
      <==> c.enabled && head[0] / 0x10 == 6
           && dst[..12] == [0xfd, 0x7a, 0x11, 0x5c, 0xa1, 0xe0, 0x0b, 0x1a, 0, 0, c.site / 0x100, c.site % 0x100]
  {
    hide Ip6, Bytes32, Bytes16, Read32, Special, Masked, Carriable, V4Of, TargetOf;
    var p := Ip6(head, n, next, hops, src, dst, rest);
    Ip6Fields(head, n, next, hops, src, dst, rest);
    SiteHead(c.site);
    assert p[24..36] == dst[..12];
    if c.enabled && head[0] / 0x10 == 6 {
      HeadIsSite(c, p);
    }
  }

  lemma SiteHead(site: u16)
    ensures VIA_PREFIX + [0, 0] + Bytes16(site)
         == [0xfd, 0x7a, 0x11, 0x5c, 0xa1, 0xe0, 0x0b, 0x1a, 0, 0, site / 0x100, site % 0x100]
  {
  }

  /** The target is a host of the configured network, in none of the special ranges. */
  ghost predicate Reachable(c: Config, target: u32)
    requires c.prefixLen <= 32
  {
    && target / Pow2(32 - c.prefixLen) == c.network / Pow2(32 - c.prefixLen)
    && !(0x7f00_0000 <= target <= 0x7fff_ffff) && !(0xe000_0000 <= target <= 0xefff_ffff)
    && !(0x6440_0000 <= target <= 0x647f_ffff) && target != 0 && target != 0xffff_ffff
  }

  lemma AllowedIffReachable(c: Config, target: u32)
    requires ValidConfig(c)
    ensures TargetAllowed(c, target) <==> Reachable(c, target)
  {
    hide Pow2, Masked;
    SpecialRanges(target);
    MaskedAligns(target, c.prefixLen);
    MaskedAligns(c.network, c.prefixLen);
    SameBlock(target, c.network, Pow2(32 - c.prefixLen));
  }

  /** What becomes of a packet to an address of the site, for every payload and whatever follows it. */
  lemma InputIsDecidedByParts(c: Config, head: seq<byte>, n: u16, next: byte, hops: byte, src: seq<byte>, target: u32,
                              rest: seq<byte>, peer: u32, ident: u16)
    requires ValidConfig(c) && c.enabled && |head| == 4 && head[0] / 0x10 == 6 && |src| == 16
    requires 40 + |rest| < 0x1_0000
    ensures var v := InputVerdict(c, Ip6(head, n, next, hops, src, SiteAddress(c.site, target), rest), peer, ident);
      if !Reachable(c, target) || peer == 0 || n > |rest| || hops <= 1 || (next != 6 && next != 17 && next != 58)
      then v == Dropped
      else if n < 8 || (next == 6 && n < 20) || (next == 58 && rest[0] != 128 && rest[0] != 129) then v == Swallowed
      else v.Forwarded?
  {
    hide Ip6, Bytes32, Bytes16, Read32, TargetAllowed, Reachable, SiteAddress, V4Of, TargetOf;
    var dst := SiteAddress(c.site, target);
    var p := Ip6(head, n, next, hops, src, dst, rest);
    Ip6Fields(head, n, next, hops, src, dst, rest);
    TargetOfSite(c, p, target);
    HeadIsSite(c, p);
    AllowedIffReachable(c, target);
    assert |rest| > 0 ==> p[40] == p[40..][0];
  }

  lemma TargetOfSite(c: Config, p: seq<byte>, target: u32)
    requires |p| >= 40 && p[24..40] == SiteAddress(c.site, target)
    ensures TargetOf(p) == target && p[24..36] == VIA_PREFIX + [0, 0] + Bytes16(c.site)
  {
    hide Bytes32, Bytes16, Be32;
    var a, b := SiteAddress(c.site, target), Bytes32(target);
    assert a[12..] == b && a[..12] == VIA_PREFIX + [0, 0] + Bytes16(c.site);
    assert forall i :: 0 <= i < 4 ==> p[36 + i] == p[24..40][12 + i] == b[i];
    Bytes32Back(target);
  }

  /** Two such packets belong to the same flow exactly when protocol, peer, target and ports, or echo identifiers, agree. */
  lemma SameTupleIff(c: Config, p: Packet, q: Packet, peer: u32, other: u32)
    requires c.prefixLen <= 32 && Translatable(c, p, peer) && Translatable(c, q, other)
    ensures |p| >= 48 && |q| >= 48
    ensures TupleOf(p, peer) == TupleOf(q, other)
      <==> p[6] == q[6] && peer == other && p[36..40] == q[36..40]
           && if p[6] == 58 then p[44..46] == q[44..46] else p[40..44] == q[40..44]
  {
    hide Special, Masked, Bytes32, Be32, Ours;
    SameWord(p, q, 40);
    SameWord(p, q, 42);
    SameWord(p, q, 44);
    SameFour(p, q, 36);
    assert p[40..44] == p[40..42] + p[42..44] && q[40..44] == q[40..42] + q[42..44];
  }

  lemma SameWord(p: seq<byte>, q: seq<byte>, k: nat)
    requires k + 1 < |p| && k + 1 < |q|
    ensures Get16(p, k) == Get16(q, k) <==> p[k..k + 2] == q[k..k + 2]
  {
    assert p[k..k + 2] == [p[k], p[k + 1]] && q[k..k + 2] == [q[k], q[k + 1]];
  }

  lemma SameFour(p: seq<byte>, q: seq<byte>, k: nat)
    requires k + 3 < |p| && k + 3 < |q|
    ensures Read32(p, k) == Read32(q, k) <==> p[k..k + 4] == q[k..k + 4]
  {
    hide Be32, Bytes32;
    Bytes32RoundTrip(p, k);
    Bytes32RoundTrip(q, k);
    assert p[k..k + 4] == [p[k], p[k + 1], p[k + 2], p[k + 3]];
    assert q[k..k + 4] == [q[k], q[k + 1], q[k + 2], q[k + 3]];
  }

  // ----- from IPv4 to IPv6

  /**
    A packet on its way back is looked at exactly when it is unfragmented, with its
    reserved and don't-fragment bits whatever they are, and carries TCP, UDP or an echo.
  */
  lemma ReturnableByParts(header: seq<byte>, payload: seq<byte>, pad: seq<byte>)
    requires |header| >= 20 && header[0] / 0x10 == 4 && header[0] % 0x10 * 4 == |header|
    requires |header| + |payload| < 0x1_0000 && header[2..4] == Bytes16(|header| + |payload|)
    ensures Returnable(header + payload + pad)
      <==> header[6] % 0x40 == 0 && header[7] == 0 && |payload| >= 8
           && (header[9] == 6 || header[9] == 17 || (header[9] == 1 && (payload[0] == 0 || payload[0] == 8)))
    ensures |payload| >= 8 && Returnable(header + payload + pad) ==>
              ReplyTuple(header + payload + pad)
              == if header[9] == 1 then FiveTuple(1, Read32(header, 16), Read32(header, 12), Get16(payload, 4), 0)
                 else FiveTuple(header[9], Read32(header, 16), Read32(header, 12), Get16(payload, 2), Get16(payload, 0))
  {
    hide Bytes16, Be32;
    var q := header + payload + pad;
    assert q[2..4] == header[2..4];
    Get16Bytes16(q, 2, |header| + |payload|);
    assert forall i :: 0 <= i < |header| ==> q[i] == header[i];
    assert forall i :: 0 <= i < |payload| ==> q[|header| + i] == payload[i];
    assert HeaderLen(q) == |header|;
    Unfragmented(header[6], header[7]);
  }

  lemma Unfragmented(hi: byte, lo: byte)
    ensures Be16(hi, lo) in {0, 0x4000, 0x8000, 0xc000} <==> hi % 0x40 == 0 && lo == 0
  {
  }

  /** The IPv6 header of a reply sent on, its length, addresses and flow label aside, and the ICMPv6 type. */
  lemma OutputFields(c: Config, q: Packet, flow: Flow, o: seq<byte>)
    requires Returnable(q) && |flow.client| == 16 && OutputVerdict(c, q, Some(flow)) == Sent(o)
    ensures |o| >= 48 && o[0] == 0x60 + q[1] / 0x10 && o[1] == o[2] == o[3] == 0
    ensures o[6] == if q[9] == 1 then 58 else q[9]
    ensures o[7] == if q[8] > 1 then q[8] - 1 else 1
    ensures q[9] == 1 ==> q[HeaderLen(q)] in {0, 8} && o[40] == if q[HeaderLen(q)] == 0 then 129 else 128
  {
    hide Sum, Fold, Complement, SiteAddress, Verifies6, Between, Base6, Get16, Read32;
    Lengths(q);
    var src, payload := SiteAddress(c.site, Read32(q, 12)), q[HeaderLen(q)..TotalLen(q)];
    var h, body := Header6(c.site, q, flow.client), Body6(payload, q[9], src, flow.client);
    assert forall i :: 0 <= i < 8 ==> o[i] == h[i];
    assert o[40] == body[0];
  }

  /** A reply goes out exactly when its flow is known, it is not too long, and its TCP checksum field is inside it. */
  lemma OutputIsSentIff(c: Config, q: Packet, found: Option<Flow>)
    requires Returnable(q) && (found.Some? ==> |found.value.client| == 16)
    ensures OutputVerdict(c, q, found) == Passed <==> found == None
    ensures OutputVerdict(c, q, found).Sent?
      <==> found.Some? && TotalLen(q) - HeaderLen(q) < 0xffd8 && (q[9] == 6 ==> TotalLen(q) >= HeaderLen(q) + 18)
  {
    hide V6Of, Get16;
  }

  /** A UDP packet always leaves with a checksum, in either direction. */
  lemma UdpOutHasChecksum(c: Config, p: Packet, peer: u32, ident: u16)
    requires c.prefixLen <= 32 && |p| >= 40 && p[6] == 17 && InputVerdict(c, p, peer, ident).Forwarded?
    ensures var o := InputVerdict(c, p, peer, ident).v4; |o| >= 28 && Get16(o, 26) != 0
  {
    hide Sum, Fold, Complement, SealedUdp, Sealed, BareHeader4, Special, Masked, Ours, PseudoHeader4, TargetOf;
    var payload := p[40..40 + PayloadLen(p)];
    var base := Sum(PseudoHeader4(peer, TargetOf(p), 17, |payload|));
    SealedVerifies(payload, 6, base);
    var o, body := InputVerdict(c, p, peer, ident).v4, Body4(payload, 17, peer, TargetOf(p));
    assert o[26] == body[6] && o[27] == body[7];
  }

  lemma UdpBackHasChecksum(c: Config, q: Packet, flow: Flow)
    requires Returnable(q) && q[9] == 17 && |flow.client| == 16 && OutputVerdict(c, q, Some(flow)).Sent?
    ensures var o := OutputVerdict(c, q, Some(flow)).v6; |o| >= 48 && Get16(o, 46) != 0
  {
    hide Sum, Fold, Complement, SealedUdp, Sealed, Header6, SiteAddress, Verifies6, Between, Base6, Read32;
    Lengths(q);
    var src, payload := SiteAddress(c.site, Read32(q, 12)), q[HeaderLen(q)..TotalLen(q)];
    SealedVerifies(payload, 6, Base6(src, flow.client, |payload|, 17));
    var o, body := OutputVerdict(c, q, Some(flow)).v6, Body6(payload, 17, src, flow.client);
    assert o[46] == body[6] && o[47] == body[7];
  }
}
