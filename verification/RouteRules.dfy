/** The routing hook rule by rule, on address ranges and prefix lengths. */
module RouteRules {
  import opened Words
  import opened Masks
  import opened RouteHook

  /** 100.64.0.0/10 */
  ghost predicate InTailnet(a: bv32) {
    0x6440_0000 <= a <= 0x647F_FFFF
  }

  /** The private ranges of RFC 1918. */
  ghost predicate Rfc1918(a: bv32) {
    0x0A00_0000 <= a <= 0x0AFF_FFFF || 0xAC10_0000 <= a <= 0xAC1F_FFFF || 0xC0A8_0000 <= a <= 0xC0A8_FFFF
  }

  /** A station interface that can be used. */
  ghost predicate Station(n: Netif) {
    "st" <= n.name && n.up && n.linkUp
  }

  /** The first interface with the property, or none when there is none. */
  ghost predicate IsFirst(ns: seq<Netif>, p: Netif -> bool, via: Option<nat>) {
    match via
    case None => forall i :: 0 <= i < |ns| ==> !p(ns[i])
    case Some(k) => k < |ns| && p(ns[k]) && forall i :: 0 <= i < k ==> !p(ns[i])
  }

  ghost predicate IsTunnel(ns: seq<Netif>, via: Option<nat>) {
    IsFirst(ns, (n: Netif) => InTailnet(n.addr), via)
  }

  ghost predicate IsStation(ns: seq<Netif>, via: Option<nat>) {
    IsFirst(ns, (n: Netif) => Station(n), via)
  }

  /** A station with an address of its own, outside the tailnet. */
  ghost predicate IsUplink(ns: seq<Netif>, via: Option<nat>) {
    IsFirst(ns, (n: Netif) => Station(n) && n.addr != 0 && !InTailnet(n.addr), via)
  }

  /** An interface outside the tailnet on whose prefix the destination is. */
  ghost predicate IsAttached(ns: seq<Netif>, dst: bv32, via: Option<nat>) {
    IsFirst(ns, (n: Netif) => SamePrefix(dst, n.addr, n.mask) && n.addr != 0 && !InTailnet(n.addr), via)
  }

  /** The packet comes from the device itself. */
  ghost predicate Own(ns: seq<Netif>, src: Option<bv32>) {
    src == None || src == Some(0) || exists i :: 0 <= i < |ns| && src == Some(ns[i].addr)
  }

  /** The address agrees with a route in the route's first prefixLen bits. */
  ghost predicate Routed(routes: seq<Route>, dst: bv32) {
    exists i :: 0 <= i < |routes| && AgreesWith(routes[i], dst)
  }

  ghost predicate AgreesWith(r: Route, dst: bv32) {
    1 <= r.prefixLen <= 32 && AgreeIn(dst, r.network, r.prefixLen)
  }

  // ----- the parts

  lemma RangesAre(a: bv32)
    ensures Cgnat(a) <==> InTailnet(a)
    ensures Private(a) <==> Rfc1918(a)
    ensures InTailnet(a) ==> a != 0
  {
    hide Cgnat, Private;
    MasksAreRanges(a);
  }

  lemma StationIs(n: Netif)
    ensures Uplink(n) <==> Station(n)
  {
  }

  lemma CoversIff(r: Route, dst: bv32)
    ensures Covers(r, dst) <==> AgreesWith(r, dst)
  {
    hide SamePrefix, PrefixMask, AgreeIn;
    if 1 <= r.prefixLen <= 32 {
      PrefixIsLeadingBits(dst, r.network, r.prefixLen);
    }
  }

  lemma RoutedIff(routes: seq<Route>, dst: bv32)
    ensures Accepted(routes, dst) <==> Routed(routes, dst)
  {
    hide Covers, AgreesWith;
    forall i | 0 <= i < |routes|
      ensures Covers(routes[i], dst) <==> AgreesWith(routes[i], dst)
    {
      CoversIff(routes[i], dst);
    }
  }

  lemma OwnIff(ns: seq<Netif>, src: Option<bv32>)
    ensures SelfOrigin(ns, src) <==> Own(ns, src)
  {
  }

  lemma SearchesFind(ns: seq<Netif>, dst: bv32)
    ensures IsTunnel(ns, Wg(ns)) && IsStation(ns, Sta(ns)) && IsUplink(ns, LanSta(ns)) && IsAttached(ns, dst, Lan(ns, dst))
  {
    hide Cgnat, InTailnet, SamePrefix, Uplink, Station;
    forall i | 0 <= i < |ns|
      ensures Cgnat(ns[i].addr) <==> InTailnet(ns[i].addr)
      ensures InTailnet(ns[i].addr) ==> ns[i].addr != 0
      ensures Uplink(ns[i]) <==> Station(ns[i])
    {
      RangesAre(ns[i].addr);
      StationIs(ns[i]);
    }
  }

  // ----- the rules

  /** The tailnet's own range, and what other than the device itself sends to an accepted route. */
  ghost predicate ForTunnel(ns: seq<Netif>, s: Settings, src: Option<bv32>, dst: bv32) {
    InTailnet(dst) || (s.acceptRoutes && !Own(ns, src) && Routed(s.routes, dst))
  }

  /** Such a packet is sent to the first tunnel interface, or to none. */
  lemma TunnelRule(ns: seq<Netif>, s: Settings, src: Option<bv32>, dst: bv32)
    requires ForTunnel(ns, s, src, dst)
    ensures Hooked(ns, s, src, dst).Return? && IsTunnel(ns, Hooked(ns, s, src, dst).via)
  {
    hide Cgnat, InTailnet, Own, Routed, Accepted, SelfOrigin, IsTunnel, IsStation, IsUplink, IsAttached, Wg;
    SearchesFind(ns, dst);
    RangesAre(dst);
    OwnIff(ns, src);
    RoutedIff(s.routes, dst);
  }

  /** Every other packet is left to lwIP without an exit node. */
  lemma NoExitNodeRule(ns: seq<Netif>, s: Settings, src: Option<bv32>, dst: bv32)
    requires !ForTunnel(ns, s, src, dst) && s.exitNode == 0
    ensures Hooked(ns, s, src, dst) == FallThrough
  {
    hide Cgnat, InTailnet, Own, Routed, Accepted, SelfOrigin;
    RangesAre(dst);
    OwnIff(ns, src);
    RoutedIff(s.routes, dst);
  }

  /**
    With an exit node and lan-bypass it leaves on the first attached prefix, and failing that a
    private destination on the first uplink; without either, private destinations are left to lwIP.
  */
  lemma BypassRule(ns: seq<Netif>, s: Settings, src: Option<bv32>, dst: bv32, lan: Option<nat>, sta: Option<nat>)
    requires !ForTunnel(ns, s, src, dst) && s.exitNode != 0
    requires IsAttached(ns, dst, lan) && IsUplink(ns, sta)
    ensures s.lanBypass && lan.Some? ==> Hooked(ns, s, src, dst) == Return(lan)
    ensures s.lanBypass && lan == None && Rfc1918(dst) && sta.Some? ==> Hooked(ns, s, src, dst) == Return(sta)
    ensures Rfc1918(dst) && (!s.lanBypass || lan == None == sta) ==> Hooked(ns, s, src, dst) == FallThrough
  {
    hide Cgnat, Private, InTailnet, Rfc1918, Own, Routed, Accepted, SelfOrigin, IsTunnel, IsStation, SamePrefix, Station;
    SearchesFind(ns, dst);
    RangesAre(dst);
    OwnIff(ns, src);
    RoutedIff(s.routes, dst);
    assert lan == Lan(ns, dst) && sta == LanSta(ns);
  }

  /** What is left is public: the device's own packets leave on the first station, forwarded ones in a tunnel that is up. */
  lemma PublicRule(ns: seq<Netif>, s: Settings, src: Option<bv32>, dst: bv32, sta: Option<nat>, wg: Option<nat>)
    requires !ForTunnel(ns, s, src, dst) && s.exitNode != 0 && !Rfc1918(dst)
    requires s.lanBypass ==> IsAttached(ns, dst, None)
    requires IsStation(ns, sta) && IsTunnel(ns, wg)
    ensures Hooked(ns, s, src, dst) ==
      if Own(ns, src) then (if sta.Some? then Return(sta) else FallThrough)
      else if wg.Some? && ns[wg.value].up then Return(wg) else FallThrough
  {
    hide Cgnat, Private, InTailnet, Rfc1918, Own, Routed, Accepted, SelfOrigin, IsUplink, SamePrefix, Station;
    SearchesFind(ns, dst);
    RangesAre(dst);
    OwnIff(ns, src);
    RoutedIff(s.routes, dst);
    assert sta == Sta(ns) && wg == Wg(ns);
  }

  /**
    Once the hook's rules are exhausted the page names the first interface that is up with
    its link and on whose prefix the destination is, else the default one: as the exit node's when that is the tunnel.
  */
  lemma FallbackRule(ns: seq<Netif>, s: Settings, dst: bv32, dflt: Option<nat>, link: Option<nat>, wg: Option<nat>)
    requires IsFirst(ns, (n: Netif) => n.up && n.linkUp && n.addr != 0 && SamePrefix(dst, n.addr, n.mask), link)
    requires IsTunnel(ns, wg)
    ensures Fallback(ns, s, dst, dflt) ==
      if link.Some? then Story(link, SubnetMatch)
      else if dflt == None then Story(None, NoRoute)
      else if s.exitNode != 0 && dflt == wg then Story(dflt, ExitDefault) else Story(dflt, Default)
  {
    hide InTailnet, SamePrefix, IsStation, IsUplink, IsAttached;
    SearchesFind(ns, dst);
    assert link == Direct(ns, dst) && wg == Wg(ns);
  }
}
