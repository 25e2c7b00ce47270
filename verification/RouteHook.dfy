/**
  Which interface a packet leaves on: the live routing hook, the decision tree
  the diagnostics page explains it with, and what the two promise together.
*/
module RouteHook {
  import opened Words
  import opened Masks

  /** An lwIP interface. Addresses and masks are in host order, 0 meaning none. */
  datatype Netif = Netif(name: string, addr: bv32, mask: bv32, up: bool, linkUp: bool)

  datatype Route = Route(network: bv32, prefixLen: byte)

  datatype Settings = Settings(exitNode: bv32, lanBypass: bool, acceptRoutes: bool, routes: seq<Route>)

  predicate Cgnat(a: bv32) {
    a & 0xFFC0_0000 == 0x6440_0000
  }

  predicate Private(a: bv32) {
    a & 0xFF00_0000 == 0x0A00_0000 || a & 0xFFF0_0000 == 0xAC10_0000 || a & 0xFFFF_0000 == 0xC0A8_0000
  }

  /** The masks cut out the ranges of RFC 6598 and RFC 1918. */
  lemma MasksAreRanges(a: bv32)
    ensures Cgnat(a) <==> 0x6440_0000 <= a <= 0x647F_FFFF
    ensures Private(a) <==> || 0x0A00_0000 <= a <= 0x0AFF_FFFF
                            || 0xAC10_0000 <= a <= 0xAC1F_FFFF
                            || 0xC0A8_0000 <= a <= 0xC0A8_FFFF
  {
  }

  predicate IsSta(n: Netif) {
    |n.name| >= 2 && n.name[0] == 's' && n.name[1] == 't'
  }

  // ----- searching the interface list

  predicate TunnelLike(n: Netif) {
    n.addr != 0 && Cgnat(n.addr)
  }

  predicate Uplink(n: Netif) {
    IsSta(n) && n.up && n.linkUp
  }

  predicate Attached(n: Netif, dst: bv32) {
    n.addr != 0 && !Cgnat(n.addr) && SamePrefix(dst, n.addr, n.mask)
  }

  predicate LanUplink(n: Netif) {
    n.addr != 0 && !Cgnat(n.addr) && Uplink(n)
  }

  predicate OnLink(n: Netif, dst: bv32) {
    n.addr != 0 && n.up && n.linkUp && SamePrefix(dst, n.addr, n.mask)
  }

  /** The first interface with a property. */
  function FirstFrom(ns: seq<Netif>, p: Netif -> bool, i: nat): (r: Option<nat>)
    requires i <= |ns|
    ensures r.Some? ==> i <= r.value < |ns| && p(ns[r.value]) && forall j :: i <= j < r.value ==> !p(ns[j])
    ensures r == None ==> forall j :: i <= j < |ns| ==> !p(ns[j])
    decreases |ns| - i
  {
    if i == |ns| then None else if p(ns[i]) then Some(i) else FirstFrom(ns, p, i + 1)
  }

  function Wg(ns: seq<Netif>): (r: Option<nat>)
    ensures r.Some? ==> r.value < |ns| && TunnelLike(ns[r.value]) && forall j :: 0 <= j < r.value ==> !TunnelLike(ns[j])
    ensures r == None ==> forall j :: 0 <= j < |ns| ==> !TunnelLike(ns[j])
  {
    FirstFrom(ns, n => TunnelLike(n), 0)
  }

  function Sta(ns: seq<Netif>): (r: Option<nat>)
    ensures r.Some? ==> r.value < |ns| && Uplink(ns[r.value]) && forall j :: 0 <= j < r.value ==> !Uplink(ns[j])
    ensures r == None ==> forall j :: 0 <= j < |ns| ==> !Uplink(ns[j])
  {
    FirstFrom(ns, n => Uplink(n), 0)
  }

  function LanSta(ns: seq<Netif>): (r: Option<nat>)
    ensures r.Some? ==> r.value < |ns| && LanUplink(ns[r.value]) && forall j :: 0 <= j < r.value ==> !LanUplink(ns[j])
    ensures r == None ==> forall j :: 0 <= j < |ns| ==> !LanUplink(ns[j])
  {
    FirstFrom(ns, n => LanUplink(n), 0)
  }

  function Lan(ns: seq<Netif>, dst: bv32): (r: Option<nat>)
    ensures r.Some? ==> r.value < |ns| && Attached(ns[r.value], dst)
                        && forall j :: 0 <= j < r.value ==> !Attached(ns[j], dst)
    ensures r == None ==> forall j :: 0 <= j < |ns| ==> !Attached(ns[j], dst)
  {
    FirstFrom(ns, n => Attached(n, dst), 0)
  }

  function Direct(ns: seq<Netif>, dst: bv32): (r: Option<nat>)
    ensures r.Some? ==> r.value < |ns| && OnLink(ns[r.value], dst) && forall j :: 0 <= j < r.value ==> !OnLink(ns[j], dst)
    ensures r == None ==> forall j :: 0 <= j < |ns| ==> !OnLink(ns[j], dst)
  {
    FirstFrom(ns, n => OnLink(n, dst), 0)
  }

  ghost predicate Local(ns: seq<Netif>, a: bv32) {
    exists j :: 0 <= j < |ns| && ns[j].addr == a
  }

  ghost predicate Covers(r: Route, dst: bv32) {
    1 <= r.prefixLen <= 32 && SamePrefix(dst, r.network, PrefixMask(r.prefixLen))
  }

  ghost predicate Accepted(routes: seq<Route>, dst: bv32) {
    exists j :: 0 <= j < |routes| && Covers(routes[j], dst)
  }

  method FindWgNetif(ns: seq<Netif>) returns (r: Option<nat>)
    ensures r == Wg(ns)
  {
    hide Cgnat;
    var i := 0;
    while i < |ns|
      invariant 0 <= i <= |ns| && forall j :: 0 <= j < i ==> !TunnelLike(ns[j])
    {
      if ns[i].addr != 0 && Cgnat(ns[i].addr) {
        return Some(i);
      }
      i := i + 1;
    }
    return None;
  }

  method FindStaNetif(ns: seq<Netif>) returns (r: Option<nat>)
    ensures r == Sta(ns)
  {
    var i := 0;
    while i < |ns|
      invariant 0 <= i <= |ns| && forall j :: 0 <= j < i ==> !Uplink(ns[j])
    {
      if IsSta(ns[i]) && ns[i].up && ns[i].linkUp {
        return Some(i);
      }
      i := i + 1;
    }
    return None;
  }

  method IsLocal(ns: seq<Netif>, a: bv32) returns (r: bool)
    ensures r == Local(ns, a)
  {
    var i := 0;
    while i < |ns|
      invariant 0 <= i <= |ns| && forall j :: 0 <= j < i ==> ns[j].addr != a
    {
      if ns[i].addr == a {
        return true;
      }
      i := i + 1;
    }
    return false;
  }

  method MatchesRoute(routes: seq<Route>, dst: bv32) returns (r: bool)
    ensures r == Accepted(routes, dst)
  {
    hide SamePrefix, PrefixMask;
    var i := 0;
    while i < |routes|
      invariant 0 <= i <= |routes| && forall j :: 0 <= j < i ==> !Covers(routes[j], dst)
    {
      var len := routes[i].prefixLen;
      if 1 <= len <= 32 && SamePrefix(dst, routes[i].network, PrefixMask(len)) {
        return true;
      }
      i := i + 1;
    }
    return false;
  }

  /** The interface walk of lan-bypass: an attached prefix, else the first usable uplink seen on the way. */
  method LanScan(ns: seq<Netif>, dst: bv32) returns (lan: Option<nat>, sta: Option<nat>)
    ensures lan == Lan(ns, dst)
    ensures lan == None ==> sta == LanSta(ns)
  {
    hide Cgnat, SamePrefix, IsSta;
    sta := None;
    var i := 0;
    while i < |ns|
      invariant 0 <= i <= |ns| && forall j :: 0 <= j < i ==> !Attached(ns[j], dst)
      invariant sta == None ==> forall j :: 0 <= j < i ==> !LanUplink(ns[j])
      invariant sta.Some? ==> sta.value < i && LanUplink(ns[sta.value])
                              && forall j :: 0 <= j < sta.value ==> !LanUplink(ns[j])
    {
      var n := ns[i];
      if n.addr != 0 && !Cgnat(n.addr) {
        if SamePrefix(dst, n.addr, n.mask) {
          return Some(i), sta;
        }
        if sta == None && IsSta(n) && n.up && n.linkUp {
          sta := Some(i);
        }
      }
      i := i + 1;
    }
    return None, sta;
  }

  // ----- the live hook

  /** The hook returns an interface, or None for the null pointer, or asks the hook it wraps. */
  datatype Verdict = Return(via: Option<nat>) | FallThrough

  /** What lwIP gets from the hook's own rules; on None it goes on routing by itself. */
  function Steered(v: Verdict): Option<nat> {
    if v.Return? then v.via else None
  }

  ghost predicate SelfOrigin(ns: seq<Netif>, src: Option<bv32>) {
    src == None || src.value == 0 || Local(ns, src.value)
  }

  ghost function Hooked(ns: seq<Netif>, s: Settings, src: Option<bv32>, dst: bv32): Verdict {
    if Cgnat(dst) then Return(Wg(ns))
    else if s.acceptRoutes && !SelfOrigin(ns, src) && Accepted(s.routes, dst) then Return(Wg(ns))
    else if s.exitNode != 0 && s.lanBypass && Lan(ns, dst).Some? then Return(Lan(ns, dst))
    else if s.exitNode != 0 && s.lanBypass && Private(dst) && LanSta(ns).Some? then Return(LanSta(ns))
    else HookedExit(ns, s, src, dst)
  }

  ghost function HookedExit(ns: seq<Netif>, s: Settings, src: Option<bv32>, dst: bv32): Verdict {
    if s.exitNode == 0 || Private(dst) then FallThrough
    else if SelfOrigin(ns, src) then
      if Sta(ns).Some? then Return(Sta(ns)) else FallThrough
    else if Wg(ns).Some? && ns[Wg(ns).value].up then Return(Wg(ns))
    else FallThrough
  }

  /** __wrap_ip4_route_src_hook with a destination. */
  method Hook(ns: seq<Netif>, s: Settings, src: Option<bv32>, dst: bv32) returns (v: Verdict)
    ensures v == Hooked(ns, s, src, dst)
  {
    hide Cgnat, Private, Wg, Sta, LanSta, Lan, Local, Accepted;
    if Cgnat(dst) {
      var wg := FindWgNetif(ns);
      return Return(wg);
    }
    if s.acceptRoutes && |s.routes| > 0 && src != None && src.value != 0 {
      var srcIsLocal := IsLocal(ns, src.value);
      if !srcIsLocal {
        var matched := MatchesRoute(s.routes, dst);
        if matched {
          var wg := FindWgNetif(ns);
          return Return(wg);
        }
      }
    }
    NoRoutes(s.routes, dst);
    if s.exitNode != 0 && s.lanBypass {
      var lan, sta := LanScan(ns, dst);
      if lan != None {
        return Return(lan);
      }
      if Private(dst) && sta != None {
        return Return(sta);
      }
    }
    v := HookExit(ns, s, src, dst);
  }

  lemma NoRoutes(routes: seq<Route>, dst: bv32)
    ensures |routes| == 0 ==> !Accepted(routes, dst)
  {
  }

  /** Step 3 of the hook: with an exit node, public destinations split by who sent the packet. */
  method HookExit(ns: seq<Netif>, s: Settings, src: Option<bv32>, dst: bv32) returns (v: Verdict)
    ensures v == HookedExit(ns, s, src, dst)
  {
    hide Cgnat, Private, Sta, Local;
    if s.exitNode != 0 {
      var srcIsSelf := src == None || src.value == 0;
      if !srcIsSelf {
        srcIsSelf := IsLocal(ns, src.value);
      }
      var isPriv := Private(dst);
      if srcIsSelf {
        if !isPriv {
          var sta := FindStaNetif(ns);
          if sta != None {
            return Return(sta);
          }
        }
      } else if !isPriv {
        var wg := FindWgNetif(ns);
        if wg != None && ns[wg.value].up {
          return Return(wg);
        }
      }
    }
    return FallThrough;
  }

  // ----- the explanation

  datatype Reason = Tailnet | AcceptedRoute | OwnPrefix | PrivateLan | SelfPublic | Forwarded
                  | SubnetMatch | ExitDefault | Default | NoRoute

  datatype Story = Story(via: Option<nat>, reason: Reason)

  /** The reasons the explanation gives for a decision of the hook itself. */
  predicate ByHook(r: Reason) {
    r.Tailnet? || r.AcceptedRoute? || r.OwnPrefix? || r.PrivateLan? || r.SelfPublic? || r.Forwarded?
  }

  /** What the explanation says once the hook's rules are exhausted. */
  ghost function Fallback(ns: seq<Netif>, s: Settings, dst: bv32, dflt: Option<nat>): Story {
    if Direct(ns, dst).Some? then Story(Direct(ns, dst), SubnetMatch)
    else if dflt == None then Story(None, NoRoute)
    else Story(dflt, if s.exitNode != 0 && dflt == Wg(ns) then ExitDefault else Default)
  }

  /** src 0 stands for the device itself. */
  ghost function Explained(ns: seq<Netif>, s: Settings, src: bv32, dst: bv32, dflt: Option<nat>): Story {
    var self := src == 0 || Local(ns, src);
    if Cgnat(dst) then Story(Wg(ns), Tailnet)
    else if !self && s.acceptRoutes && Accepted(s.routes, dst) then Story(Wg(ns), AcceptedRoute)
    else if s.exitNode != 0 && s.lanBypass && Lan(ns, dst).Some? then Story(Lan(ns, dst), OwnPrefix)
    else if s.exitNode != 0 && s.lanBypass && Private(dst) && LanSta(ns).Some? then Story(LanSta(ns), PrivateLan)
    else if s.exitNode != 0 && !Private(dst) && self && Sta(ns).Some? then Story(Sta(ns), SelfPublic)
    else if s.exitNode != 0 && !Private(dst) && !self && Wg(ns).Some? && ns[Wg(ns).value].up then Story(Wg(ns), Forwarded)
    else Fallback(ns, s, dst, dflt)
  }

  method RouteExplain(ns: seq<Netif>, s: Settings, src: bv32, dst: bv32, dflt: Option<nat>) returns (r: Story)
    ensures r == Explained(ns, s, src, dst, dflt)
  {
    hide Cgnat, Private, Sta, LanSta, Lan, Local, Accepted, Fallback;
    var srcIsSelf := src == 0;
    if !srcIsSelf {
      srcIsSelf := IsLocal(ns, src);
    }
    if Cgnat(dst) {
      var wg := FindWgNetif(ns);
      return Story(wg, Tailnet);
    }
    if !srcIsSelf && s.acceptRoutes && |s.routes| > 0 {
      var matched := MatchesRoute(s.routes, dst);
      if matched {
        var wg := FindWgNetif(ns);
        return Story(wg, AcceptedRoute);
      }
    }
    NoRoutes(s.routes, dst);
    if s.exitNode != 0 && s.lanBypass {
      var lan, sta := LanScan(ns, dst);
      if lan != None {
        return Story(lan, OwnPrefix);
      }
      if Private(dst) && sta != None {
        return Story(sta, PrivateLan);
      }
    }
    if s.exitNode != 0 {
      if !Private(dst) {
        if srcIsSelf {
          var sta := FindStaNetif(ns);
          if sta != None {
            return Story(sta, SelfPublic);
          }
        } else {
          var wg := FindWgNetif(ns);
          if wg != None && ns[wg.value].up {
            return Story(wg, Forwarded);
          }
        }
      }
    }
    r := ExplainFallback(ns, s, dst, dflt);
  }

  method ExplainFallback(ns: seq<Netif>, s: Settings, dst: bv32, dflt: Option<nat>) returns (r: Story)
    ensures r == Fallback(ns, s, dst, dflt)
  {
    hide Cgnat, SamePrefix;
    var i := 0;
    while i < |ns|
      invariant 0 <= i <= |ns| && forall j :: 0 <= j < i ==> !OnLink(ns[j], dst)
    {
      var n := ns[i];
      if n.addr != 0 && n.up && n.linkUp && SamePrefix(dst, n.addr, n.mask) {
        return Story(Some(i), SubnetMatch);
      }
      i := i + 1;
    }
    if dflt != None {
      var wg := FindWgNetif(ns);
      return Story(dflt, if s.exitNode != 0 && dflt == wg then ExitDefault else Default);
    }
    return Story(None, NoRoute);
  }

  // ----- what the two promise

  function SourceOf(src: Option<bv32>): bv32 {
    if src == None then 0 else src.value
  }

  /** The packet is sent to a tunnel that is not there. */
  ghost predicate TunnelMissing(ns: seq<Netif>, s: Settings, src: Option<bv32>, dst: bv32) {
    Wg(ns) == None && (Cgnat(dst) || (s.acceptRoutes && !SelfOrigin(ns, src) && Accepted(s.routes, dst)))
  }

  /**
    Whenever the hook steers a packet, the page credits one of the hook's rules and
    names the same interface. It credits a rule for a packet that lwIP goes on to
    route by itself exactly when that rule asks for a tunnel and there is none.
  */
  lemma ExplanationMatchesHook(ns: seq<Netif>, s: Settings, src: Option<bv32>, dst: bv32, dflt: Option<nat>)
    ensures var via, e := Steered(Hooked(ns, s, src, dst)), Explained(ns, s, SourceOf(src), dst, dflt);
      && (via.Some? ==> ByHook(e.reason) && e.via == via)
      && (ByHook(e.reason) && via == None <==> TunnelMissing(ns, s, src, dst))
      && (!ByHook(e.reason) ==> e == Fallback(ns, s, dst, dflt))
  {
    hide Cgnat, Private, Wg, Sta, LanSta, Lan, Local, Accepted, Direct;
  }

  /** A station on 192.168.1.2/24 and no tunnel. */
  const LONE_STATION := [Netif("st1", 0xC0A8_0102, 0xFFFF_FF00, true, true)]

  /**
    There the two drift: for 100.64.0.1 the page says "no route" on account of the
    tailnet rule, while the hook returns the null pointer and lwIP's own rules, as
    the page itself describes them, send the packet out of the station.
  */
  lemma MissingTunnelDrifts(src: Option<bv32>)
    ensures var s := Settings(0, false, false, []);
      && Steered(Hooked(LONE_STATION, s, src, 0x6440_0001)) == None
      && Explained(LONE_STATION, s, SourceOf(src), 0x6440_0001, Some(0)) == Story(None, Tailnet)
      && Fallback(LONE_STATION, s, 0x6440_0001, Some(0)) == Story(Some(0), Default)
  {
    var n := LONE_STATION[0];
    assert !TunnelLike(n) && !OnLink(n, 0x6440_0001);
    assert Wg(LONE_STATION) == None && Direct(LONE_STATION, 0x6440_0001) == None;
  }

  /**
    With an exit node and the tunnel up, a forwarded packet to a public address
    enters the tunnel unless lan-bypass finds the address on an attached prefix
    that neither the tailnet nor an accepted route claims.
  */
  lemma ForwardedPublicIffNotAttached(ns: seq<Netif>, s: Settings, src: Option<bv32>, dst: bv32)
    requires s.exitNode != 0 && !SelfOrigin(ns, src) && !Private(dst)
    requires Wg(ns).Some? && ns[Wg(ns).value].up
    ensures Hooked(ns, s, src, dst) == Return(Wg(ns)) <==>
            || Cgnat(dst)
            || (s.acceptRoutes && Accepted(s.routes, dst))
            || !s.lanBypass
            || forall j :: 0 <= j < |ns| ==> !Attached(ns[j], dst)
  {
    hide Cgnat, Private, Local, Accepted, SamePrefix;
  }

  /** The device's own packets outside the tailnet never enter the tunnel, unless the uplink itself has a tailnet address. */
  lemma OwnTrafficAvoidsTunnel(ns: seq<Netif>, s: Settings, src: Option<bv32>, dst: bv32)
    requires SelfOrigin(ns, src) && !Cgnat(dst)
    requires Hooked(ns, s, src, dst).Return?
    ensures var via := Hooked(ns, s, src, dst).via;
      && via.Some? && via.value < |ns|
      && (TunnelLike(ns[via.value]) ==> via == Sta(ns) && s.exitNode != 0 && !Private(dst))
  {
    hide Cgnat, Private, Local, Accepted, SamePrefix;
  }
}
