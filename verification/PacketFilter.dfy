/** The forwarding packet filter: what it reads off a frame, and what it lets through. */
module PacketFilter {
  import opened Words
  import opened Arithmetic
  import opened Forwarding
  import opened ForwardingSafety

  datatype Fields = Fields(src: u32, proto: byte, port: u16)

  /** packet_fields: None means the filter has no opinion on the frame. */
  function FieldsOf(b: seq<byte>, eth: bool): Option<Fields> {
    var off := if eth then 14 else 0;
    if |b| < off + 24 then None
    else if eth && !(b[12] == 8 && b[13] == 0) then None
    else if b[off] / 16 != 4 || b[off + 6] % 0x20 != 0 || b[off + 7] != 0 then None
    else
      var ihl := b[off] % 16 * 4;
      if ihl < 20 || |b| < off + ihl + 4 then None
      else if b[off + 9] != TCP && b[off + 9] != UDP then None
      else Some(Fields(Be32(b[off + 12], b[off + 13], b[off + 14], b[off + 15]), b[off + 9],
                       Be16(b[off + ihl + 2], b[off + ihl + 3])))
  }

  /** The first fragment of a TCP or UDP datagram, options included, is always recognised. */
  lemma DatagramIsRead(link: seq<byte>, header: seq<byte>, body: seq<byte>, eth: bool)
    requires if eth then |link| == 14 && link[12] == 8 && link[13] == 0 else link == []
    requires |header| >= 20 && header[0] / 16 == 4 && header[0] % 16 * 4 == |header|
    requires header[6] % 0x20 == 0 && header[7] == 0 && (header[9] == TCP || header[9] == UDP)
    requires |body| >= 4
    ensures FieldsOf(link + header + body, eth)
         == Some(Fields(Be32(header[12], header[13], header[14], header[15]), header[9], Be16(body[2], body[3])))
  {
    var b, off := link + header + body, |link|;
    assert forall k :: 0 <= k < 20 ==> b[off + k] == header[k];
    assert forall k :: 0 <= k < 4 ==> b[off + |header| + k] == body[k];
  }

  predicate InCidr(src: u32, r: Rule) {
    r.sourcePrefix <= 32 && Masked(src, r.sourcePrefix) == r.sourceNet
  }

  /** The first enabled rule on a key. */
  function FirstRule(rules: seq<Rule>, k: Key, i: nat): (r: Option<nat>)
    requires i <= |rules|
    ensures r.Some? ==> i <= r.value < |rules| && rules[r.value].enabled && KeyOf(rules[r.value]) == k
    ensures r == None ==> forall j :: i <= j < |rules| ==> !(rules[j].enabled && KeyOf(rules[j]) == k)
    decreases |rules| - i
  {
    if i == |rules| then None
    else if rules[i].enabled && KeyOf(rules[i]) == k then Some(i)
    else FirstRule(rules, k, i + 1)
  }

  /** What the filter at the uplink decides about readable frames. */
  function Admits(t: Tables, f: Fields): bool
    requires |t.rules| == |t.runtime|
  {
    match FirstRule(t.rules, Key(f.proto, f.port), 0)
    case None => true
    case Some(i) => t.runtime[i].installed && InCidr(f.src, t.rules[i])
  }

  /** The rule the packet was sent to is installed and lets its source in. */
  ghost predicate AdmittedBy(t: Tables, f: Fields, i: nat)
    requires i < |t.rules| == |t.runtime|
  {
    t.rules[i].enabled && KeyOf(t.rules[i]) == Key(f.proto, f.port) && t.runtime[i].installed && InCidr(f.src, t.rules[i])
  }

  /** A packet passes exactly when no enabled rule claims its port, or the one that does is installed and allows the source. */
  lemma AdmitsIff(t: Tables, f: Fields)
    requires Inv(t)
    ensures |t.rules| == |t.runtime|
    ensures Admits(t, f) <==>
            || !RuleListens(t.rules, Key(f.proto, f.port))
            || exists i :: 0 <= i < |t.rules| && AdmittedBy(t, f, i)
  {
    hide InCidr, InstalledIsLive, ResolvedInTailnet, Owned, EntryListens, Padded;
    match FirstRule(t.rules, Key(f.proto, f.port), 0)
    case None =>
    case Some(i) =>
      assert RuleListens(t.rules, Key(f.proto, f.port));
      if t.runtime[i].installed && InCidr(f.src, t.rules[i]) {
        assert AdmittedBy(t, f, i);
      }
  }

  /**
    A packet to the port of an enabled rule passes exactly when the rule is installed and the
    source agrees with the rule's network in its first sourcePrefix bits.
  */
  lemma ClaimedPassesIff(t: Tables, f: Fields, i: nat)
    requires Inv(t) && i < |t.rules| && t.rules[i].enabled && t.rules[i].proto == f.proto && t.rules[i].listenPort == f.port
    requires t.rules[i].sourcePrefix <= 32 && t.rules[i].sourceNet % Pow2(32 - t.rules[i].sourcePrefix) == 0
    ensures |t.rules| == |t.runtime|
    ensures var m := Pow2(32 - t.rules[i].sourcePrefix);
      Admits(t, f) <==> t.runtime[i].installed && f.src / m == t.rules[i].sourceNet / m
    ensures t.rules[i].sourcePrefix == 0 ==> (Admits(t, f) <==> t.runtime[i].installed)
    ensures t.rules[i].sourcePrefix == 32 ==> (Admits(t, f) <==> t.runtime[i].installed && f.src == t.rules[i].sourceNet)
    ensures Counted(t, f) == t.runtime[i := var rt := t.runtime[i];
      if Admits(t, f) then rt.(accepted := Inc32(rt.accepted)) else rt.(blocked := Inc32(rt.blocked))]
  {
    hide InCidr, Pow2, AlignDown, InstalledIsLive, ResolvedInTailnet, Owned, EntryListens, Padded;
    OnlyClaim(t, f, i);
    InCidrIff(f.src, t.rules[i]);
  }

  /** No other enabled rule claims the port. */
  lemma OnlyClaim(t: Tables, f: Fields, i: nat)
    requires Inv(t) && i < |t.rules| && t.rules[i].enabled && t.rules[i].proto == f.proto && t.rules[i].listenPort == f.port
    ensures FirstRule(t.rules, Key(f.proto, f.port), 0) == Some(i)
  {
    hide InstalledIsLive, ResolvedInTailnet, Owned, EntryListens, Padded;
  }

  lemma InCidrIff(src: u32, r: Rule)
    requires r.sourcePrefix <= 32 && r.sourceNet % Pow2(32 - r.sourcePrefix) == 0
    ensures var m := Pow2(32 - r.sourcePrefix);
      InCidr(src, r) <==> src / m == r.sourceNet / m
    ensures r.sourcePrefix == 0 ==> InCidr(src, r)
    ensures r.sourcePrefix == 32 ==> (InCidr(src, r) <==> src == r.sourceNet)
  {
    hide Pow2, Masked;
    var m := Pow2(32 - r.sourcePrefix);
    MaskedAligns(src, r.sourcePrefix);
    SameBlock(src, r.sourceNet, m);
    Extremes(m, src);
    Extremes(m, r.sourceNet);
    Pow2Of32();
    PowZero();
  }

  lemma PowZero()
    ensures Pow2(0) == 1
  {
  }

  lemma Extremes(m: nat, a: u32)
    ensures m == 1 ==> a / m == a
    ensures m == TWO32 ==> a / m == 0
  {
  }

  /** A packet to a port no enabled rule claims passes and is not counted. */
  lemma UnclaimedPasses(t: Tables, f: Fields)
    requires |t.rules| == |t.runtime|
    requires forall i :: 0 <= i < |t.rules| && t.rules[i].enabled ==> t.rules[i].proto != f.proto || t.rules[i].listenPort != f.port
    ensures Admits(t, f) && Counted(t, f) == t.runtime
  {
    hide InCidr;
  }

  /** The filter has no opinion on later fragments, other protocols and versions, and anything but IPv4 frames. */
  lemma OthersAreNotRead(link: seq<byte>, header: seq<byte>, body: seq<byte>, eth: bool)
    requires if eth then |link| == 14 else link == []
    requires |header| >= 20 && header[0] % 16 * 4 == |header|
    requires || (eth && (link[12] != 8 || link[13] != 0)) || header[0] / 16 != 4 || (header[9] != 6 && header[9] != 17)
             || header[6] % 0x20 != 0 || header[7] != 0 || |body| < 4
    ensures FieldsOf(link + header + body, eth) == None
  {
    var b, off := link + header + body, |link|;
    assert forall k :: 0 <= k < 20 ==> b[off + k] == header[k];
    assert eth ==> b[12] == link[12] && b[13] == link[13];
  }

  /** The mapping an admitted packet is about to be rewritten with. */
  ghost predicate Delivered(t: Tables, f: Fields, i: nat)
    requires i < |t.rules| == |t.runtime|
  {
    var k := Key(f.proto, f.port);
    && AdmittedBy(t, f, i) && Cgnat(t.runtime[i].resolved)
    && k in t.lwip && t.lwip[k].ip == t.runtime[i].resolved && t.lwip[k].port == t.rules[i].destPort
  }

  /**
    After any run, a packet to an enabled rule's port passes only if its source
    lies in that rule's CIDR and lwIP maps the port to the rule's resolved tailnet
    address and destination port.
  */
  lemma PassedPacketIsMapped(t: Tables, events: seq<Event>, capacity: nat, f: Fields)
    requires Inv(t)
    ensures var r := Run(t, events, capacity);
      |r.rules| == |r.runtime|
    ensures var r := Run(t, events, capacity);
      Admits(r, f) && RuleListens(r.rules, Key(f.proto, f.port)) ==>
        exists i :: 0 <= i < |r.rules| && Delivered(r, f, i)
  {
    hide Run, InCidr, Cgnat, Padded, PortsApart, Owned, ResolvedInTailnet;
    var r := Run(t, events, capacity);
    InvSizes(r);
    if Admits(r, f) && RuleListens(r.rules, Key(f.proto, f.port)) {
      var i := FirstRule(r.rules, Key(f.proto, f.port), 0).value;
      assert Live(r, i);
      assert Delivered(r, f, i);
    }
  }

  /** The filter lets the packet through although no rule admits it and no AP-side entry listens for it. */
  ghost predicate PassesUnowned(t: Tables, f: Fields)
    requires |t.rules| == |t.runtime|
  {
    && Admits(t, f) && !EntryListens(t.table, Key(f.proto, f.port))
    && !exists i :: 0 <= i < |t.rules| && AdmittedBy(t, f, i)
  }

  /**
    A packet to a mapped key that belongs to no rule and no AP-side entry passes,
    whatever its source; a mapped key is passed on without any of them admitting it
    exactly when it is such a leftover.
  */
  lemma LeftoverPassesIff(t: Tables, f: Fields)
    requires Inv(t) && Key(f.proto, f.port) in t.lwip
    ensures |t.rules| == |t.runtime|
    ensures PassesUnowned(t, f) <==> Orphan(t, Key(f.proto, f.port))
  {
    hide InCidr, Inv, EntryListens, Padded;
    InvSizes(t);
    AdmitsIff(t, f);
    if exists i :: 0 <= i < |t.rules| && AdmittedBy(t, f, i) {
      assert RuleListens(t.rules, Key(f.proto, f.port));
    }
  }

  /** A tailnet that knows every name as 100.64.0.1. */
  const ONE_HOST := Tailnet(true, _ => 0x6440_0001)

  const SAVE_INSTALL_DELETE := [SaveRules([RuleOn(8080)], ONE_HOST), Install(Some(1)), SaveRules([], ONE_HOST)]

  lemma SavedOnBoot()
    ensures var t := AfterSetAll(BOOT, [RuleOn(8080)], ONE_HOST);
      && t.rules == [RuleOn(8080)] && |t.runtime| == 1 && t.runtime[0].resolved == 0x6440_0001
      && t.table == BOOT.table && !EntryListens(BOOT.table, Key(TCP, 8080))
  {
    hide SetAllStatus;
    LoneRuleAccepted(BOOT, 8080);
  }

  lemma DeletedAll(t: Tables)
    ensures AfterSetAll(t, [], ONE_HOST) == t.(rules := [], runtime := [])
  {
    assert RulesStatus(t, [], 0) == Ok;
  }

  lemma InstalledIsThere(t: Tables, i: nat)
    requires Inv(t) && i < |t.rules| && t.runtime[i].installed
    ensures KeyOf(t.rules[i]) in t.lwip
  {
    hide PortsApart, Owned, ResolvedInTailnet;
    assert Live(t, i);
  }

  lemma SameTables(t: Tables, uplink: u32, capacity: nat)
    requires |t.rules| == |t.runtime|
    ensures var u := Installed(t, Some(uplink), capacity); u.rules == t.rules && u.table == t.table
  {
    hide WithRules;
    if uplink != 0 {
      var _ := WithRules(t, |t.rules|, uplink, capacity);
    }
  }

  lemma ThreeEvents(t: Tables, events: seq<Event>, capacity: nat)
    requires Inv(t) && |events| == 3
    ensures var a := Step(t, events[0], capacity);
      Inv(a) && var b := Step(a, events[1], capacity);
      Inv(b) && Run(t, events, capacity) == Step(b, events[2], capacity)
  {
    hide Inv, Step;
    InvSizes(t);
    StepKeepsInv(t, events[0], capacity);
    InvSizes(Step(t, events[0], capacity));
    StepKeepsInv(Step(t, events[0], capacity), events[1], capacity);
    InvSizes(Step(Step(t, events[0], capacity), events[1], capacity));
    assert events[..2][..1] == events[..1] && events[..1][..0] == [];
    assert Run(t, events[..1][..0], capacity) == t;
    assert Run(t, events[..1], capacity) == Step(t, events[0], capacity);
    assert Run(t, events[..2], capacity) == Step(Step(t, events[0], capacity), events[1], capacity);
  }

  /** The mapping of a rule that was saved, resolved, installed and deleted again is left over until the next install. */
  lemma DeletedRuleLeavesMapping(src: u32)
    ensures Inv(BOOT)
    ensures var t := Run(BOOT, SAVE_INSTALL_DELETE, 32);
      |t.rules| == |t.runtime| && Orphan(t, Key(TCP, 8080)) && Admits(t, Fields(src, TCP, 8080))
  {
    hide Inv, Installed, AfterSetAll, EntryListens, Run, Padded;
    BootIsSound();
    ThreeEvents(BOOT, SAVE_INSTALL_DELETE, 32);
    SavedOnBoot();
    var a := AfterSetAll(BOOT, [RuleOn(8080)], ONE_HOST);
    InstallIsComplete(a, 1, 32, 0);
    SameTables(a, 1, 32);
    var b := Installed(a, Some(1), 32);
    InstalledIsThere(b, 0);
    DeletedAll(b);
  }

  /** The counters after a readable frame. */
  function Counted(t: Tables, f: Fields): (r: seq<Runtime>)
    requires |t.rules| == |t.runtime|
    ensures OnlyCounts(t.runtime, r)
  {
    match FirstRule(t.rules, Key(f.proto, f.port), 0)
    case None => t.runtime
    case Some(i) =>
      var rt := t.runtime[i];
      t.runtime[i := if Admits(t, f) then rt.(accepted := Inc32(rt.accepted)) else rt.(blocked := Inc32(rt.blocked))]
  }
}
