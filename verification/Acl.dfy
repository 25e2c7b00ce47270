/** The packet filter lists: a compacted slot array against a plain list with first match. */
module Acl {
  import opened Words

  const ENTRIES_MAX := 16
  const TCP: byte := 6
  const UDP: byte := 17

  /** Addresses are pre-masked; a port or protocol of 0 matches any. */
  datatype Rule = Rule(src: bv32, srcMask: bv32, dst: bv32, dstMask: bv32, proto: byte, srcPort: u16, dstPort: u16,
                       allow: byte, hits: u32, valid: bool)

  const EMPTY := Rule(0, 0, 0, 0, 0, 0, 0, 0, 0, false)

  datatype Header = Header(src: bv32, dst: bv32, proto: byte, srcPort: u16, dstPort: u16)

  datatype Verdict = Deny | Allow | NoMatch

  /** The rules in force and the three counters. */
  datatype List = List(rules: seq<Rule>, allowed: u32, denied: u32, nomatch: u32)

  // ----- reading a packet

  predicate LooksEthernet(b: seq<byte>) {
    |b| >= 14 &&
    var t := Be16(b[12], b[13]);
    t == 0x0800 || t == 0x0806 || t == 0x86DD || t < 0x0600
  }

  /** None: the packet is not matched against any rule. */
  function HeaderOf(b: seq<byte>): Option<Header> {
    if LooksEthernet(b) && !(b[12] == 8 && b[13] == 0) then None
    else
      var off := if LooksEthernet(b) then 14 else 0;
      if |b| < off + 20 || b[off] / 16 != 4 then None
      else
        var proto, l4 := b[off + 9], off + b[off] % 16 * 4;
        var ports := (proto == TCP && |b| >= l4 + 20) || (proto == UDP && |b| >= l4 + 8);
        Some(Header(Be32(b[off + 12], b[off + 13], b[off + 14], b[off + 15]) as bv32,
                    Be32(b[off + 16], b[off + 17], b[off + 18], b[off + 19]) as bv32,
                    proto,
                    if ports then Be16(b[l4], b[l4 + 1]) else 0,
                    if ports then Be16(b[l4 + 2], b[l4 + 3]) else 0))
  }

  /**
    An Ethernet frame carrying IPv4 is always matched, on the addresses and
    protocol of its header, and on its ports when it carries a whole TCP or UDP header.
  */
  lemma FrameIsRead(link: seq<byte>, header: seq<byte>, body: seq<byte>)
    requires |link| == 14 && link[12] == 8 && link[13] == 0
    requires |header| >= 20 && header[0] / 16 == 4 && header[0] % 16 * 4 == |header|
    ensures var h := HeaderOf(link + header + body);
      && h.Some? && h.value.proto == header[9]
      && h.value.src == Be32(header[12], header[13], header[14], header[15]) as bv32
      && h.value.dst == Be32(header[16], header[17], header[18], header[19]) as bv32
      && (if (header[9] == TCP && |body| >= 20) || (header[9] == UDP && |body| >= 8)
          then h.value.srcPort == Be16(body[0], body[1]) && h.value.dstPort == Be16(body[2], body[3])
          else h.value.srcPort == 0 && h.value.dstPort == 0)
  {
    var b := link + header + body;
    assert b[12] == 8 && b[13] == 0;
    assert forall k :: 0 <= k < 20 ==> b[14 + k] == header[k];
    assert forall k :: 0 <= k < |body| ==> b[14 + |header| + k] == body[k];
  }

  /** A frame with another EtherType, and anything too short or of another version, is matched against nothing. */
  lemma OthersAreNotRead(link: seq<byte>, rest: seq<byte>)
    requires |link| == 14
    requires || Be16(link[12], link[13]) in {0x0806, 0x86DD} || link[12] < 6
             || (link[12] == 8 && link[13] == 0 && (|rest| < 20 || rest[0] / 16 != 4))
    ensures HeaderOf(link + rest) == None
  {
    var b := link + rest;
    assert b[12] == link[12] && b[13] == link[13] && (rest != [] ==> b[14] == rest[0]);
  }

  /** A packet without a link header is matched on its addresses too, unless its source address looks like an EtherType. */
  lemma BarePacketIsRead(header: seq<byte>, body: seq<byte>)
    requires |header| >= 20 && header[0] / 16 == 4
    requires header[12] >= 6 && (header[12] != 8 || (header[13] != 0 && header[13] != 6)) && (header[12] != 0x86 || header[13] != 0xDD)
    ensures var h := HeaderOf(header + body);
      && h.Some? && h.value.proto == header[9]
      && h.value.src == Be32(header[12], header[13], header[14], header[15]) as bv32
      && h.value.dst == Be32(header[16], header[17], header[18], header[19]) as bv32
  {
    var b := header + body;
    assert forall k :: 0 <= k < 20 ==> b[k] == header[k];
  }

  // ----- matching

  predicate PortsMatch(r: Rule, h: Header) {
    (r.srcPort != 0 || r.dstPort != 0) ==>
      && (h.proto == TCP || h.proto == UDP)
      && (r.srcPort != 0 ==> r.srcPort == h.srcPort)
      && (r.dstPort != 0 ==> r.dstPort == h.dstPort)
  }

  /** The bits of an address under a mask. */
  function Under(a: bv32, mask: bv32): bv32 {
    a & mask
  }

  /** An empty mask leaves nothing, a full one everything, and the mask of a /24 a block of 256 addresses. */
  lemma UnderMasks(a: bv32)
    ensures Under(a, 0) == 0 && Under(a, 0xFFFF_FFFF) == a
    ensures Under(a, 0xFFFF_FF00) == 0xC0A8_0400 <==> 0xC0A8_0400 <= a <= 0xC0A8_04FF
  {
  }

  predicate Matches(r: Rule, h: Header) {
    && (r.proto == 0 || r.proto == h.proto)
    && Under(h.src, r.srcMask) == r.src && Under(h.dst, r.dstMask) == r.dst
    && PortsMatch(r, h)
  }

  /** The first rule from i on that matches. */
  function FirstMatch(rules: seq<Rule>, h: Header, i: nat): (r: Option<nat>)
    requires i <= |rules|
    ensures r.Some? ==> i <= r.value < |rules| && Matches(rules[r.value], h)
                        && forall j :: i <= j < r.value ==> !Matches(rules[j], h)
    ensures r == None ==> forall j :: i <= j < |rules| ==> !Matches(rules[j], h)
    decreases |rules| - i
  {
    if i == |rules| then None else if Matches(rules[i], h) then Some(i) else FirstMatch(rules, h, i + 1)
  }

  function Action(r: Rule): Verdict {
    if r.allow % 2 == 1 then Allow else Deny
  }

  function Decision(rules: seq<Rule>, h: Header): Verdict {
    match FirstMatch(rules, h, 0)
    case None => NoMatch
    case Some(i) => Action(rules[i])
  }

  /** The list after a packet was matched: one hit on the rule, one count on the list. */
  function Checked(l: List, h: Header): List {
    match FirstMatch(l.rules, h, 0)
    case None => l.(nomatch := Inc32(l.nomatch))
    case Some(i) =>
      var hit := l.rules[i := l.rules[i].(hits := Inc32(l.rules[i].hits))];
      if Action(l.rules[i]) == Allow then l.(rules := hit, allowed := Inc32(l.allowed))
      else l.(rules := hit, denied := Inc32(l.denied))
  }

  function Premasked(r: Rule): Rule {
    r.(src := Under(r.src, r.srcMask), dst := Under(r.dst, r.dstMask), hits := 0, valid := true)
  }

  // ----- the rule that decides

  /** Protocol, masked addresses and ports agree, 0 standing for any; a port only agrees with TCP or UDP. */
  ghost predicate Agrees(r: Rule, h: Header) {
    && (r.proto == 0 || r.proto == h.proto) && Under(h.src, r.srcMask) == r.src && Under(h.dst, r.dstMask) == r.dst
    && (r.srcPort == 0 || r.srcPort == h.srcPort) && (r.dstPort == 0 || r.dstPort == h.dstPort)
    && (r.srcPort == 0 == r.dstPort || h.proto == 6 || h.proto == 17)
  }

  lemma AgreesIffMatches(r: Rule, h: Header)
    ensures Agrees(r, h) <==> Matches(r, h)
  {
    hide Under;
  }

  /** The first rule that agrees allows exactly with bit 0 of allow set; it is hit, and one of the two counters moves. */
  lemma FirstAgreeingDecides(l: List, h: Header, i: nat)
    requires i < |l.rules| && Agrees(l.rules[i], h) && forall j :: 0 <= j < i ==> !Agrees(l.rules[j], h)
    ensures var ok := l.rules[i].allow as bv8 & 1 == 1;
      && Decision(l.rules, h) == (if ok then Allow else Deny)
      && Checked(l, h) == List(l.rules[i := l.rules[i].(hits := Inc32(l.rules[i].hits))],
                               if ok then Inc32(l.allowed) else l.allowed,
                               if ok then l.denied else Inc32(l.denied), l.nomatch)
  {
    hide Agrees, Matches;
    forall j | 0 <= j <= i
      ensures Agrees(l.rules[j], h) <==> Matches(l.rules[j], h)
    {
      AgreesIffMatches(l.rules[j], h);
    }
    FirstMatchIs(l.rules, h, i);
  }

  /** When none agrees the packet is no match, and only that counter moves. */
  lemma NoneAgreesIsNoMatch(l: List, h: Header)
    requires forall j :: 0 <= j < |l.rules| ==> !Agrees(l.rules[j], h)
    ensures Decision(l.rules, h) == NoMatch && Checked(l, h) == l.(nomatch := Inc32(l.nomatch))
  {
    hide Agrees, Matches;
    forall j | 0 <= j < |l.rules|
      ensures !Matches(l.rules[j], h)
    {
      AgreesIffMatches(l.rules[j], h);
    }
    NoMatchIs(l.rules, h);
  }

  // ----- what edits do to decisions

  lemma FirstMatchIs(rules: seq<Rule>, h: Header, i: nat)
    requires i < |rules| && Matches(rules[i], h) && forall j :: 0 <= j < i ==> !Matches(rules[j], h)
    ensures FirstMatch(rules, h, 0) == Some(i) && Decision(rules, h) == Action(rules[i])
  {
    hide Matches;
  }

  lemma NoMatchIs(rules: seq<Rule>, h: Header)
    requires forall j :: 0 <= j < |rules| ==> !Matches(rules[j], h)
    ensures FirstMatch(rules, h, 0) == None && Decision(rules, h) == NoMatch
  {
    hide Matches;
  }

  /** An added rule only decides packets no earlier rule matched, and then matches the network it was given. */
  lemma AddDecides(rules: seq<Rule>, r: Rule, h: Header)
    ensures Decision(rules + [Premasked(r)], h) ==
            if Decision(rules, h) != NoMatch then Decision(rules, h)
            else if Matches(Premasked(r), h) then Action(r) else NoMatch
    ensures Matches(Premasked(r), h) <==> Agrees(r.(src := Under(r.src, r.srcMask), dst := Under(r.dst, r.dstMask)), h)
  {
    hide Under;
    AppendDecides(rules, Premasked(r), h);
  }

  lemma AppendDecides(rules: seq<Rule>, r: Rule, h: Header)
    ensures Decision(rules + [r], h) ==
            if Decision(rules, h) != NoMatch then Decision(rules, h)
            else if Matches(r, h) then Action(r) else NoMatch
  {
    hide Matches;
    var more := rules + [r];
    match FirstMatch(rules, h, 0)
    case Some(i) => FirstMatchIs(more, h, i);
    case None =>
      if Matches(r, h) {
        FirstMatchIs(more, h, |rules|);
      } else {
        NoMatchIs(more, h);
      }
  }

  /** Deleting a rule leaves alone every packet it was not the first to match. */
  lemma DeleteDecides(rules: seq<Rule>, k: nat, h: Header)
    requires k < |rules| && FirstMatch(rules, h, 0) != Some(k)
    ensures Decision(Without(rules, k), h) == Decision(rules, h)
  {
    hide Matches, FirstMatch;
    match FirstMatch(rules, h, 0)
    case Some(i) =>
      FirstMatchIs(rules, h, i);
      FirstWithout(rules, k, h, i);
    case None =>
      NoMatchIs(rules, h);
      NoMatchIs(Without(rules, k), h);
  }

  lemma FirstWithout(rules: seq<Rule>, k: nat, h: Header, i: nat)
    requires k < |rules| && i < |rules| && i != k && Matches(rules[i], h) && forall j :: 0 <= j < i ==> !Matches(rules[j], h)
    ensures Decision(Without(rules, k), h) == Action(rules[i])
  {
    hide Matches, FirstMatch, Decision;
    FirstMatchIs(Without(rules, k), h, if i < k then i else i - 1);
  }

  /** A rule behind one that matches all its packets never decides anything. */
  lemma ShadowedIsDead(rules: seq<Rule>, i: nat, k: nat, h: Header)
    requires i < k < |rules| && (Matches(rules[k], h) ==> Matches(rules[i], h))
    ensures Decision(Without(rules, k), h) == Decision(rules, h)
  {
    hide Matches;
    DeleteDecides(rules, k, h);
  }

  // ----- every run

  datatype Event = Add(rule: Rule) | Delete(index: nat) | Clear | ClearStats | Check(packet: seq<byte>)

  function Unhit(rules: seq<Rule>): (r: seq<Rule>)
    ensures |r| == |rules| && forall i :: 0 <= i < |r| ==> r[i] == rules[i].(hits := 0)
  {
    seq(|rules|, i requires 0 <= i < |rules| => rules[i].(hits := 0))
  }

  function Step(l: List, e: Event): List {
    match e
    case Add(r) => if |l.rules| < ENTRIES_MAX then l.(rules := l.rules + [Premasked(r)]) else l
    case Delete(i) => if i < |l.rules| then l.(rules := Without(l.rules, i)) else l
    case Clear => l.(rules := [])
    case ClearStats => List(Unhit(l.rules), 0, 0, 0)
    case Check(b) => if HeaderOf(b) == None then l else Checked(l, HeaderOf(b).value)
  }

  function Run(l: List, events: seq<Event>): List {
    if events == [] then l else Step(Run(l, events[..|events| - 1]), events[|events| - 1])
  }

  /** A rule is added while there are fewer than sixteen, and clearing the counters zeroes every rule's hits and nothing else. */
  lemma EditsAre(l: List, r: Rule)
    ensures |l.rules| < 16 ==> Step(l, Add(r)) == l.(rules := l.rules + [Premasked(r)])
    ensures |l.rules| >= 16 ==> Step(l, Add(r)) == l
    ensures var c := Step(l, ClearStats);
      && c.allowed == c.denied == c.nomatch == 0 && |c.rules| == |l.rules|
      && forall i :: 0 <= i < |l.rules| ==> c.rules[i] == l.rules[i].(hits := 0)
  {
    hide Premasked;
  }

  /** IPv4 packets matched since the counters were last cleared. */
  function Matched(events: seq<Event>): nat {
    if events == [] || events[|events| - 1].ClearStats? then 0
    else
      var n := |events| - 1;
      if events[n].Check? && HeaderOf(events[n].packet) != None then Matched(events[..n]) + 1 else Matched(events[..n])
  }

  function Total(l: List): nat {
    l.allowed + l.denied + l.nomatch
  }

  /** A matched packet counts once, up to a counter wrapping to 0. */
  lemma CheckedCountsOne(l: List, h: Header) returns (wraps: nat)
    ensures Total(Checked(l, h)) + wraps * TWO32 == Total(l) + 1
    ensures |Checked(l, h).rules| == |l.rules|
  {
    hide Matches, FirstMatch;
    wraps := if Total(Checked(l, h)) > Total(l) then 0 else 1;
  }

  /** Over every run the three counters add up to the packets matched, modulo the width of a counter. */
  lemma {:induction false} CountersAddUp(events: seq<Event>) returns (wraps: nat)
    ensures Total(Run(List([], 0, 0, 0), events)) + wraps * TWO32 == Matched(events)
    ensures Matched(events) < TWO32 ==> wraps == 0
  {
    hide HeaderOf, Checked;
    wraps := 0;
    if events != [] && !events[|events| - 1].ClearStats? {
      var n := |events| - 1;
      wraps := CountersAddUp(events[..n]);
      if events[n].Check? && HeaderOf(events[n].packet) != None {
        var more := CheckedCountsOne(Run(List([], 0, 0, 0), events[..n]), HeaderOf(events[n].packet).value);
        wraps := wraps + more;
      }
    }
  }

  /** No run overfills a list. */
  lemma {:induction false} NeverOverfull(events: seq<Event>)
    ensures |Run(List([], 0, 0, 0), events).rules| <= ENTRIES_MAX
  {
    hide HeaderOf, FirstMatch;
    if events != [] {
      NeverOverfull(events[..|events| - 1]);
    }
  }

  // ----- the slot array

  /** How many slots are in use, when they form a prefix. */
  function Live(slots: seq<Rule>): (n: nat)
    ensures n <= |slots|
  {
    if slots != [] && slots[0].valid then 1 + Live(slots[1..]) else 0
  }

  ghost predicate Compact(slots: seq<Rule>) {
    forall i :: 0 <= i < |slots| ==> (slots[i].valid <==> i < Live(slots))
  }

  lemma {:induction false} LiveIs(slots: seq<Rule>, n: nat)
    requires n <= |slots| && forall i :: 0 <= i < |slots| ==> (slots[i].valid <==> i < n)
    ensures Live(slots) == n && Compact(slots)
  {
    LiveCounts(slots, n);
  }

  lemma {:induction false} LiveCounts(slots: seq<Rule>, n: nat)
    requires n <= |slots| && forall i :: 0 <= i < |slots| ==> (slots[i].valid <==> i < n)
    ensures Live(slots) == n
  {
    if n > 0 {
      LiveCounts(slots[1..], n - 1);
    }
  }

  class AclList {
    const slots: array<Rule>
    var allowed: u32
    var denied: u32
    var nomatch: u32

    ghost predicate Valid()
      reads this, slots
    {
      slots.Length == ENTRIES_MAX && Compact(slots[..])
    }

    ghost function Value(): (l: List)
      reads this, slots
      requires Valid()
    {
      List(slots[..Live(slots[..])], allowed, denied, nomatch)
    }

    constructor ()
      ensures Valid() && fresh(slots) && Value() == List([], 0, 0, 0)
    {
      slots := new Rule[16](_ => EMPTY);
      allowed, denied, nomatch := 0, 0, 0;
      new;
      LiveIs(slots[..], 0);
    }

    /** acl_get_count */
    method GetCount() returns (n: nat)
      requires Valid()
      ensures n == |Value().rules|
    {
      hide Live;
      n := 0;
      var i := 0;
      while i < slots.Length
        invariant 0 <= i <= slots.Length && n == if i <= Live(slots[..]) then i else Live(slots[..])
      {
        assert slots[i] == slots[..][i];
        if slots[i].valid {
          n := n + 1;
        }
        i := i + 1;
      }
    }

    /** The first slot not in use. */
    method FreeSlot() returns (slot: nat)
      requires Valid()
      ensures slot == Live(slots[..])
    {
      hide Live;
      slot := 0;
      while slot < slots.Length && slots[slot].valid
        invariant 0 <= slot <= Live(slots[..])
      {
        assert slots[..][slot] == slots[slot];
        slot := slot + 1;
      }
      assert slot < slots.Length ==> slots[..][slot] == slots[slot];
    }

    /** acl_add */
    method Add(r: Rule) returns (ok: bool)
      requires Valid()
      modifies slots
      ensures Valid() && ok == (|old(Value()).rules| < ENTRIES_MAX) && Value() == Step(old(Value()), Event.Add(r))
    {
      hide Live;
      var slot := FreeSlot();
      if slot == slots.Length {
        return false;
      }
      ghost var was := slots[..];
      slots[slot] := Premasked(r);
      assert slots[..] == was[slot := Premasked(r)];
      LiveIs(slots[..], slot + 1);
      assert slots[..slot + 1] == was[..slot] + [Premasked(r)];
      return true;
    }

    /** acl_delete: empties the slot, then moves the rest up one by one. */
    method Delete(index: nat) returns (ok: bool)
      requires Valid()
      modifies slots
      ensures Valid() && ok == (index < |old(Value()).rules|) && Value() == Step(old(Value()), Event.Delete(index))
    {
      hide Live;
      if index >= ENTRIES_MAX {
        return false;
      }
      assert slots[..][index] == slots[index];
      if !slots[index].valid {
        return false;
      }
      ghost var was, n := slots[..], Live(slots[..]);
      slots[index] := EMPTY;
      MoveUp(index, was, n);
      assert slots[..][..n - 1] == slots[..n - 1];
      LiveIs(slots[..], n - 1);
      assert slots[..n - 1] == Without(was[..n], index);
      return true;
    }

    method MoveUp(index: nat, ghost was: seq<Rule>, ghost n: nat)
      requires slots.Length == ENTRIES_MAX == |was| && index < n <= ENTRIES_MAX
      requires forall j :: 0 <= j < ENTRIES_MAX ==> (was[j].valid <==> j < n)
      requires forall j :: 0 <= j < ENTRIES_MAX ==> slots[j] == if j == index then EMPTY else was[j]
      modifies slots
      ensures forall j :: 0 <= j < index ==> slots[j] == was[j]
      ensures forall j :: index <= j < n - 1 ==> slots[j] == was[j + 1]
      ensures forall j :: n - 1 <= j < ENTRIES_MAX ==> !slots[j].valid
    {
      var i := index;
      while i < ENTRIES_MAX - 1
        invariant index <= i < n && !slots[i].valid
        invariant forall j :: 0 <= j < index ==> slots[j] == was[j]
        invariant forall j :: index <= j < i ==> slots[j] == was[j + 1]
        invariant forall j :: i < j < ENTRIES_MAX ==> slots[j] == was[j]
      {
        if !slots[i + 1].valid {
          break;
        }
        assert slots[i + 1] == was[i + 1];
        slots[i] := slots[i + 1];
        slots[i + 1] := EMPTY;
        i := i + 1;
      }
    }

    /** acl_clear */
    method Clear()
      requires Valid()
      modifies slots
      ensures Valid() && Value() == Step(old(Value()), Event.Clear)
    {
      hide Live;
      forall i | 0 <= i < slots.Length {
        slots[i] := EMPTY;
      }
      LiveIs(slots[..], 0);
    }

    /** acl_clear_stats */
    method ClearStats()
      requires Valid()
      modifies this, slots
      ensures Valid() && Value() == Step(old(Value()), Event.ClearStats)
    {
      hide Live;
      ghost var was, n := slots[..], Live(slots[..]);
      allowed, denied, nomatch := 0, 0, 0;
      var i := 0;
      while i < slots.Length
        invariant 0 <= i <= slots.Length
        invariant forall j :: 0 <= j < slots.Length ==> slots[j] == if j < i then was[j].(hits := 0) else was[j]
        invariant allowed == denied == nomatch == 0
      {
        slots[i] := slots[i].(hits := 0);
        i := i + 1;
      }
      LiveIs(slots[..], n);
      assert slots[..n] == Unhit(was[..n]);
    }

    /** The matching loop over the slots. */
    method Search(h: Header) returns (found: Option<nat>)
      requires Valid()
      ensures found == FirstMatch(Value().rules, h, 0)
    {
      hide Live, PortsMatch, Under, FirstMatch;
      ghost var n := Live(slots[..]);
      var i := 0;
      while i < slots.Length
        invariant 0 <= i <= slots.Length
        invariant forall j :: 0 <= j < i && j < n ==> !Matches(slots[j], h)
      {
        var r := slots[i];
        assert r == slots[..][i];
        if r.valid && (r.proto == 0 || r.proto == h.proto) && Under(h.src, r.srcMask) == r.src
           && Under(h.dst, r.dstMask) == r.dst && PortsMatch(r, h) {
          FirstMatchIs(Value().rules, h, i);
          return Some(i);
        }
        i := i + 1;
      }
      NoMatchIs(Value().rules, h);
      return None;
    }

    /** acl_check_packet */
    method CheckPacket(b: seq<byte>) returns (v: Verdict)
      requires Valid()
      modifies this, slots
      ensures v == if HeaderOf(b) == None then NoMatch else Decision(old(Value()).rules, HeaderOf(b).value)
      ensures Valid() && Value() == Step(old(Value()), Event.Check(b))
    {
      hide Live, HeaderOf, FirstMatch;
      var h := HeaderOf(b);
      if h == None {
        return NoMatch;
      }
      var found := Search(h.value);
      if found == None {
        nomatch := Inc32(nomatch);
        return NoMatch;
      }
      var i := found.value;
      v := Action(slots[i]);
      if v == Allow {
        allowed := Inc32(allowed);
      } else {
        denied := Inc32(denied);
      }
      Hit(i);
    }

    method Hit(i: nat)
      requires Valid() && i < Live(slots[..])
      modifies slots
      ensures Valid() && Live(slots[..]) == old(Live(slots[..]))
      ensures slots[..Live(slots[..])] == old(slots[..Live(slots[..])])[i := old(slots[i]).(hits := Inc32(old(slots[i]).hits))]
    {
      hide Live;
      ghost var was, n := slots[..], Live(slots[..]);
      slots[i] := slots[i].(hits := Inc32(slots[i].hits));
      assert slots[..] == was[i := was[i].(hits := Inc32(was[i].hits))];
      LiveIs(slots[..], n);
    }
  }
}
