/**
  The DHCP server seen by its clients: whom a message can affect, which address
  a reply names, how long a silent client is kept, and what the option bytes say.
*/
module DhcpClients {
  import opened Words
  import opened DhcpLeases
  import opened DhcpSafety
  import opened DhcpRuns

  // ----- who is affected by a message

  /** A message leaves every other client's lease exactly as it was. */
  lemma MessageTouchesOnlySender(s: Server, m: Message, l: Lease)
    requires l.mac != m.mac
    ensures l in Handle(s, m).0.leases <==> l in s.leases
  {
    hide NetWord, OptionState, Choose, Bumped;
    if m.cookie == MAGIC_COOKIE {
      var k := Find(s.leases, m.mac);
      if k < |s.leases| {
        var r := Refreshed(s, k, m);
        ReplacedMembers(s.leases, k, r.leases[k], l);
        SettleMembers(r, k, m, l);
      } else if NetWord(Choose(s)) <= NetWord(s.pool.last) {
        var c := Choose(s);
        var g, i := Granted(s, c, m), InsertPos(s.leases, c);
        InsertedMembers(s.leases, i, Lease(c, m.mac, s.lifetime), l);
        SettleMembers(g, i, m, l);
      }
    }
  }

  lemma ReplacedMembers(leases: seq<Lease>, k: nat, x: Lease, l: Lease)
    requires k < |leases| && l != x && l != leases[k]
    ensures l in leases[k := x] <==> l in leases
  {
    if l in leases {
      var i :| 0 <= i < |leases| && leases[i] == l;
      assert leases[k := x][i] == l;
    }
  }

  lemma InsertedMembers(leases: seq<Lease>, k: nat, x: Lease, l: Lease)
    requires k <= |leases| && l != x
    ensures l in Inserted(leases, k, x) <==> l in leases
  {
    assert leases == leases[..k] + leases[k..];
  }

  lemma WithoutMembers(leases: seq<Lease>, k: nat, l: Lease)
    requires k < |leases| && l != leases[k]
    ensures l in Without(leases, k) <==> l in leases
  {
    assert leases == leases[..k] + [leases[k]] + leases[k + 1..];
  }

  lemma SettleMembers(s: Server, k: nat, m: Message, l: Lease)
    requires k < |s.leases| && l != s.leases[k]
    ensures l in Settle(s, k, m).0.leases <==> l in s.leases
  {
    hide NetWord, OptionState, Without;
    WithoutMembers(s.leases, k, l);
  }

  // ----- which address a reply names

  ghost predicate Holds(s: Server, mac: Mac, a: Addr) {
    exists i :: 0 <= i < |s.leases| && s.leases[i].mac == mac && s.leases[i].ip == a
  }

  /** After an answer, the client address is leased to the sender; after a withdrawal the sender has no lease. */
  lemma ReplyNamesSendersLease(s: Server, m: Message)
    requires Inv(s) && m.cookie == MAGIC_COOKIE
    requires Known(s.leases, m.mac) || !Full(s)
    ensures var (r, ret) := Handle(s, m);
      if Withdrawn(ret) then !Known(r.leases, m.mac) && r.client == 0 else Holds(r, m.mac, r.client)
  {
    HandleKeepsInv(s, m);
    var k := Find(s.leases, m.mac);
    if k < |s.leases| {
      RefreshKeepsSafe(s, k, m);
      SettleNames(Refreshed(s, k, m), k, m);
    } else {
      ChosenIsFree(s);
      var c := Choose(s);
      PoolOrder(s.pool, c, s.pool.last);
      GrantKeepsSafe(s, c, m);
      SettleNames(Granted(s, c, m), InsertPos(s.leases, c), m);
    }
  }

  lemma SettleNames(s: Server, k: nat, m: Message)
    requires Inv(s) && k < |s.leases| && s.leases[k].mac == m.mac && s.leases[k].ip == s.client
    ensures var (r, ret) := Settle(s, k, m);
      if Withdrawn(ret) then !Known(r.leases, m.mac) && r.client == 0 else Holds(r, m.mac, r.client)
  {
    PoolOrder(s.pool, s.client, s.pool.last);
    hide NetWord, OptionState;
  }

  /** A client that keeps its lease keeps its address. */
  lemma AddressIsStable(s: Server, m: Message, a: Addr)
    requires Inv(s) && m.cookie == MAGIC_COOKIE && Holds(s, m.mac, a)
    ensures var (r, ret) := Handle(s, m); !Withdrawn(ret) ==> r.client == a && Holds(r, m.mac, a)
  {
    ReplyNamesSendersLease(s, m);
    var k := Find(s.leases, m.mac);
    assert s.leases[k].ip == a;
    hide NetWord, OptionState, Bumped;
  }

  // ----- how long a silent client is kept

  ghost predicate Timed(leases: seq<Lease>, most: int) {
    forall l <- leases :: 1 <= l.timer <= most
  }

  function Ticks(events: seq<Event>): nat {
    if events == [] then 0
    else Ticks(events[..|events| - 1]) + if events[|events| - 1].Tick? then 1 else 0
  }

  ghost predicate Silent(events: seq<Event>, mac: Mac) {
    forall i :: 0 <= i < |events| ==> events[i].Tick? || events[i].m.mac != mac
  }

  /** Every lease a tick keeps is an older copy of one that had more than a second left. */
  lemma {:induction false} ExpiredFrom(leases: seq<Lease>, l: Lease)
    requires l in Expired(leases)
    ensures exists o <- leases :: l == Aged(o) && l.timer != 0
  {
    var n := |leases| - 1;
    if l in Expired(leases[..n]) {
      ExpiredFrom(leases[..n], l);
    } else {
      assert l == Aged(leases[n]);
    }
  }

  /** The timer wraps: a lease granted for no time at all has 2^32 - 1 ticks left after the first. */
  lemma NoTimeIsForever(l: Lease)
    requires l.timer == 0
    ensures Ticked([l]) == [l.(timer := 0xffff_ffff)]
  {
    assert Expired([l][..0]) == [];
  }

  lemma TickedFrom(leases: seq<Lease>, l: Lease)
    requires l in Ticked(leases)
    ensures exists o <- leases :: l == Aged(o) && l.timer != 0
  {
    var live := Expired(leases);
    assert l in live;
    ExpiredFrom(leases, l);
  }

  ghost predicate KeptAtMost(leases: seq<Lease>, mac: Mac, most: int) {
    forall l <- leases :: l.mac == mac ==> 1 <= l.timer <= most
  }

  lemma TickShortens(leases: seq<Lease>, mac: Mac, most: int)
    requires KeptAtMost(leases, mac, most)
    ensures KeptAtMost(Ticked(leases), mac, most - 1)
  {
    forall l <- Ticked(leases) | l.mac == mac
      ensures 1 <= l.timer <= most - 1
    {
      TickedFrom(leases, l);
    }
  }

  lemma MessageKeepsBound(s: Server, m: Message, mac: Mac, most: int)
    requires m.mac != mac && KeptAtMost(s.leases, mac, most)
    ensures KeptAtMost(Handle(s, m).0.leases, mac, most)
  {
    forall l <- Handle(s, m).0.leases | l.mac == mac
      ensures l in s.leases
    {
      MessageTouchesOnlySender(s, m, l);
    }
  }

  lemma {:induction false} SilenceShortens(s: Server, events: seq<Event>, mac: Mac)
    requires KeptAtMost(s.leases, mac, s.lifetime) && Silent(events, mac)
    ensures KeptAtMost(Run(s, events).leases, mac, s.lifetime - Ticks(events))
  {
    if events != [] {
      var n := |events| - 1;
      var front := events[..n];
      SilenceShortens(s, front, mac);
      match events[n]
      case Received(m) => MessageKeepsBound(Run(s, front), m, mac, s.lifetime - Ticks(front));
      case Tick => TickShortens(Run(s, front).leases, mac, s.lifetime - Ticks(front));
    }
  }

  /** A client silent for as many ticks as its lease lasts is gone, whatever the others do. */
  lemma SilentClientExpires(s: Server, events: seq<Event>, mac: Mac)
    requires Timed(s.leases, s.lifetime) && Silent(events, mac) && Ticks(events) >= s.lifetime
    ensures !Known(Run(s, events).leases, mac)
  {
    SilenceShortens(s, events, mac);
  }

  /** With a positive lease time every lease in every run has between one and lifetime ticks left. */
  lemma {:induction false} RunKeepsTimed(s: Server, events: seq<Event>)
    requires Timed(s.leases, s.lifetime) && s.lifetime >= 1
    ensures Timed(Run(s, events).leases, s.lifetime) && Run(s, events).lifetime == s.lifetime
  {
    if events != [] {
      var n := |events| - 1;
      RunKeepsTimed(s, events[..n]);
      var r := Run(s, events[..n]);
      match events[n]
      case Received(m) => HandleKeepsTimed(r, m);
      case Tick => forall l <- Ticked(r.leases)
        ensures 1 <= l.timer <= s.lifetime
      {
        TickedFrom(r.leases, l);
      }
    }
  }

  lemma HandleKeepsTimed(s: Server, m: Message)
    requires Timed(s.leases, s.lifetime) && s.lifetime >= 1
    ensures Timed(Handle(s, m).0.leases, s.lifetime) && Handle(s, m).0.lifetime == s.lifetime
  {
    hide NetWord, OptionState, Choose, Bumped, Find, InsertPos;
    HandleFrame(s, m);
    forall l <- Handle(s, m).0.leases
      ensures 1 <= l.timer <= s.lifetime
    {
      HandledFrom(s, m, l);
    }
  }

  /** Every lease after a message was there before or has the full lifetime. */
  lemma HandledFrom(s: Server, m: Message, l: Lease)
    requires l in Handle(s, m).0.leases
    ensures l in s.leases || l.timer == s.lifetime
  {
    hide NetWord, OptionState, Choose, Bumped;
    if m.cookie == MAGIC_COOKIE {
      var k := Find(s.leases, m.mac);
      if k < |s.leases| {
        SettledFrom(Refreshed(s, k, m), k, m, l);
      } else if NetWord(Choose(s)) <= NetWord(s.pool.last) {
        var c := Choose(s);
        SettledFrom(Granted(s, c, m), InsertPos(s.leases, c), m, l);
      }
    }
  }

  lemma SettledFrom(s: Server, k: nat, m: Message, l: Lease)
    requires k < |s.leases| && l in Settle(s, k, m).0.leases
    ensures l in s.leases
  {
    hide NetWord, OptionState;
  }

  lemma {:induction false} ExpiredKeeps(leases: seq<Lease>, l: Lease)
    requires l in leases && Aged(l).timer != 0
    ensures Aged(l) in Expired(leases)
  {
    var n := |leases| - 1;
    assert leases == leases[..n] + [leases[n]];
    if l in leases[..n] {
      ExpiredKeeps(leases[..n], l);
    }
  }

  lemma {:induction false} ExpiredShrinks(leases: seq<Lease>)
    ensures |Expired(leases)| <= |leases|
  {
    if leases != [] {
      ExpiredShrinks(leases[..|leases| - 1]);
    }
  }

  lemma AtMostItself(n: nat)
    ensures n % 0x100 <= n
  {
  }

  /** The guard of the tick's trimming: too many leases with time left, counted in eight bits. */
  ghost predicate Crowded(leases: seq<Lease>) {
    |Expired(leases)| % 0x100 > 16
  }

  /** With time left, a lease loses its address in a tick exactly when the list is crowded and it is the oldest. */
  lemma TickFreesIff(leases: seq<Lease>, p: Pool, l: Lease)
    requires Sorted(leases) && DistinctMacs(leases) && Within(leases, p) && l in leases && Aged(l).timer != 0
    ensures |Expired(leases)| > 0
    ensures !Leased(Ticked(leases), l.ip) <==> Crowded(leases) && Aged(l) == Expired(leases)[Oldest(Expired(leases))]
    ensures Aged(l) in Ticked(leases) <==> Leased(Ticked(leases), l.ip)
  {
    hide Expired, Aged, DistinctMacs;
    var live := Expired(leases);
    ExpiredKeeps(leases, l);
    ExpiryKeepsSafe(leases, p);
    AgedKeepsAddress(l);
    var i :| 0 <= i < |live| && live[i] == Aged(l);
    var k := Oldest(live);
    var r := Ticked(leases);
    if Crowded(leases) {
      assert r == Without(live, k);
      if i != k {
        assert r[if i < k then i else i - 1] == live[i];
      }
    } else {
      assert r[i] == live[i];
    }
  }

  lemma AgedKeepsAddress(l: Lease)
    ensures Aged(l).ip == l.ip && Aged(l).mac == l.mac
  {
  }

  /** Every lease with time left keeps its address through a tick exactly when the list is not crowded. */
  lemma TickKeepsAllIff(leases: seq<Lease>, p: Pool)
    requires Sorted(leases) && DistinctMacs(leases) && Within(leases, p)
    ensures (forall l <- leases :: Aged(l).timer != 0 ==> Leased(Ticked(leases), l.ip)) <==> !Crowded(leases)
  {
    hide Aged, Ticked, Sorted, DistinctMacs, Within, Leased;
    var live := Expired(leases);
    if Crowded(leases) {
      var x := live[Oldest(live)];
      ExpiredFrom(leases, x);
      var o :| o in leases && x == Aged(o) && x.timer != 0;
      TickFreesIff(leases, p, o);
    }
    forall l <- leases | Aged(l).timer != 0
      ensures !Crowded(leases) ==> Leased(Ticked(leases), l.ip)
    {
      TickFreesIff(leases, p, l);
    }
  }

  /** No tick of the run finds the list crowded. */
  ghost predicate NeverCrowded(s: Server, events: seq<Event>) {
    forall k :: 0 <= k < |events| && events[k].Tick? ==> !Crowded(Run(s, events[..k]).leases)
  }

  /** A silent client keeps its lease, one tick shorter each tick, for as long as it lasts. */
  lemma {:induction false} LeaseIsKept(s: Server, events: seq<Event>, l: Lease)
    requires l in s.leases && Silent(events, l.mac) && Ticks(events) < l.timer && NeverCrowded(s, events)
    ensures l.(timer := l.timer - Ticks(events)) in Run(s, events).leases
  {
    hide Handle, Crowded;
    if events != [] {
      var n := |events| - 1;
      var front := events[..n];
      assert forall k :: 0 <= k <= n ==> front[..k] == events[..k];
      LeaseIsKept(s, front, l);
      var kept := l.(timer := l.timer - Ticks(front));
      match events[n]
      case Received(m) => MessageTouchesOnlySender(Run(s, front), m, kept);
      case Tick =>
        assert !Crowded(Run(s, front).leases);
        UncrowdedTick(Run(s, front).leases, kept);
    }
  }

  lemma UncrowdedTick(leases: seq<Lease>, l: Lease)
    requires l in leases && l.timer > 1 && !Crowded(leases)
    ensures l.(timer := l.timer - 1) in Ticked(leases)
  {
    ExpiredKeeps(leases, l);
  }

  /** Meanwhile no other client has a lease on its address. */
  lemma NoOtherHolder(s: Server, events: seq<Event>, l: Lease)
    requires Inv(s) && l in s.leases && Silent(events, l.mac) && Ticks(events) < l.timer && NeverCrowded(s, events)
    ensures forall x <- Run(s, events).leases :: x.ip == l.ip ==> x.mac == l.mac
  {
    hide Run, NeverCrowded;
    LeaseIsKept(s, events, l);
    RunKeepsInv(s, events);
    OneHolder(Run(s, events).leases, l.(timer := l.timer - Ticks(events)));
  }

  /**
    Neither does a message then give its address away: no other client is leased it,
    and no answer to another client names it.
  */
  lemma LeaseIsExclusive(s: Server, events: seq<Event>, l: Lease, m: Message)
    requires Inv(s) && l in s.leases && Silent(events, l.mac) && Ticks(events) < l.timer && NeverCrowded(s, events)
    requires m.cookie == MAGIC_COOKIE && m.mac != l.mac
    ensures forall x <- Run(s, events).leases :: x.ip == l.ip ==> x.mac == l.mac
    ensures var (r, ret) := Handle(Run(s, events), m);
      && (forall x <- r.leases :: x.ip == l.ip ==> x.mac == l.mac)
      && (!Withdrawn(ret) ==> r.client != l.ip)
  {
    hide Handle, Run, NeverCrowded, Full, Holds;
    var now := Run(s, events);
    var kept := l.(timer := l.timer - Ticks(events));
    LeaseIsKept(s, events, l);
    RunKeepsInv(s, events);
    HandleKeepsInv(now, m);
    MessageTouchesOnlySender(now, m, kept);
    NoOtherHolder(s, events, l);
    OneHolder(Handle(now, m).0.leases, kept);
    if Known(now.leases, m.mac) || !Full(now) {
      ReplyNamesSendersLease(now, m);
      HolderIsOnList(Handle(now, m).0, m.mac, Handle(now, m).0.client);
    } else {
      NewcomerIsServed(now, m);
    }
  }

  lemma OneHolder(leases: seq<Lease>, l: Lease)
    requires Sorted(leases) && l in leases
    ensures forall x <- leases :: x.ip == l.ip ==> x == l
  {
  }

  lemma HolderIsOnList(s: Server, mac: Mac, a: Addr)
    ensures Holds(s, mac, a) <==> exists x <- s.leases :: x.mac == mac && x.ip == a
  {
  }

  // ----- what the options say

  datatype Tlv = Pad | Item(code: byte, body: seq<byte>)

  ghost predicate WellFormed(o: Tlv) {
    o.Item? ==> o.code != 0 && o.code != 255 && |o.body| < 0x100
  }

  function EncodeOne(o: Tlv): seq<byte>
    requires WellFormed(o)
  {
    match o
    case Pad => [0]
    case Item(code, body) => [code, |body|] + body
  }

  function Encode(opts: seq<Tlv>): seq<byte>
    requires forall o <- opts :: WellFormed(o)
  {
    if opts == [] then []
    else EncodeOne(opts[0]) + Encode(opts[1..])
  }

  /** Where the options end: nothing left, the end marker, or an option that is cut short. */
  ghost predicate Closes(rest: seq<byte>) {
    rest == [] || rest[0] == 255 || (rest[0] != 0 && (|rest| == 1 || 2 + rest[1] > |rest|))
  }

  /** Any option bytes are well-formed options up to such an end. */
  lemma {:induction false} EveryListDecodes(o: seq<byte>) returns (opts: seq<Tlv>, rest: seq<byte>)
    ensures (forall x <- opts :: WellFormed(x)) && Closes(rest) && o == Encode(opts) + rest
    decreases |o|
  {
    if Closes(o) {
      opts, rest := [], o;
    } else {
      var x := if o[0] == 0 then Pad else Item(o[0], o[2..2 + o[1]]);
      var n := |EncodeOne(x)|;
      assert o[..n] == EncodeOne(x);
      opts, rest := EveryListDecodes(o[n..]);
      opts := [x] + opts;
      assert o == o[..n] + o[n..];
    }
  }

  /** The body of the last option with this code and at least size bytes. */
  function Last(opts: seq<Tlv>, code: byte, size: nat): (r: Option<seq<byte>>)
    ensures r.Some? ==> |r.value| >= size
  {
    if opts == [] then None
    else
      var later := Last(opts[1..], code, size);
      if later.Some? then later
      else if opts[0].Item? && opts[0].code == code && |opts[0].body| >= size then Some(opts[0].body)
      else None
  }

  function Meaning(opts: seq<Tlv>, v: Verdict, client: Addr): Verdict {
    var kind, asked := Last(opts, 53, 1), Last(opts, 50, 4);
    Verdict(
      if kind.Some? then kind.value[0] else v.kind,
      if asked.None? then v.state else if AddrOf(asked.value[..4]) == client then STATE_ACK else STATE_NAK)
  }

  lemma MeaningStep(opts: seq<Tlv>, v: Verdict, client: Addr)
    requires opts != [] && WellFormed(opts[0])
    ensures Meaning(opts, v, client)
      == Meaning(opts[1..], if opts[0].Pad? then v else Absorb(v, opts[0].code, opts[0].body, client), client)
  {
    hide AddrOf;
  }

  /** The walk over any options ends with the last message type and the last requested address. */
  lemma {:induction false} WalkDecodes(opts: seq<Tlv>, rest: seq<byte>, v: Verdict, client: Addr)
    requires forall o <- opts :: WellFormed(o)
    requires Closes(rest)
    ensures Walk(Encode(opts) + rest, v, client) == Meaning(opts, v, client)
  {
    hide Meaning, Absorb, Walk, EncodeOne;
    if opts == [] {
      assert Encode(opts) + rest == rest;
      NoMeaning(rest, v, client);
    } else {
      var tail := Encode(opts[1..]) + rest;
      assert Encode(opts) + rest == EncodeOne(opts[0]) + tail;
      MeaningStep(opts, v, client);
      if opts[0].Pad? {
        WalkPad(tail, v, client);
        WalkDecodes(opts[1..], rest, v, client);
      } else {
        WalkItem(opts[0].code, opts[0].body, tail, v, client);
        WalkDecodes(opts[1..], rest, Absorb(v, opts[0].code, opts[0].body, client), client);
      }
    }
  }

  lemma NoMeaning(rest: seq<byte>, v: Verdict, client: Addr)
    requires Closes(rest)
    ensures Walk(rest, v, client) == v && Meaning([], v, client) == v
  {
  }

  lemma WalkPad(tail: seq<byte>, v: Verdict, client: Addr)
    ensures Walk(EncodeOne(Pad) + tail, v, client) == Walk(tail, v, client)
  {
    assert (EncodeOne(Pad) + tail)[1..] == tail;
  }

  lemma WalkItem(code: byte, body: seq<byte>, tail: seq<byte>, v: Verdict, client: Addr)
    requires WellFormed(Item(code, body))
    ensures Walk(EncodeOne(Item(code, body)) + tail, v, client) == Walk(tail, Absorb(v, code, body, client), client)
  {
    hide Absorb;
    var bytes := EncodeOne(Item(code, body)) + tail;
    assert |bytes| >= 2 + |body| && bytes[0] == code && bytes[1] == |body|;
    assert bytes[2..2 + bytes[1]] == body;
    assert bytes[2 + bytes[1]..] == tail;
  }

  /** A REQUEST that names an address is acknowledged exactly when it is the sender's own. */
  lemma RequestIsJudgedByAddress(opts: seq<Tlv>, rest: seq<byte>, client: Addr, renew: bool, asked: seq<byte>)
    requires forall o <- opts :: WellFormed(o)
    requires Closes(rest)
    requires Last(opts, 53, 1).Some? && Last(opts, 53, 1).value[0] == 3 && Last(opts, 50, 4) == Some(asked)
    ensures OptionState(Encode(opts) + rest, client, renew)
      == if AddrOf(asked[..4]) == client then STATE_ACK else STATE_NAK
  {
    WalkDecodes(opts, rest, Verdict(0, STATE_IDLE), client);
  }
}
