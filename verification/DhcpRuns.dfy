/**
  Whole runs of the DHCP server: which default pools are served correctly over
  every run, who a message can affect, and how long a silent client is kept.
*/
module DhcpRuns {
  import opened Words
  import opened Arithmetic
  import opened DhcpLeases
  import opened DhcpSafety

  // ----- what a newcomer may expect

  predicate Withdrawn(state: int) {
    state == STATE_RELEASE || state == STATE_NAK || state == STATE_DECLINE
  }

  /** m was answered from a free pool address, which is leased to its sender unless the options withdraw it. */
  ghost predicate Answered(s: Server, m: Message) {
    exists c: Addr ::
      && s.pool.first <= c <= s.pool.last && !Leased(s.leases, c)
      && Handle(s, m).1 == OptionState(m.options, c, false)
      && (!Withdrawn(Handle(s, m).1) ==> Lease(c, m.mac, s.lifetime) in Handle(s, m).0.leases)
  }

  /** No newcomer is refused while a pool address is free. */
  ghost predicate Serves(s: Server) {
    forall m: Message :: m.cookie == MAGIC_COOKIE && !Known(s.leases, m.mac) && !Full(s) ==> Answered(s, m)
  }

  ghost predicate Correct(s: Server) {
    Safe(s) && Serves(s)
  }

  lemma NewcomerIsServed(s: Server, m: Message)
    requires Inv(s) && m.cookie == MAGIC_COOKIE && !Known(s.leases, m.mac)
    ensures Full(s) ==> Handle(s, m).1 == 4 && Handle(s, m).0.leases == s.leases
    ensures !Full(s) ==> Answered(s, m)
  {
    hide NetWord, Choose, Find, OptionState, Bumped, FirstGap, Leased, InsertPos, Granted;
    ChosenIsFree(s);
    NotFound(s.leases, m.mac);
    if !Full(s) {
      AnsweredAt(s, m, Choose(s));
    }
  }

  lemma NotFound(leases: seq<Lease>, mac: Mac)
    requires !Known(leases, mac)
    ensures Find(leases, mac) == |leases|
  {
  }

  lemma AnsweredAt(s: Server, m: Message, c: Addr)
    requires m.cookie == MAGIC_COOKIE && Find(s.leases, m.mac) == |s.leases| && Choose(s) == c
    requires 0 < s.pool.first <= c <= s.pool.last && !Leased(s.leases, c) && NetWord(c) <= NetWord(s.pool.last)
    ensures Answered(s, m)
  {
    hide NetWord, Choose, Find, OptionState, Leased, InsertPos;
    var g, k := Granted(s, c, m), InsertPos(s.leases, c);
    assert g.leases[k] == Lease(c, m.mac, s.lifetime);
    assert Handle(s, m) == Settle(g, k, m);
  }

  lemma RunSnoc(s: Server, events: seq<Event>, e: Event)
    ensures Run(s, events + [e]) == Step(Run(s, events), e)
  {
    assert (events + [e])[..|events|] == events;
  }

  lemma {:induction false} RunKeepsInv(s: Server, events: seq<Event>)
    requires Inv(s)
    ensures Inv(Run(s, events)) && Run(s, events).pool == s.pool && Run(s, events).lifetime == s.lifetime
  {
    if events != [] {
      var n := |events| - 1;
      hide Step, Inv;
      RunKeepsInv(s, events[..n]);
      StepKeepsInv(Run(s, events[..n]), events[n]);
    }
  }

  lemma StepKeepsInv(s: Server, e: Event)
    requires Inv(s)
    ensures Inv(Step(s, e)) && Step(s, e).pool == s.pool && Step(s, e).lifetime == s.lifetime
  {
    match e
    case Received(m) => {
      HandleKeepsInv(s, m);
      HandleFrame(s, m);
      hide Inv, Handle;
    }
    case Tick => {
      TickKeepsSafe(s.leases, s.pool);
      hide OneBlock, Ticked, Sorted, DistinctMacs, Within;
    }
  }

  lemma HandleFrame(s: Server, m: Message)
    ensures Handle(s, m).0.pool == s.pool && Handle(s, m).0.lifetime == s.lifetime
  {
    hide Choose, Find, InsertPos, OptionState, Bumped, NetWord;
  }

  // ----- the timer

  lemma {:induction false} ExpiredBelow(leases: seq<Lease>, x: Addr)
    requires forall l <- leases :: l.ip < x
    ensures forall l <- Expired(leases) :: l.ip < x
  {
    if leases != [] {
      ExpiredBelow(leases[..|leases| - 1], x);
    }
  }

  lemma {:induction false} ExpiredLacks(leases: seq<Lease>, mac: Mac)
    requires forall l <- leases :: l.mac != mac
    ensures forall l <- Expired(leases) :: l.mac != mac
  {
    if leases != [] {
      ExpiredLacks(leases[..|leases| - 1], mac);
    }
  }

  lemma AppendKeepsSafe(r: seq<Lease>, l: Lease, p: Pool)
    requires Sorted(r) && DistinctMacs(r) && Within(r, p)
    requires forall x <- r :: x.ip < l.ip && x.mac != l.mac
    requires p.first <= l.ip <= p.last
    ensures Sorted(r + [l]) && DistinctMacs(r + [l]) && Within(r + [l], p)
  {
  }

  lemma {:induction false} ExpiryKeepsSafe(leases: seq<Lease>, p: Pool)
    requires Sorted(leases) && DistinctMacs(leases) && Within(leases, p)
    ensures var r := Expired(leases); Sorted(r) && DistinctMacs(r) && Within(r, p)
  {
    if leases != [] {
      var n := |leases| - 1;
      var front, l := leases[..n], Aged(leases[n]);
      ExpiryKeepsSafe(front, p);
      ExpiredBelow(front, l.ip);
      ExpiredLacks(front, l.mac);
      hide Sorted, DistinctMacs, Within;
      if l.timer == 0 {
        assert Expired(leases) == Expired(front);
      } else {
        AppendKeepsSafe(Expired(front), l, p);
      }
    }
  }

  lemma TickKeepsSafe(leases: seq<Lease>, p: Pool)
    requires Sorted(leases) && DistinctMacs(leases) && Within(leases, p)
    ensures var r := Ticked(leases); Sorted(r) && DistinctMacs(r) && Within(r, p)
  {
    ExpiryKeepsSafe(leases, p);
    var live := Expired(leases);
    if |live| >= 2 {
      RemovalKeepsSafe(live, Oldest(live), p);
    }
  }

  // ----- exactly which default pools are served correctly

  const DISCOVER: seq<byte> := [53, 1, 1, 255]

  function Discover(mac: Mac): Message {
    Message(MAGIC_COOKIE, 0, mac, DISCOVER)
  }

  lemma DiscoverIsOffered(client: Addr, renew: bool)
    ensures OptionState(DISCOVER, client, renew) == STATE_OFFER
  {
    var v := Verdict(0, STATE_IDLE);
    assert DISCOVER[3..] == [255];
    assert DISCOVER[2..3] == [1];
    assert Walk(DISCOVER, v, client) == Walk([255], Absorb(v, 53, [1], client), client);
  }

  /** The first n leases handed out from a fresh pool. */
  function Filled(pool: Pool, lifetime: u32, n: nat): seq<Lease>
    requires n <= MAX_LEASE && pool.first + n <= TWO32
  {
    seq(n, i requires 0 <= i < n => Lease(pool.first + i, i, lifetime))
  }

  function FillEvents(n: nat): seq<Event>
    requires n <= MAX_LEASE
  {
    if n == 0 then [] else FillEvents(n - 1) + [Received(Discover(n - 1))]
  }

  /** A pool of at most MAX_LEASE addresses inside one /24. */
  ghost predicate InBlock(p: Pool) {
    0 < p.first <= p.last && p.first / 0x100 == p.last / 0x100 && p.last + 1 < TWO32 && p.last < p.first + MAX_LEASE
  }

  /** One whose last address ends in 255: the pointer can leave it unseen. */
  ghost predicate EndsAt255(p: Pool) {
    InBlock(p) && p.last % 0x100 == 0xff
  }

  lemma FilledFind(s: Server, n: nat, mac: Mac)
    requires n <= MAX_LEASE && s.pool.first + n <= TWO32 && s.leases == Filled(s.pool, s.lifetime, n) && n <= mac
    ensures Find(s.leases, mac) == n
  {
  }

  lemma FilledChoice(s: Server, n: nat)
    requires InBlock(s.pool) && n <= s.pool.last - s.pool.first
    requires s.leases == Filled(s.pool, s.lifetime, n) && s.plus == s.pool.first + n && !s.declined
    ensures Choose(s) == s.pool.first + n && NetWord(s.pool.first + n) <= NetWord(s.pool.last)
    ensures InsertPos(s.leases, s.pool.first + n) == n
  {
    var c := s.pool.first + n;
    BumpedStays(s.leases, c);
    NetWordOrder(s.pool.last, c);
    forall i | 0 <= i < n
      ensures NetWord(s.leases[i].ip) < NetWord(c)
    {
      NetWordOrder(s.leases[i].ip, c);
    }
    hide NetWord, InBlock;
    assert InsertPos(s.leases, c) == n;
  }

  lemma FilledGrows(pool: Pool, lifetime: u32, n: nat)
    requires n < MAX_LEASE && pool.first + n + 1 <= TWO32
    ensures Inserted(Filled(pool, lifetime, n), n, Lease(pool.first + n, n, lifetime)) == Filled(pool, lifetime, n + 1)
  {
  }

  /** The state after n newcomers have been served from a fresh pool. */
  ghost predicate PartFilled(s: Server, pool: Pool, lifetime: u32, n: nat)
    requires InBlock(pool) && n <= pool.last - pool.first + 1
  {
    && s.pool == pool && s.lifetime == lifetime && !s.declined
    && s.leases == Filled(pool, lifetime, n)
    && s.plus == if n == pool.last - pool.first + 1 then pool.first else pool.first + n
  }

  lemma FilledStep(s: Server, n: nat)
    requires InBlock(s.pool) && n <= s.pool.last - s.pool.first && PartFilled(s, s.pool, s.lifetime, n)
    ensures PartFilled(Step(s, Received(Discover(n))), s.pool, s.lifetime, n + 1)
  {
    hide Handle, Find, Choose, NetWord, InsertPos, OptionState, Inserted;
    var c := s.pool.first + n;
    FilledFind(s, n, n);
    FilledChoice(s, n);
    FilledGrows(s.pool, s.lifetime, n);
    DiscoverIsOffered(c, false);
    OfferedIsGranted(s, Discover(n), c);
  }

  lemma OfferedIsGranted(s: Server, m: Message, c: Addr)
    requires m.cookie == MAGIC_COOKIE && Find(s.leases, m.mac) == |s.leases| && Choose(s) == c
    requires NetWord(c) <= NetWord(s.pool.last) && c != 0
    requires OptionState(m.options, c, false) == STATE_OFFER
    ensures Handle(s, m) == (Granted(s, c, m), STATE_OFFER)
  {
    hide Choose, Find, InsertPos, NetWord, OptionState, Inserted;
    var g, k := Granted(s, c, m), InsertPos(s.leases, c);
    assert g.client == c && g.pool == s.pool && !g.renew;
    assert Handle(s, m) == Settle(g, k, m);
  }

  lemma {:induction false} BumpedStays(leases: seq<Lease>, plus: Addr)
    requires forall i :: 0 <= i < |leases| ==> leases[i].ip != plus
    ensures Bumped(leases, plus) == plus
  {
    if leases != [] {
      BumpedStays(leases[..|leases| - 1], plus);
    }
  }

  lemma {:induction false} FillRun(s: Server, n: nat)
    requires InBlock(s.pool) && n <= s.pool.last - s.pool.first + 1 && PartFilled(s, s.pool, s.lifetime, 0)
    ensures PartFilled(Run(s, FillEvents(n)), s.pool, s.lifetime, n)
  {
    hide Step;
    if n > 0 {
      FillRun(s, n - 1);
      RunSnoc(s, FillEvents(n - 1), Received(Discover(n - 1)));
      FilledStep(Run(s, FillEvents(n - 1)), n - 1);
    }
  }

  lemma {:induction false} BumpedThrough(leases: seq<Lease>, first: Addr)
    requires first + |leases| < TWO32
    requires forall i :: 0 <= i < |leases| ==> leases[i].ip == first + i
    ensures Bumped(leases, first) == first + |leases|
  {
    if leases != [] {
      BumpedThrough(leases[..|leases| - 1], first);
    }
  }

  /** With such a pool filled, the next newcomer is given the address after the pool. */
  lemma OneTooMany(s: Server)
    requires EndsAt255(s.pool) && PartFilled(s, s.pool, s.lifetime, s.pool.last - s.pool.first + 1)
    ensures !Safe(Step(s, Received(Discover(0xff))))
  {
    hide Handle, Find, Choose, NetWord, OptionState, Filled, Sorted, DistinctMacs;
    var c := s.pool.last + 1;
    OverrunChoice(s);
    DiscoverIsOffered(c, false);
    OfferedIsGranted(s, Discover(0xff), c);
    assert Granted(s, c, Discover(0xff)).leases[InsertPos(s.leases, c)].ip == c;
  }

  lemma OverrunChoice(s: Server)
    requires EndsAt255(s.pool) && PartFilled(s, s.pool, s.lifetime, s.pool.last - s.pool.first + 1)
    ensures Find(s.leases, 0xff) == |s.leases| && Choose(s) == s.pool.last + 1
    ensures NetWord(s.pool.last + 1) <= NetWord(s.pool.last)
  {
    hide NetWord;
    FilledFind(s, |s.leases|, 0xff);
    BumpedThrough(s.leases, s.pool.first);
    NetWordLastOctet(s.pool.last + 1, s.pool.last);
  }

  /** A pool across two /24s refuses its very first client. */
  lemma RefusesFirstClient(s: Server, mac: Mac)
    requires Fresh(s) && s.pool.first / 0x100 != s.pool.last / 0x100
    ensures Handle(s, Discover(mac)).1 == STATE_NAK && !Serves(s)
  {
    hide NetWord, OptionState;
    NetWordLastOctet(s.pool.last, s.pool.first);
    var m := Discover(mac);
    assert !Leased(s.leases, s.pool.first);
    forall c: Addr
      ensures OptionState(m.options, c, false) == STATE_OFFER
    {
      DiscoverIsOffered(c, false);
    }
    assert !Answered(s, m);
  }

  /** A started server: nobody served yet, at most MAX_LEASE addresses to give away. */
  ghost predicate Fresh(s: Server) {
    && s.leases == [] && s.plus == s.pool.first && !s.declined
    && 0 < s.pool.first <= s.pool.last < s.pool.first + MAX_LEASE && s.pool.last + 1 < TWO32
  }

  /** Every run is correct exactly when the pool and the address after it share one /24. */
  lemma CorrectIffOneBlock(s: Server)
    requires Fresh(s)
    ensures (forall events: seq<Event> :: Correct(Run(s, events))) <==> OneBlock(s.pool)
  {
    if OneBlock(s.pool) {
      forall events: seq<Event>
        ensures Correct(Run(s, events))
      {
        RunIsCorrect(s, events);
      }
    } else if s.pool.first / 0x100 != s.pool.last / 0x100 {
      RefusesFirstClient(s, 0);
      Refuted(s, []);
    } else {
      assert EndsAt255(s.pool);
      OverrunRefutes(s);
    }
  }

  lemma OverrunRefutes(s: Server)
    requires Fresh(s) && EndsAt255(s.pool)
    ensures !forall events: seq<Event> :: Correct(Run(s, events))
  {
    OverrunLeavesPool(s);
    Refuted(s, FillEvents(s.pool.last - s.pool.first + 1) + [Received(Discover(0xff))]);
  }

  /** One DISCOVER from each of as many clients as the pool holds, and one more. */
  lemma OverrunLeavesPool(s: Server)
    requires Fresh(s) && EndsAt255(s.pool)
    ensures !Safe(Run(s, FillEvents(s.pool.last - s.pool.first + 1) + [Received(Discover(0xff))]))
  {
    var n := s.pool.last - s.pool.first + 1;
    FillRun(s, n);
    OneTooMany(Run(s, FillEvents(n)));
    RunSnoc(s, FillEvents(n), Received(Discover(0xff)));
  }

  lemma Refuted(s: Server, events: seq<Event>)
    requires !Safe(Run(s, events)) || !Serves(Run(s, events))
    ensures !forall events: seq<Event> :: Correct(Run(s, events))
  {
    assert !Correct(Run(s, events));
  }

  lemma RunIsCorrect(s: Server, events: seq<Event>)
    requires Inv(s)
    ensures Correct(Run(s, events))
  {
    RunKeepsInv(s, events);
    var r := Run(s, events);
    forall m: Message | m.cookie == MAGIC_COOKIE && !Known(r.leases, m.mac) && !Full(r)
      ensures Answered(r, m)
    {
      NewcomerIsServed(r, m);
    }
  }

  lemma BootIsFresh(ip: Addr, plen: nat, lifetime: u32)
    requires Startable(ip, plen)
    ensures Fresh(Boot(ip, plen, lifetime))
    ensures plen >= 24 ==> OneBlock(DefaultPool(ip, plen))
  {
    DefaultPoolShape(ip, plen);
    BroadcastFits(ip, plen);
    hide AlignDown, Pow2;
    if plen >= 24 {
      ShortBlock(ip, plen);
      SameBlock(NetworkOf(ip, plen), DefaultPool(ip, plen).first, DefaultPool(ip, plen).last + 1, BroadcastOf(ip, plen));
    }
  }

  /** 192.168.4.200 with a mask of /16: the computed pool crosses into 192.168.5, and the first client is refused. */
  lemma ShortMaskRefuses(lifetime: u32, mac: Mac)
    ensures Startable(0xC0A8_04C8, 16)
    ensures var s := Boot(0xC0A8_04C8, 16, lifetime);
      && s.pool == Pool(0xC0A8_04C9, 0xC0A8_052C)
      && Handle(s, Discover(mac)).1 == STATE_NAK && !Serves(s)
  {
    SixteenBits(0xC0A8_04C8);
    BootIsFresh(0xC0A8_04C8, 16, lifetime);
    RefusesFirstClient(Boot(0xC0A8_04C8, 16, lifetime), mac);
  }

  /** 192.168.4.155 with a mask of /16: the computed pool ends in .255, and some run leaves it. */
  lemma ShortMaskOverruns(lifetime: u32)
    ensures Startable(0xC0A8_049B, 16)
    ensures var s := Boot(0xC0A8_049B, 16, lifetime);
      && s.pool == Pool(0xC0A8_049C, 0xC0A8_04FF)
      && !Safe(Run(s, FillEvents(100) + [Received(Discover(0xff))]))
  {
    SixteenBits(0xC0A8_049B);
    BootIsFresh(0xC0A8_049B, 16, lifetime);
    OverrunLeavesPool(Boot(0xC0A8_049B, 16, lifetime));
  }

  lemma SixteenBits(ip: Addr)
    requires 0xC0A8_0000 < ip < 0xC0A8_7FFF
    ensures Startable(ip, 16) && DefaultPool(ip, 16) == Pool(ip + 1, ip + MAX_LEASE)
  {
    Pow2Of32();
    assert Block(16) == 0x1_0000 by {
      assert Pow2(16) == 0x100 * Pow2(8);
    }
    assert NetworkOf(ip, 16) == 0xC0A8_0000;
  }

  lemma SameBlock(lo: nat, a: nat, b: nat, hi: nat)
    requires lo <= a <= b <= hi && lo / 0x100 == hi / 0x100
    ensures a / 0x100 == b / 0x100
  {
  }

  /** With a mask of /24 or longer every run is correct, and no lease is the server's, the network's or the broadcast address. */
  lemma SlashTwentyFourIsCorrect(ip: Addr, plen: nat, lifetime: u32, events: seq<Event>)
    requires Startable(ip, plen) && plen >= 24
    ensures var s := Run(Boot(ip, plen, lifetime), events);
      && Correct(s)
      && forall l <- s.leases :: NetworkOf(ip, plen) < l.ip < BroadcastOf(ip, plen) && l.ip != ip
  {
    var s := Boot(ip, plen, lifetime);
    BootIsFresh(ip, plen, lifetime);
    DefaultPoolShape(ip, plen);
    RunIsCorrect(s, events);
    RunKeepsInv(s, events);
    hide NetworkOf, BroadcastOf, DefaultPool, OneBlock, Run, Sorted, DistinctMacs, Serves;
  }

  lemma ShortBlock(ip: Addr, plen: nat)
    requires 24 <= plen <= 32
    ensures NetworkOf(ip, plen) / 0x100 == BroadcastOf(ip, plen) / 0x100
  {
    Pow2Divides(32 - plen, 8);
    Pow2Of32();
    BlockInside(ip, Block(plen), 0x100);
  }
}
