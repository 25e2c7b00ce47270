/**
  RFC 2131, section 1.6: no address is in use by two clients. Exactly which pools
  keep that promise over every run, and a run in which a common pool breaks it.
*/
module DhcpExclusive {
  import opened Words
  import opened Arithmetic
  import opened DhcpLeases
  import opened DhcpSafety
  import opened DhcpRuns
  import opened DhcpClients

  /** Whoever holds the address of l after more events is the client of l, if that client was silent and its lease has not run out. */
  ghost predicate Respects(s: Server, before: seq<Event>, events: seq<Event>, l: Lease) {
    var at := Run(s, before);
    l in at.leases && Silent(events, l.mac) && Ticks(events) < l.timer ==>
      forall x <- Run(at, events).leases :: x.ip == l.ip ==> x.mac == l.mac
  }

  /** In every run, no address goes to a second client while the first one's lease lasts. */
  ghost predicate Exclusive(s: Server) {
    forall before: seq<Event>, events: seq<Event>, l: Lease :: Respects(s, before, events, l)
  }

  // ----- small pools

  lemma {:induction false} PoolBoundsLeases(leases: seq<Lease>, p: Pool)
    requires Sorted(leases) && Within(leases, p) && p.first <= p.last + 1
    ensures |leases| <= p.last - p.first + 1
    ensures leases != [] ==> leases[|leases| - 1].ip >= p.first + |leases| - 1
  {
    if leases != [] {
      var n := |leases| - 1;
      PoolBoundsLeases(leases[..n], p);
      assert n > 0 ==> leases[n - 1].ip < leases[n].ip;
      assert p.first <= leases[n].ip <= p.last;
    }
  }

  lemma SmallPoolUncrowded(s: Server)
    requires Inv(s) && s.pool.last - s.pool.first < MAX_STATION_NUM
    ensures !Crowded(s.leases)
  {
    hide Expired;
    PoolBoundsLeases(s.leases, s.pool);
    ExpiredShrinks(s.leases);
    AtMostItself(|Expired(s.leases)|);
  }

  lemma SmallPoolNeverCrowded(s: Server, events: seq<Event>)
    requires Inv(s) && s.pool.last - s.pool.first < MAX_STATION_NUM
    ensures NeverCrowded(s, events)
  {
    hide Run, Crowded, Inv;
    forall k | 0 <= k < |events| && events[k].Tick?
      ensures !Crowded(Run(s, events[..k]).leases)
    {
      RunKeepsInv(s, events[..k]);
      SmallPoolUncrowded(Run(s, events[..k]));
    }
  }

  lemma {:induction false} NoTicksNeverCrowded(s: Server, events: seq<Event>)
    requires Ticks(events) == 0
    ensures NeverCrowded(s, events)
  {
    if events != [] {
      var front := events[..|events| - 1];
      NoTicksNeverCrowded(s, front);
      forall k | 0 <= k < |events| && events[k].Tick?
        ensures false
      {
        assert k < |front| && front[k].Tick?;
        TickIsCounted(front, k);
      }
    }
  }

  lemma {:induction false} TickIsCounted(events: seq<Event>, k: nat)
    requires k < |events| && events[k].Tick?
    ensures Ticks(events) > 0
  {
    if k < |events| - 1 {
      TickIsCounted(events[..|events| - 1], k);
    }
  }

  lemma SafePoolRespects(s: Server, before: seq<Event>, events: seq<Event>, l: Lease)
    requires Fresh(s) && OneBlock(s.pool) && s.lifetime >= 1
    requires s.pool.last - s.pool.first < MAX_STATION_NUM || s.lifetime == 1
    ensures Respects(s, before, events, l)
  {
    hide Run, Inv, NeverCrowded, Silent, Timed;
    var at := Run(s, before);
    if l in at.leases && Silent(events, l.mac) && Ticks(events) < l.timer {
      FreshStart(s);
      RunKeepsInv(s, before);
      RunKeepsTimed(s, before);
      TimedAtMost(at.leases, s.lifetime, l);
      if s.lifetime == 1 {
        NoTicksNeverCrowded(at, events);
      } else {
        SmallPoolNeverCrowded(at, events);
      }
      NoOtherHolder(at, events, l);
    }
  }

  lemma FreshStart(s: Server)
    requires Fresh(s) && OneBlock(s.pool)
    ensures Inv(s) && Timed(s.leases, s.lifetime)
  {
  }

  lemma TimedAtMost(leases: seq<Lease>, most: int, l: Lease)
    requires Timed(leases, most) && l in leases
    ensures 1 <= l.timer <= most
  {
  }

  // ----- large pools

  lemma {:induction false} ExpiredFilled(pool: Pool, lifetime: u32, n: nat)
    requires n <= MAX_LEASE && pool.first + n <= TWO32 && lifetime >= 2
    ensures Expired(Filled(pool, lifetime, n)) == Filled(pool, lifetime - 1, n)
  {
    if n > 0 {
      ExpiredFilled(pool, lifetime, n - 1);
      assert Filled(pool, lifetime, n)[..n - 1] == Filled(pool, lifetime, n - 1);
      assert Filled(pool, lifetime - 1, n) == Filled(pool, lifetime - 1, n - 1) + [Lease(pool.first + n - 1, n - 1, lifetime - 1)];
    }
  }

  /** A tick on a full pool of more than MAX_STATION_NUM leases drops the first lease given out, time left or not. */
  lemma CrowdedTickDropsFirst(pool: Pool, lifetime: u32, n: nat)
    requires MAX_STATION_NUM < n <= MAX_LEASE && pool.first + n <= TWO32 && lifetime >= 2
    ensures Ticked(Filled(pool, lifetime, n)) == Filled(pool, lifetime - 1, n)[1..]
  {
    hide Expired, Ticked, Oldest;
    ExpiredFilled(pool, lifetime, n);
    var live := Filled(pool, lifetime - 1, n);
    FirstOfEquals(live);
    TickDropsHead(Filled(pool, lifetime, n), live);
  }

  lemma TickDropsHead(leases: seq<Lease>, live: seq<Lease>)
    requires Expired(leases) == live && MAX_STATION_NUM < |live| < 0x100 && Oldest(live) == 0
    ensures Ticked(leases) == live[1..]
  {
    hide Expired, Oldest;
    assert Without(live, 0) == live[1..];
  }

  lemma FirstOfEquals(leases: seq<Lease>)
    requires leases != [] && forall i :: 0 <= i < |leases| ==> leases[i].timer == leases[0].timer
    ensures Oldest(leases) == 0
  {
  }

  /** After that tick the next newcomer is given the first address. */
  lemma FirstAddressGivenAgain(s: Server, mac: Mac)
    requires InBlock(s.pool) && s.pool.last - s.pool.first >= MAX_STATION_NUM && s.lifetime >= 2 && mac >= MAX_LEASE
    requires PartFilled(s, s.pool, s.lifetime, s.pool.last - s.pool.first + 1)
    ensures Lease(s.pool.first, mac, s.lifetime) in Step(Step(s, Tick), Received(Discover(mac))).leases
  {
    hide Handle, Choose, Find, Ticked, NetWord, OptionState, InsertPos;
    var n := s.pool.last - s.pool.first + 1;
    var t := Step(s, Tick);
    CrowdedTickDropsFirst(s.pool, s.lifetime, n);
    var live := Filled(s.pool, s.lifetime - 1, n);
    assert t.leases == live[1..];
    NotFound(t.leases, mac);
    FirstIsChosen(t);
    DiscoverIsOffered(s.pool.first, false);
    NetWordOrder(s.pool.last, s.pool.first);
    OfferedIsGranted(t, Discover(mac), s.pool.first);
    var k := InsertPos(t.leases, s.pool.first);
    assert Granted(t, s.pool.first, Discover(mac)).leases[k] == Lease(s.pool.first, mac, s.lifetime);
  }

  lemma FirstIsChosen(t: Server)
    requires InBlock(t.pool) && t.leases != [] && t.plus == t.pool.first
    requires forall i :: 0 <= i < |t.leases| ==> t.leases[i].ip != t.pool.first
    ensures Choose(t) == t.pool.first
  {
    hide NetWord, FirstGap;
    BumpedStays(t.leases, t.pool.first);
    NetWordOrder(t.pool.last, t.pool.first);
  }

  /** One DISCOVER from each of as many clients as the pool has addresses, a tick, and one more client. */
  lemma LargePoolGivesAway(s: Server)
    requires Fresh(s) && InBlock(s.pool) && s.pool.last - s.pool.first >= MAX_STATION_NUM && s.lifetime >= 2
    ensures var at, l := Run(s, FillEvents(s.pool.last - s.pool.first + 1)), Lease(s.pool.first, 0, s.lifetime);
      var events := [Tick, Received(Discover(0xff))];
      && l in at.leases && Silent(events, l.mac) && Ticks(events) < l.timer
      && Lease(s.pool.first, 0xff, s.lifetime) in Run(at, events).leases
  {
    hide Step, Choose;
    var n := s.pool.last - s.pool.first + 1;
    FillRun(s, n);
    var at, events := Run(s, FillEvents(n)), [Tick, Received(Discover(0xff))];
    assert at.leases[0] == Lease(s.pool.first, 0, s.lifetime);
    FirstAddressGivenAgain(at, 0xff);
    TwoEvents(at, events[0], events[1]);
    assert events[..1] == [Tick] && [Tick][..0] == [];
    assert Ticks([Tick]) == 1;
  }

  lemma TwoEvents(s: Server, e: Event, f: Event)
    ensures Run(s, [e, f]) == Step(Step(s, e), f)
  {
    assert [e, f][..1] == [e] && [e][..0] == [];
    assert Run(s, [e]) == Step(s, e);
  }

  // ----- the exact condition

  /**
    A started server whose every run is otherwise correct keeps each address for one
    client at a time, over every run, exactly when its pool has at most 16 addresses or
    a lease lasts a single tick.
  */
  lemma ExclusiveIff(s: Server)
    requires Fresh(s) && OneBlock(s.pool) && s.lifetime >= 1
    ensures Exclusive(s) <==> s.pool.last - s.pool.first < 16 || s.lifetime == 1
  {
    hide Respects;
    if s.pool.last - s.pool.first < MAX_STATION_NUM || s.lifetime == 1 {
      forall before: seq<Event>, events: seq<Event>, l: Lease
        ensures Respects(s, before, events, l)
      {
        SafePoolRespects(s, before, events, l);
      }
    } else {
      SomeoneIsRobbed(s);
    }
  }

  lemma SomeoneIsRobbed(s: Server)
    requires Fresh(s) && OneBlock(s.pool) && s.pool.last - s.pool.first >= MAX_STATION_NUM && s.lifetime >= 2
    ensures var before := FillEvents(s.pool.last - s.pool.first + 1);
      !Respects(s, before, [Tick, Received(Discover(0xff))], Lease(s.pool.first, 0, s.lifetime))
  {
    hide Run, Silent, Ticks;
    LargePoolGivesAway(s);
  }

  /** 192.168.4.1/24: with 100 clients served, one tick and one newcomer put 192.168.4.2 in use by two clients. */
  lemma CommonPoolShares(lifetime: u32)
    requires lifetime >= 2
    ensures Startable(0xC0A8_0401, 24)
    ensures var s := Boot(0xC0A8_0401, 24, lifetime);
      var at, events := Run(s, FillEvents(100)), [Tick, Received(Discover(0xff))];
      && s.pool == Pool(0xC0A8_0402, 0xC0A8_0465) && Ticks(events) == 1
      && Lease(0xC0A8_0402, 0, lifetime) in at.leases
      && Lease(0xC0A8_0402, 0xff, lifetime) in Run(at, events).leases
      && !Exclusive(s)
  {
    hide Run, Exclusive, Respects, Ticks;
    EightBits();
    var s := Boot(0xC0A8_0401, 24, lifetime);
    BootIsFresh(0xC0A8_0401, 24, lifetime);
    LargePoolGivesAway(s);
    OneTick(Received(Discover(0xff)));
    ExclusiveIff(s);
  }

  lemma OneTick(e: Event)
    requires e.Received?
    ensures Ticks([Tick, e]) == 1
  {
    assert [Tick, e][..1] == [Tick] && [Tick][..0] == [];
    assert Ticks([Tick]) == 1;
  }

  lemma EightBits()
    ensures Startable(0xC0A8_0401, 24) && DefaultPool(0xC0A8_0401, 24) == Pool(0xC0A8_0402, 0xC0A8_0465)
  {
    Pow2Of32();
    assert Block(24) == 0x100;
    assert NetworkOf(0xC0A8_0401, 24) == 0xC0A8_0400;
  }
}
