/**
  What every run of the DHCP server keeps: no address and no client twice in
  the list, every lease inside the pool, a newcomer refused only when the pool
  is used up; and exactly which pools give that.
*/
module DhcpSafety {
  import opened Words
  import opened Arithmetic
  import opened DhcpLeases

  // ----- the pool dhcps_poll_set computes

  /** The number of addresses under a mask of plen bits. */
  function Block(plen: nat): (m: nat)
    requires plen <= 32
    ensures m > 0
  {
    Pow2(32 - plen)
  }

  function NetworkOf(ip: Addr, plen: nat): Addr
    requires plen <= 32
  {
    AlignDown(ip, Block(plen))
  }

  function BroadcastOf(ip: Addr, plen: nat): int
    requires plen <= 32
  {
    NetworkOf(ip, plen) + Block(plen) - 1
  }

  /** The checks dhcps_start makes: a host address, neither the network nor its broadcast. */
  predicate Startable(ip: Addr, plen: nat) {
    plen <= 32 && ip != 0 && ip != NetworkOf(ip, plen) && ip != BroadcastOf(ip, plen)
  }

  lemma BroadcastFits(ip: Addr, plen: nat)
    requires plen <= 32
    ensures NetworkOf(ip, plen) <= ip <= BroadcastOf(ip, plen) < TWO32
    ensures Startable(ip, plen) ==> Block(plen) % 2 == 0 && Block(plen) >= 4
  {
    BlockDivides(plen);
    MultipleFits(ip, Block(plen), TWO32);
  }

  lemma BlockDivides(plen: nat)
    requires plen <= 32
    ensures TWO32 % Block(plen) == 0
    ensures Block(plen) == 1 || Block(plen) == 2 || (Block(plen) % 2 == 0 && Block(plen) >= 4)
  {
    Pow2Divides(32 - plen, 32);
    Pow2Of32();
  }

  /** The longer of the two stretches beside the server, cut to MAX_LEASE addresses. */
  function DefaultPool(ip: Addr, plen: nat): (p: Pool)
    requires Startable(ip, plen)
  {
    BroadcastFits(ip, plen);
    var lo, hi := NetworkOf(ip, plen), BroadcastOf(ip, plen);
    var below := ip - lo > hi - ip;
    var first := if below then lo + 1 else ip + 1;
    var last := if below then ip - 1 else hi - 1;
    Pool(first, if last - first + 1 > MAX_LEASE then first + MAX_LEASE - 1 else last)
  }

  /** A range set before is kept when it leaves out the server, lies in its network and holds at most MAX_LEASE addresses. */
  predicate Keeps(p: Pool, ip: Addr, plen: nat)
    requires plen <= 32
  {
    && !(p.first <= ip <= p.last)
    && NetworkOf(p.first, plen) == NetworkOf(ip, plen) && NetworkOf(p.last, plen) == NetworkOf(ip, plen)
    && (p.last + TWO32 - p.first + 1) % 0x1_0000_0000 <= MAX_LEASE
  }

  /** The range dhcps_poll_set leaves behind. */
  function StartedPool(enabled: bool, p: Pool, ip: Addr, plen: nat): Pool
    requires Startable(ip, plen)
  {
    if enabled && Keeps(p, ip, plen) then p else DefaultPool(ip, plen)
  }

  /** Starting again at the same address keeps the computed range. */
  lemma RestartKeepsPool(ip: Addr, plen: nat)
    requires Startable(ip, plen)
    ensures Keeps(DefaultPool(ip, plen), ip, plen)
    ensures StartedPool(true, DefaultPool(ip, plen), ip, plen) == DefaultPool(ip, plen)
  {
    hide Block, AlignDown, DefaultPool;
    var p := DefaultPool(ip, plen);
    DefaultPoolShape(ip, plen);
    SameNetwork(p.first, ip, plen);
    SameNetwork(p.last, ip, plen);
    SmallSize(p.last - p.first + 1);
  }

  lemma SmallSize(n: nat)
    requires n < 0x1_0000_0000
    ensures (n + 0x1_0000_0000) % 0x1_0000_0000 == n
  {
  }

  lemma SameNetwork(a: Addr, ip: Addr, plen: nat)
    requires plen <= 32 && NetworkOf(ip, plen) <= a <= BroadcastOf(ip, plen)
    ensures NetworkOf(a, plen) == NetworkOf(ip, plen)
  {
    var m := Block(plen);
    assert ip == m * (ip / m) + ip % m;
    DivModUnique(a, m, ip / m, a - m * (ip / m));
  }

  /** A kept range of at least one address leaves out the server and is one a server can start fresh with. */
  lemma KeptPoolShape(p: Pool, ip: Addr, plen: nat)
    requires Startable(ip, plen) && Keeps(p, ip, plen) && p.first <= p.last
    ensures NetworkOf(ip, plen) <= p.first && p.last <= BroadcastOf(ip, plen) && !(p.first <= ip <= p.last)
    ensures p.last < p.first + MAX_LEASE
  {
    SmallSize(p.last - p.first + 1);
    BroadcastFits(p.first, plen);
    BroadcastFits(p.last, plen);
  }

  function Boot(ip: Addr, plen: nat, lifetime: u32): Server
    requires Startable(ip, plen)
  {
    var pool := DefaultPool(ip, plen);
    Server(pool, lifetime, pool.first, 0, false, false, [])
  }

  /** The default pool is not empty and holds neither the server nor the network's end addresses. */
  lemma DefaultPoolShape(ip: Addr, plen: nat)
    requires Startable(ip, plen)
    ensures var p := DefaultPool(ip, plen);
      NetworkOf(ip, plen) < p.first <= p.last < BroadcastOf(ip, plen) && !(p.first <= ip <= p.last) &&
      p.last < p.first + MAX_LEASE
  {
    BroadcastFits(ip, plen);
  }

  /** A server starts exactly at host addresses: neither all zeros nor all ones under the mask, nor 0.0.0.0. */
  lemma StartsAtHosts(ip: Addr, plen: nat)
    requires plen <= 32
    ensures Startable(ip, plen) <==> ip != 0 && 0 < ip % Pow2(32 - plen) < Pow2(32 - plen) - 1
  {
    hide Pow2;
  }

  /** The computed pool is as long as any stretch of up to 100 hosts on one side of the server, above it when the sides are equal. */
  lemma DefaultPoolIsLongest(ip: Addr, plen: nat, lo: Addr, hi: Addr)
    requires Startable(ip, plen)
    requires NetworkOf(ip, plen) < lo <= hi < BroadcastOf(ip, plen) && !(lo <= ip <= hi) && hi - lo < 100
    ensures var p := DefaultPool(ip, plen);
      && hi - lo <= p.last - p.first
      && p.first == (if BroadcastOf(ip, plen) - ip >= ip - NetworkOf(ip, plen) then ip else NetworkOf(ip, plen)) + 1
  {
    hide Block, AlignDown;
    BroadcastFits(ip, plen);
  }

  /** A range is kept exactly when it was set, lies in the server's network, leaves out the server and holds at most 100 addresses. */
  lemma StartKeepsIff(enabled: bool, p: Pool, ip: Addr, plen: nat)
    requires Startable(ip, plen) && p.first <= p.last
    ensures var fits := NetworkOf(ip, plen) <= p.first && p.last <= BroadcastOf(ip, plen)
                        && (p.last < ip || ip < p.first) && p.last - p.first < 100;
      StartedPool(enabled, p, ip, plen) == if enabled && fits then p else DefaultPool(ip, plen)
  {
    hide Block, AlignDown, DefaultPool;
    if p.last - p.first + 1 < TWO32 {
      SmallSize(p.last - p.first + 1);
    }
    BroadcastFits(p.first, plen);
    BroadcastFits(p.last, plen);
    if NetworkOf(ip, plen) <= p.first && p.last <= BroadcastOf(ip, plen) {
      SameNetwork(p.first, ip, plen);
      SameNetwork(p.last, ip, plen);
    }
  }

  // ----- the invariant

  /** The pool and the address after it share one /24. */
  predicate OneBlock(p: Pool) {
    0 < p.first <= p.last && p.last + 1 < TWO32 && p.first / 0x100 == (p.last + 1) / 0x100
  }

  ghost predicate Sorted(leases: seq<Lease>) {
    forall i, j :: 0 <= i < j < |leases| ==> leases[i].ip < leases[j].ip
  }

  ghost predicate DistinctMacs(leases: seq<Lease>) {
    forall i, j :: 0 <= i < j < |leases| ==> leases[i].mac != leases[j].mac
  }

  ghost predicate Within(leases: seq<Lease>, p: Pool) {
    forall i :: 0 <= i < |leases| ==> p.first <= leases[i].ip <= p.last
  }

  ghost predicate Leased(leases: seq<Lease>, a: Addr) {
    exists i :: 0 <= i < |leases| && leases[i].ip == a
  }

  ghost predicate Known(leases: seq<Lease>, mac: Mac) {
    exists i :: 0 <= i < |leases| && leases[i].mac == mac
  }

  ghost predicate Full(s: Server) {
    forall a: Addr :: s.pool.first <= a <= s.pool.last ==> Leased(s.leases, a)
  }

  /** No address and no client twice on the list, and only pool addresses. */
  ghost predicate Safe(s: Server) {
    Sorted(s.leases) && DistinctMacs(s.leases) && Within(s.leases, s.pool)
  }

  ghost predicate Inv(s: Server) {
    OneBlock(s.pool) && s.pool.first <= s.plus <= s.pool.last + 1 && Safe(s)
  }

  // ----- one message

  lemma PoolOrder(p: Pool, a: Addr, b: Addr)
    requires OneBlock(p) && p.first <= a <= p.last + 1 && p.first <= b <= p.last + 1
    ensures NetWord(a) < NetWord(b) <==> a < b
  {
    NetWordOrder(a, b);
  }

  lemma {:induction false} BumpedFree(leases: seq<Lease>, plus: Addr, p: Pool)
    requires Sorted(leases) && Within(leases, p) && OneBlock(p) && p.first <= plus <= p.last + 1
    ensures plus <= Bumped(leases, plus) <= p.last + 1
    ensures !Leased(leases, Bumped(leases, plus))
  {
    hide NetWord;
    if leases != [] {
      var n := |leases| - 1;
      var front := leases[..n];
      BumpedFree(front, plus, p);
      var q := Bumped(front, plus);
      assert forall i :: 0 <= i < n ==> front[i] == leases[i];
      if leases[n].ip == q {
        assert Bumped(leases, plus) == q + 1;
        assert forall i :: 0 <= i < n ==> leases[i].ip < q;
      } else {
        assert forall i :: 0 <= i < n ==> front[i].ip != q;
      }
    }
  }

  /** The leases fill the pool's first j addresses, and no more when the search is done. */
  ghost predicate StopsAt(leases: seq<Lease>, first: Addr, j: int, done: bool) {
    && 0 <= j <= |leases|
    && (forall i :: 0 <= i < j ==> leases[i].ip == first + i)
    && (done <==> j < |leases|)
    && (j < |leases| ==> leases[j].ip > first + j)
  }

  lemma StopsAtStep(leases: seq<Lease>, first: Addr, j: int, done: bool, n: nat)
    requires |leases| == n + 1 && StopsAt(leases[..n], first, j, done)
    requires Sorted(leases) && first <= leases[0].ip
    ensures done ==> StopsAt(leases, first, j, true)
    ensures !done && first + j < leases[n].ip ==> StopsAt(leases, first, j, true)
    ensures !done && leases[n].ip <= first + j ==> StopsAt(leases, first, j + 1, false)
  {
    assert forall i :: 0 <= i < n ==> leases[..n][i] == leases[i];
    if n > 0 {
      assert leases[n - 1].ip < leases[n].ip;
    }
  }

  /** The search stops at the first list index whose address is not the pool's first plus that index. */
  lemma {:induction false} GapIndex(leases: seq<Lease>, p: Pool)
    requires Sorted(leases) && Within(leases, p) && OneBlock(p)
    ensures var g := FirstGap(leases, p.first);
      g.candidate <= p.last + 1 && StopsAt(leases, p.first, g.candidate - p.first, g.done)
  {
    hide NetWord;
    if leases != [] {
      var n := |leases| - 1;
      assert Sorted(leases[..n]) && Within(leases[..n], p) && p.first <= leases[0].ip && leases[n].ip <= p.last;
      assert p.last + 1 < TWO32;
      GapIndex(leases[..n], p);
      var g := FirstGap(leases[..n], p.first);
      StopsAtStep(leases, p.first, g.candidate - p.first, g.done, n);
      if !g.done {
        PoolOrder(p, g.candidate, leases[n].ip);
      }
    }
  }

  lemma FirstGapSmallest(leases: seq<Lease>, p: Pool)
    requires Sorted(leases) && Within(leases, p) && OneBlock(p)
    ensures var c := FirstGap(leases, p.first).candidate;
      && p.first <= c <= p.last + 1
      && !Leased(leases, c)
      && (forall a: Addr :: p.first <= a < c ==> Leased(leases, a))
  {
    GapIndex(leases, p);
    var c := FirstGap(leases, p.first).candidate;
    var j := c - p.first;
    forall a: Addr | p.first <= a < c
      ensures Leased(leases, a)
    {
      assert leases[a - p.first].ip == a;
    }
    forall i | 0 <= i < |leases|
      ensures leases[i].ip != c
    {
      if i > j {
        assert leases[j].ip < leases[i].ip;
      }
    }
  }

  /** A newcomer's address is free, and it lies above the pool only when no pool address is free. */
  lemma ChosenIsFree(s: Server)
    requires Inv(s)
    ensures s.pool.first <= Choose(s) <= s.pool.last + 1
    ensures !Leased(s.leases, Choose(s))
    ensures NetWord(Choose(s)) > NetWord(s.pool.last) <==> Choose(s) == s.pool.last + 1
    ensures Choose(s) == s.pool.last + 1 <==> Full(s)
  {
    BumpedFree(s.leases, s.plus, s.pool);
    FirstGapSmallest(s.leases, s.pool);
    PoolOrder(s.pool, s.pool.last, Bumped(s.leases, s.plus));
    PoolOrder(s.pool, s.pool.last, Choose(s));
  }

  /** Once the next-fit pointer runs off the end, the smallest free address is taken. */
  lemma WrapsToSmallestFree(s: Server)
    requires Inv(s) && !Full(s) && Bumped(s.leases, s.plus) > s.pool.last
    ensures forall a: Addr :: s.pool.first <= a <= s.pool.last && !Leased(s.leases, a) ==> Choose(s) <= a
    ensures s.pool.first <= Choose(s) <= s.pool.last && !Leased(s.leases, Choose(s))
  {
    ChosenIsFree(s);
    BumpedFree(s.leases, s.plus, s.pool);
    FirstGapSmallest(s.leases, s.pool);
    PoolOrder(s.pool, s.pool.last, Bumped(s.leases, s.plus));
  }

  lemma InsertPosSplits(leases: seq<Lease>, c: Addr, p: Pool)
    requires Within(leases, p) && OneBlock(p) && p.first <= c <= p.last && !Leased(leases, c) && Sorted(leases)
    ensures var k := InsertPos(leases, c);
      forall i :: 0 <= i < |leases| ==> if i < k then leases[i].ip < c else c < leases[i].ip
  {
    hide NetWord;
    var k := InsertPos(leases, c);
    forall i | 0 <= i < |leases|
      ensures if i < k then leases[i].ip < c else c < leases[i].ip
    {
      PoolOrder(p, c, leases[i].ip);
      if k < |leases| {
        PoolOrder(p, c, leases[k].ip);
      }
    }
  }

  lemma InsertionKeepsSafe(leases: seq<Lease>, k: nat, x: Lease, p: Pool)
    requires Sorted(leases) && DistinctMacs(leases) && Within(leases, p)
    requires p.first <= x.ip <= p.last && !Known(leases, x.mac)
    requires k <= |leases|
    requires forall i :: 0 <= i < |leases| ==> if i < k then leases[i].ip < x.ip else x.ip < leases[i].ip
    ensures var r := Inserted(leases, k, x); Sorted(r) && DistinctMacs(r) && Within(r, p)
  {
    assert forall i :: 0 <= i < |leases| ==> leases[i].mac != x.mac;
  }

  lemma GrantKeepsSafe(s: Server, c: Addr, m: Message)
    requires Inv(s) && s.pool.first <= c <= s.pool.last && !Leased(s.leases, c) && !Known(s.leases, m.mac)
    ensures Inv(Granted(s, c, m))
  {
    hide NetWord;
    InsertPosSplits(s.leases, c, s.pool);
    InsertionKeepsSafe(s.leases, InsertPos(s.leases, c), Lease(c, m.mac, s.lifetime), s.pool);
  }

  lemma RemovalKeepsSafe(leases: seq<Lease>, k: nat, p: Pool)
    requires k < |leases| && Sorted(leases) && DistinctMacs(leases) && Within(leases, p)
    ensures var r := Without(leases, k); Sorted(r) && DistinctMacs(r) && Within(r, p)
  {
  }

  lemma RefreshKeepsSafe(s: Server, k: nat, m: Message)
    requires Inv(s) && k < |s.leases|
    ensures Inv(Refreshed(s, k, m))
  {
    assert Sorted(s.leases[..k]) && Within(s.leases[..k], s.pool);
    BumpedFree(s.leases[..k], s.plus, s.pool);
  }

  lemma SettleKeepsSafe(s: Server, k: nat, m: Message)
    requires Inv(s) && k < |s.leases|
    ensures Inv(Settle(s, k, m).0)
  {
    RemovalKeepsSafe(s.leases, k, s.pool);
  }

  lemma HandleKeepsInv(s: Server, m: Message)
    requires Inv(s)
    ensures Inv(Handle(s, m).0)
  {
    if m.cookie == MAGIC_COOKIE {
      var k := Find(s.leases, m.mac);
      if k < |s.leases| {
        RefreshKeepsSafe(s, k, m);
        SettleKeepsSafe(Refreshed(s, k, m), k, m);
      } else {
        ChosenIsFree(s);
        var c := Choose(s);
        if NetWord(c) <= NetWord(s.pool.last) {
          GrantKeepsSafe(s, c, m);
          SettleKeepsSafe(Granted(s, c, m), InsertPos(s.leases, c), m);
        }
      }
    }
  }
}
