/**
  The DHCP server as the firmware runs it: fields updated in place and a linked
  list of leases, each operation tied to its meaning in DhcpLeases.
*/
module DhcpServer {
  import opened Words
  import opened DhcpLeases
  import opened DhcpSafety
  import opened DhcpRuns

  /** A list node together with the pool entry it points at. */
  class Node {
    var lease: Lease
    var next: Node?

    constructor (lease: Lease)
      ensures this.lease == lease && next == null
    {
      this.lease, next := lease, null;
    }
  }

  /** The nodes carry these leases, in list order. */
  ghost predicate Carries(nodes: seq<Node>, leases: seq<Lease>)
    reads nodes`lease
  {
    |nodes| == |leases| && forall i :: 0 <= i < |nodes| ==> nodes[i].lease == leases[i]
  }

  ghost predicate Distinct(nodes: seq<Node>) {
    forall i, j :: 0 <= i < j < |nodes| ==> nodes[i] != nodes[j]
  }

  ghost function Successor(nodes: seq<Node>, i: nat): Node? {
    if i + 1 < |nodes| then nodes[i + 1] else null
  }

  ghost function Head(nodes: seq<Node>): Node? {
    if nodes == [] then null else nodes[0]
  }

  /** Each node points at the one after it, the last at nothing. */
  ghost predicate Links(nodes: seq<Node>)
    reads nodes`next
  {
    forall i :: 0 <= i < |nodes| ==> nodes[i].next == Successor(nodes, i)
  }

  ghost function Unlinked(nodes: seq<Node>, i: nat, k: nat): Node? {
    if i == k then null else if i + 1 == k then Successor(nodes, k) else Successor(nodes, i)
  }

  /** The same with node k bridged over and cut off. */
  ghost predicate LinksWithout(nodes: seq<Node>, k: nat)
    reads nodes`next
  {
    forall i :: 0 <= i < |nodes| ==> nodes[i].next == Unlinked(nodes, i, k)
  }

  lemma NextOf(nodes: seq<Node>, i: nat)
    requires i < |nodes|
    ensures Links(nodes) ==> nodes[i].next == Successor(nodes, i)
  {
  }

  lemma NextOfWithout(nodes: seq<Node>, i: nat, k: nat)
    requires i < |nodes| && LinksWithout(nodes, k)
    ensures nodes[i].next == Unlinked(nodes, i, k)
  {
  }

  lemma SameNode(nodes: seq<Node>, i: nat, j: nat)
    requires Distinct(nodes) && i < |nodes| && j < |nodes| && nodes[i] == nodes[j]
    ensures i == j
  {
  }

  lemma RemovedFromChain(nodes: seq<Node>, k: nat)
    requires k < |nodes| && Distinct(nodes) && LinksWithout(nodes, k)
    ensures Distinct(Without(nodes, k)) && Links(Without(nodes, k))
  {
  }

  /** Cuts off the first node. */
  method UnlinkFirst(pdelete: Node, ghost nodes: seq<Node>)
    requires Distinct(nodes) && Links(nodes) && nodes != [] && nodes[0] == pdelete
    modifies pdelete`next
    ensures LinksWithout(nodes, 0)
  {
    pdelete.next := null;
  }

  /** Bridges over the node after node. */
  method UnlinkAfter(node: Node, pdelete: Node, ghost nodes: seq<Node>, ghost i: nat)
    requires Distinct(nodes) && Links(nodes) && i + 1 < |nodes| && nodes[i] == node && nodes[i + 1] == pdelete
    modifies node`next, pdelete`next
    ensures LinksWithout(nodes, i + 1)
  {
    node.next := pdelete.next;
    pdelete.next := null;
  }

  /** Puts pinsert, with its successor set, behind node. */
  method LinkAfter(node: Node, pinsert: Node, ghost nodes: seq<Node>, ghost i: nat)
    requires Distinct(nodes) && Links(nodes) && i < |nodes| && nodes[i] == node && pinsert !in nodes
    modifies node`next, pinsert`next
    ensures Distinct(Inserted(nodes, i + 1, pinsert)) && Links(Inserted(nodes, i + 1, pinsert))
  {
    pinsert.next := node.next;
    node.next := pinsert;
  }

  method LinkFirst(head: Node?, pinsert: Node, ghost nodes: seq<Node>)
    requires Distinct(nodes) && Links(nodes) && pinsert !in nodes && head == (if nodes == [] then null else nodes[0])
    modifies pinsert`next
    ensures Distinct(Inserted(nodes, 0, pinsert)) && Links(Inserted(nodes, 0, pinsert))
  {
    pinsert.next := head;
  }

  lemma CarriesWithout(nodes: seq<Node>, leases: seq<Lease>, k: nat)
    requires Carries(nodes, leases) && k < |nodes|
    ensures |nodes| == |leases| && Carries(Without(nodes, k), Without(leases, k))
  {
  }

  lemma CarriesInserted(nodes: seq<Node>, leases: seq<Lease>, k: nat, node: Node)
    requires Carries(nodes, leases) && k <= |nodes|
    ensures |nodes| == |leases| && Carries(Inserted(nodes, k, node), Inserted(leases, k, node.lease))
  {
  }

  method SetTimer(node: Node, timer: u32, ghost nodes: seq<Node>, ghost leases: seq<Lease>, ghost k: nat)
    requires Distinct(nodes) && Carries(nodes, leases) && k < |nodes| && nodes[k] == node
    modifies node`lease
    ensures Carries(nodes, leases[k := leases[k].(timer := timer)])
  {
    node.lease := node.lease.(timer := timer);
  }

  /** One step of the scan, on values. */
  lemma ScanStep(leases: seq<Lease>, k: nat, plus: Addr, first: Addr)
    requires k < |leases|
    ensures Bumped(leases[..k + 1], plus) == Bump(Bumped(leases[..k], plus), leases[k].ip)
    ensures FirstGap(leases[..k + 1], first) == Narrow(FirstGap(leases[..k], first), leases[k].ip)
  {
    assert leases[..k + 1][..k] == leases[..k];
  }

  class Dhcps {
    var pool: Pool
    var poolEnabled: bool
    var lifetime: u32
    var clientAddressPlus: Addr
    var clientAddress: Addr
    var renew: bool
    var hasDeclinedIp: bool
    var plist: Node?

    /** The nodes reachable from plist, and the leases they carry. */
    ghost var spine: seq<Node>
    ghost var leases: seq<Lease>

    ghost predicate Valid()
      reads this, spine
    {
      && Distinct(spine) && Links(spine) && Carries(spine, leases)
      && plist == Head(spine)
    }

    ghost function Nodes(): set<Node>
      reads this
    {
      set n | n in spine
    }

    ghost function State(): Server
      reads this
    {
      Server(pool, lifetime, clientAddressPlus, clientAddress, renew, hasDeclinedIp, leases)
    }

    constructor (lifetime: u32)
      ensures Valid() && leases == [] && this.lifetime == lifetime && !renew && !hasDeclinedIp && clientAddress == 0
      ensures !poolEnabled
    {
      this.lifetime, poolEnabled := lifetime, false;
      pool, clientAddressPlus, clientAddress := Pool(0, 0), 0, 0;
      renew, hasDeclinedIp := false, false;
      plist, spine, leases := null, [], [];
    }

    /** The REQUESTED_IP_ADDRESS option: a range to try at the next start. */
    method SetPool(enabled: bool, range: Pool)
      requires Valid()
      modifies this`pool, this`poolEnabled
      ensures Valid() && poolEnabled == enabled && State() == old(State()).(pool := range)
    {
      pool, poolEnabled := range, enabled;
    }

    /** dhcps_start: refuses a network, broadcast or zero address. */
    method Start(ip: Addr, plen: nat) returns (ok: bool)
      requires Valid() && plen <= 32
      modifies this`pool, this`poolEnabled, this`clientAddressPlus
      ensures Valid() && (ok <==> Startable(ip, plen))
      ensures ok ==> poolEnabled && var p := StartedPool(old(poolEnabled), old(pool), ip, plen);
        State() == old(State()).(pool := p, plus := p.first)
      ensures !ok ==> State() == old(State()) && poolEnabled == old(poolEnabled)
    {
      var startIp := NetworkOf(ip, plen);
      var endIp := startIp + Block(plen) - 1;
      hide Block, NetworkOf, DefaultPool;
      ok := ip != 0 && ip != endIp && ip != startIp;
      if ok {
        PollSet(ip, plen);
        clientAddressPlus := pool.first;
      }
    }

    /** dhcps_poll_set */
    method PollSet(ip: Addr, plen: nat)
      requires Startable(ip, plen)
      modifies this`pool, this`poolEnabled
      ensures poolEnabled && pool == StartedPool(old(poolEnabled), old(pool), ip, plen)
    {
      hide DefaultPool, NetworkOf;
      if poolEnabled {
        if pool.first <= ip <= pool.last {
          poolEnabled := false;
        } else if NetworkOf(pool.first, plen) != NetworkOf(ip, plen) || NetworkOf(pool.last, plen) != NetworkOf(ip, plen)
                  || (pool.last + 0x1_0000_0000 - pool.first + 1) % 0x1_0000_0000 > MAX_LEASE {
          poolEnabled := false;
        }
      }
      if !poolEnabled {
        ComputePool(ip, plen);
        poolEnabled := true;
      }
    }

    /** The range computed from the server's own address and mask. */
    method ComputePool(ip: Addr, plen: nat)
      requires Startable(ip, plen)
      modifies this`pool
      ensures pool == DefaultPool(ip, plen)
    {
      BroadcastFits(ip, plen);
      DefaultPoolShape(ip, plen);
      var rangeStart := NetworkOf(ip, plen);
      var rangeEnd := rangeStart + Block(plen) - 1;
      if ip - rangeStart > rangeEnd - ip {
        rangeStart, rangeEnd := rangeStart + 1, ip - 1;
      } else {
        rangeStart, rangeEnd := ip + 1, rangeEnd - 1;
      }
      if rangeEnd - rangeStart + 1 > MAX_LEASE {
        rangeEnd := rangeStart + MAX_LEASE - 1;
      }
      pool := Pool(rangeStart, rangeEnd);
    }

    // ----- the list

    /** The node behind which an address belongs that does not belong in front. */
    method PlaceFor(ip: Addr) returns (node: Node, ghost i: nat)
      requires Valid() && plist != null && NetWord(ip) >= NetWord(plist.lease.ip)
      ensures i < |spine| && node == spine[i] && InsertPos(leases, ip) == i + 1
    {
      hide NetWord, Distinct, Links;
      ghost var k := InsertPos(leases, ip);
      node, i := plist, 0;
      NextOf(spine, 0);
      while node.next != null && NetWord(ip) >= NetWord(node.next.lease.ip)
        invariant i < |spine| && i < k && node == spine[i] && node.next == Successor(spine, i)
        decreases |spine| - i
      {
        node := node.next;
        i := i + 1;
        NextOf(spine, i);
      }
    }

    /** The chain now headed by plist is s, carrying ls. */
    ghost method Adopt(s: seq<Node>, ls: seq<Lease>)
      requires Distinct(s) && Links(s) && Carries(s, ls) && plist == Head(s)
      modifies this`spine, this`leases
      ensures Valid() && spine == s && leases == ls
    {
      spine, leases := s, ls;
    }

    method NodeInsertToList(pinsert: Node)
      requires Valid() && pinsert !in spine
      modifies this`plist, this`spine, this`leases, Nodes()`next, pinsert`next
      ensures var k := InsertPos(old(leases), pinsert.lease.ip);
        && Valid() && spine == Inserted(old(spine), k, pinsert) && leases == Inserted(old(leases), k, pinsert.lease)
    {
      hide NetWord, Distinct, Links, Carries, InsertPos, Inserted, Head;
      LinkIn(pinsert);
      ghost var k := InsertPos(leases, pinsert.lease.ip);
      CarriesInserted(spine, leases, k, pinsert);
      Adopt(Inserted(spine, k, pinsert), Inserted(leases, k, pinsert.lease));
    }

    method LinkIn(pinsert: Node)
      requires Valid() && pinsert !in spine
      modifies this`plist, Nodes()`next, pinsert`next
      ensures Carries(spine, leases) && |spine| == |leases|
      ensures var s := Inserted(spine, InsertPos(leases, pinsert.lease.ip), pinsert);
        Distinct(s) && Links(s) && plist == Head(s)
    {
      hide NetWord, Distinct, Links;
      if plist == null || NetWord(pinsert.lease.ip) < NetWord(plist.lease.ip) {
        assert InsertPos(leases, pinsert.lease.ip) == 0;
        LinkFirst(plist, pinsert, spine);
        plist := pinsert;
      } else {
        var node, i := PlaceFor(pinsert.lease.ip);
        LinkAfter(node, pinsert, spine, i);
      }
    }

    method NodeRemoveFromList(pdelete: Node, ghost k: nat)
      requires Valid() && k < |spine| && spine[k] == pdelete
      modifies this`plist, this`spine, this`leases, Nodes()`next
      ensures Valid() && spine == Without(old(spine), k) && leases == Without(old(leases), k)
    {
      hide Distinct, Links, Carries, Without, Head;
      LinkOut(pdelete, k);
      CarriesWithout(spine, leases, k);
      Adopt(Without(spine, k), Without(leases, k));
    }

    method LinkOut(pdelete: Node, ghost k: nat)
      requires Valid() && k < |spine| && spine[k] == pdelete
      modifies this`plist, Nodes()`next
      ensures Carries(spine, leases)
      ensures var s := Without(spine, k); Distinct(s) && Links(s) && plist == Head(s)
    {
      hide Distinct, Links, LinksWithout;
      if plist == pdelete {
        SameNode(spine, 0, k);
        NextOf(spine, 0);
        plist := pdelete.next;
        UnlinkFirst(pdelete, spine);
      } else {
        UnlinkLater(pdelete, k);
      }
      RemovedFromChain(spine, k);
    }

    /** The walk over the whole list that bridges over a node behind the first. */
    method UnlinkLater(pdelete: Node, ghost k: nat)
      requires Valid() && 0 < k < |spine| && spine[k] == pdelete
      modifies Nodes()`next
      ensures LinksWithout(spine, k)
    {
      hide Distinct, Links, LinksWithout, Carries;
      var node := plist;
      ghost var i := 0;
      while node != null
        invariant 0 <= i <= |spine| && i != k && node == if i < |spine| then spine[i] else null
        invariant if i < k then Links(spine) else LinksWithout(spine, k)
        decreases |spine| - i
      {
        NextOf(spine, i);
        if node.next == pdelete {
          if i > k {
            NextOfWithout(spine, i, k);
          }
          SameNode(spine, i + 1, k);
          UnlinkAfter(node, pdelete, spine, i);
          NextOfWithout(spine, i, k);
          i := i + 1;
        } else if i > k {
          NextOfWithout(spine, i, k);
        }
        node := node.next;
        i := i + 1;
      }
    }

    // ----- messages

    method ParseOptions(options: seq<byte>) returns (ret: int)
      ensures ret == OptionState(options, clientAddress, renew)
    {
      hide AddrOf;
      var kind: byte, state, i := 0, STATE_IDLE, 0;
      while i < |options|
        invariant 0 <= i <= |options|
        invariant Walk(options[i..], Verdict(kind, state), clientAddress)
          == Walk(options, Verdict(0, STATE_IDLE), clientAddress)
      {
        ghost var rest := options[i..];
        if options[i] == 0 {
          i := i + 1;
          assert rest[1..] == options[i..];
          continue;
        }
        if options[i] == 255 || i + 1 >= |options| {
          break;
        }
        var optLen := options[i + 1];
        if i + 2 + optLen > |options| {
          break;
        }
        assert rest[2..2 + optLen] == options[i + 2..i + 2 + optLen];
        assert rest[2 + optLen..] == options[i + 2 + optLen..];
        if options[i] == 53 {
          if optLen >= 1 {
            kind := options[i + 2];
          }
        } else if options[i] == 50 {
          if optLen >= 4 {
            assert rest[2..2 + optLen][..4] == options[i + 2..i + 6];
            state := if AddrOf(options[i + 2..i + 6]) == clientAddress then STATE_ACK else STATE_NAK;
          }
        }
        i := i + optLen + 2;
      }
      ret := state;
      if kind == 1 {
        ret := STATE_OFFER;
      } else if kind == 3 {
        if !(state == STATE_ACK || state == STATE_NAK) {
          ret := if renew then STATE_ACK else STATE_NAK;
        }
      } else if kind == 4 {
        ret := STATE_DECLINE;
      } else if kind == 7 {
        ret := STATE_RELEASE;
      }
    }

    /** What meeting another client's lease at address taken does to the two searches. */
    method PassLease(taken: Addr, firstAddress: Addr, flag: bool) returns (candidate: Addr, done: bool)
      requires clientAddress == clientAddressPlus
      modifies this`clientAddress, this`clientAddressPlus
      ensures clientAddress == clientAddressPlus == Bump(old(clientAddressPlus), taken)
      ensures Search(candidate, done) == Narrow(Search(firstAddress, flag), taken)
    {
      hide NetWord;
      candidate, done := firstAddress, flag;
      if taken == clientAddressPlus {
        clientAddressPlus := Next(clientAddressPlus);
        clientAddress := clientAddressPlus;
      }
      if !flag {
        if NetWord(firstAddress) < NetWord(taken) {
          done := true;
        } else {
          candidate := Next(firstAddress);
        }
      }
    }

    /**
      The one pass over the list: stops at the sender's lease, moving the next-fit
      pointer past the leases it meets and looking for the smallest free address.
    */
    method Scan(mac: Mac) returns (pnode: Node?, firstAddress: Addr, ghost k: nat)
      requires Valid() && clientAddress == clientAddressPlus
      modifies this`clientAddress, this`clientAddressPlus
      ensures k == Find(old(leases), mac) && pnode == if k < |spine| then spine[k] else null
      ensures clientAddress == clientAddressPlus == Bumped(old(leases)[..k], old(clientAddressPlus))
      ensures firstAddress == FirstGap(old(leases)[..k], pool.first).candidate
    {
      ghost var nodes := spine;
      assert Bumped(leases[..0], clientAddressPlus) == clientAddressPlus;
      assert FirstGap(leases[..0], pool.first) == Search(pool.first, false);
      hide NetWord, Distinct, Links;
      var flag := false;
      firstAddress := pool.first;
      pnode := plist;
      k := 0;
      while pnode != null && pnode.lease.mac != mac
        invariant k <= |nodes| && pnode == if k < |nodes| then nodes[k] else null
        invariant k <= Find(leases, mac)
        invariant clientAddress == clientAddressPlus == Bumped(leases[..k], old(clientAddressPlus))
        invariant FirstGap(leases[..k], pool.first) == Search(firstAddress, flag)
        decreases |nodes| - k
      {
        NextOf(nodes, k);
        ScanStep(leases, k, old(clientAddressPlus), pool.first);
        assert leases[k] == pnode.lease;
        firstAddress, flag := PassLease(pnode.lease.ip, firstAddress, flag);
        pnode := pnode.next;
        k := k + 1;
      }
    }

    /** The sender's lease was found: it is refreshed and its address offered again. */
    method Refresh(pnode: Node, ghost k: nat, ciaddr: Addr)
      requires Valid() && k < |spine| && spine[k] == pnode
      modifies this`renew, this`clientAddress, pnode`lease, this`leases
      ensures Valid()
      ensures var l := old(leases)[k]; State() == old(State()).(client := l.ip, renew := l.ip == ciaddr,
                                                                 leases := old(leases)[k := l.(timer := lifetime)])
    {
      hide Distinct, Links;
      assert pnode.lease == leases[k];
      renew := pnode.lease.ip == ciaddr;
      clientAddress := pnode.lease.ip;
      SetTimer(pnode, lifetime, spine, leases, k);
      leases := leases[k := leases[k].(timer := lifetime)];
    }

    /** A lease for mac at the client address; the next-fit pointer moves behind it. */
    method Grant(mac: Mac) returns (pnode: Node, ghost k: nat)
      requires Valid()
      modifies this`plist, this`spine, this`leases, this`clientAddressPlus, Nodes()`next
      ensures Valid() && fresh(pnode) && k == InsertPos(old(leases), clientAddress)
      ensures spine == Inserted(old(spine), k, pnode)
      ensures State() == old(State()).(
          plus := if clientAddress == pool.last then pool.first else Next(clientAddress),
          leases := Inserted(old(leases), k, Lease(clientAddress, mac, lifetime)))
    {
      k := InsertPos(leases, clientAddress);
      hide Distinct, Links, InsertPos, Next;
      pnode := new Node(Lease(clientAddress, mac, lifetime));
      NodeInsertToList(pnode);
      clientAddressPlus := if clientAddress == pool.last then pool.first else Next(clientAddress);
    }

    /** From POOL_CHECK on: judges the sender's lease by the options and takes it back if they say so. */
    method PoolCheck(pnode: Node, ghost k: nat, m: Message) returns (ret: int)
      requires Valid() && k < |spine| && spine[k] == pnode
      modifies this, Nodes()`next
      ensures Valid() && (State(), ret) == Settle(old(State()), k, m)
      ensures spine == old(spine) || spine == Without(old(spine), k)
    {
      hide Distinct, Links, NetWord, OptionState;
      if NetWord(clientAddress) > NetWord(pool.last) || clientAddress == 0 {
        NodeRemoveFromList(pnode, k);
        return 4;
      }
      ret := ParseOptions(m.options);
      if ret == STATE_RELEASE || ret == STATE_NAK || ret == STATE_DECLINE {
        NodeRemoveFromList(pnode, k);
        if ret == STATE_DECLINE {
          hasDeclinedIp := true;
        }
        clientAddress := 0;
      }
    }

    /** The sender's node, or the address a newcomer gets in clientAddress. */
    method Seek(mac: Mac) returns (pnode: Node?, ghost k: nat)
      requires Valid()
      modifies this`clientAddress, this`clientAddressPlus, this`renew, this`hasDeclinedIp
      ensures Valid() && k == Find(leases, mac) && |spine| == |leases|
      ensures pnode == if k < |spine| then spine[k] else null
      ensures State() == old(State()).(plus := Bumped(leases[..k], old(clientAddressPlus)), client := clientAddress,
                                       renew := false, declined := false)
      ensures pnode == null ==> clientAddress == Choose(old(State()))
    {
      hide NetWord, Distinct, Links, Find, Next;
      var firstAddress := pool.first;
      k := 0;
      pnode := null;
      clientAddress := clientAddressPlus;
      renew := false;
      if plist != null {
        hasDeclinedIp := false;
        pnode, firstAddress, k := Scan(mac);
      } else if hasDeclinedIp {
        hasDeclinedIp := false;
      } else {
        clientAddress := pool.first;
      }
      if pnode == null {
        assert leases[..k] == leases;
        if NetWord(clientAddressPlus) > NetWord(pool.last) {
          clientAddress := firstAddress;
        }
      }
    }

    /** parse_msg: the whole of Handle, in place. */
    method ParseMsg(m: Message) returns (ret: int)
      requires Valid()
      modifies this, spine
      ensures Valid() && (State(), ret) == Handle(old(State()), m)
      ensures forall n <- spine :: n in old(spine) || fresh(n)
    {
      hide NetWord, Distinct, Links, Carries, OptionState, Settle, Bumped, FirstGap, Find, Choose, InsertPos;
      if m.cookie != MAGIC_COOKIE {
        return 0;
      }
      var pnode, k := Seek(m.mac);
      if pnode != null {
        Refresh(pnode, k, m.ciaddr);
      } else if NetWord(clientAddress) > NetWord(pool.last) {
        clientAddressPlus := pool.first;
        return 4;
      } else {
        pnode, k := Grant(m.mac);
      }
      ret := PoolCheck(pnode, k, m);
    }

    // ----- the timer

    /** One lease a second older, taken out if that was its last; next is the node to go on with. */
    method AgeNode(node: Node, ghost k: nat) returns (next: Node?, live: bool)
      requires Valid() && k < |spine| && spine[k] == node
      modifies this`plist, this`spine, this`leases, Nodes()`next, node`lease
      ensures Valid() && |spine| == |leases| && k < |old(leases)|
      ensures live == (Aged(old(leases)[k]).timer != 0)
      ensures live ==> spine == old(spine) && leases == old(leases)[k := Aged(old(leases)[k])]
      ensures !live ==> spine == Without(old(spine), k) && leases == Without(old(leases), k)
      ensures next == At(spine, if live then k + 1 else k) && Nodes() <= old(Nodes())
    {
      hide Distinct, Links;
      NextOf(spine, k);
      next := node.next;
      ghost var was := leases;
      SetTimer(node, Aged(node.lease).timer, spine, leases, k);
      leases := leases[k := Aged(leases[k])];
      live := node.lease.timer != 0;
      if !live {
        NodeRemoveFromList(node, k);
        assert Without(was[k := Aged(was[k])], k) == Without(was, k);
      }
    }

    static ghost function At(nodes: seq<Node>, i: nat): Node? {
      if i < |nodes| then nodes[i] else null
    }

    /** One second taken off every lease; count is their number in eight bits. */
    method AgeAll() returns (count: byte)
      requires Valid()
      modifies this`plist, this`spine, this`leases, spine
      ensures Valid() && leases == Expired(old(leases)) && count == |leases| % 0x100
      ensures Nodes() <= old(Nodes())
    {
      hide Distinct, Links, Half, Done, Expired, Aged;
      ghost var was, i := leases, 0;
      HalfExpired(was);
      var pnode := plist;
      count := 0;
      while pnode != null
        invariant Valid() && |spine| == |leases| && Nodes() <= old(Nodes())
        invariant i <= |was| && leases == Half(was, i)
        invariant pnode == At(spine, Done(was, i)) && count == Done(was, i) % 0x100
        decreases |was| - i
      {
        HalfExpiredAt(was, i);
        assert pnode in Nodes();
        var live;
        pnode, live := AgeNode(pnode, Done(was, i));
        i := i + 1;
        if live {
          count := (count + 1) % 0x100;
        }
      }
      HalfExpiredAt(was, i);
    }

    /** The list halfway through the aging: the first i leases aged, the rest as it was. */
    static ghost function Half(was: seq<Lease>, i: nat): seq<Lease>
      requires i <= |was|
    {
      Expired(was[..i]) + was[i..]
    }

    /** How many of the first i leases are left. */
    static ghost function Done(was: seq<Lease>, i: nat): nat
      requires i <= |was|
    {
      |Expired(was[..i])|
    }

    static lemma HalfExpired(was: seq<Lease>)
      ensures Half(was, 0) == was && Done(was, 0) == 0
      ensures Half(was, |was|) == Expired(was) && Done(was, |was|) == |Expired(was)|
    {
      assert was[..|was|] == was;
    }

    static lemma HalfExpiredAt(was: seq<Lease>, i: nat)
      requires i <= |was|
      ensures var now, j := Half(was, i), Done(was, i);
        if i == |was| then j == |now|
        else
          && j < |now| && now[j] == was[i]
          && Half(was, i + 1) == (if Aged(was[i]).timer != 0 then now[j := Aged(now[j])] else Without(now, j))
          && Done(was, i + 1) == (if Aged(was[i]).timer != 0 then j + 1 else j)
    {
      if i < |was| {
        assert was[..i + 1][..i] == was[..i];
      }
    }

    /** dhcps_tmr while the server is started. */
    method Timer()
      requires Valid()
      modifies this`plist, this`spine, this`leases, spine
      ensures Valid() && State() == old(State()).(leases := Ticked(old(leases)))
      ensures Nodes() <= old(Nodes())
    {
      hide Distinct, Links, Carries, Ticked, Expired;
      var numDhcpsPool := AgeAll();
      CountedTick(old(leases), numDhcpsPool);
      if numDhcpsPool > MAX_STATION_NUM {
        KillOldestDhcpsPool();
      }
    }

    static lemma CountedTick(was: seq<Lease>, count: byte)
      requires count == |Expired(was)| % 0x100
      ensures Ticked(was) == if count > MAX_STATION_NUM then WithoutOldest(Expired(was)) else Expired(was)
    {
    }

    method KillOldestDhcpsPool()
      requires Valid()
      modifies this`plist, this`spine, this`leases, Nodes()`next
      ensures Valid() && leases == WithoutOldest(old(leases))
      ensures Nodes() <= old(Nodes())
    {
      hide Distinct, Links;
      if plist == null {
        return;
      }
      NextOf(spine, 0);
      if plist.next == null {
        return;
      }
      var minp, k := FindOldest();
      NodeRemoveFromList(minp, k);
    }

    /** The first node with the least time left. */
    method FindOldest() returns (minp: Node, ghost k: nat)
      requires Valid() && plist != null
      ensures |spine| == |leases| && k < |spine| && minp == spine[k] && k == Oldest(leases)
    {
      hide Distinct, Links;
      minp, k := plist, 0;
      NextOf(spine, 0);
      var p := plist.next;
      ghost var i := 1;
      while p != null
        invariant 1 <= i <= |leases| && p == At(spine, i)
        invariant k < i && minp == spine[k] && k == Oldest(leases[..i])
        decreases |leases| - i
      {
        NextOf(spine, i);
        assert leases[..i + 1][..i] == leases[..i];
        if p.lease.timer < minp.lease.timer {
          minp, k := p, i;
        }
        p := p.next;
        i := i + 1;
      }
      assert leases[..i] == leases;
    }

    /** dhcps_stop: frees every lease. */
    method Stop()
      requires Valid()
      modifies this`plist, this`spine, this`leases, spine
      ensures Valid() && State() == old(State()).(leases := [])
    {
      hide Distinct, Links;
      var pnode := plist;
      while pnode != null
        invariant Valid() && pnode == Head(spine) && (forall n <- spine :: n in old(spine))
        decreases |spine|
      {
        NextOf(spine, 0);
        var back := pnode;
        pnode := back.next;
        NodeRemoveFromList(back, 0);
      }
    }
  }
}
