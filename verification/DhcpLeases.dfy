/**
  The DHCP server's lease table on values: what one message or one timer tick
  makes of it, and what every run of messages and ticks keeps.

  Addresses are host-order numbers here. The firmware keeps them in network
  order and compares the raw words, so each of its `<` and `>` is a comparison
  of NetWord values below.
*/
module DhcpLeases {
  import opened Words

  type Addr = u32
  /** The six octets of a hardware address, as one number. */
  type Mac = m: int | 0 <= m < 0x1_0000_0000_0000

  const MAX_STATION_NUM := 16
  const MAX_LEASE := 0x64

  const STATE_OFFER := 1
  const STATE_DECLINE := 2
  const STATE_ACK := 3
  const STATE_NAK := 4
  const STATE_IDLE := 5
  const STATE_RELEASE := 6

  const MAGIC_COOKIE: seq<byte> := [0x63, 0x82, 0x53, 0x63]

  datatype Lease = Lease(ip: Addr, mac: Mac, timer: u32)
  datatype Pool = Pool(first: Addr, last: Addr)
  datatype Message = Message(cookie: seq<byte>, ciaddr: Addr, mac: Mac, options: seq<byte>)

  datatype Server = Server(
    pool: Pool,
    lifetime: u32,
    plus: Addr,
    client: Addr,
    renew: bool,
    declined: bool,
    leases: seq<Lease>)

  // ----- addresses

  /** The 32-bit word a little-endian CPU reads from the four octets of a in network order. */
  function NetWord(a: Addr): u32 {
    (a % 0x100) * 0x100_0000 + (a / 0x100 % 0x100) * 0x1_0000 + (a / 0x1_0000 % 0x100) * 0x100 + a / 0x100_0000
  }

  function Next(a: Addr): Addr {
    if a == 0xffff_ffff then 0 else a + 1
  }

  /** Inside one /24 the raw words are ordered like the addresses. */
  lemma NetWordOrder(a: Addr, b: Addr)
    requires a / 0x100 == b / 0x100
    ensures NetWord(a) < NetWord(b) <==> a < b
  {
    assert a == a / 0x100 * 0x100 + a % 0x100 && b == b / 0x100 * 0x100 + b % 0x100;
    assert a / 0x1_0000 == a / 0x100 / 0x100 && b / 0x1_0000 == b / 0x100 / 0x100;
    assert a / 0x100_0000 == a / 0x100 / 0x1_0000 && b / 0x100_0000 == b / 0x100 / 0x1_0000;
  }

  /** Across /24 blocks the last octet decides, whatever the addresses say. */
  lemma NetWordLastOctet(a: Addr, b: Addr)
    requires a % 0x100 < b % 0x100
    ensures NetWord(a) < NetWord(b)
  {
  }

  // ----- options

  function AddrOf(b: seq<byte>): Addr
    requires |b| == 4
  {
    Be32(b[0], b[1], b[2], b[3])
  }

  /** What the option walk remembers: the message type, and the verdict on a requested address. */
  datatype Verdict = Verdict(kind: byte, state: int)

  function Absorb(v: Verdict, code: byte, body: seq<byte>, client: Addr): Verdict {
    if code == 53 && |body| >= 1 then v.(kind := body[0])
    else if code == 50 && |body| >= 4 then
      v.(state := if AddrOf(body[..4]) == client then STATE_ACK else STATE_NAK)
    else v
  }

  function Walk(o: seq<byte>, v: Verdict, client: Addr): Verdict
    decreases |o|
  {
    if |o| == 0 || o[0] == 255 then v
    else if o[0] == 0 then Walk(o[1..], v, client)
    else if |o| < 2 || 2 + o[1] > |o| then v
    else Walk(o[2 + o[1]..], Absorb(v, o[0], o[2..2 + o[1]], client), client)
  }

  function Conclude(v: Verdict, renew: bool): int {
    match v.kind
    case 1 => STATE_OFFER
    case 3 =>
      if v.state == STATE_ACK || v.state == STATE_NAK then v.state
      else if renew then STATE_ACK else STATE_NAK
    case 4 => STATE_DECLINE
    case 7 => STATE_RELEASE
    case _ => v.state
  }

  function OptionState(options: seq<byte>, client: Addr, renew: bool): int {
    Conclude(Walk(options, Verdict(0, STATE_IDLE), client), renew)
  }

  // ----- the lease list

  function Find(leases: seq<Lease>, mac: Mac): (k: nat)
    ensures k <= |leases|
    ensures k < |leases| ==> leases[k].mac == mac
    ensures forall i :: 0 <= i < k ==> leases[i].mac != mac
  {
    if leases == [] || leases[0].mac == mac then 0 else 1 + Find(leases[1..], mac)
  }

  function Bump(plus: Addr, taken: Addr): Addr {
    if taken == plus then Next(plus) else plus
  }

  /** The next-fit pointer after it was bumped past every lease it met, in list order. */
  function Bumped(leases: seq<Lease>, plus: Addr): Addr {
    if leases == [] then plus
    else Bump(Bumped(leases[..|leases| - 1], plus), leases[|leases| - 1].ip)
  }

  /** The smallest-free-address search that runs beside it; done says a gap was found. */
  datatype Search = Search(candidate: Addr, done: bool)

  function Narrow(s: Search, taken: Addr): Search {
    if s.done then s
    else if NetWord(s.candidate) < NetWord(taken) then Search(s.candidate, true)
    else Search(Next(s.candidate), false)
  }

  function FirstGap(leases: seq<Lease>, first: Addr): Search {
    if leases == [] then Search(first, false)
    else Narrow(FirstGap(leases[..|leases| - 1], first), leases[|leases| - 1].ip)
  }

  /** Where node_insert_to_list puts an address: before the first larger raw word. */
  function InsertPos(leases: seq<Lease>, ip: Addr): (k: nat)
    ensures k <= |leases|
    ensures forall i :: 0 <= i < k ==> NetWord(ip) >= NetWord(leases[i].ip)
    ensures k < |leases| ==> NetWord(ip) < NetWord(leases[k].ip)
  {
    if leases == [] || NetWord(ip) < NetWord(leases[0].ip) then 0 else 1 + InsertPos(leases[1..], ip)
  }

  /** The address a client without a lease gets, or a word above the pool's last. */
  function Choose(s: Server): Addr {
    var p := Bumped(s.leases, s.plus);
    if NetWord(p) > NetWord(s.pool.last) then FirstGap(s.leases, s.pool.first).candidate
    else if s.leases == [] && !s.declined then s.pool.first
    else p
  }

  /** From POOL_CHECK on: the lease at index k belongs to the sender. */
  function Settle(s: Server, k: nat, m: Message): (Server, int)
    requires k < |s.leases|
  {
    if NetWord(s.client) > NetWord(s.pool.last) || s.client == 0 then
      (s.(leases := Without(s.leases, k)), 4)
    else
      var ret := OptionState(m.options, s.client, s.renew);
      if ret == STATE_RELEASE || ret == STATE_NAK || ret == STATE_DECLINE then
        (s.(leases := Without(s.leases, k), declined := s.declined || ret == STATE_DECLINE, client := 0), ret)
      else
        (s, ret)
  }

  /** A lease the sender already holds: refreshed, its address becomes the client address. */
  function Refreshed(s: Server, k: nat, m: Message): Server
    requires k < |s.leases|
  {
    var l := s.leases[k];
    s.(plus := Bumped(s.leases[..k], s.plus), client := l.ip, renew := l.ip == m.ciaddr, declined := false,
       leases := s.leases[k := l.(timer := s.lifetime)])
  }

  /** A new lease for the sender at address c. */
  function Granted(s: Server, c: Addr, m: Message): Server {
    s.(plus := if c == s.pool.last then s.pool.first else Next(c), client := c, renew := false, declined := false,
       leases := Inserted(s.leases, InsertPos(s.leases, c), Lease(c, m.mac, s.lifetime)))
  }

  /** parse_msg: the new state and the returned DHCPS_STATE. */
  function Handle(s: Server, m: Message): (Server, int) {
    if m.cookie != MAGIC_COOKIE then (s, 0)
    else
      var k := Find(s.leases, m.mac);
      if k < |s.leases| then Settle(Refreshed(s, k, m), k, m)
      else
        var c := Choose(s);
        if NetWord(c) > NetWord(s.pool.last) then
          (s.(plus := s.pool.first, client := c, renew := false, declined := false), 4)
        else
          Settle(Granted(s, c, m), InsertPos(s.leases, c), m)
  }

  // ----- the timer

  function Aged(l: Lease): Lease {
    l.(timer := if l.timer == 0 then 0xffff_ffff else l.timer - 1)
  }

  /** Every lease one second older, the expired ones gone, the order kept. */
  function Expired(leases: seq<Lease>): seq<Lease> {
    if leases == [] then []
    else
      var l := Aged(leases[|leases| - 1]);
      Expired(leases[..|leases| - 1]) + if l.timer == 0 then [] else [l]
  }

  /** Index of the first lease with the least time left. */
  function Oldest(leases: seq<Lease>): (k: nat)
    requires leases != []
    ensures k < |leases|
    ensures forall i :: 0 <= i < |leases| ==> leases[k].timer <= leases[i].timer
    ensures forall i :: 0 <= i < k ==> leases[k].timer < leases[i].timer
  {
    var n := |leases| - 1;
    if n == 0 then 0
    else
      var k := Oldest(leases[..n]);
      if leases[n].timer < leases[k].timer then n else k
  }

  function WithoutOldest(leases: seq<Lease>): seq<Lease> {
    if |leases| < 2 then leases else Without(leases, Oldest(leases))
  }

  /** dhcps_tmr: the lease count is kept in eight bits. */
  function Ticked(leases: seq<Lease>): seq<Lease> {
    var live := Expired(leases);
    if |live| % 0x100 > MAX_STATION_NUM then WithoutOldest(live) else live
  }

  // ----- runs

  datatype Event = Received(m: Message) | Tick

  function Step(s: Server, e: Event): Server {
    match e
    case Received(m) => Handle(s, m).0
    case Tick => s.(leases := Ticked(s.leases))
  }

  function Run(s: Server, events: seq<Event>): Server {
    if events == [] then s else Step(Run(s, events[..|events| - 1]), events[|events| - 1])
  }
}
