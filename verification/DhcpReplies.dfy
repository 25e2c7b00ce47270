/**
  What the DHCP server answers to each message type, what it leaves on the list,
  and which address a newcomer gets, all read off the bytes of the message.
*/
module DhcpReplies {
  import opened Words
  import opened DhcpLeases
  import opened DhcpSafety
  import opened DhcpRuns
  import opened DhcpClients

  /** A message with these options in front of where they end; every message with the cookie is one. */
  ghost predicate Bears(m: Message, opts: seq<Tlv>, rest: seq<byte>) {
    && m.cookie == MAGIC_COOKIE && (forall o <- opts :: WellFormed(o)) && Closes(rest)
    && m.options == Encode(opts) + rest
  }

  /** The last option with this code and at least size bytes starts with value. */
  ghost predicate Says(opts: seq<Tlv>, code: byte, value: seq<byte>) {
    exists i :: 0 <= i < |opts| && SaysAt(opts, code, value, i)
  }

  ghost predicate SaysAt(opts: seq<Tlv>, code: byte, value: seq<byte>, i: nat)
    requires i < |opts|
  {
    && opts[i].Item? && opts[i].code == code && value <= opts[i].body
    && forall j :: i < j < |opts| ==> Lacks(opts[j], code, |value|)
  }

  /** Not an option with this code and at least size bytes. */
  ghost predicate Lacks(o: Tlv, code: byte, size: nat) {
    o.Item? && o.code == code ==> |o.body| < size
  }

  ghost predicate Mentions(opts: seq<Tlv>, code: byte, size: nat) {
    exists i :: 0 <= i < |opts| && !Lacks(opts[i], code, size)
  }

  /** The message type the options give, 0 when they give none. */
  ghost predicate Typed(opts: seq<Tlv>, t: byte) {
    Says(opts, 53, [t]) || (t == 0 && !Mentions(opts, 53, 1))
  }

  /** The address the options ask for, if any. */
  ghost predicate Names(opts: seq<Tlv>, asked: Option<Addr>) {
    if asked == None then !Mentions(opts, 50, 4) else Says(opts, 50, Bytes32(asked.value))
  }

  /** The sender has the address for a whole lease time, and the reply names it. */
  ghost predicate Kept(s: Server, mac: Mac, a: Addr) {
    Lease(a, mac, s.lifetime) in s.leases && s.client == a
  }

  /** The sender has no lease, and the reply names no address. */
  ghost predicate Gone(s: Server, mac: Mac) {
    !Known(s.leases, mac) && s.client == 0
  }

  // ----- reading the options

  /** So what follows is about every message with the cookie. */
  lemma EveryMessageBears(m: Message) returns (opts: seq<Tlv>, rest: seq<byte>)
    requires m.cookie == MAGIC_COOKIE
    ensures Bears(m, opts, rest)
  {
    opts, rest := EveryListDecodes(m.options);
  }

  lemma {:induction false} LastSays(opts: seq<Tlv>, code: byte, value: seq<byte>, i: nat)
    requires i < |opts| && SaysAt(opts, code, value, i)
    ensures Last(opts, code, |value|).Some? && value <= Last(opts, code, |value|).value
  {
    if i > 0 {
      assert SaysAt(opts[1..], code, value, i - 1);
      LastSays(opts[1..], code, value, i - 1);
    } else {
      LastLacks(opts[1..], code, |value|);
    }
  }

  lemma {:induction false} LastLacks(opts: seq<Tlv>, code: byte, size: nat)
    requires forall i :: 0 <= i < |opts| ==> Lacks(opts[i], code, size)
    ensures Last(opts, code, size) == None
  {
    if opts != [] {
      LastLacks(opts[1..], code, size);
    }
  }

  /** What the option bytes come to: the type is t, or 0 without one, and the address asked for, if any. */
  lemma StateOf(m: Message, opts: seq<Tlv>, rest: seq<byte>, t: byte, asked: Option<Addr>, client: Addr, renew: bool)
    requires Bears(m, opts, rest) && Typed(opts, t) && Names(opts, asked)
    ensures var judged := if asked == None then STATE_IDLE else if asked.value == client then STATE_ACK else STATE_NAK;
      OptionState(m.options, client, renew) ==
        if t == 1 then STATE_OFFER else if t == 4 then STATE_DECLINE else if t == 7 then STATE_RELEASE
        else if t == 3 && asked == None then (if renew then STATE_ACK else STATE_NAK) else judged
  {
    hide Walk, Last, Bytes32, AddrOf, Typed, Names;
    ReadType(opts, t);
    ReadAsked(opts, asked, client);
    WalkDecodes(opts, rest, Verdict(0, STATE_IDLE), client);
  }

  lemma ReadType(opts: seq<Tlv>, t: byte)
    requires Typed(opts, t)
    ensures var r := Last(opts, 53, 1); if r == None then t == 0 else r.value[0] == t
  {
    hide Last;
    if Says(opts, 53, [t]) {
      var i :| 0 <= i < |opts| && SaysAt(opts, 53, [t], i);
      LastSays(opts, 53, [t], i);
    } else {
      LastLacks(opts, 53, 1);
    }
  }

  lemma ReadAsked(opts: seq<Tlv>, asked: Option<Addr>, client: Addr)
    requires Names(opts, asked)
    ensures var r := Last(opts, 50, 4);
      if asked == None then r == None else r.Some? && AddrOf(r.value[..4]) == asked.value
  {
    hide Last, Bytes32, Be32;
    if asked == None {
      LastLacks(opts, 50, 4);
    } else {
      var b := Bytes32(asked.value);
      var i :| 0 <= i < |opts| && SaysAt(opts, 50, b, i);
      LastSays(opts, 50, b, i);
      Bytes32Back(asked.value);
      assert Last(opts, 50, 4).value[..4] == b;
    }
  }

  // ----- a client that holds an address

  lemma HolderSettles(s: Server, m: Message, a: Addr)
    requires Inv(s) && m.cookie == MAGIC_COOKIE && Holds(s, m.mac, a)
    ensures var (r, ret) := Handle(s, m);
      && ret == OptionState(m.options, a, a == m.ciaddr)
      && r.declined == (ret == STATE_DECLINE)
      && if Withdrawn(ret) then Gone(r, m.mac) else Kept(r, m.mac, a)
  {
    hide NetWord, OptionState, Bumped;
    ReplyNamesSendersLease(s, m);
    HandleFrame(s, m);
    var k := Find(s.leases, m.mac);
    assert s.leases[k].ip == a;
    PoolOrder(s.pool, a, s.pool.last);
    assert Refreshed(s, k, m).leases[k] == Lease(a, m.mac, s.lifetime);
  }

  /**
    What a client that holds address a is answered, and what it has afterwards: a
    REQUEST (3) is acknowledged exactly when the address it asks for is a, or, if it
    asks for none, when it comes from a.
  */
  lemma HolderIsAnswered(s: Server, m: Message, a: Addr, opts: seq<Tlv>, rest: seq<byte>, t: byte, asked: Option<Addr>)
    requires Inv(s) && Holds(s, m.mac, a) && Bears(m, opts, rest) && Typed(opts, t) && Names(opts, asked)
    ensures var (r, ret) := Handle(s, m);
      && (t == 1 ==> ret == STATE_OFFER && Kept(r, m.mac, a))
      && (t == 3 ==> if (if asked.Some? then asked.value else m.ciaddr) == a
                     then ret == STATE_ACK && Kept(r, m.mac, a) else ret == STATE_NAK && Gone(r, m.mac))
      && (t == 4 ==> ret == STATE_DECLINE && Gone(r, m.mac))
      && (t == 7 ==> ret == STATE_RELEASE && Gone(r, m.mac))
      && (t !in {1, 3, 4, 7} ==> if asked.Some? && asked.value != a then ret == STATE_NAK && Gone(r, m.mac)
                                 else ret == (if asked.Some? then STATE_ACK else STATE_IDLE) && Kept(r, m.mac, a))
      && (r.declined <==> t == 4)
  {
    hide Inv, Holds, Bears, Typed, Names, Handle, OptionState, Gone, Kept;
    BearsCookie(m, opts, rest);
    HolderSettles(s, m, a);
    StateOf(m, opts, rest, t, asked, a, a == m.ciaddr);
  }

  lemma BearsCookie(m: Message, opts: seq<Tlv>, rest: seq<byte>)
    requires Bears(m, opts, rest)
    ensures m.cookie == MAGIC_COOKIE
  {
  }

  /** Its message moves the next-fit pointer past leases below a, and no further. */
  lemma HolderMovesPointer(s: Server, m: Message, a: Addr)
    requires Inv(s) && m.cookie == MAGIC_COOKIE && Holds(s, m.mac, a)
    ensures var p := Handle(s, m).0.plus;
      && s.plus <= p && !(p < a && Leased(s.leases, p)) && (s.plus < p ==> p <= a)
      && forall x: Addr :: s.plus <= x < p ==> Leased(s.leases, x)
  {
    hide NetWord, OptionState, Bumped;
    var k := Find(s.leases, m.mac);
    assert s.leases[k].ip == a;
    var front := s.leases[..k];
    assert Sorted(front) && Within(front, s.pool);
    BumpedFree(front, s.plus, s.pool);
    BumpedIsNext(front, s.plus, s.pool);
    var p := Bumped(front, s.plus);
    BelowIsInFront(s.leases, k, p);
    forall x: Addr | s.plus <= x < p
      ensures Leased(s.leases, x)
    {
      LeasedStays(s.leases, k, x);
    }
    if s.plus < p {
      assert Leased(front, p - 1);
      BelowIsInFront(s.leases, k, p - 1);
    }
  }

  lemma BelowIsInFront(leases: seq<Lease>, k: nat, x: Addr)
    requires Sorted(leases) && k < |leases|
    ensures x < leases[k].ip && Leased(leases, x) <==> Leased(leases[..k], x)
  {
    if x < leases[k].ip && Leased(leases, x) {
      var i :| 0 <= i < |leases| && leases[i].ip == x;
      assert i < k && leases[..k][i].ip == x;
    }
    if Leased(leases[..k], x) {
      LeasedStays(leases, k, x);
    }
  }

  /** A packet without the cookie of section 3 of RFC 2131 is ignored. */
  lemma NoCookieIsIgnored(s: Server, m: Message)
    requires m.cookie != [99, 130, 83, 99]
    ensures Handle(s, m) == (s, 0)
  {
  }

  /** In any pool, a client whose lease lies behind the pool's last address in raw words loses it, whatever it asks. */
  lemma LeaseBeyondPoolIsDropped(s: Server, m: Message, k: nat)
    requires m.cookie == MAGIC_COOKIE && DistinctMacs(s.leases)
    requires k < |s.leases| && s.leases[k].mac == m.mac && NetWord(s.leases[k].ip) > NetWord(s.pool.last)
    ensures Handle(s, m).1 == STATE_NAK && Handle(s, m).0.leases == Without(s.leases, k)
    ensures !Known(Handle(s, m).0.leases, m.mac)
  {
    hide NetWord, OptionState, Bumped;
    assert Find(s.leases, m.mac) == k;
  }

  // ----- a client that holds none

  /** With every pool address leased it is refused, and the next search starts from the pool's first address. */
  lemma FullPoolRefuses(s: Server, m: Message)
    requires Inv(s) && m.cookie == MAGIC_COOKIE && !Known(s.leases, m.mac) && Full(s)
    ensures var (r, ret) := Handle(s, m);
      ret == STATE_NAK && r.leases == s.leases && r.plus == s.pool.first && r.client == s.pool.last + 1
  {
    hide NetWord, Choose, Find, OptionState, Bumped, FirstGap, Leased, InsertPos, Granted;
    ChosenIsFree(s);
    NotFound(s.leases, m.mac);
  }

  lemma NewcomerSettles(s: Server, m: Message)
    requires Inv(s) && m.cookie == MAGIC_COOKIE && !Known(s.leases, m.mac) && !Full(s)
    ensures var (r, ret) := Handle(s, m); var c := Choose(s);
      && ret == OptionState(m.options, c, false)
      && r.declined == (ret == STATE_DECLINE)
      && r.plus == (if c == s.pool.last then s.pool.first else c + 1)
      && if Withdrawn(ret) then Gone(r, m.mac) else Kept(r, m.mac, c)
  {
    hide NetWord, OptionState, Bumped, Choose, FirstGap, InsertPos, Leased, Full;
    ChosenIsFree(s);
    ReplyNamesSendersLease(s, m);
    HandleFrame(s, m);
    NotFound(s.leases, m.mac);
    var c := Choose(s);
    var k := InsertPos(s.leases, c);
    assert Granted(s, c, m).leases[k] == Lease(c, m.mac, s.lifetime);
    assert Handle(s, m) == Settle(Granted(s, c, m), k, m);
  }

  /**
    What a client without a lease is answered: an address is set aside for it as for a
    client that holds that address, but without renewal, so that a REQUEST that asks for
    no address is refused wherever it comes from. The next newcomer's search starts behind it.
  */
  lemma NewcomerIsAnswered(s: Server, m: Message, opts: seq<Tlv>, rest: seq<byte>, t: byte, asked: Option<Addr>)
      returns (c: Addr)
    requires Inv(s) && !Known(s.leases, m.mac) && !Full(s)
    requires Bears(m, opts, rest) && Typed(opts, t) && Names(opts, asked)
    ensures NextFit(s, c)
    ensures var (r, ret) := Handle(s, m);
      && (t == 1 ==> ret == STATE_OFFER && Kept(r, m.mac, c))
      && (t == 3 ==> if asked == Some(c) then ret == STATE_ACK && Kept(r, m.mac, c) else ret == STATE_NAK && Gone(r, m.mac))
      && (t == 4 ==> ret == STATE_DECLINE && Gone(r, m.mac))
      && (t == 7 ==> ret == STATE_RELEASE && Gone(r, m.mac))
      && (t !in {1, 3, 4, 7} ==> if asked.Some? && asked.value != c then ret == STATE_NAK && Gone(r, m.mac)
                                 else ret == (if asked.Some? then STATE_ACK else STATE_IDLE) && Kept(r, m.mac, c))
      && (r.declined <==> t == 4)
      && r.plus == if c == s.pool.last then s.pool.first else c + 1
  {
    hide Inv, Full, Bears, Typed, Names, Handle, OptionState, Gone, Kept, Choose, Known, NextFit;
    BearsCookie(m, opts, rest);
    ChoiceIsNextFit(s);
    NewcomerSettles(s, m);
    c := Choose(s);
    StateOf(m, opts, rest, t, asked, c, false);
  }

  // ----- which address a newcomer gets

  ghost predicate Free(s: Server, a: Addr) {
    s.pool.first <= a <= s.pool.last && !Leased(s.leases, a)
  }

  /**
    The next free address from the next-fit pointer on, or the smallest one when there
    is none from there on; the pool's first on an empty list, unless an address was just declined.
  */
  ghost predicate NextFit(s: Server, c: Addr) {
    && Free(s, c)
    && if (s.leases == [] && !s.declined && s.plus <= s.pool.last) then c == s.pool.first
       else if exists a: Addr :: Free(s, a) && a >= s.plus
       then c >= s.plus && forall a: Addr :: Free(s, a) && a >= s.plus ==> c <= a
       else forall a: Addr :: Free(s, a) ==> c <= a
  }

  lemma {:induction false} BumpedIsNext(leases: seq<Lease>, plus: Addr, p: Pool)
    requires Sorted(leases) && Within(leases, p) && OneBlock(p) && p.first <= plus <= p.last + 1
    ensures plus <= Bumped(leases, plus) && forall a: Addr :: plus <= a < Bumped(leases, plus) ==> Leased(leases, a)
  {
    if leases != [] {
      var n := |leases| - 1;
      BumpedIsNext(leases[..n], plus, p);
      BumpedFree(leases[..n], plus, p);
      var q := Bumped(leases[..n], plus);
      forall a: Addr | plus <= a < Bumped(leases, plus)
        ensures Leased(leases, a)
      {
        if a < q {
          LeasedStays(leases, n, a);
        } else {
          assert leases[n].ip == a;
        }
      }
    }
  }

  lemma LeasedStays(leases: seq<Lease>, n: nat, a: Addr)
    requires n <= |leases| && Leased(leases[..n], a)
    ensures Leased(leases, a)
  {
    var i :| 0 <= i < n && leases[..n][i].ip == a;
    assert leases[i].ip == a;
  }

  lemma ChoiceIsNextFit(s: Server)
    requires Inv(s) && !Full(s)
    ensures NextFit(s, Choose(s))
  {
    hide NetWord, FirstGap, Sorted, DistinctMacs, Leased;
    ChosenIsFree(s);
    BumpedFree(s.leases, s.plus, s.pool);
    BumpedIsNext(s.leases, s.plus, s.pool);
    FirstGapSmallest(s.leases, s.pool);
    var p := Bumped(s.leases, s.plus);
    PoolOrder(s.pool, s.pool.last, p);
    if p <= s.pool.last {
      assert Free(s, p);
    } else {
      assert Choose(s) == FirstGap(s.leases, s.pool.first).candidate;
      assert forall a: Addr :: s.plus <= a <= s.pool.last ==> Leased(s.leases, a);
    }
  }
}
