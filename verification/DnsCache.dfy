/** The relay's direct-mapped response cache against a plain map from questions to answers. */
module DnsCache {
  import opened Words

  const ENTRIES := 256
  const KEY_MAX := 256
  const RESP_MAX := 1024

  // ----- the hash

  function Mix(h: bv32, b: byte): bv32 {
    (h ^ (b as bv32)) * 16777619
  }

  function Fnv(d: seq<byte>): bv32 {
    if d == [] then 2166136261 else Mix(Fnv(d[..|d| - 1]), d[|d| - 1])
  }

  method Fnv1a(d: seq<byte>) returns (h: bv32)
    ensures h == Fnv(d)
  {
    hide Mix;
    h := 2166136261;
    var i := 0;
    while i < |d|
      invariant 0 <= i <= |d| && h == Fnv(d[..i])
    {
      assert d[..i + 1][..i] == d[..i];
      h := Mix(h, d[i]);
      i := i + 1;
    }
    assert d[..i] == d;
  }

  function Index(h: bv32): (i: nat)
    ensures i < ENTRIES
  {
    (h as int) % 256
  }

  function SlotOf(key: seq<byte>): (i: nat)
    ensures i < ENTRIES
  {
    Index(Fnv(key))
  }

  // ----- what was stored

  /** One accepted store: the question, the response and when it dies, in microseconds. */
  datatype Put = Put(key: seq<byte>, resp: seq<byte>, expiry: nat)

  function Expiry(now: nat, ttl: u32): nat {
    now + ttl * 1_000_000
  }

  /** The plain map: the most recent store for a question. */
  function Latest(history: seq<Put>, key: seq<byte>): (r: Option<Put>)
    ensures r.Some? ==> r.value in history && r.value.key == key
    ensures r == None <==> forall k :: 0 <= k < |history| ==> history[k].key != key
  {
    if history == [] then None
    else
      var n := |history| - 1;
      if history[n].key == key then Some(history[n]) else Latest(history[..n], key)
  }

  /** The direct-mapped table: the most recent store that hashed to a slot. */
  function LatestIn(history: seq<Put>, slot: nat): (r: Option<Put>)
    ensures r.Some? ==> SlotOf(r.value.key) == slot
  {
    if history == [] then None
    else
      var n := |history| - 1;
      if SlotOf(history[n].key) == slot then Some(history[n]) else LatestIn(history[..n], slot)
  }

  function PlainAnswer(history: seq<Put>, key: seq<byte>, now: nat): Option<seq<byte>> {
    match Latest(history, key)
    case None => None
    case Some(e) => if now < e.expiry then Some(e.resp) else None
  }

  function Answer(history: seq<Put>, key: seq<byte>, now: nat): Option<seq<byte>> {
    match LatestIn(history, SlotOf(key))
    case None => None
    case Some(e) => if e.key == key && now < e.expiry then Some(e.resp) else None
  }

  /** A different question with the same hash was stored after the last store for key. */
  ghost predicate PushedOut(history: seq<Put>, key: seq<byte>) {
    exists j :: 0 <= j < |history| && PushedOutAt(history, key, j)
  }

  ghost predicate PushedOutAt(history: seq<Put>, key: seq<byte>, j: nat)
    requires j < |history|
  {
    && SlotOf(history[j].key) == SlotOf(key) && history[j].key != key
    && forall k :: j <= k < |history| ==> history[k].key != key
  }

  /** When nothing pushed the question out, its slot holds its latest store. */
  lemma {:induction false} SlotHoldsLatest(history: seq<Put>, key: seq<byte>)
    ensures PushedOut(history, key) <==> LatestIn(history, SlotOf(key)).Some? && LatestIn(history, SlotOf(key)).value.key != key
    ensures !PushedOut(history, key) ==> LatestIn(history, SlotOf(key)) == Latest(history, key)
  {
    if history != [] {
      var n := |history| - 1;
      var front, last := history[..n], history[n].key;
      SlotHoldsLatest(front, key);
      if last == key {
        assert !PushedOut(history, key);
      } else if SlotOf(last) == SlotOf(key) {
        assert PushedOutAt(history, key, n);
      } else {
        PushedOutGrows(history, key);
      }
    }
  }

  lemma PushedOutGrows(history: seq<Put>, key: seq<byte>)
    requires history != [] && SlotOf(history[|history| - 1].key) != SlotOf(key)
    ensures PushedOut(history, key) <==> PushedOut(history[..|history| - 1], key)
  {
    hide SlotOf;
    var n := |history| - 1;
    var front := history[..n];
    if PushedOut(history, key) {
      var j :| 0 <= j < |history| && PushedOutAt(history, key, j);
      assert j < n && PushedOutAt(front, key, j);
    }
    if PushedOut(front, key) {
      var j :| 0 <= j < |front| && PushedOutAt(front, key, j);
      assert PushedOutAt(history, key, j);
    }
  }

  /** A hit is the plain map's answer. */
  lemma HitIsPlain(history: seq<Put>, key: seq<byte>, now: nat)
    requires Answer(history, key, now).Some?
    ensures PlainAnswer(history, key, now) == Answer(history, key, now)
  {
    hide SlotOf, LatestIn, Latest;
    SlotHoldsLatest(history, key);
  }

  /** The cache misses what the plain map would answer exactly when a colliding question pushed it out. */
  lemma MissIffPushedOut(history: seq<Put>, key: seq<byte>, now: nat)
    requires PlainAnswer(history, key, now).Some?
    ensures Answer(history, key, now) == None <==> PushedOut(history, key)
  {
    hide SlotOf, LatestIn, Latest;
    SlotHoldsLatest(history, key);
  }

  /** A stored response answers its question from then on for ttl seconds, unless something else is stored in its slot. */
  lemma ServedForTtl(history: seq<Put>, key: seq<byte>, resp: seq<byte>, ttl: u32, now: nat, more: seq<Put>, later: nat)
    requires forall k :: 0 <= k < |more| ==> SlotOf(more[k].key) != SlotOf(key)
    ensures Answer(history + [Put(key, resp, Expiry(now, ttl))] + more, key, later)
         == if later < now + 1_000_000 * ttl then Some(resp) else None
  {
    hide SlotOf;
    LatestBefore(history, Put(key, resp, Expiry(now, ttl)), more);
  }

  lemma {:induction false} LatestBefore(history: seq<Put>, p: Put, more: seq<Put>)
    requires forall k :: 0 <= k < |more| ==> SlotOf(more[k].key) != SlotOf(p.key)
    ensures LatestIn(history + [p] + more, SlotOf(p.key)) == Some(p)
  {
    hide SlotOf;
    var all := history + [p] + more;
    if more == [] {
      assert all == history + [p];
    } else {
      var n := |more| - 1;
      assert all[..|all| - 1] == history + [p] + more[..n];
      LatestBefore(history, p, more[..n]);
    }
  }

  /** Published values of the 32-bit FNV-1a hash, of nothing and of "a", and the slots they select. */
  lemma KnownHashes()
    ensures Fnv([]) == 0x811c_9dc5 && Fnv([97]) == 0xe40c_292c
    ensures SlotOf([]) == 0xc5 && SlotOf([97]) == 0x2c
  {
    var a: seq<byte> := [97];
    assert a[..0] == [];
    assert Fnv(a) == Mix(Fnv([]), 97);
  }

  // ----- the table in place

  /** expiry 0 marks an empty slot. */
  datatype Entry = Entry(expiry: nat, key: seq<byte>, resp: seq<byte>)

  /** The stored response carrying the transaction id of the query. */
  function WithId(resp: seq<byte>, q: seq<byte>): (r: seq<byte>)
    requires |q| >= 2
    ensures |r| == |resp|
    ensures forall k :: 0 <= k < |resp| ==> r[k] == if k < 2 then q[k] else resp[k]
  {
    if |resp| <= 2 then q[..|resp|] else q[..2] + resp[2..]
  }

  class Cache {
    const slots: array<Entry>
    var inserts: nat
    var evictions: nat

    /** Every accepted store, oldest first. */
    ghost var history: seq<Put>

    ghost predicate Valid()
      reads this, slots
    {
      slots.Length == ENTRIES && forall i :: 0 <= i < ENTRIES ==> Matches(slots[i], LatestIn(history, i))
    }

    constructor ()
      ensures Valid() && fresh(slots) && history == []
    {
      slots := new Entry[256](_ => Entry(0, [], []));
      inserts, evictions := 0, 0;
      history := [];
    }

    /** cache_put: q is a query whose question, keyLen bytes long, starts at offset 12. */
    method CachePut(q: seq<byte>, keyLen: nat, resp: seq<byte>, ttl: u32, now: nat)
      requires Valid() && 12 + keyLen <= |q|
      modifies this, slots
      ensures Valid()
      ensures var key := q[12..12 + keyLen];
        history == if 0 < |key| <= 256 && 0 < |resp| <= 1024
                   then old(history) + [Put(key, resp, Expiry(now, ttl))] else old(history)
      ensures inserts == old(inserts) + |history| - |old(history)|
      ensures var before := LatestIn(old(history), SlotOf(q[12..12 + keyLen]));
        var replaced := before.Some? && before.value.expiry != 0 && before.value.key != q[12..12 + keyLen];
        evictions == old(evictions) + if replaced && history != old(history) then 1 else 0
    {
      hide Fnv, Index, LatestIn;
      if keyLen == 0 || keyLen > KEY_MAX {
        return;
      }
      if |resp| == 0 || |resp| > RESP_MAX {
        return;
      }
      var key := q[12..12 + keyLen];
      var h := Fnv1a(key);
      var slot := Index(h);
      SlotAfterPut(history, Put(key, resp, Expiry(now, ttl)));
      var e := slots[slot];
      assert Matches(e, LatestIn(history, slot));
      var wasOther := e.expiry != 0 && e.key != key;
      slots[slot] := Entry(Expiry(now, ttl), key, resp);
      inserts := inserts + 1;
      if wasOther {
        evictions := evictions + 1;
      }
      history := history + [Put(key, resp, Expiry(now, ttl))];
    }

    /** cache_get: the stored response under the query's own transaction id. */
    method CacheGet(q: seq<byte>, keyLen: nat, now: nat) returns (out: Option<seq<byte>>)
      requires Valid() && 12 + keyLen <= |q|
      ensures var answer := Answer(history, q[12..12 + keyLen], now);
        out == if answer == None then None else Some(WithId(answer.value, q))
      ensures out.Some? ==> PlainAnswer(history, q[12..12 + keyLen], now).Some?
    {
      hide Fnv, Index, LatestIn, Latest;
      var key := q[12..12 + keyLen];
      var h := Fnv1a(key);
      var e := slots[Index(h)];
      assert Matches(e, LatestIn(history, SlotOf(key)));
      out := None;
      if e.expiry != 0 && |e.key| == keyLen && now < e.expiry && e.key == key {
        out := Some(WithId(e.resp, q));
        HitIsPlain(history, key, now);
      }
    }
  }

  ghost predicate Matches(e: Entry, p: Option<Put>) {
    if p == None then e.expiry == 0 else e == Entry(p.value.expiry, p.value.key, p.value.resp)
  }

  lemma SlotAfterPut(history: seq<Put>, p: Put)
    ensures forall i :: LatestIn(history + [p], i) == if i == SlotOf(p.key) then Some(p) else LatestIn(history, i)
  {
    hide SlotOf;
    assert (history + [p])[..|history|] == history;
  }
}
