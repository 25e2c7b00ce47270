/**
  The 4via6 flow table: forty-eight slots that remember which IPv6 client sent
  an IPv4 five-tuple, and the two operations that change them in place.
*/
module FlowTable {
  import opened Words

  const FLOW_COUNT := 48
  const TCP_TIMEOUT_US := 900_000_000
  const UDP_TIMEOUT_US := 120_000_000
  const ICMP_TIMEOUT_US := 30_000_000

  /** Microseconds since boot, short of the largest 64-bit value. */
  type Time = t: int | 0 <= t < 0x7fff_ffff_ffff_ffff

  datatype FiveTuple = FiveTuple(protocol: byte, peer: u32, target: u32, clientPort: u16, targetPort: u16)
  datatype Flow = Flow(valid: bool, tuple: FiveTuple, client: seq<byte>, lastSeen: Time)

  function Timeout(protocol: byte): int {
    if protocol == 6 then TCP_TIMEOUT_US else if protocol == 17 then UDP_TIMEOUT_US else ICMP_TIMEOUT_US
  }

  // ----- flow_remember

  predicate Matches(f: Flow, t: FiveTuple, client: seq<byte>) {
    f.valid && f.tuple == t && f.client == client
  }

  /** A slot already holding this client and five-tuple. */
  ghost predicate Held(flows: seq<Flow>, t: FiveTuple, client: seq<byte>) {
    exists i :: 0 <= i < |flows| && Matches(flows[i], t, client)
  }

  ghost predicate HasFree(flows: seq<Flow>) {
    exists i :: 0 <= i < |flows| && !flows[i].valid
  }

  /** Where a flow is remembered: the slot that holds it, else the last free slot, else slot 0. */
  ghost predicate SlotFor(flows: seq<Flow>, t: FiveTuple, client: seq<byte>, slot: int) {
    && 0 <= slot < |flows|
    && (Held(flows, t, client) ==>
          Matches(flows[slot], t, client) && forall i :: 0 <= i < slot ==> !Matches(flows[i], t, client))
    && (!Held(flows, t, client) && HasFree(flows) ==>
          !flows[slot].valid && forall i :: slot < i < |flows| ==> flows[i].valid)
    && (!Held(flows, t, client) && !HasFree(flows) ==> slot == 0)
  }

  ghost predicate Remembered(was: seq<Flow>, now: seq<Flow>, t: FiveTuple, client: seq<byte>, time: Time) {
    exists slot: nat :: SlotFor(was, t, client, slot) && now == was[slot := Flow(true, t, client, time)]
  }

  method FlowRemember(flows: array<Flow>, client: seq<byte>, t: FiveTuple, now: Time)
    requires flows.Length == FLOW_COUNT
    modifies flows
    ensures Remembered(old(flows[..]), flows[..], t, client, now)
  {
    var slot: int, oldest: int := -1, 0x7fff_ffff_ffff_ffff;
    var i := 0;
    while i < FLOW_COUNT
      invariant 0 <= i <= FLOW_COUNT
      invariant forall j :: 0 <= j < i ==> !Matches(flows[j], t, client)
      invariant if i == 0 then slot == -1 else 0 <= slot < i
      invariant i > 0 && flows[slot].valid ==> slot == 0 && forall j :: 0 <= j < i ==> flows[j].valid
      invariant i > 0 && !flows[slot].valid ==> forall j :: slot < j < i ==> flows[j].valid
      invariant slot == -1 ==> oldest == 0x7fff_ffff_ffff_ffff
    {
      if Matches(flows[i], t, client) {
        slot := i;
        break;
      }
      if !flows[i].valid {
        slot := i;
      } else if slot < 0 && flows[i].lastSeen < oldest {
        oldest := flows[i].lastSeen;
        slot := i;
      }
      i := i + 1;
    }
    ghost var was := flows[..];
    assert i < FLOW_COUNT ==> Matches(was[i], t, client);
    assert i == FLOW_COUNT ==> !Held(was, t, client);
    assert SlotFor(was, t, client, slot);
    flows[slot] := Flow(true, t, client, now);
    assert flows[..] == was[slot := Flow(true, t, client, now)];
  }

  // ----- flow_lookup

  predicate Stale(f: Flow, protocol: byte, now: Time) {
    now - f.lastSeen > Timeout(protocol)
  }

  predicate Live(f: Flow, t: FiveTuple, now: Time) {
    f.valid && !Stale(f, t.protocol, now) && f.tuple == t
  }

  function Swept(f: Flow, protocol: byte, now: Time): Flow {
    if f.valid && Stale(f, protocol, now) then f.(valid := false) else f
  }

  /** hit is the first live slot for t, or the number of slots when there is none. */
  ghost predicate FirstLive(flows: seq<Flow>, t: FiveTuple, now: Time, hit: nat) {
    && hit <= |flows|
    && (forall i :: 0 <= i < hit ==> !Live(flows[i], t, now))
    && (hit < |flows| ==> Live(flows[hit], t, now))
  }

  /** Slots before the hit are swept, the hit is touched, the rest is left alone. */
  ghost function LookedUp(flows: seq<Flow>, t: FiveTuple, now: Time, hit: nat): (r: seq<Flow>)
    requires hit <= |flows|
    ensures |r| == |flows|
  {
    seq(|flows|, i requires 0 <= i < |flows| =>
      if i < hit then Swept(flows[i], t.protocol, now)
      else if i == hit then flows[i].(lastSeen := now)
      else flows[i])
  }

  ghost predicate Answered(was: seq<Flow>, now: seq<Flow>, t: FiveTuple, time: Time, found: Option<Flow>) {
    exists hit: nat ::
      && FirstLive(was, t, time, hit) && now == LookedUp(was, t, time, hit)
      && found == if hit < |was| then Some(now[hit]) else None
  }

  method FlowLookup(flows: array<Flow>, t: FiveTuple, now: Time) returns (found: Option<Flow>)
    requires flows.Length == FLOW_COUNT
    modifies flows
    ensures Answered(old(flows[..]), flows[..], t, now, found)
  {
    ghost var was := flows[..];
    found := None;
    var i := 0;
    while i < FLOW_COUNT
      invariant 0 <= i <= FLOW_COUNT && found == None
      invariant forall j :: 0 <= j < i ==> !Live(was[j], t, now)
      invariant forall j :: 0 <= j < FLOW_COUNT ==>
        flows[j] == if j < i then Swept(was[j], t.protocol, now) else was[j]
    {
      if flows[i].valid {
        if Stale(flows[i], t.protocol, now) {
          flows[i] := flows[i].(valid := false);
        } else if flows[i].tuple == t {
          flows[i] := flows[i].(lastSeen := now);
          found := Some(flows[i]);
          break;
        }
      }
      i := i + 1;
    }
    assert FirstLive(was, t, now, i);
    assert flows[..] == LookedUp(was, t, now, i);
  }

  // ----- runs

  datatype Event = Remember(client: seq<byte>, tuple: FiveTuple, now: Time) | Lookup(tuple: FiveTuple, now: Time)

  ghost predicate Step(was: seq<Flow>, e: Event, now: seq<Flow>) {
    match e
    case Remember(client, t, time) => Remembered(was, now, t, client, time)
    case Lookup(t, time) => exists found :: Answered(was, now, t, time, found)
  }

  /** A table and the states it went through, one more than there are events. */
  ghost predicate Trace(states: seq<seq<Flow>>, events: seq<Event>) {
    && |states| == |events| + 1
    && |states[0]| == FLOW_COUNT && (forall i :: 0 <= i < FLOW_COUNT ==> !states[0][i].valid)
    && forall k :: 0 <= k < |events| ==> Step(states[k], events[k], states[k + 1])
  }

  /** No two valid slots share client and five-tuple. */
  ghost predicate NoDuplicates(flows: seq<Flow>) {
    forall i, j :: 0 <= i < j < |flows| && flows[i].valid && flows[j].valid ==>
      !(flows[i].tuple == flows[j].tuple && flows[i].client == flows[j].client)
  }

  /** Every valid slot was recorded by one of these events. */
  ghost predicate Recorded(flows: seq<Flow>, events: seq<Event>) {
    forall i :: 0 <= i < |flows| && flows[i].valid ==> WasRemembered(events, flows[i].tuple, flows[i].client)
  }

  ghost predicate WasRemembered(events: seq<Event>, t: FiveTuple, client: seq<byte>) {
    exists k :: 0 <= k < |events| && events[k].Remember? && events[k].tuple == t && events[k].client == client
  }

  lemma StepKeepsNoDuplicates(was: seq<Flow>, e: Event, now: seq<Flow>)
    requires NoDuplicates(was) && Step(was, e, now)
    ensures |now| == |was| && NoDuplicates(now)
  {
    match e
    case Remember(client, t, time) => {
      var slot: nat :| SlotFor(was, t, client, slot) && now == was[slot := Flow(true, t, client, time)];
      forall i | 0 <= i < |was| && i != slot && was[i].valid
        ensures !(was[i].tuple == t && was[i].client == client)
      {
        if Matches(was[i], t, client) {
          assert Held(was, t, client);
        }
      }
    }
    case Lookup(t, time) => {
    }
  }

  lemma StepKeepsRecorded(was: seq<Flow>, e: Event, now: seq<Flow>, events: seq<Event>)
    requires Recorded(was, events) && Step(was, e, now)
    ensures Recorded(now, events + [e])
  {
    assert (events + [e])[|events|] == e;
    forall i | 0 <= i < |was| && was[i].valid
      ensures WasRemembered(events + [e], was[i].tuple, was[i].client)
    {
      var k :| 0 <= k < |events| && events[k].Remember? && events[k].tuple == was[i].tuple && events[k].client == was[i].client;
      assert (events + [e])[k] == events[k];
    }
  }

  /** After any run of remembers and lookups: no duplicates, and nothing in the table that was not remembered. */
  lemma {:induction false} RunKeepsTable(states: seq<seq<Flow>>, events: seq<Event>)
    requires Trace(states, events)
    ensures var last := states[|events|]; |last| == 48 && NoDuplicates(last) && Recorded(last, events)
  {
    if events != [] {
      var n := |events| - 1;
      RunKeepsTable(states[..n + 1], events[..n]);
      assert events == events[..n] + [events[n]];
      StepKeepsNoDuplicates(states[n], events[n], states[n + 1]);
      StepKeepsRecorded(states[n], events[n], states[n + 1], events[..n]);
    }
  }

  /** Every hit names a client that was remembered earlier in the run under that five-tuple. */
  lemma HitWasRemembered(states: seq<seq<Flow>>, events: seq<Event>, next: seq<Flow>, t: FiveTuple, now: Time, f: Flow)
    requires Trace(states, events)
    requires Answered(states[|events|], next, t, now, Some(f))
    ensures f.tuple == t && WasRemembered(events, t, f.client)
  {
    RunKeepsTable(states, events);
  }

  /**
    A lookup finds nothing exactly when every flow of the five-tuple was last used more than
    15 minutes ago for TCP, 2 minutes for UDP, half a minute for the rest.
  */
  lemma LookupMissesIffStale(was: seq<Flow>, next: seq<Flow>, t: FiveTuple, now: Time, found: Option<Flow>)
    requires Answered(was, next, t, now, found)
    ensures found == None <==> forall i :: 0 <= i < |was| && was[i].valid && was[i].tuple == t ==>
              now - was[i].lastSeen > 1_000_000 * (if t.protocol == 6 then 900 else if t.protocol == 17 then 120 else 30)
    ensures found.Some? ==> found.value.lastSeen == now && found.value.tuple == t && Held(was, t, found.value.client)
  {
    var hit: nat :| FirstLive(was, t, now, hit) && next == LookedUp(was, t, now, hit)
                    && found == if hit < |was| then Some(next[hit]) else None;
    if hit < |was| {
      assert Matches(was[hit], t, was[hit].client);
    } else {
      forall i | 0 <= i < |was| && was[i].valid && was[i].tuple == t
        ensures Stale(was[i], t.protocol, now)
      {
        assert !Live(was[i], t, now);
      }
    }
  }

  /** Remembering changes one slot, and gives up another live flow only when no slot is free. */
  lemma RememberSparesOthers(was: seq<Flow>, now: seq<Flow>, t: FiveTuple, client: seq<byte>, time: Time, i: nat)
    requires Remembered(was, now, t, client, time)
    requires i < |was| && was[i].valid && !Matches(was[i], t, client)
    ensures |now| == |was| && (now[i] == was[i] || (i == 0 && !HasFree(was) && !Held(was, t, client)))
  {
  }

  // ----- a binding and what it survives

  /** Every flow of the five-tuple is this client's. */
  ghost predicate Sole(flows: seq<Flow>, t: FiveTuple, client: seq<byte>) {
    forall i :: 0 <= i < |flows| && flows[i].valid && flows[i].tuple == t ==> flows[i].client == client
  }

  /** The five-tuple is bound to this client alone, by a flow seen at or after since. */
  ghost predicate Bound(flows: seq<Flow>, t: FiveTuple, client: seq<byte>, since: Time) {
    && Sole(flows, t, client)
    && exists i :: 0 <= i < |flows| && Matches(flows[i], t, client) && flows[i].lastSeen >= since
  }

  /** Remembering a flow binds its five-tuple when no other client holds it. */
  lemma RememberedIsBound(was: seq<Flow>, now: seq<Flow>, t: FiveTuple, client: seq<byte>, time: Time)
    requires Remembered(was, now, t, client, time) && Sole(was, t, client)
    ensures Bound(now, t, client, time)
  {
    var slot: nat :| SlotFor(was, t, client, slot) && now == was[slot := Flow(true, t, client, time)];
    assert Matches(now[slot], t, client);
  }

  /** A bound five-tuple is looked up to its client, and the flow is touched, while the protocol's timeout lasts. */
  lemma BoundIsFound(was: seq<Flow>, now: seq<Flow>, t: FiveTuple, client: seq<byte>, since: Time, time: Time,
                     found: Option<Flow>)
    requires Bound(was, t, client, since) && time - since <= Timeout(t.protocol)
    requires Answered(was, now, t, time, found)
    ensures found.Some? && found.value.client == client && Bound(now, t, client, time)
  {
    hide Timeout;
    var i :| 0 <= i < |was| && Matches(was[i], t, client) && was[i].lastSeen >= since;
    assert Live(was[i], t, time);
    var hit: nat :| FirstLive(was, t, time, hit) && now == LookedUp(was, t, time, hit)
                    && found == if hit < |was| then Some(now[hit]) else None;
    assert Matches(now[hit], t, client);
  }

  /**
    What one event must be for a binding last seen at since to survive it: remembers
    of the five-tuple are the client's own, remembers of another find their flow held, a
    free slot, or someone else in slot 0, and no lookup comes later than its own
    protocol's timeout after since.
  */
  ghost predicate Spares(flows: seq<Flow>, e: Event, t: FiveTuple, client: seq<byte>, since: Time) {
    && since <= e.now
    && match e
       case Remember(c, u, _) =>
         if u == t then c == client
         else Held(flows, u, c) || HasFree(flows) || (flows != [] && !Matches(flows[0], t, client))
       case Lookup(u, time) => time - since <= Timeout(u.protocol)
  }

  /** A remember of another five-tuple ends a flow exactly when it sits in slot 0 of a table with nothing free. */
  lemma EvictedIffInSlotZero(was: seq<Flow>, now: seq<Flow>, u: FiveTuple, c: seq<byte>, time: Time, i: nat)
    requires NoDuplicates(was) && Remembered(was, now, u, c, time)
    requires i < |was| && was[i].valid && was[i].tuple != u
    ensures !Held(now, was[i].tuple, was[i].client) <==> i == 0 && !HasFree(was) && !Held(was, u, c)
  {
    var slot: nat :| SlotFor(was, u, c, slot) && now == was[slot := Flow(true, u, c, time)];
    if slot != i {
      assert Matches(now[i], was[i].tuple, was[i].client);
    }
  }

  /** A lookup ends a flow exactly when the flow lies before the hit and is stale under the queried protocol's timeout. */
  lemma SweptIffStaleBeforeHit(was: seq<Flow>, now: seq<Flow>, u: FiveTuple, time: Time, found: Option<Flow>, hit: nat, i: nat)
    requires NoDuplicates(was) && Answered(was, now, u, time, found) && FirstLive(was, u, time, hit)
    requires i < |was| && was[i].valid
    ensures !Held(now, was[i].tuple, was[i].client) <==> i < hit && Stale(was[i], u.protocol, time)
  {
    hide Timeout, Stale;
    var h: nat :| FirstLive(was, u, time, h) && now == LookedUp(was, u, time, h);
    assert h == hit;
    if !(i < hit && Stale(was[i], u.protocol, time)) {
      assert Matches(now[i], was[i].tuple, was[i].client);
    }
  }

  lemma RememberKeepsBound(was: seq<Flow>, now: seq<Flow>, u: FiveTuple, c: seq<byte>, time: Time, t: FiveTuple,
                           client: seq<byte>, since: Time)
    requires Bound(was, t, client, since) && Remembered(was, now, u, c, time)
    requires Spares(was, Remember(c, u, time), t, client, since)
    ensures Bound(now, t, client, if u == t then time else since)
  {
    if u == t {
      RememberedIsBound(was, now, t, client, time);
    } else {
      var slot: nat :| SlotFor(was, u, c, slot) && now == was[slot := Flow(true, u, c, time)];
      var i :| 0 <= i < |was| && Matches(was[i], t, client) && was[i].lastSeen >= since;
      assert i != slot && now[i] == was[i];
    }
  }

  lemma LookupKeepsBound(was: seq<Flow>, now: seq<Flow>, u: FiveTuple, time: Time, found: Option<Flow>, t: FiveTuple,
                         client: seq<byte>, since: Time)
    requires Bound(was, t, client, since) && Answered(was, now, u, time, found) && u != t
    requires Spares(was, Lookup(u, time), t, client, since)
    ensures Bound(now, t, client, since)
  {
    hide Timeout;
    var hit: nat :| FirstLive(was, u, time, hit) && now == LookedUp(was, u, time, hit)
                    && found == if hit < |was| then Some(now[hit]) else None;
    var i :| 0 <= i < |was| && Matches(was[i], t, client) && was[i].lastSeen >= since;
    assert i != hit && now[i] == was[i];
  }

  lemma StepKeepsBound(was: seq<Flow>, e: Event, now: seq<Flow>, t: FiveTuple, client: seq<byte>, since: Time)
    requires Bound(was, t, client, since) && Step(was, e, now) && Spares(was, e, t, client, since)
    ensures Bound(now, t, client, if e.tuple == t then e.now else since)
  {
    hide Bound, Answered, Remembered, Timeout;
    match e
    case Remember(c, u, time) =>
      RememberKeepsBound(was, now, u, c, time, t, client, since);
    case Lookup(u, time) =>
      var found :| Answered(was, now, u, time, found);
      if u == t {
        BoundIsFound(was, now, t, client, since, time, found);
      } else {
        LookupKeepsBound(was, now, u, time, found, t, client, since);
      }
  }

  /** When the five-tuple was last remembered or looked up. */
  function Touched(events: seq<Event>, t: FiveTuple, since: Time): Time {
    if events == [] then since
    else
      var n := |events| - 1;
      if events[n].tuple == t then events[n].now else Touched(events[..n], t, since)
  }

  /** A stretch of traffic from some table on, none of which ends the binding. */
  ghost predicate Undisturbed(states: seq<seq<Flow>>, events: seq<Event>, t: FiveTuple, client: seq<byte>, since: Time) {
    && |states| == |events| + 1
    && forall k :: 0 <= k < |events| ==>
         && Step(states[k], events[k], states[k + 1])
         && Spares(states[k], events[k], t, client, Touched(events[..k], t, since))
  }

  /** The binding lasts through any such traffic, as fresh as its last use. */
  lemma {:induction false} TrafficKeepsBound(states: seq<seq<Flow>>, events: seq<Event>, t: FiveTuple, client: seq<byte>,
                                             since: Time)
    requires Undisturbed(states, events, t, client, since) && Bound(states[0], t, client, since)
    ensures |states| == |events| + 1 && Bound(states[|events|], t, client, Touched(events, t, since))
  {
    hide Bound, Step, Spares, Undisturbed;
    if events != [] {
      var n := |events| - 1;
      UndisturbedFront(states, events, t, client, since);
      TrafficKeepsBound(states[..n + 1], events[..n], t, client, since);
      StepKeepsBound(states[n], events[n], states[n + 1], t, client, Touched(events[..n], t, since));
    } else {
      UndisturbedNothing(states, events, t, client, since);
    }
  }

  lemma UndisturbedNothing(states: seq<seq<Flow>>, events: seq<Event>, t: FiveTuple, client: seq<byte>, since: Time)
    requires Undisturbed(states, events, t, client, since)
    ensures |states| == |events| + 1
  {
  }

  lemma UndisturbedFront(states: seq<seq<Flow>>, events: seq<Event>, t: FiveTuple, client: seq<byte>, since: Time)
    requires Undisturbed(states, events, t, client, since) && events != []
    ensures |states| == |events| + 1
    ensures var n := |events| - 1;
      && Undisturbed(states[..n + 1], events[..n], t, client, since)
      && Step(states[n], events[n], states[n + 1])
      && Spares(states[n], events[n], t, client, Touched(events[..n], t, since))
  {
    hide Step, Spares, Touched;
    var n := |events| - 1;
    forall k | 0 <= k < n
      ensures events[..n][..k] == events[..k]
    {
    }
  }
}
