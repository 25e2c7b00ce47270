/** Which tables are accepted, what is stored of them, and what a resolver pass makes of a rule. */
module ForwardingTables {
  import opened Words
  import opened Arithmetic
  import opened Forwarding
  import opened ForwardingSafety

  /** The tailnet's addresses are 100.64.0.0/10. */
  lemma CgnatRange(h: u32)
    ensures Cgnat(h) <==> 0x6440_0000 <= h <= 0x647f_ffff
  {
    assert h == 0x40_0000 * (h / 0x40_0000) + h % 0x40_0000;
  }

  // ----- the resolver

  /** The address a rule's destination stands for: the one it spells, else what the tailnet says of the name. */
  function Destination(r: Rule, net: Tailnet): u32 {
    match r.literal
    case Some(a) => a
    case None => net.names(r.destination)
  }

  /**
    A pass resolves every enabled rule whose destination is a tailnet address while the
    tailnet is up, and keeps it installed if its address has not changed; it takes every
    other rule's address and mark away. Counters stay.
  */
  lemma PassResolves(t: Tables, net: Tailnet, i: nat)
    requires i < |t.rules| == |t.runtime|
    ensures var was, now, h := t.runtime[i], Passed(t, net).runtime[i], Destination(t.rules[i], net);
      && now.accepted == was.accepted && now.blocked == was.blocked
      && if t.rules[i].enabled && net.online && 0x6440_0000 <= h <= 0x647f_ffff
         then now.resolved == h && (now.installed <==> was.installed && was.resolved == h)
         else now.resolved == 0 && !now.installed
  {
    hide Cgnat;
    CgnatRange(Destination(t.rules[i], net));
  }

  // ----- saved rules

  /** What a rule must be by itself. */
  ghost predicate Sensible(r: Rule) {
    && r.valid && (r.proto == 6 || r.proto == 17) && r.listenPort > 0 && r.destPort > 0 && r.sourcePrefix <= 32
    && 1 <= |r.destination| <= 95 && r.destination[0] != '.' && r.destination[|r.destination| - 1] != '.'
    && (forall c <- r.destination :: c in "-." || 'a' <= c <= 'z' || 'A' <= c <= 'Z' || '0' <= c <= '9')
    && (r.literal.Some? ==> 0x6440_0000 <= r.literal.value <= 0x647f_ffff)
  }

  /** Two rules that must not both be saved. */
  ghost predicate Clash(a: Rule, b: Rule) {
    a.enabled && b.enabled && a.proto == b.proto && a.listenPort == b.listenPort
  }

  /** Nothing else listens on the rule's port. */
  ghost predicate Unclaimed(t: Tables, r: Rule) {
    && !(r.proto == 6 && r.listenPort == t.webPort)
    && forall e <- t.table :: e.valid && e.proto == r.proto ==> e.extPort != r.listenPort
  }

  lemma SensibleIff(r: Rule)
    ensures Sensible(r) <==> WellFormed(r) && (r.literal.Some? ==> Cgnat(r.literal.value))
  {
    hide Cgnat;
    if r.literal.Some? {
      CgnatRange(r.literal.value);
    }
    assert (forall c <- r.destination :: HostChar(c))
      <==> (forall k :: 0 <= k < |r.destination| ==> HostChar(r.destination[k]));
  }

  /** Rule i can be saved after the ones before it. */
  ghost predicate Acceptable(t: Tables, rules: seq<Rule>, i: nat)
    requires i < |rules|
  {
    && Sensible(rules[i]) && (rules[i].enabled ==> Unclaimed(t, rules[i]))
    && forall j :: 0 <= j < i ==> !Clash(rules[j], rules[i])
  }

  lemma RuleStatusIs(t: Tables, rules: seq<Rule>, i: nat)
    requires i < |rules|
    ensures RuleStatus(t, rules, i)
      == if Acceptable(t, rules, i) then Ok else if Sensible(rules[i]) then InvalidState else InvalidArg
  {
    hide Cgnat, WellFormed, Sensible;
    SensibleIff(rules[i]);
    ListensIff(rules[..i], KeyOf(rules[i]));
    assert forall j :: 0 <= j < i ==> rules[..i][j] == rules[j];
  }

  lemma ListensIff(rules: seq<Rule>, k: Key)
    ensures RuleListens(rules, k)
      <==> exists j :: 0 <= j < |rules| && rules[j].enabled && rules[j].proto == k.proto && rules[j].listenPort == k.port
  {
  }

  lemma {:induction false} FirstRefused(t: Tables, rules: seq<Rule>, i: nat, k: nat)
    requires i <= k <= |rules|
    requires forall j :: i <= j < k ==> RuleStatus(t, rules, j) == Ok
    requires k < |rules| ==> RuleStatus(t, rules, k) != Ok
    ensures RulesStatus(t, rules, i) == if k < |rules| then RuleStatus(t, rules, k) else Ok
    decreases k - i
  {
    hide RuleStatus;
    if i < k {
      FirstRefused(t, rules, i + 1, k);
    }
  }

  /** A table of at most eight rules that can each be saved is saved. */
  lemma TableIsSaved(t: Tables, rules: seq<Rule>, net: Tailnet)
    requires |rules| <= 8 && forall i :: 0 <= i < |rules| ==> Acceptable(t, rules, i)
    ensures SetAllStatus(t, rules) == Ok && AfterSetAll(t, rules, net).rules == rules
  {
    hide RuleStatus, Acceptable;
    forall i | 0 <= i < |rules|
      ensures RuleStatus(t, rules, i) == Ok
    {
      RuleStatusIs(t, rules, i);
    }
    FirstRefused(t, rules, 0, |rules|);
  }

  /** Any other is refused without effect, with the status of the first rule that cannot be saved. */
  lemma TableIsRefused(t: Tables, rules: seq<Rule>, net: Tailnet, k: nat)
    requires |rules| > 8 || (k < |rules| && !Acceptable(t, rules, k) && forall i :: 0 <= i < k ==> Acceptable(t, rules, i))
    ensures SetAllStatus(t, rules) == if |rules| > 8 || !Sensible(rules[k]) then InvalidArg else InvalidState
    ensures AfterSetAll(t, rules, net) == t
  {
    hide RuleStatus, Acceptable, Sensible;
    if |rules| <= 8 {
      forall i | 0 <= i <= k
        ensures RuleStatus(t, rules, i) == Ok <==> i < k
      {
        RuleStatusIs(t, rules, i);
      }
      RuleStatusIs(t, rules, k);
      FirstRefused(t, rules, 0, k);
    }
  }

  // ----- saved AP-side entries

  /** An entry of a request that asks for something. */
  ghost predicate Asks(e: Entry) {
    e.proto in {6, 17} && e.extPort > 0 && e.intPort > 0 && e.intIp > 0
  }

  /** How many of the entries do. */
  function Asking(arr: seq<Entry>): nat {
    if arr == [] then 0
    else
      var e := arr[|arr| - 1];
      Asking(arr[..|arr| - 1])
      + if (e.proto == 6 || e.proto == 17) && e.extPort > 0 && e.intPort > 0 && e.intIp > 0 then 1 else 0
  }

  lemma {:induction false} CompactedAt(arr: seq<Entry>, j: nat)
    requires j < |arr|
    ensures |Compacted(arr)| == Asking(arr)
    ensures Asks(arr[j]) ==> Asking(arr[..j]) < |Compacted(arr)| && Compacted(arr)[Asking(arr[..j])] == arr[j].(valid := true)
  {
    var n := |arr| - 1;
    if n > 0 {
      CompactedAt(arr[..n], if j < n then j else 0);
    }
    if j < n {
      assert arr[..n][..j] == arr[..j] && arr[..n][j] == arr[j];
    }
  }

  /** An accepted request is stored in full and in order, closed up and filled up with empty slots. */
  lemma RequestIsStored(t: Tables, arr: seq<Entry>, j: nat)
    requires |arr| <= 16 && EntriesAccepted(t, arr) && j < |arr|
    ensures var u := AfterPortmapSetAll(t, arr);
      && |u.table| == 16 && Asking(arr) <= 16
      && (Asks(arr[j]) ==> Asking(arr[..j]) < Asking(arr) && u.table[Asking(arr[..j])] == arr[j].(valid := true))
      && forall i :: Asking(arr) <= i < 16 ==> !u.table[i].valid
  {
    hide EntryAccepted, Asks;
    CompactedAt(arr, j);
  }

  /** Of a longer request only the first sixteen entries are looked at. */
  lemma LongRequestIsClipped(t: Tables, arr: seq<Entry>)
    requires |arr| > 16
    ensures AfterPortmapSetAll(t, arr) == AfterPortmapSetAll(t, arr[..16])
  {
    hide EntriesAccepted, Compacted, Padded;
  }

  /** The entry asks for a port nothing listens on, nor an earlier entry asks for. */
  ghost predicate Grantable(t: Tables, arr: seq<Entry>, i: nat)
    requires i < |arr|
  {
    && !RuleListens(t.rules, Key(arr[i].proto, arr[i].extPort)) && Key(arr[i].proto, arr[i].extPort) != Key(6, t.webPort)
    && forall j :: 0 <= j < i && Asks(arr[j]) && arr[j].proto == arr[i].proto ==> arr[j].extPort != arr[i].extPort
  }

  /** A request is accepted exactly when every entry that asks for something can have it. */
  lemma RequestAcceptedIff(t: Tables, arr: seq<Entry>)
    ensures EntriesAccepted(t, arr) <==> forall i :: 0 <= i < |arr| && Asks(arr[i]) ==> Grantable(t, arr, i)
  {
    hide EntryAccepted, Grantable, Asks;
    forall i | 0 <= i < |arr|
      ensures EntryAccepted(t, arr, i) <==> (Asks(arr[i]) ==> Grantable(t, arr, i))
    {
      EntryAcceptedIff(t, arr, i);
    }
  }

  lemma EntryAcceptedIff(t: Tables, arr: seq<Entry>, i: nat)
    requires i < |arr|
    ensures EntryAccepted(t, arr, i) <==> (Asks(arr[i]) ==> Grantable(t, arr, i))
  {
    hide RuleListens;
    assert forall j :: 0 <= j < i ==> arr[..i][j] == arr[j];
  }

  /** The web UI's port changes exactly to a port above 0 that no rule and no AP-side entry claims for TCP. */
  lemma WebPortTakenIff(t: Tables, port: u16)
    requires port != t.webPort
    ensures AfterWebPort(t, port).webPort == port
      <==> port > 0 && !Claimed(t, port)
    ensures AfterWebPort(t, port) == t.(webPort := AfterWebPort(t, port).webPort)
  {
    hide RuleListens, EntryListens;
  }

  // ----- the install

  /** Every mapping is bound to this address, and there are no more than fit. */
  ghost predicate BoundTo(t: Tables, bindIp: u32, capacity: nat) {
    |t.lwip| <= capacity && forall k <- t.lwip :: t.lwip[k].bindIp == bindIp
  }

  /** There is room exactly for a mapping that leaves no more than fit. */
  lemma RoomIff(m: map<Key, Target>, k: Key, v: Target, capacity: nat)
    requires |m| <= capacity
    ensures Room(m, k, capacity) <==> |m[k := v]| <= capacity
  {
    if k in m {
      assert m[k := v].Keys == m.Keys;
    } else {
      assert m[k := v].Keys == m.Keys + {k};
    }
    assert |m| == |m.Keys| && |m[k := v]| == |m[k := v].Keys|;
  }

  lemma {:induction false} EntriesBind(t: Tables, n: nat, bindIp: u32, capacity: nat)
    requires Inv(t) && n <= |t.table|
    ensures BoundTo(WithEntries(t, n, bindIp, capacity), bindIp, capacity)
  {
    hide Inv, Room;
    if n == 0 {
      ClearedRebuilding(t);
    } else {
      EntriesBind(t, n - 1, bindIp, capacity);
      var u, e := WithEntries(t, n - 1, bindIp, capacity), t.table[n - 1];
      if Room(u.lwip, EntryKey(e), capacity) {
        RoomIff(u.lwip, EntryKey(e), Target(bindIp, e.intIp, e.intPort), capacity);
      }
    }
  }

  lemma {:induction false} RulesBind(t: Tables, n: nat, bindIp: u32, capacity: nat)
    requires Inv(t) && n <= |t.rules| == |t.runtime|
    ensures BoundTo(WithRules(t, n, bindIp, capacity), bindIp, capacity)
  {
    hide Inv, Room, WithEntries;
    if n == 0 {
      EntriesBind(t, |t.table|, bindIp, capacity);
    } else {
      RulesBind(t, n - 1, bindIp, capacity);
      var u := WithRules(t, n - 1, bindIp, capacity);
      var k := KeyOf(t.rules[n - 1]);
      if Room(u.lwip, k, capacity) {
        RoomIff(u.lwip, k, Target(bindIp, u.runtime[n - 1].resolved, t.rules[n - 1].destPort), capacity);
      }
    }
  }

  /** After an install every mapping is bound to the uplink's address, and lwIP's table holds no more than it can. */
  lemma InstallBinds(t: Tables, uplink: u32, capacity: nat)
    requires Inv(t) && uplink != 0
    ensures |t.rules| == |t.runtime| && BoundTo(Installed(t, Some(uplink), capacity), uplink, capacity)
  {
    hide Inv, WithRules, BoundTo;
    InvSizes(t);
    RulesBind(t, |t.rules|, uplink, capacity);
  }
}
