/** What every run of table saves, resolver passes and installs keeps, and what the packet filter then promises. */
module ForwardingSafety {
  import opened Words
  import opened Arithmetic
  import opened Forwarding

  // ----- saving tables

  /** Every rule of an accepted table was accepted on its own. */
  lemma {:induction false} AcceptedEach(t: Tables, rules: seq<Rule>, i: nat)
    requires i <= |rules| && RulesStatus(t, rules, i) == Ok
    ensures forall j :: i <= j < |rules| ==> RuleStatus(t, rules, j) == Ok
    decreases |rules| - i
  {
    hide RuleStatus;
    if i < |rules| {
      AcceptedEach(t, rules, i + 1);
    }
  }

  lemma AcceptedIsValid(t: Tables, rules: seq<Rule>, i: nat)
    requires i < |rules| && RuleStatus(t, rules, i) == Ok
    ensures rules[i].valid
  {
    hide Cgnat, EntryListens, RuleListens;
  }

  lemma AcceptedRule(t: Tables, rules: seq<Rule>, i: nat)
    requires i < |rules| && RuleStatus(t, rules, i) == Ok && rules[i].enabled
    ensures forall j :: 0 <= j < i && rules[j].enabled ==> KeyOf(rules[j]) != KeyOf(rules[i])
    ensures !EntryListens(t.table, KeyOf(rules[i])) && KeyOf(rules[i]) != Key(TCP, t.webPort)
  {
    hide WellFormed, Cgnat, EntryListens;
    forall j | 0 <= j < i && rules[j].enabled
      ensures KeyOf(rules[j]) != KeyOf(rules[i])
    {
      assert rules[..i][j] == rules[j];
    }
  }

  lemma FreshlyResolved(r: Rule, net: Tailnet)
    ensures !Resolved(r, BLANK, net).installed
    ensures Resolved(r, BLANK, net).resolved == 0 || Cgnat(Resolved(r, BLANK, net).resolved)
  {
    hide Cgnat;
  }

  lemma SetAllKeepsInv(t: Tables, rules: seq<Rule>, net: Tailnet)
    requires Inv(t)
    ensures Inv(AfterSetAll(t, rules, net))
  {
    hide Resolved, Cgnat, RuleStatus, RulesStatus, EntryListens;
    if SetAllStatus(t, rules) == Ok {
      AcceptedEach(t, rules, 0);
      var u := AfterSetAll(t, rules, net);
      forall i | 0 <= i < |rules|
        ensures rules[i].valid
      {
        AcceptedIsValid(t, rules, i);
      }
      forall i | 0 <= i < |rules| && rules[i].enabled
        ensures forall j :: 0 <= j < i && rules[j].enabled ==> KeyOf(rules[j]) != KeyOf(rules[i])
        ensures !EntryListens(t.table, KeyOf(rules[i])) && KeyOf(rules[i]) != Key(TCP, t.webPort)
      {
        AcceptedRule(t, rules, i);
      }
      forall i | 0 <= i < |rules|
        ensures !u.runtime[i].installed && (u.runtime[i].resolved == 0 || Cgnat(u.runtime[i].resolved))
      {
        FreshlyResolved(rules[i], net);
      }
    }
  }

  /** A pass keeps a rule installed only at the address it was installed with. */
  lemma ResolvedKeepsLive(r: Rule, rt: Runtime, net: Tailnet)
    ensures var n := Resolved(r, rt, net);
      && (n.installed ==> r.enabled && rt.installed && n.resolved == rt.resolved)
      && (n.resolved == 0 || Cgnat(n.resolved))
  {
    hide Cgnat;
  }

  lemma PassKeepsInv(t: Tables, net: Tailnet)
    requires Inv(t)
    ensures Inv(Passed(t, net))
  {
    hide Resolved, Cgnat, EntryListens;
    var u := Passed(t, net);
    forall i | 0 <= i < |t.rules|
      ensures u.runtime[i].installed ==> t.runtime[i].installed && u.runtime[i].resolved == t.runtime[i].resolved
      ensures u.runtime[i].resolved == 0 || Cgnat(u.runtime[i].resolved)
    {
      ResolvedKeepsLive(t.rules[i], t.runtime[i], net);
    }
  }

  /** Compaction keeps exactly the filled entries. */
  lemma {:induction false} CompactedSource(arr: seq<Entry>, i: nat) returns (j: nat)
    requires i < |Compacted(arr)|
    ensures j < |arr| && Filled(arr[j]) && EntryKey(arr[j]) == EntryKey(Compacted(arr)[i])
  {
    hide Filled;
    var n := |arr| - 1;
    if i < |Compacted(arr[..n])| {
      j := CompactedSource(arr[..n], i);
    } else {
      j := n;
    }
  }

  ghost predicate FilledApart(arr: seq<Entry>) {
    forall i, j :: 0 <= i < j < |arr| && Filled(arr[i]) && Filled(arr[j]) ==> EntryKey(arr[i]) != EntryKey(arr[j])
  }

  lemma {:induction false} CompactedApart(arr: seq<Entry>)
    requires FilledApart(arr)
    ensures forall i, j :: 0 <= i < j < |Compacted(arr)| ==> EntryKey(Compacted(arr)[i]) != EntryKey(Compacted(arr)[j])
  {
    hide Filled;
    if arr != [] {
      var n := |arr| - 1;
      var front := Compacted(arr[..n]);
      CompactedApart(arr[..n]);
      forall i, j | 0 <= i < j < |Compacted(arr)|
        ensures EntryKey(Compacted(arr)[i]) != EntryKey(Compacted(arr)[j])
      {
        var k := CompactedSource(arr[..n], i);
        assert arr[..n][k] == arr[k];
      }
    }
  }

  lemma AcceptedApart(t: Tables, arr: seq<Entry>)
    requires EntriesAccepted(t, arr)
    ensures FilledApart(arr)
  {
    hide Filled, RuleListens;
    forall i, j | 0 <= i < j < |arr| && Filled(arr[i]) && Filled(arr[j])
      ensures EntryKey(arr[i]) != EntryKey(arr[j])
    {
      assert EntryAccepted(t, arr, j);
      assert arr[..j][i] == arr[i];
    }
  }

  lemma PortmapSetAllKeepsInv(t: Tables, arr: seq<Entry>)
    requires Inv(t)
    ensures Inv(AfterPortmapSetAll(t, arr))
  {
    hide Filled, RuleListens, InstalledIsLive, ResolvedInTailnet, Owned, EntryAccepted;
    var es := Clipped(arr);
    if EntriesAccepted(t, es) {
      var u := AfterPortmapSetAll(t, arr);
      AcceptedApart(t, es);
      CompactedApart(es);
      forall i | 0 <= i < |u.table| && u.table[i].valid
        ensures !RuleListens(t.rules, EntryKey(u.table[i])) && EntryKey(u.table[i]) != Key(TCP, t.webPort)
      {
        var j := CompactedSource(es, i);
        AcceptedEntry(t, es, j);
      }
      NewTableApart(t, u);
      SameMappings(t, u);
    }
  }

  lemma AcceptedEntry(t: Tables, arr: seq<Entry>, j: nat)
    requires j < |arr| && Filled(arr[j]) && EntryAccepted(t, arr, j)
    ensures !RuleListens(t.rules, EntryKey(arr[j])) && EntryKey(arr[j]) != Key(TCP, t.webPort)
  {
    hide Filled;
  }

  /** The parts of the invariant that do not mention the AP-side table. */
  lemma SameMappings(t: Tables, u: Tables)
    requires Inv(t) && u == t.(table := u.table)
    ensures InstalledIsLive(u) && ResolvedInTailnet(u) && Owned(u)
  {
    hide Cgnat;
  }

  lemma NewTableApart(t: Tables, u: Tables)
    requires PortsApart(t) && u == t.(table := u.table)
    requires forall i, j :: 0 <= i < j < |u.table| && u.table[i].valid && u.table[j].valid ==>
               EntryKey(u.table[i]) != EntryKey(u.table[j])
    requires forall i :: 0 <= i < |u.table| && u.table[i].valid ==>
               !RuleListens(t.rules, EntryKey(u.table[i])) && EntryKey(u.table[i]) != Key(TCP, t.webPort)
    ensures PortsApart(u)
  {
  }

  lemma WebPortKeepsInv(t: Tables, port: u16)
    requires Inv(t)
    ensures Inv(AfterWebPort(t, port))
  {
    hide Cgnat;
  }

  // ----- installing

  /** What holds while the callback rebuilds lwIP's table, n rules done. */
  ghost predicate Rebuilding(t: Tables, n: nat, steps: nat) {
    && |t.rules| == |t.runtime| && n <= |t.rules|
    && Owned(t) && |t.installed| <= steps
    && ResolvedInTailnet(t) && InstalledIsLive(t)
    && forall i :: n <= i < |t.rules| ==> !t.runtime[i].installed
  }

  lemma ClearedRebuilding(t: Tables)
    requires Inv(t)
    ensures Rebuilding(Cleared(t), 0, 0) && Cleared(t).lwip == map[]
  {
    hide Cgnat, PortsApart;
    assert Cleared(t).lwip == map[];
  }

  lemma EntryRebuilding(t: Tables, e: Entry, bindIp: u32, capacity: nat, steps: nat)
    requires Rebuilding(t, 0, steps)
    ensures Rebuilding(WithEntry(t, e, bindIp, capacity), 0, steps + 1)
  {
    hide Cgnat;
  }

  lemma {:induction false} EntriesRebuilding(t: Tables, n: nat, bindIp: u32, capacity: nat)
    requires Inv(t) && n <= |t.table|
    ensures Rebuilding(WithEntries(t, n, bindIp, capacity), 0, n)
  {
    hide Rebuilding, Inv, WithEntry;
    if n == 0 {
      ClearedRebuilding(t);
    } else {
      EntriesRebuilding(t, n - 1, bindIp, capacity);
      EntryRebuilding(WithEntries(t, n - 1, bindIp, capacity), t.table[n - 1], bindIp, capacity, n - 1);
    }
  }

  /** Distinct ports are what keeps a later rule from overwriting an earlier one's mapping. */
  lemma RuleRebuilding(t: Tables, i: nat, bindIp: u32, capacity: nat, steps: nat)
    requires PortsApart(t) && i < |t.rules| && Rebuilding(t, i, steps)
    ensures Rebuilding(WithRule(t, i, bindIp, capacity), i + 1, steps + 1)
  {
    hide Cgnat, EntryListens;
    var u := WithRule(t, i, bindIp, capacity);
    forall j | 0 <= j < |t.rules| && u.runtime[j].installed
      ensures Live(u, j)
    {
      if j != i {
        assert t.runtime[j].installed && Live(t, j) && j < i;
      }
    }
  }

  lemma {:induction false} RulesRebuilding(t: Tables, n: nat, bindIp: u32, capacity: nat)
    requires Inv(t) && n <= |t.rules|
    ensures Rebuilding(WithRules(t, n, bindIp, capacity), n, ENTRIES_MAX + n)
  {
    hide Rebuilding, WithRule, WithEntries, PortsApart, InstalledIsLive, ResolvedInTailnet, Owned;
    if n == 0 {
      EntriesRebuilding(t, |t.table|, bindIp, capacity);
    } else {
      var u := WithRules(t, n - 1, bindIp, capacity);
      RulesRebuilding(t, n - 1, bindIp, capacity);
      SamePortsApart(t, u);
      RuleRebuilding(u, n - 1, bindIp, capacity, ENTRIES_MAX + n - 1);
    }
  }

  lemma SamePortsApart(t: Tables, u: Tables)
    requires PortsApart(t) && u.rules == t.rules && u.table == t.table && u.webPort == t.webPort
    ensures PortsApart(u)
  {
    hide EntryListens;
  }

  lemma InstallKeepsInv(t: Tables, uplink: Option<u32>, capacity: nat)
    requires Inv(t)
    ensures Inv(Installed(t, uplink, capacity))
  {
    hide Rebuilding, PortsApart, WithRules;
    if uplink.Some? && uplink.value != 0 {
      var u := WithRules(t, |t.rules|, uplink.value, capacity);
      RulesRebuilding(t, |t.rules|, uplink.value, capacity);
      InvAfterRebuilding(t, u, ENTRIES_MAX + |t.rules|, uplink.value, capacity);
    }
  }

  lemma InvAfterRebuilding(t: Tables, u: Tables, steps: nat, bindIp: u32, capacity: nat)
    requires Inv(t) && u == WithRules(t, |t.rules|, bindIp, capacity) && Rebuilding(u, |t.rules|, steps)
    ensures Inv(u)
  {
    hide WithRules, EntryListens, Cgnat;
    SamePortsApart(t, u);
  }

  // ----- a lwIP table with room for everything

  ghost predicate AllIn(t: Tables, n: nat) {
    && |t.rules| == |t.runtime| && n <= |t.rules|
    && forall i :: 0 <= i < n ==> (t.runtime[i].installed <==> Mappable(t, i))
  }

  lemma {:induction false} RulesComplete(t: Tables, n: nat, bindIp: u32, capacity: nat)
    requires Inv(t) && n <= |t.rules| && capacity >= ENTRIES_MAX + RULES_MAX
    ensures AllIn(WithRules(t, n, bindIp, capacity), n)
  {
    hide Rebuilding, WithEntries, PortsApart, InstalledIsLive, ResolvedInTailnet, WithRule, Owned, AllIn;
    if n == 0 {
      NoneIn(WithRules(t, 0, bindIp, capacity));
    } else {
      var u := WithRules(t, n - 1, bindIp, capacity);
      RulesComplete(t, n - 1, bindIp, capacity);
      RulesRebuilding(t, n - 1, bindIp, capacity);
      RuleComplete(u, n - 1, bindIp, capacity, ENTRIES_MAX + n - 1);
    }
  }

  lemma NoneIn(t: Tables)
    requires |t.rules| == |t.runtime|
    ensures AllIn(t, 0)
  {
  }

  lemma RuleComplete(t: Tables, i: nat, bindIp: u32, capacity: nat, steps: nat)
    requires i < |t.rules| && Rebuilding(t, i, steps) && AllIn(t, i) && steps < capacity
    ensures AllIn(WithRule(t, i, bindIp, capacity), i + 1)
  {
    hide Cgnat, InstalledIsLive, ResolvedInTailnet;
  }

  /**
    With an uplink address and a lwIP table as large as both rule tables, the
    callback installs every enabled rule whose destination is resolved, and no other.
  */
  lemma InstallIsComplete(t: Tables, uplink: u32, capacity: nat, i: nat)
    requires Inv(t) && uplink != 0 && capacity >= ENTRIES_MAX + RULES_MAX && i < |t.rules|
    ensures var u := Installed(t, Some(uplink), capacity);
      && u.runtime[i].resolved == t.runtime[i].resolved
      && (u.runtime[i].installed <==> t.rules[i].valid && t.rules[i].enabled && t.runtime[i].resolved != 0)
  {
    hide WithRules, Inv;
    RulesComplete(t, |t.rules|, uplink, capacity);
    WithRulesKeepsResolved(t, |t.rules|, uplink, capacity, i);
  }

  lemma {:induction false} WithRulesKeepsResolved(t: Tables, n: nat, bindIp: u32, capacity: nat, i: nat)
    requires i < |t.rules| == |t.runtime| && n <= |t.rules|
    ensures WithRules(t, n, bindIp, capacity).runtime[i].resolved == t.runtime[i].resolved
  {
    hide WithEntries;
    if n == 0 {
      WithEntriesKeepsResolved(t, |t.table|, bindIp, capacity, i);
    } else {
      WithRulesKeepsResolved(t, n - 1, bindIp, capacity, i);
    }
  }

  lemma {:induction false} WithEntriesKeepsResolved(t: Tables, n: nat, bindIp: u32, capacity: nat, i: nat)
    requires i < |t.runtime| && n <= |t.table|
    ensures WithEntries(t, n, bindIp, capacity).runtime[i].resolved == t.runtime[i].resolved
  {
    if n > 0 {
      WithEntriesKeepsResolved(t, n - 1, bindIp, capacity, i);
    }
  }

  /** The AP-side maps of the first n slots are in lwIP's table, and nothing unclaimed is. */
  ghost predicate MapsEntries(t: Tables, n: nat, bindIp: u32) {
    && n <= |t.table|
    && (forall i :: 0 <= i < n && t.table[i].valid ==>
          && EntryKey(t.table[i]) in t.lwip
          && t.lwip[EntryKey(t.table[i])] == Target(bindIp, t.table[i].intIp, t.table[i].intPort))
    && (forall k :: k in t.lwip ==> EntryListens(t.table, k) || RuleListens(t.rules, k))
  }

  lemma EntryMaps(t: Tables, n: nat, bindIp: u32, capacity: nat)
    requires PortsApart(t) && n < |t.table| && MapsEntries(t, n, bindIp) && Rebuilding(t, 0, n) && n < capacity
    ensures MapsEntries(WithEntry(t, t.table[n], bindIp, capacity), n + 1, bindIp)
  {
    hide RuleListens, InstalledIsLive, ResolvedInTailnet;
  }

  lemma RuleMaps(t: Tables, i: nat, bindIp: u32, capacity: nat)
    requires PortsApart(t) && i < |t.rules| == |t.runtime| && MapsEntries(t, |t.table|, bindIp)
    ensures MapsEntries(WithRule(t, i, bindIp, capacity), |t.table|, bindIp)
  {
    hide EntryListens;
    ValidListens(t.table);
    assert t.rules[i].enabled ==> RuleListens(t.rules, KeyOf(t.rules[i]));
  }

  lemma ValidListens(table: seq<Entry>)
    ensures forall j :: 0 <= j < |table| && table[j].valid ==> EntryListens(table, EntryKey(table[j]))
  {
  }

  lemma {:induction false} EntriesMap(t: Tables, n: nat, bindIp: u32, capacity: nat)
    requires Inv(t) && n <= |t.table| && capacity >= ENTRIES_MAX
    ensures MapsEntries(WithEntries(t, n, bindIp, capacity), n, bindIp)
  {
    hide Rebuilding, WithEntry, MapsEntries, PortsApart, InstalledIsLive, ResolvedInTailnet, Owned;
    if n == 0 {
      NothingMapped(t, bindIp);
    } else {
      var u := WithEntries(t, n - 1, bindIp, capacity);
      EntriesMap(t, n - 1, bindIp, capacity);
      EntriesRebuilding(t, n - 1, bindIp, capacity);
      SamePortsApart(t, u);
      EntryMaps(u, n - 1, bindIp, capacity);
    }
  }

  lemma NothingMapped(t: Tables, bindIp: u32)
    requires Inv(t)
    ensures MapsEntries(Cleared(t), 0, bindIp)
  {
    ClearedRebuilding(t);
  }

  lemma {:induction false} RulesKeepMaps(t: Tables, n: nat, bindIp: u32, capacity: nat)
    requires Inv(t) && n <= |t.rules| && capacity >= ENTRIES_MAX
    ensures MapsEntries(WithRules(t, n, bindIp, capacity), |t.table|, bindIp)
  {
    hide WithRule, WithEntries, MapsEntries, PortsApart, InstalledIsLive, ResolvedInTailnet, Owned;
    if n == 0 {
      EntriesMap(t, |t.table|, bindIp, capacity);
    } else {
      var u := WithRules(t, n - 1, bindIp, capacity);
      RulesKeepMaps(t, n - 1, bindIp, capacity);
      SamePortsApart(t, u);
      RuleMaps(u, n - 1, bindIp, capacity);
    }
  }

  /** The callback maps every AP-side entry, and leaves nothing of deleted rules or entries behind. */
  lemma InstallMapsEntries(t: Tables, uplink: u32, capacity: nat)
    requires Inv(t) && uplink != 0 && capacity >= ENTRIES_MAX
    ensures var u := Installed(t, Some(uplink), capacity);
      && (forall i :: 0 <= i < |t.table| && t.table[i].valid ==>
            && EntryKey(t.table[i]) in u.lwip
            && u.lwip[EntryKey(t.table[i])] == Target(uplink, t.table[i].intIp, t.table[i].intPort))
      && (forall k :: k in u.lwip ==> EntryListens(t.table, k) || RuleListens(t.rules, k))
  {
    hide WithRules, PortsApart, InstalledIsLive, ResolvedInTailnet, Owned;
    RulesKeepMaps(t, |t.rules|, uplink, capacity);
  }

  /** A mapping left in lwIP that neither table claims any more. */
  ghost predicate Orphan(t: Tables, k: Key) {
    k in t.lwip && !RuleListens(t.rules, k) && !EntryListens(t.table, k)
  }

  ghost predicate NoOrphans(t: Tables) {
    forall k :: k in t.lwip ==> RuleListens(t.rules, k) || EntryListens(t.table, k)
  }

  lemma {:induction false} EntriesLeaveNoOrphans(t: Tables, n: nat, bindIp: u32, capacity: nat)
    requires Inv(t) && n <= |t.table|
    ensures NoOrphans(WithEntries(t, n, bindIp, capacity))
  {
    hide RuleListens, EntryListens;
    if n == 0 {
      ClearedRebuilding(t);
    } else {
      EntriesLeaveNoOrphans(t, n - 1, bindIp, capacity);
      ValidListens(t.table);
    }
  }

  lemma {:induction false} RulesLeaveNoOrphans(t: Tables, n: nat, bindIp: u32, capacity: nat)
    requires Inv(t) && n <= |t.rules|
    ensures NoOrphans(WithRules(t, n, bindIp, capacity))
  {
    hide WithEntries, EntryListens, PortsApart;
    if n == 0 {
      EntriesLeaveNoOrphans(t, |t.table|, bindIp, capacity);
    } else {
      RulesLeaveNoOrphans(t, n - 1, bindIp, capacity);
    }
  }

  /** Directly after an install with an uplink there is no such mapping, however small lwIP's table. */
  lemma InstallLeavesNoOrphans(t: Tables, uplink: u32, capacity: nat, k: Key)
    requires Inv(t) && uplink != 0
    ensures !Orphan(Installed(t, Some(uplink), capacity), k)
  {
    hide WithRules, RuleListens, EntryListens, Inv;
    InvSizes(t);
    RulesLeaveNoOrphans(t, |t.rules|, uplink, capacity);
  }

  // ----- every run

  datatype Event =
    | SaveRules(rules: seq<Rule>, tailnet: Tailnet)
    | Enable(index: nat, on: bool, tailnet: Tailnet)
    | Resolve(tailnet: Tailnet)
    | SaveEntries(entries: seq<Entry>)
    | Install(uplink: Option<u32>)
    | ChangeWebPort(port: u16)
    | Count(counted: seq<Runtime>)

  /** The packet filter changes nothing but counters. */
  ghost predicate OnlyCounts(a: seq<Runtime>, b: seq<Runtime>) {
    |a| == |b| && forall i :: 0 <= i < |a| ==> a[i].installed == b[i].installed && a[i].resolved == b[i].resolved
  }

  ghost function AfterEnable(t: Tables, index: nat, on: bool, net: Tailnet): Tables {
    if index >= |t.rules| then t else AfterSetAll(t, t.rules[index := t.rules[index].(enabled := on)], net)
  }

  ghost function Step(t: Tables, e: Event, capacity: nat): Tables
    requires |t.rules| == |t.runtime|
  {
    match e
    case SaveRules(rules, net) => AfterSetAll(t, rules, net)
    case Enable(index, on, net) => AfterEnable(t, index, on, net)
    case Resolve(net) => Passed(t, net)
    case SaveEntries(entries) => AfterPortmapSetAll(t, entries)
    case Install(uplink) => Installed(t, uplink, capacity)
    case ChangeWebPort(port) => AfterWebPort(t, port)
    case Count(counted) => if OnlyCounts(t.runtime, counted) then t.(runtime := counted) else t
  }

  lemma CountKeepsInv(t: Tables, counted: seq<Runtime>)
    requires Inv(t) && OnlyCounts(t.runtime, counted)
    ensures Inv(t.(runtime := counted))
  {
    hide Cgnat, PortsApart;
    SamePortsApart(t, t.(runtime := counted));
  }

  lemma StepKeepsInv(t: Tables, e: Event, capacity: nat)
    requires Inv(t)
    ensures Inv(Step(t, e, capacity))
  {
    hide Inv, AfterSetAll, Passed, AfterPortmapSetAll, Installed, AfterWebPort, OnlyCounts;
    InvSizes(t);
    match e
    case SaveRules(rules, net) => SetAllKeepsInv(t, rules, net);
    case Enable(index, on, net) =>
      if index < |t.rules| {
        SetAllKeepsInv(t, t.rules[index := t.rules[index].(enabled := on)], net);
      }
    case Resolve(net) => PassKeepsInv(t, net);
    case SaveEntries(entries) => PortmapSetAllKeepsInv(t, entries);
    case Install(uplink) => InstallKeepsInv(t, uplink, capacity);
    case ChangeWebPort(port) => WebPortKeepsInv(t, port);
    case Count(counted) =>
      if OnlyCounts(t.runtime, counted) {
        CountKeepsInv(t, counted);
      }
  }

  lemma InvSizes(t: Tables)
    requires Inv(t)
    ensures |t.rules| == |t.runtime|
  {
  }

  ghost function Run(t: Tables, events: seq<Event>, capacity: nat): (r: Tables)
    requires Inv(t)
    ensures Inv(r)
    decreases |events|
  {
    if events == [] then t
    else
      var m := Run(t, events[..|events| - 1], capacity);
      StepKeepsInv(m, events[|events| - 1], capacity);
      Step(m, events[|events| - 1], capacity)
  }

  /** Nothing saved, nothing installed, the web UI on its default port. */
  const BOOT := Tables([], [], Padded([]), [], map[], 80, 80)

  lemma BootIsSound()
    ensures Inv(BOOT)
  {
  }

  /** In every reachable state no protocol and port is claimed twice, the configured web port included. */
  lemma PortsNeverClash(t: Tables, events: seq<Event>, capacity: nat, k: Key)
    requires Inv(t)
    ensures var r := Run(t, events, capacity);
      && !(RuleListens(r.rules, k) && EntryListens(r.table, k))
      && (k == Key(TCP, r.webPort) ==> !RuleListens(r.rules, k) && !EntryListens(r.table, k))
      && forall i, j :: 0 <= i < j < |r.rules| && r.rules[i].enabled && r.rules[j].enabled ==>
           KeyOf(r.rules[i]) != KeyOf(r.rules[j])
    ensures var r := Run(t, events, capacity);
      forall i, j :: 0 <= i < j < |r.table| && r.table[i].valid && r.table[j].valid ==>
        EntryKey(r.table[i]) != EntryKey(r.table[j])
  {
    hide Run, InstalledIsLive, ResolvedInTailnet, Owned;
    var r := Run(t, events, capacity);
    assert PortsApart(r);
  }

  // ----- the port the web UI really listens on

  ghost predicate Claimed(t: Tables, port: u16) {
    RuleListens(t.rules, Key(TCP, port)) || EntryListens(t.table, Key(TCP, port))
  }

  /** Nothing moves the port the UI listens on before the next start. */
  lemma BoundPortStays(t: Tables, e: Event, capacity: nat)
    requires Inv(t)
    ensures Step(t, e, capacity).webBound == t.webBound
  {
    hide SetAllStatus, EntriesAccepted, WebPortFree, OnlyCounts, WithRules, ResolvedAll;
  }

  /** A TCP rule on a port. */
  function RuleOn(port: u16): Rule {
    Rule(true, true, TCP, 0, port, 80, 0, "host", None)
  }

  lemma LoneRuleAccepted(t: Tables, port: u16)
    requires port != 0 && port != t.webPort && !EntryListens(t.table, Key(TCP, port))
    ensures SetAllStatus(t, [RuleOn(port)]) == Ok
  {
    hide EntryListens;
    var rules := [RuleOn(port)];
    assert rules[..0] == [];
    assert RuleStatus(t, rules, 0) == Ok;
    assert RulesStatus(t, rules, 1) == Ok;
  }

  /**
    From a sound state whose bound port nobody claims, no event can claim it,
    exactly when the configured port is the bound one.
  */
  lemma BoundPortIsSafeIff(t: Tables, capacity: nat)
    requires Inv(t) && !Claimed(t, t.webBound)
    ensures (forall e: Event :: !Claimed(Step(t, e, capacity), t.webBound)) <==> t.webPort == t.webBound
  {
    hide Inv, Step, Claimed;
    InvSizes(t);
    if t.webPort == t.webBound {
      forall e: Event
        ensures !Claimed(Step(t, e, capacity), t.webBound)
      {
        if e.ChangeWebPort? {
          OnlyPortMoves(t, e, capacity);
        } else {
          ConfiguredUnclaimed(t, e, capacity);
        }
      }
    } else {
      var e := SaveRules([RuleOn(t.webBound)], Tailnet(false, _ => 0));
      BoundPortTaken(t, e, capacity);
    }
  }

  lemma OnlyPortMoves(t: Tables, e: Event, capacity: nat)
    requires Inv(t) && e.ChangeWebPort?
    ensures Claimed(Step(t, e, capacity), t.webBound) <==> Claimed(t, t.webBound)
  {
    hide WebPortFree, RuleListens, EntryListens;
  }

  lemma ConfiguredUnclaimed(t: Tables, e: Event, capacity: nat)
    requires Inv(t) && !e.ChangeWebPort?
    ensures !Claimed(Step(t, e, capacity), t.webPort)
  {
    hide SetAllStatus, EntriesAccepted, WithRules, ResolvedAll, OnlyCounts, Padded, InstalledIsLive, ResolvedInTailnet, Owned;
    StepKeepsInv(t, e, capacity);
    assert Step(t, e, capacity).webPort == t.webPort;
  }

  lemma BoundPortTaken(t: Tables, e: Event, capacity: nat)
    requires Inv(t) && !Claimed(t, t.webBound) && t.webPort != t.webBound
    requires e.SaveRules? && e.rules == [RuleOn(t.webBound)]
    ensures Claimed(Step(t, e, capacity), t.webBound)
  {
    hide SetAllStatus, EntryListens, PortsApart, InstalledIsLive, ResolvedInTailnet, Owned, ResolvedAll;
    LoneRuleAccepted(t, t.webBound);
    var u := Step(t, e, capacity);
    assert u.rules[0] == RuleOn(t.webBound);
    assert RuleListens(u.rules, Key(TCP, t.webBound));
  }

  /** So after configuring port 8080 on a fresh device, a saved rule can take port 80 from under the running UI. */
  lemma BoundPortClash(capacity: nat)
    ensures var events := [ChangeWebPort(8080), SaveRules([RuleOn(80)], Tailnet(false, _ => 0))];
      Inv(BOOT) && RuleListens(Run(BOOT, events, capacity).rules, Key(TCP, BOOT.webBound))
  {
    hide PortsApart, InstalledIsLive, ResolvedInTailnet, Owned, ResolvedAll, SetAllStatus;
    BootIsSound();
    var save := SaveRules([RuleOn(80)], Tailnet(false, _ => 0));
    var events := [ChangeWebPort(8080), save];
    var t := Step(BOOT, events[0], capacity);
    assert events[..1] == [events[0]] && events[..1][..0] == [];
    assert Run(BOOT, events[..1][..0], capacity) == BOOT;
    assert Run(BOOT, events[..1], capacity) == t;
    StepKeepsInv(BOOT, events[0], capacity);
    assert WebPortFree(BOOT, 8080) && t == BOOT.(webPort := 8080);
    BoundPortTaken(t, save, capacity);
    assert Run(BOOT, events, capacity) == Step(t, save, capacity);
    assert !EntryListens(t.table, Key(TCP, 80));
    LoneRuleAccepted(t, 80);
    assert Run(BOOT, events, capacity).rules[0] == RuleOn(80);
  }

  /** In every reachable state a rule marked installed has its mapping in lwIP. */
  lemma InstalledIsMapped(t: Tables, events: seq<Event>, capacity: nat, i: nat)
    requires Inv(t) && i < |Run(t, events, capacity).rules|
    ensures var r := Run(t, events, capacity);
      i < |r.runtime| && (r.runtime[i].installed ==>
        && KeyOf(r.rules[i]) in r.lwip && r.rules[i].enabled && Cgnat(r.runtime[i].resolved)
        && r.lwip[KeyOf(r.rules[i])].ip == r.runtime[i].resolved
        && r.lwip[KeyOf(r.rules[i])].port == r.rules[i].destPort)
  {
    hide Run, PortsApart, Owned, Cgnat;
  }
}
