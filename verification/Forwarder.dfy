/** The forwarding tables as the firmware keeps them: fixed arrays updated in place, beside lwIP's global table. */
module Forwarder {
  import opened Words
  import opened Forwarding
  import opened ForwardingSafety
  import opened PacketFilter

  /** lwIP's port-map table. */
  class PortMaps {
    var m: map<Key, Target>
    const capacity: nat

    constructor (capacity: nat)
      ensures m == map[] && this.capacity == capacity
    {
      m := map[];
      this.capacity := capacity;
    }

    method Add(k: Key, t: Target) returns (ok: bool)
      modifies this
      ensures ok == Room(old(m), k, capacity) && m == if ok then old(m)[k := t] else old(m)
    {
      ok := k in m || |m| < capacity;
      if ok {
        m := m[k := t];
      }
    }

    method Remove(k: Key)
      modifies this
      ensures m == Removed(old(m), [k])
    {
      m := map x | x in m && x != k :: m[x];
    }
  }

  class Forwarder {
    const rules: array<Rule>
    const runtime: array<Runtime>
    var count: nat
    const table: array<Entry>
    const installed: array<Key>
    var installedCount: nat
    const lwip: PortMaps
    var webPort: u16
    const webBound: u16

    ghost predicate Valid()
      reads this, rules, runtime, table, installed
    {
      && rules.Length == RULES_MAX && runtime.Length == RULES_MAX && count <= RULES_MAX
      && table.Length == ENTRIES_MAX && installed.Length == ENTRIES_MAX + RULES_MAX
      && installedCount <= installed.Length
      && forall i :: 0 <= i < count ==> rules[i].valid
    }

    ghost function State(): (t: Tables)
      requires Valid()
      reads this, rules, runtime, table, installed, lwip
      ensures |t.rules| == |t.runtime| == count
    {
      Tables(rules[..count], runtime[..count], table[..], installed[..installedCount], lwip.m, webPort, webBound)
    }

    /** The tables before anything was ever saved. */
    constructor (capacity: nat)
      ensures Valid() && fresh(rules) && fresh(runtime) && fresh(table) && fresh(installed) && fresh(lwip)
      ensures State() == BOOT && lwip.capacity == capacity
    {
      rules := new Rule[8](_ => Rule(false, false, 0, 0, 0, 0, 0, "", None));
      runtime := new Runtime[8](_ => BLANK);
      count := 0;
      table := new Entry[16](_ => NO_ENTRY);
      installed := new Key[24](_ => Key(0, 0));
      installedCount := 0;
      lwip := new PortMaps(capacity);
      webPort, webBound := 80, 80;
    }

    // ----- who listens where

    method RulesListen(k: Key) returns (found: bool)
      requires Valid()
      ensures found == RuleListens(State().rules, k)
    {
      var i := 0;
      while i < count
        invariant 0 <= i <= count && !RuleListens(rules[..i], k)
      {
        if rules[i].valid && rules[i].enabled && rules[i].proto == k.proto && rules[i].listenPort == k.port {
          assert KeyOf(rules[..count][i]) == k;
          return true;
        }
        i := i + 1;
      }
      return false;
    }

    method EntriesListen(k: Key) returns (found: bool)
      requires Valid()
      ensures found == EntryListens(table[..], k)
    {
      var i := 0;
      while i < table.Length
        invariant 0 <= i <= table.Length && !EntryListens(table[..i], k)
      {
        if table[i].valid && table[i].proto == k.proto && table[i].extPort == k.port {
          assert EntryKey(table[..][i]) == k;
          return true;
        }
        i := i + 1;
      }
      assert table[..i] == table[..];
      return false;
    }

    // ----- saving rules

    /** The checks of one proposed rule against the ones before it and the other tables. */
    method CheckRule(rs: seq<Rule>, i: nat) returns (s: Status)
      requires Valid() && i < |rs|
      ensures s == RuleStatus(State(), rs, i)
    {
      hide EntryListens, Cgnat, HostnameValid;
      var r := rs[i];
      if !r.valid || (r.proto != TCP && r.proto != UDP) || r.listenPort == 0 || r.destPort == 0 || r.sourcePrefix > 32
         || !HostnameValid(r.destination) {
        return InvalidArg;
      }
      if r.literal.Some? && !Cgnat(r.literal.value) {
        return InvalidArg;
      }
      var j := 0;
      while j < i
        invariant 0 <= j <= i && (r.enabled ==> !RuleListens(rs[..j], KeyOf(r)))
      {
        if rs[j].enabled && r.enabled && rs[j].proto == r.proto && rs[j].listenPort == r.listenPort {
          assert KeyOf(rs[..i][j]) == KeyOf(r);
          return InvalidState;
        }
        j := j + 1;
      }
      var taken := EntriesListen(KeyOf(r));
      if r.enabled && taken {
        return InvalidState;
      }
      if r.enabled && r.proto == TCP && r.listenPort == webPort {
        return InvalidState;
      }
      return Ok;
    }

    method CheckRules(rs: seq<Rule>) returns (s: Status)
      requires Valid()
      ensures s == RulesStatus(State(), rs, 0)
    {
      hide RuleStatus;
      var i := 0;
      while i < |rs|
        invariant 0 <= i <= |rs| && RulesStatus(State(), rs, i) == RulesStatus(State(), rs, 0)
      {
        s := CheckRule(rs, i);
        if s != Ok {
          return s;
        }
        i := i + 1;
      }
      return Ok;
    }

    /** resolve_rule */
    method ResolveRule(i: nat, net: Tailnet)
      requires Valid() && i < count
      modifies runtime
      ensures Valid() && runtime[..] == old(runtime[..])[i := Resolved(rules[i], old(runtime[i]), net)]
    {
      hide Cgnat;
      var r, rt := rules[i], runtime[i];
      if !r.enabled || !net.online {
        runtime[i] := rt.(resolved := 0, installed := false);
        return;
      }
      var h := if r.literal.Some? then r.literal.value else net.names(r.destination);
      if !Cgnat(h) {
        runtime[i] := rt.(resolved := 0, installed := false);
        return;
      }
      runtime[i] := rt.(resolved := h, installed := rt.resolved == h && rt.installed);
    }

    method ResolveAll(net: Tailnet) returns (changed: bool)
      requires Valid()
      modifies runtime
      ensures Valid() && State() == Passed(old(State()), net)
      ensures changed <==> exists i :: 0 <= i < count && runtime[i].resolved != old(runtime[i].resolved)
    {
      hide Resolved;
      changed := false;
      var i := 0;
      while i < count
        invariant 0 <= i <= count && Valid()
        invariant forall j :: 0 <= j < i ==> runtime[j] == Resolved(rules[j], old(runtime[j]), net)
        invariant forall j :: i <= j < runtime.Length ==> runtime[j] == old(runtime[j])
        invariant changed <==> exists j :: 0 <= j < i && runtime[j].resolved != old(runtime[j].resolved)
      {
        var before := runtime[i].resolved;
        ghost var was := runtime[..];
        ResolveRule(i, net);
        assert forall j :: 0 <= j < runtime.Length && j != i ==> runtime[..][j] == was[j];
        assert runtime[..][i] == Resolved(rules[i], was[i], net);
        if before != runtime[i].resolved {
          changed := true;
        }
        i := i + 1;
      }
      assert runtime[..count] == Passed(old(State()), net).runtime;
    }

    /** tailnet_forward_set_all up to the point where it asks for an install. */
    method SetAll(rs: seq<Rule>, net: Tailnet) returns (s: Status)
      requires Valid()
      modifies this`count, rules, runtime
      ensures s == SetAllStatus(old(State()), rs)
      ensures Valid() && State() == AfterSetAll(old(State()), rs, net)
    {
      hide Resolved, RulesStatus, RuleStatus;
      if |rs| > RULES_MAX {
        return InvalidArg;
      }
      s := CheckRules(rs);
      if s != Ok {
        return;
      }
      RulesStatusValid(State(), rs);
      ghost var before := State();
      StoreRules(rs);
      assert State() == before.(rules := rs, runtime := Blank(|rs|));
      var _ := ResolveAll(net);
    }

    lemma RulesStatusValid(t: Tables, rs: seq<Rule>)
      requires RulesStatus(t, rs, 0) == Ok
      ensures forall i :: 0 <= i < |rs| ==> rs[i].valid
    {
      hide RuleStatus;
      AcceptedEach(t, rs, 0);
      forall i | 0 <= i < |rs|
        ensures rs[i].valid
      {
        AcceptedIsValid(t, rs, i);
      }
    }

    /** Zeroes both arrays and copies the new rules in. */
    method StoreRules(rs: seq<Rule>)
      requires Valid() && |rs| <= RULES_MAX && forall i :: 0 <= i < |rs| ==> rs[i].valid
      modifies this`count, rules, runtime
      ensures Valid() && count == |rs| && rules[..count] == rs && runtime[..count] == Blank(|rs|)
    {
      var i := 0;
      while i < RULES_MAX
        invariant 0 <= i <= RULES_MAX
        invariant forall j :: 0 <= j < i && j < |rs| ==> rules[j] == rs[j]
        invariant forall j :: 0 <= j < i ==> runtime[j] == BLANK
      {
        rules[i] := if i < |rs| then rs[i] else Rule(false, false, 0, 0, 0, 0, 0, "", None);
        runtime[i] := BLANK;
        i := i + 1;
      }
      count := |rs|;
    }

    method SetEnabled(i: nat, on: bool, net: Tailnet) returns (s: Status)
      requires Valid()
      modifies this`count, rules, runtime
      ensures Valid() && State() == AfterEnable(old(State()), i, on, net)
      ensures i >= old(count) ==> s == InvalidArg
      ensures i < old(count) ==>
                s == SetAllStatus(old(State()), old(State()).rules[i := old(State()).rules[i].(enabled := on)])
    {
      hide AfterSetAll, SetAllStatus;
      if i >= count {
        return InvalidArg;
      }
      var copy := rules[..count];
      copy := copy[i := copy[i].(enabled := on)];
      s := SetAll(copy, net);
    }

    // ----- saving AP-side entries

    method CheckEntry(arr: seq<Entry>, i: nat) returns (ok: bool)
      requires Valid() && i < |arr|
      ensures ok == EntryAccepted(State(), arr, i)
    {
      hide RuleListens, Filled;
      if !Filled(arr[i]) {
        return true;
      }
      var taken := RulesListen(EntryKey(arr[i]));
      if taken || (arr[i].proto == TCP && arr[i].extPort == webPort) {
        return false;
      }
      var j := 0;
      while j < i
        invariant 0 <= j <= i && !FilledListens(arr[..j], EntryKey(arr[i]))
      {
        if Filled(arr[j]) && arr[j].proto == arr[i].proto && arr[j].extPort == arr[i].extPort {
          assert EntryKey(arr[..i][j]) == EntryKey(arr[i]);
          return false;
        }
        j := j + 1;
      }
      return true;
    }

    /** portmap_set_all up to the point where it asks for an install. */
    method PortmapSetAll(entries: seq<Entry>) returns (s: Status)
      requires Valid()
      modifies table
      ensures s == if EntriesAccepted(old(State()), Clipped(entries)) then Ok else InvalidState
      ensures Valid() && State() == AfterPortmapSetAll(old(State()), entries)
    {
      hide EntryAccepted, Filled;
      var arr := Clipped(entries);
      var i := 0;
      while i < |arr|
        invariant 0 <= i <= |arr| && State() == old(State())
        invariant forall j :: 0 <= j < i ==> EntryAccepted(old(State()), arr, j)
      {
        var ok := CheckEntry(arr, i);
        if !ok {
          return InvalidState;
        }
        i := i + 1;
      }
      StoreEntries(arr);
      return Ok;
    }

    method StoreEntries(arr: seq<Entry>)
      requires Valid() && |arr| <= ENTRIES_MAX
      modifies table
      ensures table[..] == Padded(Compacted(arr))
    {
      hide Filled;
      forall k | 0 <= k < table.Length {
        table[k] := NO_ENTRY;
      }
      var n, i := 0, 0;
      while i < |arr|
        invariant 0 <= i <= |arr| && n == |Compacted(arr[..i])|
        invariant table[..n] == Compacted(arr[..i])
        invariant forall k :: n <= k < table.Length ==> table[k] == NO_ENTRY
      {
        assert arr[..i + 1][..i] == arr[..i];
        if Filled(arr[i]) {
          ghost var done := table[..n];
          table[n] := arr[i].(valid := true);
          assert table[..n + 1] == done + [arr[i].(valid := true)];
          n := n + 1;
        }
        i := i + 1;
      }
      assert arr[..i] == arr;
      assert table[..] == Padded(Compacted(arr));
    }

    /** The web UI's own port, refused while a forwarding table claims it. */
    method ChangeWebPort(port: u16) returns (ok: bool)
      requires Valid()
      modifies this`webPort
      ensures ok == WebPortFree(old(State()), port)
      ensures Valid() && State() == AfterWebPort(old(State()), port)
    {
      if port < 1 {
        return false;
      }
      var a := EntriesListen(Key(TCP, port));
      var b := RulesListen(Key(TCP, port));
      if a || b {
        return false;
      }
      webPort := port;
      return true;
    }

    // ----- the install callback

    method InstallCallback(uplink: Option<u32>)
      requires Valid()
      modifies this`installedCount, runtime, installed, lwip
      ensures Valid() && State() == Installed(old(State()), uplink, lwip.capacity)
    {
      hide WithEntries, WithRules;
      if uplink == None || uplink.value == 0 {
        return;
      }
      ClearInstalled();
      InstallEntries(uplink.value, old(State()));
      InstallRules(uplink.value, old(State()));
    }

    /** Takes everything installed last time out of lwIP and clears every installed flag. */
    method ClearInstalled()
      requires Valid()
      modifies this`installedCount, runtime, lwip
      ensures Valid() && State() == Cleared(old(State())) && installedCount == 0
    {
      var i := 0;
      while i < installedCount
        invariant 0 <= i <= installedCount && lwip.m == Removed(old(lwip.m), installed[..i])
        modifies lwip
      {
        lwip.Remove(installed[i]);
        assert installed[..i + 1] == installed[..i] + [installed[i]];
        i := i + 1;
      }
      installedCount := 0;
      PrepareInstall();
      assert runtime[..count] == Cleared(old(State())).runtime;
    }

    method PrepareInstall()
      requires Valid()
      modifies runtime
      ensures forall j :: 0 <= j < count ==> runtime[j] == old(runtime[j]).(installed := false)
    {
      var i := 0;
      while i < count
        invariant 0 <= i <= count
        invariant forall j :: 0 <= j < i ==> runtime[j] == old(runtime[j]).(installed := false)
        invariant forall j :: i <= j < runtime.Length ==> runtime[j] == old(runtime[j])
      {
        runtime[i] := runtime[i].(installed := false);
        i := i + 1;
      }
    }

    method InstallEntries(bindIp: u32, ghost before: Tables)
      requires Valid() && State() == Cleared(before) && installedCount == 0
      modifies this`installedCount, installed, lwip
      ensures Valid() && State() == WithEntries(before, ENTRIES_MAX, bindIp, lwip.capacity)
      ensures installedCount <= ENTRIES_MAX
    {
      hide WithEntry;
      var i := 0;
      while i < ENTRIES_MAX
        invariant 0 <= i <= ENTRIES_MAX && Valid() && installedCount <= i
        invariant State() == WithEntries(before, i, bindIp, lwip.capacity)
      {
        InstallEntry(i, bindIp);
        i := i + 1;
      }
    }

    method InstallEntry(i: nat, bindIp: u32)
      requires Valid() && i < ENTRIES_MAX && installedCount < installed.Length
      modifies this`installedCount, installed, lwip
      ensures Valid() && State() == WithEntry(old(State()), table[i], bindIp, lwip.capacity)
      ensures installedCount <= old(installedCount) + 1
    {
      if table[i].valid {
        var k := EntryKey(table[i]);
        var ok := lwip.Add(k, Target(bindIp, table[i].intIp, table[i].intPort));
        if ok {
          Remember(k);
        }
      }
    }

    method Remember(k: Key)
      requires Valid() && installedCount < installed.Length
      modifies this`installedCount, installed
      ensures Valid() && installedCount == old(installedCount) + 1
      ensures installed[..installedCount] == old(installed[..installedCount]) + [k]
    {
      installed[installedCount] := k;
      installedCount := installedCount + 1;
    }

    method InstallRules(bindIp: u32, ghost before: Tables)
      requires Valid() && installedCount <= ENTRIES_MAX && |before.rules| == |before.runtime| && |before.table| == ENTRIES_MAX
      requires State() == WithEntries(before, ENTRIES_MAX, bindIp, lwip.capacity)
      modifies this`installedCount, runtime, installed, lwip
      ensures Valid() && State() == WithRules(before, |before.rules|, bindIp, lwip.capacity)
    {
      hide WithRule, WithEntries;
      var i := 0;
      while i < count
        invariant 0 <= i <= count == |before.rules| && Valid() && installedCount <= ENTRIES_MAX + i
        invariant State() == WithRules(before, i, bindIp, lwip.capacity)
      {
        InstallRule(i, bindIp);
        i := i + 1;
      }
    }

    /** get_mapping, the lwIP add and mark_installed for one rule. */
    method InstallRule(i: nat, bindIp: u32)
      requires Valid() && i < count && installedCount < installed.Length
      modifies this`installedCount, runtime, installed, lwip
      ensures Valid() && State() == WithRule(old(State()), i, bindIp, lwip.capacity)
      ensures installedCount <= old(installedCount) + 1
    {
      var r, rt := rules[i], runtime[i];
      if !(r.valid && r.enabled && rt.resolved != 0) {
        return;
      }
      var k := KeyOf(r);
      var ok := lwip.Add(k, Target(bindIp, rt.resolved, r.destPort));
      if ok {
        Remember(k);
      }
      ghost var was := runtime[..count];
      runtime[i] := rt.(installed := ok);
      assert runtime[..count] == was[i := rt.(installed := ok)];
    }

    // ----- the packet filter

    /** tailnet_forward_allow_uplink_packet */
    method AllowUplinkPacket(frame: seq<byte>) returns (ok: bool)
      requires Valid()
      modifies runtime
      ensures var f := FieldsOf(frame, true);
        && ok == (f == None || Admits(old(State()), f.value))
        && State() == old(State()).(runtime := if f == None then old(State()).runtime else Counted(old(State()), f.value))
      ensures Valid()
    {
      hide FieldsOf, InCidr;
      var f := FieldsOf(frame, true);
      if f == None {
        return true;
      }
      var k := Key(f.value.proto, f.value.port);
      var i := 0;
      while i < count
        invariant 0 <= i <= count && FirstRule(State().rules, k, 0) == FirstRule(State().rules, k, i)
        invariant State() == old(State())
      {
        var r, rt := rules[i], runtime[i];
        if r.valid && r.enabled && r.proto == k.proto && r.listenPort == k.port {
          ok := rt.installed && InCidr(f.value.src, r);
          CountPacket(i, ok);
          return;
        }
        i := i + 1;
      }
      return true;
    }

    method CountPacket(i: nat, ok: bool)
      requires Valid() && i < count
      modifies runtime
      ensures Valid()
      ensures runtime[..count] == old(runtime[..count])[i := var rt := old(runtime[i]);
        if ok then rt.(accepted := Inc32(rt.accepted)) else rt.(blocked := Inc32(rt.blocked))]
    {
      var rt := runtime[i];
      if ok {
        runtime[i] := rt.(accepted := Inc32(rt.accepted));
      } else {
        runtime[i] := rt.(blocked := Inc32(rt.blocked));
      }
    }

    /** Away from the uplink a port claimed by an enabled rule is closed. */
    method AllowNonUplinkPacket(frame: seq<byte>, eth: bool) returns (ok: bool)
      requires Valid()
      ensures ok <==> FieldsOf(frame, eth) == None
                      || !RuleListens(State().rules, Key(FieldsOf(frame, eth).value.proto, FieldsOf(frame, eth).value.port))
    {
      hide FieldsOf;
      var f := FieldsOf(frame, eth);
      if f == None {
        return true;
      }
      var taken := RulesListen(Key(f.value.proto, f.value.port));
      return !taken;
    }
  }
}
