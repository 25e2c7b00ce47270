/**
  LAN-to-tailnet forwarding and the AP-side port maps, as steps over one state:
  two rule tables, what the resolver last saw, and lwIP's own port-map table.
*/
module Forwarding {
  import opened Words
  import opened Arithmetic

  const RULES_MAX := 8
  const ENTRIES_MAX := 16
  const TCP: byte := 6
  const UDP: byte := 17

  datatype Status = Ok | InvalidArg | InvalidState

  /** A claimed listening port. */
  datatype Key = Key(proto: byte, port: u16)

  /** Where lwIP sends what arrives on a key. */
  datatype Target = Target(bindIp: u32, ip: u32, port: u16)

  /** literal is the address the destination text spells, if it spells one. */
  datatype Rule = Rule(valid: bool, enabled: bool, proto: byte, sourcePrefix: byte, listenPort: u16, destPort: u16,
                       sourceNet: u32, destination: string, literal: Option<u32>)

  datatype Runtime = Runtime(installed: bool, resolved: u32, accepted: u32, blocked: u32)

  const BLANK := Runtime(false, 0, 0, 0)

  /** One AP-side port map. */
  datatype Entry = Entry(valid: bool, proto: byte, extPort: u16, intPort: u16, intIp: u32)

  /** webPort is the configured port of the web UI, webBound the one it listens on since it was started. */
  datatype Tables = Tables(rules: seq<Rule>, runtime: seq<Runtime>, table: seq<Entry>, installed: seq<Key>,
                           lwip: map<Key, Target>, webPort: u16, webBound: u16)

  /** The resolver's surroundings: whether the tailnet is up and what it says of names. */
  datatype Tailnet = Tailnet(online: bool, names: string -> u32)

  function KeyOf(r: Rule): Key {
    Key(r.proto, r.listenPort)
  }

  function EntryKey(e: Entry): Key {
    Key(e.proto, e.extPort)
  }

  predicate Cgnat(h: u32) {
    AlignDown(h, 0x40_0000) == 0x6440_0000
  }

  // ----- which rule tables are accepted

  predicate HostChar(c: char) {
    'a' <= c <= 'z' || 'A' <= c <= 'Z' || '0' <= c <= '9' || c == '-' || c == '.'
  }

  predicate HostnameValid(s: string) {
    0 < |s| < 96 && (forall k :: 0 <= k < |s| ==> HostChar(s[k])) && s[0] != '.' && s[|s| - 1] != '.'
  }

  predicate WellFormed(r: Rule) {
    && r.valid && (r.proto == TCP || r.proto == UDP) && r.listenPort != 0 && r.destPort != 0
    && r.sourcePrefix <= 32 && HostnameValid(r.destination)
  }

  /** An enabled rule already listens here. */
  ghost predicate RuleListens(rules: seq<Rule>, k: Key) {
    exists i :: 0 <= i < |rules| && rules[i].enabled && KeyOf(rules[i]) == k
  }

  ghost predicate EntryListens(table: seq<Entry>, k: Key) {
    exists i :: 0 <= i < |table| && table[i].valid && EntryKey(table[i]) == k
  }

  /** What set_all says of rule i of a proposed table. */
  ghost function RuleStatus(t: Tables, rules: seq<Rule>, i: nat): Status
    requires i < |rules|
  {
    var r := rules[i];
    if !WellFormed(r) then InvalidArg
    else if r.literal.Some? && !Cgnat(r.literal.value) then InvalidArg
    else if r.enabled && RuleListens(rules[..i], KeyOf(r)) then InvalidState
    else if r.enabled && EntryListens(t.table, KeyOf(r)) then InvalidState
    else if r.enabled && r.proto == TCP && r.listenPort == t.webPort then InvalidState
    else Ok
  }

  ghost function RulesStatus(t: Tables, rules: seq<Rule>, i: nat): Status
    requires i <= |rules|
    decreases |rules| - i
  {
    if i == |rules| then Ok
    else if RuleStatus(t, rules, i) != Ok then RuleStatus(t, rules, i)
    else RulesStatus(t, rules, i + 1)
  }

  // ----- the resolver

  function Unresolved(rt: Runtime): Runtime {
    rt.(resolved := 0, installed := false)
  }

  function Resolved(r: Rule, rt: Runtime, net: Tailnet): Runtime {
    if !r.enabled || !net.online then Unresolved(rt)
    else
      var h := if r.literal.Some? then r.literal.value else net.names(r.destination);
      if !Cgnat(h) then Unresolved(rt) else rt.(resolved := h, installed := rt.resolved == h && rt.installed)
  }

  function ResolvedAll(rules: seq<Rule>, runtime: seq<Runtime>, net: Tailnet): (r: seq<Runtime>)
    requires |rules| == |runtime|
    ensures |r| == |runtime|
    ensures forall i :: 0 <= i < |r| ==> r[i] == Resolved(rules[i], runtime[i], net)
  {
    seq(|runtime|, i requires 0 <= i < |runtime| => Resolved(rules[i], runtime[i], net))
  }

  function Blank(n: nat): (r: seq<Runtime>)
    ensures |r| == n && forall i :: 0 <= i < n ==> r[i] == BLANK
  {
    seq(n, _ => BLANK)
  }

  /** A resolver pass. */
  function Passed(t: Tables, net: Tailnet): Tables
    requires |t.rules| == |t.runtime|
  {
    t.(runtime := ResolvedAll(t.rules, t.runtime, net))
  }

  /** A saved rule table. */
  ghost function SetAllStatus(t: Tables, rules: seq<Rule>): Status {
    if |rules| > RULES_MAX then InvalidArg else RulesStatus(t, rules, 0)
  }

  ghost function AfterSetAll(t: Tables, rules: seq<Rule>, net: Tailnet): Tables {
    if SetAllStatus(t, rules) != Ok then t
    else t.(rules := rules, runtime := ResolvedAll(rules, Blank(|rules|), net))
  }

  // ----- the AP-side table

  predicate Filled(e: Entry) {
    e.extPort != 0 && e.intPort != 0 && e.intIp != 0 && (e.proto == TCP || e.proto == UDP)
  }

  ghost predicate FilledListens(arr: seq<Entry>, k: Key) {
    exists i :: 0 <= i < |arr| && Filled(arr[i]) && EntryKey(arr[i]) == k
  }

  ghost predicate EntryAccepted(t: Tables, arr: seq<Entry>, i: nat)
    requires i < |arr|
  {
    Filled(arr[i]) ==>
      && !RuleListens(t.rules, EntryKey(arr[i]))
      && !(arr[i].proto == TCP && arr[i].extPort == t.webPort)
      && !FilledListens(arr[..i], EntryKey(arr[i]))
  }

  ghost predicate EntriesAccepted(t: Tables, arr: seq<Entry>) {
    forall i :: 0 <= i < |arr| ==> EntryAccepted(t, arr, i)
  }

  /** The filled entries, in order, marked valid. */
  function Compacted(arr: seq<Entry>): (r: seq<Entry>)
    ensures |r| <= |arr| && forall i :: 0 <= i < |r| ==> Filled(r[i]) && r[i].valid
  {
    if arr == [] then []
    else
      var n := |arr| - 1;
      Compacted(arr[..n]) + if Filled(arr[n]) then [arr[n].(valid := true)] else []
  }

  const NO_ENTRY := Entry(false, 0, 0, 0, 0)

  function Padded(es: seq<Entry>): (r: seq<Entry>)
    requires |es| <= ENTRIES_MAX
    ensures |r| == ENTRIES_MAX
    ensures forall i :: 0 <= i < ENTRIES_MAX ==> r[i] == if i < |es| then es[i] else NO_ENTRY
  {
    es + seq(ENTRIES_MAX - |es|, _ => NO_ENTRY)
  }

  /** At most the first 16 entries of a request are looked at. */
  function Clipped(arr: seq<Entry>): (r: seq<Entry>)
    ensures |r| <= ENTRIES_MAX
  {
    if |arr| > ENTRIES_MAX then arr[..ENTRIES_MAX] else arr
  }

  ghost function AfterPortmapSetAll(t: Tables, arr: seq<Entry>): Tables {
    if EntriesAccepted(t, Clipped(arr)) then t.(table := Padded(Compacted(Clipped(arr)))) else t
  }

  // ----- the web port

  ghost predicate WebPortFree(t: Tables, port: u16) {
    port != 0 && !EntryListens(t.table, Key(TCP, port)) && !RuleListens(t.rules, Key(TCP, port))
  }

  ghost function AfterWebPort(t: Tables, port: u16): Tables {
    if WebPortFree(t, port) then t.(webPort := port) else t
  }

  // ----- the install callback

  /** lwIP's add: an existing key is overwritten, a new one needs a free place. */
  predicate Room(m: map<Key, Target>, k: Key, capacity: nat) {
    k in m || |m| < capacity
  }

  function Removed(m: map<Key, Target>, ks: seq<Key>): map<Key, Target> {
    map k | k in m && k !in ks :: m[k]
  }

  function Cleared(t: Tables): (r: Tables)
    ensures |r.runtime| == |t.runtime|
  {
    t.(lwip := Removed(t.lwip, t.installed),
       installed := [],
       runtime := seq(|t.runtime|, i requires 0 <= i < |t.runtime| => t.runtime[i].(installed := false)))
  }

  function WithEntry(t: Tables, e: Entry, bindIp: u32, capacity: nat): Tables {
    if e.valid && Room(t.lwip, EntryKey(e), capacity)
    then t.(lwip := t.lwip[EntryKey(e) := Target(bindIp, e.intIp, e.intPort)], installed := t.installed + [EntryKey(e)])
    else t
  }

  function WithEntries(t: Tables, n: nat, bindIp: u32, capacity: nat): (r: Tables)
    requires n <= |t.table|
    ensures r.table == t.table && r.rules == t.rules && |r.runtime| == |t.runtime|
    ensures r.webPort == t.webPort && r.webBound == t.webBound
  {
    if n == 0 then Cleared(t) else WithEntry(WithEntries(t, n - 1, bindIp, capacity), t.table[n - 1], bindIp, capacity)
  }

  predicate Mappable(t: Tables, i: nat)
    requires i < |t.rules| == |t.runtime|
  {
    t.rules[i].valid && t.rules[i].enabled && t.runtime[i].resolved != 0
  }

  function WithRule(t: Tables, i: nat, bindIp: u32, capacity: nat): (r: Tables)
    requires i < |t.rules| == |t.runtime|
  {
    if !Mappable(t, i) then t
    else
      var k := KeyOf(t.rules[i]);
      if Room(t.lwip, k, capacity)
      then t.(lwip := t.lwip[k := Target(bindIp, t.runtime[i].resolved, t.rules[i].destPort)],
              installed := t.installed + [k],
              runtime := t.runtime[i := t.runtime[i].(installed := true)])
      else t.(runtime := t.runtime[i := t.runtime[i].(installed := false)])
  }

  function WithRules(t: Tables, n: nat, bindIp: u32, capacity: nat): (r: Tables)
    requires n <= |t.rules| == |t.runtime|
    ensures r.table == t.table && r.rules == t.rules && |r.runtime| == |t.runtime|
    ensures r.webPort == t.webPort && r.webBound == t.webBound
  {
    if n == 0 then WithEntries(t, |t.table|, bindIp, capacity)
    else WithRule(WithRules(t, n - 1, bindIp, capacity), n - 1, bindIp, capacity)
  }

  /** portmap_install_cb; without an uplink address nothing happens. */
  function Installed(t: Tables, uplink: Option<u32>, capacity: nat): Tables
    requires |t.rules| == |t.runtime|
  {
    if uplink == None || uplink.value == 0 then t else WithRules(t, |t.rules|, uplink.value, capacity)
  }

  // ----- the invariant

  ghost predicate Shaped(t: Tables) {
    && |t.rules| == |t.runtime| <= RULES_MAX && |t.table| == ENTRIES_MAX
    && t.webBound != 0 && forall i :: 0 <= i < |t.rules| ==> t.rules[i].valid
  }

  /** No protocol and port is claimed twice among enabled rules, AP-side maps and the configured web port. */
  ghost predicate PortsApart(t: Tables) {
    && (forall i, j :: 0 <= i < j < |t.rules| ==>
         t.rules[i].enabled && t.rules[j].enabled ==> KeyOf(t.rules[i]) != KeyOf(t.rules[j]))
    && (forall i, j :: 0 <= i < j < |t.table| ==>
         t.table[i].valid && t.table[j].valid ==> EntryKey(t.table[i]) != EntryKey(t.table[j]))
    && (forall i :: 0 <= i < |t.rules| && t.rules[i].enabled ==>
         !EntryListens(t.table, KeyOf(t.rules[i])) && KeyOf(t.rules[i]) != Key(TCP, t.webPort))
    && (forall i :: 0 <= i < |t.table| && t.table[i].valid ==> EntryKey(t.table[i]) != Key(TCP, t.webPort))
  }

  /** What a rule marked installed stands for. */
  ghost predicate Live(t: Tables, i: nat)
    requires i < |t.rules| == |t.runtime|
  {
    var k := KeyOf(t.rules[i]);
    && t.rules[i].enabled && Cgnat(t.runtime[i].resolved)
    && k in t.lwip && t.lwip[k].ip == t.runtime[i].resolved && t.lwip[k].port == t.rules[i].destPort
  }

  ghost predicate InstalledIsLive(t: Tables)
    requires |t.rules| == |t.runtime|
  {
    forall i :: 0 <= i < |t.rules| && t.runtime[i].installed ==> Live(t, i)
  }

  ghost predicate ResolvedInTailnet(t: Tables) {
    forall i :: 0 <= i < |t.runtime| && t.runtime[i].resolved != 0 ==> Cgnat(t.runtime[i].resolved)
  }

  /** The firmware remembers exactly the mappings lwIP holds. */
  ghost predicate Owned(t: Tables) {
    (forall k :: k in t.lwip <==> k in t.installed) && |t.lwip| <= |t.installed|
  }

  ghost predicate Inv(t: Tables) {
    Shaped(t) && PortsApart(t) && InstalledIsLive(t) && ResolvedInTailnet(t) && Owned(t)
  }
}
