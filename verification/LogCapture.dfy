/**
  The log rings: a wrapped byte ring read by absolute sequence number, a second
  ring that survives a reboot, and the filter that strips colour escapes.
*/
module LogCapture {
  import opened Words

  const PRECRASH_RING_BYTES := 4096
  const PRECRASH_MAGIC := 0xC0DE_AFFE
  const ESC: byte := 27

  /** The newest n bytes. */
  function Newest(s: seq<byte>, n: nat): (r: seq<byte>)
    ensures |r| == if |s| < n then |s| else n
  {
    if |s| <= n then s else s[|s| - n..]
  }

  // ----- a ring in an array

  /** Where the byte written d bytes before the head sits. */
  function Back(head: nat, cap: nat, d: nat): int {
    if head >= d then head - d else head + cap - d
  }

  /** data holds the newest count bytes of s, the next one going to head. */
  ghost predicate Holds(data: array<byte>, head: nat, count: nat, s: seq<byte>)
    reads data
  {
    && 0 < data.Length && head < data.Length && count <= data.Length && count <= |s|
    && forall d :: 1 <= d <= count ==> data[Back(head, data.Length, d)] == s[|s| - d]
  }

  lemma HoldsBounds(data: array<byte>, head: nat, count: nat, s: seq<byte>)
    requires Holds(data, head, count, s)
    ensures head < data.Length && count <= data.Length && count <= |s|
  {
  }

  lemma Wrap(x: nat, m: nat)
    requires 0 < m && x < 2 * m
    ensures x % m == if x < m then x else x - m
  {
    if x >= m {
      assert x == m + (x - m);
      assert (x - m) % m == x - m;
    }
  }

  lemma StartIsBack(head: nat, cap: nat, d: nat)
    requires head < cap && 0 < d <= cap
    ensures (head + cap - d) % cap == Back(head, cap, d)
  {
    Wrap(head + cap - d, cap);
  }

  /** Skipping the oldest bytes of a ring read. */
  lemma SkipIsBack(head: nat, cap: nat, count: nat, want: nat)
    requires head < cap && 0 < want < count <= cap
    ensures (Back(head, cap, count) + (count - want)) % cap == Back(head, cap, want)
  {
    Wrap(Back(head, cap, count) + (count - want), cap);
  }

  /** Where a read of the newest want bytes begins. */
  lemma ReadStart(head: nat, cap: nat, count: nat, want: nat, start: nat)
    requires head < cap && 0 < count <= cap && want <= count && start == (head + cap - count) % cap
    ensures want == count ==> start == Back(head, cap, want)
    ensures 0 < want < count ==> (start + (count - want)) % cap == Back(head, cap, want)
  {
    StartIsBack(head, cap, count);
    if 0 < want < count {
      SkipIsBack(head, cap, count, want);
    }
  }

  lemma NewestOfNewest(s: seq<byte>, count: nat, want: nat)
    requires want <= count <= |s|
    ensures s[|s| - want..] == Newest(s[|s| - count..], want)
  {
  }

  /** The byte loop both rings use. */
  method WriteBytes(data: array<byte>, head: nat, count: nat, src: seq<byte>, ghost s: seq<byte>)
      returns (newHead: nat, newCount: nat)
    requires Holds(data, head, count, s)
    modifies data
    ensures Holds(data, newHead, newCount, s + src)
    ensures newCount == if count + |src| < data.Length then count + |src| else data.Length
  {
    newHead, newCount := head, count;
    var i := 0;
    assert s + src[..0] == s;
    while i < |src|
      invariant 0 <= i <= |src| && Holds(data, newHead, newCount, s + src[..i])
      invariant newCount == if count + i < data.Length then count + i else data.Length
    {
      newHead, newCount := WriteByte(data, newHead, newCount, src[i], s + src[..i]);
      assert s + src[..i] + [src[i]] == s + src[..i + 1];
      i := i + 1;
    }
    assert src[..i] == src;
  }

  method WriteByte(data: array<byte>, head: nat, count: nat, b: byte, ghost s: seq<byte>)
      returns (newHead: nat, newCount: nat)
    requires Holds(data, head, count, s)
    modifies data
    ensures Holds(data, newHead, newCount, s + [b])
    ensures newCount == if count < data.Length then count + 1 else count
  {
    ghost var n, was := data.Length, data[..];
    Wrap(head + 1, n);
    data[head] := b;
    newHead := (head + 1) % data.Length;
    newCount := if count < data.Length then count + 1 else count;
    forall d | 1 <= d <= newCount
      ensures data[Back(newHead, n, d)] == (s + [b])[|s| + 1 - d]
    {
      if d > 1 {
        assert Back(newHead, n, d) == Back(head, n, d - 1) && was[Back(head, n, d - 1)] == s[|s| - (d - 1)];
      }
    }
  }

  /** The chunked copy out of a ring: the newest want bytes, starting at start. */
  method CopyOut(data: array<byte>, head: nat, ghost count: nat, start: nat, want: nat, ghost s: seq<byte>)
      returns (out: seq<byte>)
    requires Holds(data, head, count, s) && want <= count
    requires want > 0 ==> start == Back(head, data.Length, want)
    ensures out == s[|s| - want..]
  {
    hide Holds;
    HoldsBounds(data, head, count, s);
    out := [];
    var pos := start;
    while |out| < want
      invariant |out| <= want && out == s[|s| - want..|s| - want + |out|]
      invariant |out| < want ==> pos == Back(head, data.Length, want - |out|)
      decreases want - |out|
    {
      var left := want - |out|;
      var chunk := if pos + left <= data.Length then left else data.Length - pos;
      ChunkIsStretch(data, head, count, s, left, chunk);
      Stretches(s, |s| - want, |out|, chunk);
      out := out + data[pos..pos + chunk];
      Wrap(pos + chunk, data.Length);
      pos := (pos + chunk) % data.Length;
    }
  }

  lemma Stretches(s: seq<byte>, i: nat, n: nat, chunk: nat)
    requires i + n + chunk <= |s|
    ensures s[i..i + n] + s[i + n..i + n + chunk] == s[i..i + n + chunk]
  {
  }

  /** A chunk up to the end of the array, or up to the head, is a stretch of the stream. */
  lemma ChunkIsStretch(data: array<byte>, head: nat, count: nat, s: seq<byte>, left: nat, chunk: nat)
    requires Holds(data, head, count, s) && 0 < left <= count
    requires var pos := Back(head, data.Length, left);
      chunk == if pos + left <= data.Length then left else data.Length - pos
    ensures var pos := Back(head, data.Length, left);
      && 0 <= pos < data.Length && 0 < chunk <= left && pos + chunk <= data.Length
      && data[pos..pos + chunk] == s[|s| - left..|s| - left + chunk]
      && (chunk < left ==> pos + chunk == data.Length && Back(head, data.Length, left - chunk) == 0)
  {
    var pos := Back(head, data.Length, left);
    var a, b := data[pos..pos + chunk], s[|s| - left..|s| - left + chunk];
    forall j | 0 <= j < chunk
      ensures a[j] == b[j]
    {
      assert Back(head, data.Length, left - j) == pos + j;
    }
  }

  // ----- the live log on values

  /** Everything ever accepted, the front of an append longer than the ring left out, and how many of its last bytes the ring still has. */
  datatype Log = Log(stream: seq<byte>, live: nat, cap: nat)

  ghost predicate Sound(l: Log) {
    l.live <= l.cap && l.live <= |l.stream|
  }

  function Appended(l: Log, src: seq<byte>): Log {
    var kept := Newest(src, l.cap);
    Log(l.stream + kept, if l.live + |kept| < l.cap then l.live + |kept| else l.cap, l.cap)
  }

  function Oldest(l: Log): int {
    |l.stream| - l.live
  }

  /** log_capture_read_since into a buffer with room bytes besides the terminator. */
  function ReadFrom(l: Log, since: nat, room: nat): (seq<byte>, nat)
    requires Sound(l)
  {
    var cur := |l.stream|;
    if since >= cur then ([], cur)
    else (Newest(l.stream[if since < Oldest(l) then Oldest(l) else since..], room), cur)
  }

  /** One /log poll: the chunk, the new cursor and whether the client must start over. */
  datatype Reply = Reply(chunk: seq<byte>, cursor: nat, lost: bool)

  function Poll(l: Log, since: nat): Reply
    requires Sound(l)
  {
    var (chunk, cur) := ReadFrom(l, since, l.cap);
    Reply(chunk, cur, since != 0 && since < (if cur > l.live then cur - l.live else 0))
  }

  /** Of a line longer than the ring only as many last bytes as the ring holds ever enter the stream. */
  lemma LongLineIsCut(l: Log, src: seq<byte>)
    requires Sound(l) && |src| >= l.cap
    ensures Appended(l, src) == Log(l.stream + src[|src| - l.cap..], l.cap, l.cap)
  {
  }

  /** A poll delivers exactly the bytes after the cursor when none of them is gone. */
  lemma PollDelivers(l: Log, since: nat)
    requires Sound(l) && since <= |l.stream|
    ensures Poll(l, since).cursor == |l.stream|
    ensures since >= Oldest(l) ==> Poll(l, since).chunk == l.stream[since..]
    ensures since < Oldest(l) ==> Poll(l, since).chunk == l.stream[Oldest(l)..]
  {
  }

  /** A read into a buffer with room for fewer bytes delivers the newest that fit. */
  lemma ReadIsNewest(l: Log, since: nat, room: nat)
    requires Sound(l) && since <= |l.stream|
    ensures var kept := |l.stream| - if since < |l.stream| - l.live then |l.stream| - l.live else since;
      var n := if kept < room then kept else room;
      ReadFrom(l, since, room) == (l.stream[|l.stream| - n..], |l.stream|)
  {
    var k := if since < |l.stream| - l.live then |l.stream| - l.live else since;
    NewestOfTail(l.stream, k, room);
  }

  lemma NewestOfTail(s: seq<byte>, k: nat, room: nat)
    requires k <= |s|
    ensures Newest(s[k..], room) == s[|s| - if |s| - k < room then |s| - k else room..]
    ensures k == |s| ==> Newest(s[k..], room) == []
  {
  }

  /** From cursor 0 nothing is ever reported lost, so the whole stream arrives exactly when the ring still has it. */
  lemma ZeroCursorIsSilent(l: Log)
    requires Sound(l)
    ensures !Poll(l, 0).lost
    ensures Poll(l, 0).chunk == l.stream <==> l.live == |l.stream|
  {
  }

  datatype Event = Append(src: seq<byte>) | Clear | Ask

  /** A log with one poller that hands back the cursor it was given. */
  datatype Session = Session(log: Log, cursor: nat, heard: seq<byte>, lost: bool)

  function Step(s: Session, e: Event): Session
    requires Sound(s.log)
  {
    match e
    case Append(src) => s.(log := Appended(s.log, src))
    case Clear => s.(log := s.log.(live := 0))
    case Ask =>
      var r := Poll(s.log, s.cursor);
      s.(cursor := r.cursor, heard := s.heard + r.chunk, lost := s.lost || r.lost)
  }

  lemma StepKeepsSound(s: Session, e: Event)
    requires Sound(s.log)
    ensures Sound(Step(s, e).log) && s.log.stream <= Step(s, e).log.stream && Step(s, e).log.cap == s.log.cap
  {
  }

  function Run(s: Session, events: seq<Event>): (r: Session)
    requires Sound(s.log)
    ensures Sound(r.log)
  {
    if events == [] then s
    else
      var m := Run(s, events[..|events| - 1]);
      StepKeepsSound(m, events[|events| - 1]);
      Step(m, events[|events| - 1])
  }

  /** The appended lines, one after the other. */
  function Lines(events: seq<Event>): seq<byte> {
    if events == [] then []
    else
      var n := |events| - 1;
      Lines(events[..n]) + if events[n].Append? then events[n].src else []
  }

  /** When no line is longer than the ring, nothing is left out: the stream is exactly the lines. */
  lemma {:induction false} StreamIsLines(s: Session, events: seq<Event>)
    requires Sound(s.log) && forall k :: 0 <= k < |events| && events[k].Append? ==> |events[k].src| <= s.log.cap
    ensures Run(s, events).log.stream == s.log.stream + Lines(events) && Run(s, events).log.cap == s.log.cap
  {
    hide Poll;
    if events != [] {
      var n := |events| - 1;
      StreamIsLines(s, events[..n]);
      var m := Run(s, events[..n]);
      StepKeepsSound(m, events[n]);
      if events[n].Append? {
        assert Newest(events[n].src, m.log.cap) == events[n].src;
        assert s.log.stream + Lines(events[..n]) + events[n].src == s.log.stream + Lines(events);
      } else {
        assert Lines(events) == Lines(events[..n]);
      }
    }
  }

  // ----- what the flag means over a run from an empty log

  ghost predicate Empty(s: Session) {
    s.log.stream == [] && s.log.live == 0
  }

  /** The byte at absolute offset t was in the log when some Clear came. */
  ghost predicate ClearedLater(s: Session, events: seq<Event>, t: nat)
    requires Sound(s.log)
  {
    exists i :: 0 <= i < |events| && events[i].Clear? && t < |Run(s, events[..i]).log.stream|
  }

  /** As many bytes as the ring holds were appended after the byte at offset t. */
  ghost predicate Overwritten(l: Log, t: nat) {
    t + l.cap < |l.stream|
  }

  /** The byte at offset t came and is gone again. */
  ghost predicate Gone(s: Session, events: seq<Event>, t: nat)
    requires Sound(s.log)
  {
    var l := Run(s, events).log;
    t < |l.stream| && (ClearedLater(s, events, t) || Overwritten(l, t))
  }

  /** How much had been appended when the log was last cleared. */
  ghost function LastClear(s: Session, events: seq<Event>): nat
    requires Sound(s.log)
  {
    if events == [] then 0
    else
      var n := |events| - 1;
      if events[n].Clear? then |Run(s, events[..n]).log.stream| else LastClear(s, events[..n])
  }

  lemma {:induction false} LastClearBounds(s: Session, events: seq<Event>)
    requires Sound(s.log)
    ensures LastClear(s, events) <= |Run(s, events).log.stream|
  {
    if events != [] {
      var n := |events| - 1;
      LastClearBounds(s, events[..n]);
      StepKeepsSound(Run(s, events[..n]), events[n]);
    }
  }

  lemma {:induction false} ClearedBeforeLast(s: Session, events: seq<Event>, t: nat)
    requires Sound(s.log)
    ensures ClearedLater(s, events, t) <==> t < LastClear(s, events)
  {
    hide Run;
    if events != [] {
      var n := |events| - 1;
      var front := events[..n];
      ClearedBeforeLast(s, front, t);
      LastClearBounds(s, front);
      ClearedLaterSnoc(s, events, t);
    }
  }

  lemma ClearedLaterSnoc(s: Session, events: seq<Event>, t: nat)
    requires Sound(s.log) && events != []
    ensures var front := events[..|events| - 1];
      ClearedLater(s, events, t)
      <==> ClearedLater(s, front, t) || (events[|events| - 1].Clear? && t < |Run(s, front).log.stream|)
  {
    hide Run;
    var n := |events| - 1;
    var front := events[..n];
    if ClearedLater(s, events, t) {
      var i :| 0 <= i < |events| && events[i].Clear? && t < |Run(s, events[..i]).log.stream|;
      assert i < n ==> front[..i] == events[..i] && front[i] == events[i];
    }
    if ClearedLater(s, front, t) {
      var i :| 0 <= i < n && front[i].Clear? && t < |Run(s, front[..i]).log.stream|;
      assert front[..i] == events[..i] && front[i] == events[i];
    }
  }

  /** The oldest byte kept is the first one after the last clear, or the first that newer bytes have not reached. */
  lemma {:induction false} OldestIs(s: Session, events: seq<Event>)
    requires Sound(s.log) && Empty(s)
    ensures var l := Run(s, events).log;
      Oldest(l) == if |l.stream| - l.cap > LastClear(s, events) then |l.stream| - l.cap else LastClear(s, events)
  {
    if events != [] {
      var n := |events| - 1;
      OldestIs(s, events[..n]);
      LastClearBounds(s, events[..n]);
      StepKeepsSound(Run(s, events[..n]), events[n]);
    }
  }

  /**
    Over every run, a poller is told "lost" exactly when its cursor is nonzero and
    some byte after it was followed by a clear or by a whole ring of newer bytes.
  */
  lemma LostIffBytesGone(s: Session, events: seq<Event>, since: nat)
    requires Sound(s.log) && Empty(s)
    ensures Poll(Run(s, events).log, since).lost <==> since != 0 && exists t: nat :: since <= t && Gone(s, events, t)
  {
    hide Run, LastClear, ClearedLater;
    var l := Run(s, events).log;
    OldestIs(s, events);
    LastClearBounds(s, events);
    forall t: nat
      ensures Gone(s, events, t) <==> t < |l.stream| && t < Oldest(l)
    {
      ClearedBeforeLast(s, events, t);
    }
    if since != 0 && since < Oldest(l) {
      assert Gone(s, events, since);
    }
  }

  /** heard is the part of the stream from offset k up to the cursor. */
  ghost predicate HeardFrom(s: Session, k: nat) {
    k <= s.cursor <= |s.log.stream| && s.heard == s.log.stream[k..s.cursor]
  }

  lemma StepKeepsHeard(s: Session, e: Event, k: nat)
    requires Sound(s.log) && HeardFrom(s, k) && s.cursor > 0 && !Step(s, e).lost
    ensures HeardFrom(Step(s, e), k) && Step(s, e).cursor > 0
  {
    StepKeepsSound(s, e);
    var r := Step(s, e);
    assert r.log.stream[..|s.log.stream|] == s.log.stream;
    if e.Ask? {
      PollDelivers(s.log, s.cursor);
      assert s.log.stream[k..s.cursor] + s.log.stream[s.cursor..] == s.log.stream[k..];
    } else {
      assert s.log.stream[k..s.cursor] == r.log.stream[k..s.cursor];
    }
  }

  /**
    A poller that starts at a nonzero cursor inside the stream and is never told
    "lost" has heard exactly the stream from there to its cursor.
  */
  lemma {:induction false} PollerHearsAll(s: Session, events: seq<Event>)
    requires Sound(s.log) && 0 < s.cursor <= |s.log.stream| && s.heard == []
    requires !Run(s, events).lost
    ensures HeardFrom(Run(s, events), s.cursor) && Run(s, events).cursor > 0
  {
    if events != [] {
      var n := |events| - 1;
      PollerHearsAll(s, events[..n]);
      StepKeepsHeard(Run(s, events[..n]), events[n], s.cursor);
    }
  }

  /** A poller that starts at 0 has heard an unbroken stretch of the stream up to its cursor. */
  lemma {:induction false} FreshPollerHearsSuffix(s: Session, events: seq<Event>)
    requires Sound(s.log) && s.cursor == 0 && s.heard == [] && !Run(s, events).lost
    ensures var r := Run(s, events); if r.cursor == 0 then r.heard == [] else exists k: nat :: HeardFrom(r, k)
  {
    if events != [] {
      var n := |events| - 1;
      FreshPollerHearsSuffix(s, events[..n]);
      var m := Run(s, events[..n]);
      if m.cursor > 0 {
        var k: nat :| HeardFrom(m, k);
        StepKeepsHeard(m, events[n], k);
      } else if events[n].Ask? {
        PollDelivers(m.log, 0);
        assert HeardFrom(Run(s, events), Oldest(m.log));
      }
    }
  }

  // ----- the live ring in place

  class LiveLog {
    var buf: array<byte>
    var head: nat
    var count: nat
    var seqNo: nat

    /** Everything ever accepted. */
    ghost var stream: seq<byte>

    ghost predicate Valid()
      reads this, buf
    {
      Holds(buf, head, count, stream) && seqNo == |stream|
    }

    ghost function State(): (l: Log)
      requires Valid()
      reads this, buf
      ensures Sound(l)
    {
      Log(stream, count, buf.Length)
    }

    constructor (cap: nat)
      requires cap > 0
      ensures Valid() && fresh(buf) && State() == Log([], 0, cap)
    {
      buf := new byte[cap];
      head, count, seqNo := 0, 0, 0;
      stream := [];
    }

    /** The live half of buffer_append. */
    method BufferAppend(src: seq<byte>)
      requires Valid()
      modifies this, buf
      ensures Valid() && buf == old(buf) && State() == Appended(old(State()), src)
    {
      var src1 := src;
      if |src1| > buf.Length {
        src1 := src1[|src1| - buf.Length..];
      }
      head, count := WriteBytes(buf, head, count, src1, stream);
      seqNo := seqNo + |src1|;
      stream := stream + src1;
    }

    method Clear()
      requires Valid()
      modifies this
      ensures Valid() && buf == old(buf) && State() == old(State()).(live := 0)
    {
      head, count := 0, 0;
    }

    /** log_capture_read: the newest bytes that fit beside the terminator. */
    method Read(outSize: nat) returns (out: seq<byte>)
      requires Valid() && outSize > 0
      ensures out == Newest(stream[|stream| - count..], outSize - 1)
    {
      hide Holds, Back;
      HoldsBounds(buf, head, count, stream);
      if count == 0 {
        return [];
      }
      var room := outSize - 1;
      var want := if count < room then count else room;
      var start := (head + buf.Length - count) % buf.Length;
      ReadStart(head, buf.Length, count, want, start);
      if want < count {
        start := (start + (count - want)) % buf.Length;
      }
      out := CopyOut(buf, head, count, start, want, stream);
      NewestOfNewest(stream, count, want);
    }

    /** log_capture_read_since: everything from an absolute offset on that the ring still has. */
    method ReadSince(sinceSeq: nat, outSize: nat) returns (out: seq<byte>, newSeq: nat)
      requires Valid() && outSize > 0
      ensures (out, newSeq) == ReadFrom(State(), sinceSeq, outSize - 1)
    {
      hide Holds, Back;
      HoldsBounds(buf, head, count, stream);
      var room := outSize - 1;
      newSeq := seqNo;
      if sinceSeq >= seqNo {
        return [], newSeq;
      }
      var oldestSeq := if count < seqNo then seqNo - count else 0;
      var startSeq := if sinceSeq < oldestSeq then oldestSeq else sinceSeq;
      var want := seqNo - startSeq;
      if want > room {
        startSeq := seqNo - room;
        want := room;
      }
      var back := seqNo - startSeq;
      if back > 0 {
        StartIsBack(head, buf.Length, back);
      }
      var pos := (head + buf.Length - back) % buf.Length;
      assert startSeq == |stream| - want && want == back;
      out := CopyOut(buf, head, count, pos, want, stream);
    }

    /** One request of the /log page: a read into a buffer the size of the ring, and the "lost" flag. */
    method LogRaw(since: nat) returns (r: Reply)
      requires Valid()
      ensures r == Poll(State(), since)
    {
      var chunk, newSeq := ReadSince(since, buf.Length + 1);
      var oldest := if newSeq > count then newSeq - count else 0;
      r := Reply(chunk, newSeq, since != 0 && since < oldest);
    }
  }

  // ----- the ring that survives a reboot

  /** What happens to retained memory: a log line, a panic line, or a soft reboot and the init after it. */
  datatype RamEvent = Wrote(src: seq<byte>) | Panicked(src: seq<byte>) | Rebooted

  /** What was written since the last init. */
  function RamStep(written: seq<byte>, e: RamEvent): seq<byte> {
    if e.Rebooted? then [] else written + e.src
  }

  function RamRun(written: seq<byte>, events: seq<RamEvent>): seq<byte> {
    if events == [] then written else RamStep(RamRun(written, events[..|events| - 1]), events[|events| - 1])
  }

  /** The snapshot an init takes of what was written before it. */
  function SnapshotOf(written: seq<byte>): Option<seq<byte>> {
    if written == [] then None else Some(Newest(written, PRECRASH_RING_BYTES))
  }

  /** Everything logged or printed by a panic, in order. */
  function Printed(events: seq<RamEvent>): seq<byte> {
    if events == [] then [] else (if events[0].Rebooted? then [] else events[0].src) + Printed(events[1..])
  }

  lemma {:induction false} PrintedSnoc(events: seq<RamEvent>, e: RamEvent)
    ensures Printed(events + [e]) == Printed(events) + if e.Rebooted? then [] else e.src
  {
    if events == [] {
      assert (events + [e])[1..] == [];
    } else {
      assert (events + [e])[1..] == events[1..] + [e];
      PrintedSnoc(events[1..], e);
    }
  }

  lemma {:induction false} WrittenSinceBoot(written: seq<byte>, events: seq<RamEvent>, j: nat)
    requires j < |events| && events[j].Rebooted? && forall k :: j < k < |events| ==> !events[k].Rebooted?
    ensures RamRun(written, events) == Printed(events[j + 1..])
    decreases |events|
  {
    hide Printed;
    var n := |events| - 1;
    if j < n {
      WrittenSinceBoot(written, events[..n], j);
      assert events[j + 1..] == events[..n][j + 1..] + [events[n]];
      PrintedSnoc(events[..n][j + 1..], events[n]);
    } else {
      PrintedNothing(events[j + 1..]);
    }
  }

  lemma PrintedNothing(events: seq<RamEvent>)
    requires events == []
    ensures Printed(events) == []
  {
  }

  /**
    Over any number of soft reboots, the snapshot taken at reboot i is the newest
    4096 bytes of everything logged or printed by a panic since reboot j before it.
  */
  lemma SnapshotIsNewestSinceBoot(written: seq<byte>, events: seq<RamEvent>, j: nat, i: nat)
    requires j < i < |events| && events[j].Rebooted? && events[i].Rebooted?
    requires forall k :: j < k < i ==> !events[k].Rebooted?
    ensures var p := Printed(events[j + 1..i]);
      SnapshotOf(RamRun(written, events[..i]))
      == if p == [] then None else Some(if |p| <= 4096 then p else p[|p| - 4096..])
  {
    assert events[..i][j + 1..] == events[j + 1..i];
    WrittenSinceBoot(written, events[..i], j);
  }

  /** RTC memory: after a cold start every field holds garbage. */
  class PrecrashRing {
    var magic: u32
    var head: u32
    var count: u32
    const data: array<byte>

    /** Everything written since the last initialisation. */
    ghost var written: seq<byte>

    ghost predicate Valid()
      reads this, data
    {
      && data.Length == PRECRASH_RING_BYTES && magic == PRECRASH_MAGIC
      && Holds(data, head, count, written) && count == |Newest(written, PRECRASH_RING_BYTES)|
    }

    /** Whatever the memory happens to hold at power-on. */
    constructor (magic: u32, head: u32, count: u32, content: array<byte>)
      requires content.Length == PRECRASH_RING_BYTES
      ensures this.magic == magic && this.head == head && this.count == count && data == content
    {
      this.magic, this.head, this.count, data := magic, head, count, content;
    }

    /** The RTC half of buffer_append. */
    method BufferAppend(src: seq<byte>)
      requires Valid()
      modifies this, data
      ensures Valid() && written == RamStep(old(written), Wrote(src))
    {
      Write(src);
    }

    /** log_capture_append_panic: the same bytes, and the magic sealed again. */
    method AppendPanic(src: seq<byte>)
      requires Valid()
      modifies this, data
      ensures Valid() && written == RamStep(old(written), Panicked(src))
    {
      if |src| == 0 {
        assert written + src == written;
        return;
      }
      Write(src);
      magic := PRECRASH_MAGIC;
    }

    method Write(src: seq<byte>)
      requires Valid()
      modifies this`head, this`count, this`written, data
      ensures Valid() && written == old(written) + src
    {
      hide Holds, Back;
      var src2 := src;
      if |src2| > PRECRASH_RING_BYTES {
        src2 := src2[|src2| - PRECRASH_RING_BYTES..];
      }
      ghost var before := written;
      HoldsBounds(data, head, count, before);
      var h, c := WriteBytes(data, head, count, src2, before);
      Clipped(data, h, c, before, src, src2);
      head, count := h, c;
      written := before + src;
    }

    /** Only the newest bytes of an append that overfills the ring need writing. */
    lemma Clipped(data: array<byte>, head: nat, count: nat, s: seq<byte>, src: seq<byte>, clip: seq<byte>)
      requires data.Length == PRECRASH_RING_BYTES && clip == Newest(src, PRECRASH_RING_BYTES)
      requires Holds(data, head, count, s + clip)
      ensures Holds(data, head, count, s + src)
      ensures head < PRECRASH_RING_BYTES && count <= PRECRASH_RING_BYTES
    {
      hide Back;
      if |src| > PRECRASH_RING_BYTES {
        SameTail(data, head, count, s + clip, s + src);
      }
    }

    /** A ring only knows the newest bytes of what it holds. */
    lemma SameTail(data: array<byte>, head: nat, count: nat, s: seq<byte>, t: seq<byte>)
      requires Holds(data, head, count, s) && |s| <= |t| && s[|s| - count..] == t[|t| - count..]
      ensures Holds(data, head, count, t)
    {
      forall d | 1 <= d <= count
        ensures data[Back(head, data.Length, d)] == t[|t| - d]
      {
        assert s[|s| - count..][count - d] == t[|t| - count..][count - d];
      }
    }

    /**
      The part of log_capture_init that concerns RTC memory: a snapshot when the
      previous boot left a sealed, nonempty ring, then a fresh ring either way.
    */
    method Init() returns (snapshot: Option<seq<byte>>)
      requires data.Length == PRECRASH_RING_BYTES
      modifies this
      ensures Valid() && written == RamStep(old(written), Rebooted)
      ensures old(magic) != PRECRASH_MAGIC ==> snapshot == None
      ensures old(Valid()) ==> snapshot == SnapshotOf(old(written))
    {
      hide Holds, Back;
      snapshot := None;
      NewestIsTail(written, count);
      if Valid() {
        HoldsBounds(data, head, count, written);
      }
      if magic == PRECRASH_MAGIC && count > 0 && count <= PRECRASH_RING_BYTES && head < PRECRASH_RING_BYTES {
        StartIsBack(head, data.Length, count);
        var start := (head + data.Length - count) % data.Length;
        var bytes := Copied(start, count);
        snapshot := Some(bytes);
      }
      magic, head, count := PRECRASH_MAGIC, 0, 0;
      written := [];
      HoldsNothing(data);
    }

    lemma HoldsNothing(data: array<byte>)
      requires data.Length > 0
      ensures Holds(data, 0, 0, [])
    {
    }

    lemma NewestIsTail(s: seq<byte>, n: nat)
      ensures n == |Newest(s, PRECRASH_RING_BYTES)| ==> Newest(s, PRECRASH_RING_BYTES) == s[|s| - n..]
      ensures |Newest(s, PRECRASH_RING_BYTES)| == 0 <==> s == []
    {
    }

    /** The chunked copy of the snapshot, from memory that may hold anything. */
    method Copied(start: nat, want: nat) returns (out: seq<byte>)
      requires data.Length == PRECRASH_RING_BYTES && head < PRECRASH_RING_BYTES && want <= PRECRASH_RING_BYTES
      requires want > 0 ==> start == Back(head, data.Length, want)
      ensures |out| == want
      ensures forall s :: Holds(data, head, want, s) ==> out == s[|s| - want..]
    {
      ghost var s := Content(data, head, want);
      out := CopyOut(data, head, want, start, want, s);
      forall t | Holds(data, head, want, t)
        ensures out == t[|t| - want..]
      {
        SameContent(data, head, want, s, t);
      }
    }

    lemma SameContent(data: array<byte>, head: nat, count: nat, s: seq<byte>, t: seq<byte>)
      requires Holds(data, head, count, s) && Holds(data, head, count, t)
      ensures s[|s| - count..] == t[|t| - count..]
    {
      var a, b := s[|s| - count..], t[|t| - count..];
      forall i | 0 <= i < count
        ensures a[i] == b[i]
      {
        assert data[Back(head, data.Length, count - i)] == s[|s| - (count - i)];
      }
    }
  }

  /** The bytes a ring holds, read off the array. */
  ghost function Content(data: array<byte>, head: nat, count: nat): (s: seq<byte>)
    requires 0 < data.Length && head < data.Length && count <= data.Length
    reads data
    ensures |s| == count && Holds(data, head, count, s)
  {
    var s := seq(count, i requires 0 <= i < count reads data => data[Back(head, data.Length, count - i)]);
    assert forall d :: 1 <= d <= count ==> data[Back(head, data.Length, d)] == s[count - d];
    s
  }

  // ----- colour escapes

  function AfterM(s: seq<byte>): (r: seq<byte>)
    ensures |r| <= |s|
  {
    if s == [] then [] else if s[0] == 109 then s[1..] else AfterM(s[1..])
  }

  /** The text without ESC '[' ... 'm' sequences and stray ESC bytes. */
  function Stripped(s: seq<byte>): seq<byte>
    decreases |s|
  {
    if s == [] then []
    else if s[0] != ESC then [s[0]] + Stripped(s[1..])
    else if |s| > 1 && s[1] == 91 then Stripped(AfterM(s[2..]))
    else Stripped(s[1..])
  }

  method StripAnsiInplace(buf: array<byte>, len: nat) returns (w: nat)
    requires len <= buf.Length
    modifies buf
    ensures w <= len && buf[..w] == Stripped(old(buf[..len]))
  {
    hide Stripped, AfterM;
    ghost var was := buf[..len];
    w := 0;
    var r := 0;
    assert was[0..] == was;
    while r < len
      invariant 0 <= w <= r <= len
      invariant forall i :: r <= i < len ==> buf[i] == was[i]
      invariant buf[..w] + Stripped(was[r..]) == Stripped(was)
      decreases len - r
    {
      if buf[r] == ESC {
        StrippedEsc(was, r);
        r := r + 1;
        if r < len && buf[r] == 91 {
          assert buf[r + 1..len] == was[r + 1..];
          r := SkipToM(buf, r + 1, len);
          assert buf[r..len] == was[r..];
        }
        continue;
      }
      StrippedText(was, r);
      ghost var done := buf[..w];
      buf[w] := buf[r];
      assert buf[..w + 1] == done + [was[r]];
      assert done + [was[r]] + Stripped(was[r + 1..]) == done + ([was[r]] + Stripped(was[r + 1..]));
      w, r := w + 1, r + 1;
    }
    StrippedNothing(was[r..]);
  }

  lemma StrippedNothing(s: seq<byte>)
    requires s == []
    ensures Stripped(s) == []
  {
  }

  lemma StrippedEsc(s: seq<byte>, r: nat)
    requires r < |s| && s[r] == ESC
    ensures Stripped(s[r..]) ==
            if r + 1 < |s| && s[r + 1] == 91 then Stripped(AfterM(s[r + 2..])) else Stripped(s[r + 1..])
  {
    var t := s[r..];
    assert t[1..] == s[r + 1..];
    if |t| > 1 {
      assert t[2..] == s[r + 2..];
    }
  }

  lemma StrippedText(s: seq<byte>, r: nat)
    requires r < |s| && s[r] != ESC
    ensures Stripped(s[r..]) == [s[r]] + Stripped(s[r + 1..])
  {
    assert s[r..][1..] == s[r + 1..];
  }

  /** Past the next 'm', or to the end. */
  method SkipToM(buf: array<byte>, start: nat, len: nat) returns (r: nat)
    requires start <= len <= buf.Length
    ensures start <= r <= len && buf[r..len] == AfterM(buf[start..len])
  {
    r := start;
    while r < len && buf[r] != 109
      invariant start <= r <= len && AfterM(buf[r..len]) == AfterM(buf[start..len])
    {
      assert buf[r..len][1..] == buf[r + 1..len];
      r := r + 1;
    }
    if r < len {
      assert buf[r..len][1..] == buf[r + 1..len];
      r := r + 1;
    }
  }

  datatype Segment = Text(bytes: seq<byte>) | Colour(params: seq<byte>)

  ghost predicate Printable(g: Segment) {
    match g
    case Text(b) => ESC !in b
    case Colour(p) => 109 !in p
  }

  function Rendered(gs: seq<Segment>): seq<byte> {
    if gs == [] then []
    else (match gs[0] case Text(b) => b case Colour(p) => [ESC, 91] + p + [109]) + Rendered(gs[1..])
  }

  function TextOf(gs: seq<Segment>): seq<byte> {
    if gs == [] then [] else (if gs[0].Text? then gs[0].bytes else []) + TextOf(gs[1..])
  }

  lemma {:induction false} StripText(b: seq<byte>, rest: seq<byte>)
    requires ESC !in b
    ensures Stripped(b + rest) == b + Stripped(rest)
  {
    if b == [] {
      assert b + rest == rest;
    } else {
      assert (b + rest)[1..] == b[1..] + rest;
      StripText(b[1..], rest);
      assert b == [b[0]] + b[1..];
    }
  }

  lemma {:induction false} SkipParams(p: seq<byte>, rest: seq<byte>)
    requires 109 !in p
    ensures AfterM(p + [109] + rest) == rest
  {
    if p == [] {
      assert (p + [109] + rest)[1..] == rest;
    } else {
      assert (p + [109] + rest)[1..] == p[1..] + [109] + rest;
      SkipParams(p[1..], rest);
    }
  }

  /** Stripping a coloured line leaves exactly its text. */
  lemma {:induction false} StripKeepsText(gs: seq<Segment>)
    requires forall g <- gs :: Printable(g)
    ensures Stripped(Rendered(gs)) == TextOf(gs)
  {
    if gs != [] {
      var rest := Rendered(gs[1..]);
      assert gs[0] in gs;
      StripKeepsText(gs[1..]);
      match gs[0]
      case Text(b) => StripText(b, rest);
      case Colour(p) => {
        var s := Rendered(gs);
        assert s == [ESC, 91] + p + [109] + rest;
        assert s[2..] == p + [109] + rest;
        SkipParams(p, rest);
      }
    }
  }
}
