/** The two walks over DNS wire format (RFC 1035) that feed the relay's cache. */
module DnsMessage {
  import opened Words

  const KEY_MAX := 256
  const TTL_MIN := 10
  const TTL_MAX := 3600
  const TTL_NEG := 15
  const NO_TTL := 0xFFFF_FFFF

  // ----- names on the wire (section 3.1 of RFC 1035)

  type Label = seq<byte>

  ghost predicate Labelled(ls: seq<Label>) {
    forall k :: 0 <= k < |ls| ==> 1 <= |ls[k]| <= 63
  }

  /** Labels without the terminating root. */
  function EncLabels(ls: seq<Label>): (s: seq<byte>)
    requires Labelled(ls)
  {
    if ls == [] then [] else [|ls[0]| as byte] + ls[0] + EncLabels(ls[1..])
  }

  function EncName(ls: seq<Label>): (s: seq<byte>)
    requires Labelled(ls)
    ensures |s| == |EncLabels(ls)| + 1
  {
    EncLabels(ls) + [0]
  }

  lemma FirstLabel(ls: seq<Label>)
    requires Labelled(ls) && ls != []
    ensures Labelled(ls[1..])
    ensures EncLabels(ls) == [|ls[0]|] + ls[0] + EncLabels(ls[1..])
    ensures EncName(ls) == [|ls[0]|] + ls[0] + EncName(ls[1..])
  {
  }

  lemma MoreLabels(l: Label, rest: seq<Label>)
    requires Labelled(rest) && 1 <= |l| <= 63
    ensures Labelled([l] + rest)
    ensures EncLabels([l] + rest) == [|l|] + l + EncLabels(rest)
    ensures EncName([l] + rest) == [|l|] + l + EncName(rest)
  {
    assert ([l] + rest)[1..] == rest;
    FirstLabel([l] + rest);
  }

  /** Taking a length byte, a label and what follows off the front of a packet. */
  lemma TakeLabel(s: seq<byte>, n: byte, l: Label, rest: seq<byte>)
    requires |l| == n && [n] + l + rest <= s
    ensures 1 + n <= |s| && s[0] == n && s[1..1 + n] == l && rest <= s[1 + n..]
  {
    var u := [n] + l + rest;
    assert s[..|u|] == u;
    assert s[1..1 + n] == u[1..1 + n] == l;
    assert u[1 + n..] == rest;
    assert s[1 + n..][..|rest|] == u[1 + n..];
  }

  /** One encoded question: a name, then two bytes of type and two of class (section 4.1.2). */
  ghost predicate IsQuestion(q: seq<byte>) {
    exists ls :: IsQuestionFor(q, ls)
  }

  ghost predicate IsQuestionFor(q: seq<byte>, ls: seq<Label>) {
    Labelled(ls) && |q| >= 4 && q[..|q| - 4] == EncName(ls)
  }

  /** A run of labels with nothing after the last one. */
  ghost predicate IsCut(q: seq<byte>) {
    exists ls :: IsCutFor(q, ls)
  }

  ghost predicate IsCutFor(q: seq<byte>, ls: seq<Label>) {
    Labelled(ls) && q == EncLabels(ls)
  }

  // ----- the length of the question

  /** Where the label walk from i stops; -1 for a pointer or a reserved length. */
  function QuestionWalk(p: seq<byte>, i: nat): (e: int)
    ensures e == -1 || e >= i
    decreases if i < |p| then |p| - i else 0
  {
    if i >= |p| then i
    else if p[i] == 0 then i + 5
    else if p[i] >= 64 then -1
    else QuestionWalk(p, i + 1 + p[i])
  }

  function QuestionLen(p: seq<byte>): nat {
    if |p| < 17 then 0
    else
      var e := QuestionWalk(p, 12);
      if e < 0 || e > |p| then 0 else if 5 <= e - 12 <= KEY_MAX then e - 12 else 0
  }

  method DnsQuestionLen(p: seq<byte>) returns (n: nat)
    ensures n == QuestionLen(p)
  {
    if |p| < 12 + 5 {
      return 0;
    }
    var i := 12;
    while i < |p|
      invariant 12 <= i && QuestionWalk(p, i) == QuestionWalk(p, 12)
      decreases |p| - i
    {
      var c := p[i];
      if c == 0 {
        i := i + 5;
        break;
      }
      if c >= 64 {
        return 0;
      }
      i := i + 1 + c;
    }
    if i > |p| {
      return 0;
    }
    var qlen := i - 12;
    n := if 5 <= qlen <= KEY_MAX then qlen else 0;
  }

  /** The walk steps over well-formed labels. */
  lemma {:induction false} WalkOverLabels(p: seq<byte>, i: nat, ls: seq<Label>)
    requires Labelled(ls) && i <= |p| && EncLabels(ls) <= p[i..]
    ensures QuestionWalk(p, i) == QuestionWalk(p, i + |EncLabels(ls)|)
    decreases |ls|
  {
    hide EncLabels, QuestionWalk;
    if ls == [] {
      NoLabels(ls);
    } else {
      var l, tail := ls[0], EncLabels(ls[1..]);
      FirstLabel(ls);
      TakeLabel(p[i..], |l|, l, tail);
      assert p[i] == |l|;
      assert p[i..][1 + |l|..] == p[i + 1 + |l|..];
      WalkOneLabel(p, i);
      WalkOverLabels(p, i + 1 + |l|, ls[1..]);
    }
  }

  lemma NoLabels(ls: seq<Label>)
    requires ls == []
    ensures EncLabels(ls) == []
  {
  }

  lemma WalkOneLabel(p: seq<byte>, i: nat)
    requires i < |p| && 0 < p[i] < 64
    ensures QuestionWalk(p, i) == QuestionWalk(p, i + 1 + p[i])
  {
  }

  /** What the walk accepted was labels up to the root, or labels up to the end of the packet. */
  lemma {:induction false} WalkShape(p: seq<byte>, i: nat) returns (ls: seq<Label>)
    requires i <= |p| && 0 <= QuestionWalk(p, i) <= |p|
    ensures Labelled(ls)
    ensures var e := QuestionWalk(p, i);
      || (e == |p| && p[i..] == EncLabels(ls))
      || (i + 5 <= e && p[i..e - 4] == EncName(ls))
    decreases |p| - i
  {
    ls := [];
    if i < |p| && p[i] == 0 {
      assert p[i..i + 1] == [0];
    } else if i < |p| {
      var n := i + 1 + p[i];
      WalkAtLeast(p, n);
      var rest := WalkShape(p, n);
      ls := [p[i + 1..n]] + rest;
      MoreLabels(p[i + 1..n], rest);
      PrependLabel(p, i, n, EncLabels(rest), EncName(rest), QuestionWalk(p, i));
    }
  }

  lemma PrependLabel(p: seq<byte>, i: nat, n: nat, labels: seq<byte>, name: seq<byte>, e: nat)
    requires i < |p| && n == i + 1 + p[i] && n <= |p| && e <= |p|
    requires (e == |p| && p[n..] == labels) || (n + 5 <= e && p[n..e - 4] == name)
    ensures || (e == |p| && p[i..] == [p[i]] + p[i + 1..n] + labels)
            || (n + 5 <= e && p[i..e - 4] == [p[i]] + p[i + 1..n] + name)
  {
    assert p[i..] == [p[i]] + p[i + 1..n] + p[n..];
    if n + 5 <= e {
      assert p[i..e - 4] == [p[i]] + p[i + 1..n] + p[n..e - 4];
    }
  }

  lemma WalkAtLeast(p: seq<byte>, n: nat)
    requires 0 <= QuestionWalk(p, n) <= |p|
    ensures n <= |p|
  {
  }

  /**
    The length is n exactly for a well-formed question of n bytes, whatever
    follows it, or for n bytes of labels that run into the end of the packet.
  */
  lemma QuestionLenIff(p: seq<byte>, n: nat)
    requires n > 0
    ensures QuestionLen(p) == n <==>
            && 5 <= n <= 256 && 12 + n <= |p|
            && (IsQuestion(p[12..12 + n]) || (12 + n == |p| && IsCut(p[12..])))
  {
    if QuestionLen(p) == n {
      var ls := WalkShape(p, 12);
      if p[12..12 + n - 4] == EncName(ls) {
        assert p[12..12 + n][..n - 4] == p[12..12 + n - 4];
        assert IsQuestionFor(p[12..12 + n], ls);
      } else {
        assert IsCutFor(p[12..], ls);
      }
    }
    if 5 <= n <= KEY_MAX && 12 + n <= |p| {
      if IsQuestion(p[12..12 + n]) {
        WalkReachesRoot(p, n);
      }
      if 12 + n == |p| && IsCut(p[12..]) {
        var ls :| IsCutFor(p[12..], ls);
        WalkOverLabels(p, 12, ls);
      }
    }
  }

  lemma WalkReachesRoot(p: seq<byte>, n: nat)
    requires 5 <= n && 12 + n <= |p| && IsQuestion(p[12..12 + n])
    ensures QuestionWalk(p, 12) == 12 + n
  {
    hide EncLabels, QuestionWalk;
    var q := p[12..12 + n];
    var ls :| IsQuestionFor(q, ls);
    var m := |EncLabels(ls)|;
    assert q[..n - 4] == p[12..12 + n - 4] == EncLabels(ls) + [0];
    assert p[12..12 + n - 4][m] == 0 && p[12..12 + n - 4][..m] == EncLabels(ls);
    assert p[12..][..m] == EncLabels(ls);
    WalkOverLabels(p, 12, ls);
    WalkAtRoot(p, 12 + m);
  }

  lemma WalkAtRoot(p: seq<byte>, i: nat)
    requires i < |p| && p[i] == 0
    ensures QuestionWalk(p, i) == i + 5
  {
  }

  /** Names are prefix-free: an encoded name says where it ends. */
  lemma {:induction false} NamesPrefixFree(a: seq<Label>, b: seq<Label>, x: seq<byte>, y: seq<byte>)
    requires Labelled(a) && Labelled(b) && EncName(a) + x == EncName(b) + y
    ensures a == b && x == y
    decreases |a|
  {
    if a == [] || b == [] {
      RootOnly(a, x);
      RootOnly(b, y);
    } else {
      FirstLabel(a);
      FirstLabel(b);
      var s, n := EncName(a) + x, |a[0]|;
      assert s == [|a[0]|] + a[0] + (EncName(a[1..]) + x);
      assert s == [|b[0]|] + b[0] + (EncName(b[1..]) + y);
      TakeLabel(s, n, a[0], EncName(a[1..]) + x);
      TakeLabel(s, |b[0]|, b[0], EncName(b[1..]) + y);
      assert s[1 + n..] == EncName(a[1..]) + x == EncName(b[1..]) + y;
      NamesPrefixFree(a[1..], b[1..], x, y);
      assert a == [a[0]] + a[1..] && b == [b[0]] + b[1..];
    }
  }

  lemma RootOnly(a: seq<Label>, x: seq<byte>)
    requires Labelled(a)
    ensures (EncName(a) + x)[0] == 0 <==> a == []
    ensures a == [] ==> x == (EncName(a) + x)[1..]
  {
    if a != [] {
      FirstLabel(a);
    }
  }

  /** No well-formed question is a proper prefix of another. */
  lemma QuestionsPrefixFree(q: seq<byte>, r: seq<byte>)
    requires IsQuestion(q) && IsQuestion(r) && q <= r
    ensures q == r
  {
    var a :| IsQuestionFor(q, a);
    var b :| IsQuestionFor(r, b);
    var n := |q| - 4;
    assert r == EncName(a) + r[n..] by {
      assert r[..n] == q[..n];
    }
    assert r == EncName(b) + r[|r| - 4..];
    NamesPrefixFree(a, b, r[n..], r[|r| - 4..]);
  }

  /** Two packets have the same cache key exactly when they ask the same name, type and class. */
  lemma SameKeyIffSameQuestion(p: seq<byte>, q: seq<byte>, a: seq<Label>, b: seq<Label>)
    requires QuestionLen(p) > 0 && QuestionLen(q) > 0
    requires 12 + QuestionLen(p) <= |p| && IsQuestionFor(p[12..12 + QuestionLen(p)], a)
    requires 12 + QuestionLen(q) <= |q| && IsQuestionFor(q[12..12 + QuestionLen(q)], b)
    ensures var k, l := p[12..12 + QuestionLen(p)], q[12..12 + QuestionLen(q)];
      k == l <==> a == b && k[|k| - 4..] == l[|l| - 4..]
  {
    var k, l := p[12..12 + QuestionLen(p)], q[12..12 + QuestionLen(q)];
    assert k == EncName(a) + k[|k| - 4..] && l == EncName(b) + l[|l| - 4..];
    if k == l {
      NamesPrefixFree(a, b, k[|k| - 4..], l[|l| - 4..]);
    }
  }

  // ----- the cache lifetime of a response

  function PlainEnd(p: seq<byte>, len: nat, i: nat): (e: nat)
    requires len <= |p|
    ensures e >= i
    decreases if i < len then len - i else 0
  {
    if i < len && p[i] != 0 then PlainEnd(p, len, i + 1 + p[i]) else i
  }

  /** Where the code believes the owner name at i ends. */
  function NameEnd(p: seq<byte>, len: nat, i: nat): (e: nat)
    requires i < len <= |p|
    ensures e > i
  {
    if p[i] >= 192 then i + 2 else PlainEnd(p, len, i) + 1
  }

  function Ttl(p: seq<byte>, i: nat): u32
    requires i + 8 <= |p|
  {
    Be32(p[i + 4], p[i + 5], p[i + 6], p[i + 7])
  }

  /** The smallest TTL of k records from i on, or None when one is cut short. */
  function AnswerWalk(p: seq<byte>, len: nat, i: nat, k: nat, least: u32): Option<u32>
    requires len <= |p|
    decreases k
  {
    if k == 0 then Some(least)
    else if i + 1 > len then None
    else
      var e := NameEnd(p, len, i);
      if e + 10 > len then None
      else
        var ttl := Ttl(p, e);
        AnswerWalk(p, len, e + 10 + Be16(p[e + 8], p[e + 9]), k - 1, if ttl < least then ttl else least)
  }

  function Clamp(ttl: u32): u32 {
    if ttl == NO_TTL then TTL_NEG else if ttl < TTL_MIN then TTL_MIN else if ttl > TTL_MAX then TTL_MAX else ttl
  }

  /** p is the receive buffer, len the bytes received into it. */
  function RespTtl(p: seq<byte>, len: nat, qlen: nat): (ttl: u32)
    requires 12 <= |p| && len <= |p|
  {
    if p[3] % 16 != 0 && p[3] % 16 != 3 then 0
    else
      var an := Be16(p[6], p[7]);
      if an == 0 then TTL_NEG
      else match AnswerWalk(p, len, 12 + qlen, an, NO_TTL)
           case None => TTL_NEG
           case Some(least) => Clamp(least)
  }

  method DnsRespTtl(p: seq<byte>, len: nat, qlen: nat) returns (ttl: u32)
    requires 12 <= |p| && len <= |p|
    ensures ttl == RespTtl(p, len, qlen)
  {
    hide AnswerWalk;
    var rcode := p[3] % 16;
    if rcode != 0 && rcode != 3 {
      return 0;
    }
    var an := Be16(p[6], p[7]);
    if an == 0 {
      return TTL_NEG;
    }
    var found := LeastOfAnswers(p, len, 12 + qlen, an);
    if found == None || found.value == NO_TTL {
      return TTL_NEG;
    }
    ttl := found.value;
    if ttl < TTL_MIN {
      ttl := TTL_MIN;
    }
    if ttl > TTL_MAX {
      ttl := TTL_MAX;
    }
  }

  /** The loop over the answer records; None when it runs off the packet. */
  method LeastOfAnswers(p: seq<byte>, len: nat, start: nat, an: u16) returns (found: Option<u32>)
    requires len <= |p|
    ensures found == AnswerWalk(p, len, start, an, NO_TTL)
  {
    hide NameEnd, Be16, Be32;
    var i: nat := start;
    var least: u32 := NO_TTL;
    var a := 0;
    while a < an
      invariant 0 <= a <= an
      invariant AnswerWalk(p, len, i, an - a, least) == AnswerWalk(p, len, start, an, NO_TTL)
    {
      if i + 1 > len {
        return None;
      }
      i := SkipName(p, len, i);
      if i + 10 > len {
        return None;
      }
      var t := Be32(p[i + 4], p[i + 5], p[i + 6], p[i + 7]);
      var rdlen := Be16(p[i + 8], p[i + 9]);
      if t < least {
        least := t;
      }
      i := i + 10 + rdlen;
      a := a + 1;
    }
    return Some(least);
  }

  method SkipName(p: seq<byte>, len: nat, start: nat) returns (i: nat)
    requires start < len <= |p|
    ensures i == NameEnd(p, len, start)
  {
    i := start;
    if p[i] >= 192 {
      i := i + 2;
    } else {
      while i < len && p[i] != 0
        invariant i >= start && PlainEnd(p, len, i) == PlainEnd(p, len, start)
        decreases if i < len then len - i else 0
      {
        i := i + 1 + p[i];
      }
      i := i + 1;
    }
  }

  /** A response is refused exactly for its RCODE; otherwise its lifetime is within the limits. */
  lemma TtlRange(p: seq<byte>, len: nat, qlen: nat)
    requires 12 <= |p| && len <= |p|
    ensures RespTtl(p, len, qlen) == 0 <==> p[3] % 16 != 0 && p[3] % 16 != 3
    ensures RespTtl(p, len, qlen) == 0 || TTL_MIN <= RespTtl(p, len, qlen) <= TTL_MAX
  {
    hide AnswerWalk;
  }

  /** A response without answers is kept for fifteen seconds. */
  lemma NoAnswersIsNegative(p: seq<byte>, len: nat, qlen: nat)
    requires 12 <= |p| && len <= |p| && p[6] == 0 == p[7] && (p[3] % 16 == 0 || p[3] % 16 == 3)
    ensures RespTtl(p, len, qlen) == 15
  {
    hide AnswerWalk;
  }

  // ----- encoded answers (sections 4.1.3 and 4.1.4 of RFC 1035)

  datatype Owner = Pointer(hi: byte, lo: byte) | Plain(labels: seq<Label>)

  datatype Record = Record(owner: Owner, typeAndClass: seq<byte>, ttl: u32, rdata: seq<byte>)

  ghost predicate GoodOwner(o: Owner) {
    match o
    case Pointer(hi, _) => hi >= 192
    case Plain(ls) => Labelled(ls)
  }

  ghost predicate Good(rr: Record) {
    GoodOwner(rr.owner) && |rr.typeAndClass| == 4 && |rr.rdata| < 0x1_0000
  }

  function EncOwner(o: Owner): (s: seq<byte>)
    requires GoodOwner(o)
    ensures |s| > 0
  {
    match o
    case Pointer(hi, lo) => [hi, lo]
    case Plain(ls) => EncName(ls)
  }

  function EncFixed(rr: Record): (s: seq<byte>)
    requires Good(rr)
    ensures |s| == 10
  {
    rr.typeAndClass + Bytes32(rr.ttl) + Bytes16(|rr.rdata|)
  }

  function EncRecord(rr: Record): seq<byte>
    requires Good(rr)
  {
    EncOwner(rr.owner) + EncFixed(rr) + rr.rdata
  }

  ghost predicate AllGood(rrs: seq<Record>) {
    forall k :: 0 <= k < |rrs| ==> Good(rrs[k])
  }

  function EncRecords(rrs: seq<Record>): seq<byte>
    requires AllGood(rrs)
  {
    if rrs == [] then [] else EncRecord(rrs[0]) + EncRecords(rrs[1..])
  }

  function LeastTtl(rrs: seq<Record>, least: u32): u32 {
    if rrs == [] then least else LeastTtl(rrs[1..], if rrs[0].ttl < least then rrs[0].ttl else least)
  }

  lemma {:induction false} LeastTtlIsLeast(rrs: seq<Record>, least: u32)
    ensures LeastTtl(rrs, least) <= least && forall k :: 0 <= k < |rrs| ==> LeastTtl(rrs, least) <= rrs[k].ttl
    ensures LeastTtl(rrs, least) == least || exists k :: 0 <= k < |rrs| && LeastTtl(rrs, least) == rrs[k].ttl
  {
    if rrs != [] {
      var tail, m := rrs[1..], if rrs[0].ttl < least then rrs[0].ttl else least;
      LeastTtlIsLeast(tail, m);
      forall k | 0 <= k < |rrs|
        ensures LeastTtl(rrs, least) <= rrs[k].ttl
      {
        assert k > 0 ==> rrs[k] == tail[k - 1];
      }
      if LeastTtl(tail, m) != m {
        var k :| 0 <= k < |tail| && LeastTtl(tail, m) == tail[k].ttl;
        assert rrs[k + 1] == tail[k];
      }
    }
  }

  lemma {:induction false} PlainOverLabels(p: seq<byte>, len: nat, i: nat, ls: seq<Label>)
    requires Labelled(ls) && i <= len <= |p| && EncLabels(ls) <= p[i..len]
    ensures PlainEnd(p, len, i) == PlainEnd(p, len, i + |EncLabels(ls)|)
    decreases |ls|
  {
    hide EncLabels;
    if ls == [] {
      NoLabels(ls);
    } else {
      var n := |ls[0]|;
      FirstLabel(ls);
      TakeLabel(p[i..len], n, ls[0], EncLabels(ls[1..]));
      assert p[i] == n;
      assert p[i..len][1 + n..] == p[i + 1 + n..len];
      PlainOverLabels(p, len, i + 1 + n, ls[1..]);
    }
  }

  /** The skip of an owner name is right exactly when the name does not mix labels with a pointer. */
  lemma NameEndIff(p: seq<byte>, len: nat, i: nat, ls: seq<Label>, tail: seq<byte>)
    requires Labelled(ls) && (tail == [0] || (|tail| == 2 && tail[0] >= 192))
    requires i <= len <= |p| && EncLabels(ls) + tail <= p[i..len]
    ensures i < len
    ensures NameEnd(p, len, i) == i + |EncLabels(ls) + tail| <==> ls == [] || tail == [0]
  {
    hide EncLabels;
    var m, s := |EncLabels(ls)|, EncLabels(ls) + tail;
    assert p[i..len][..|s|] == s;
    assert p[i + m] == s[m] == tail[0];
    assert p[i..len][..m] == EncLabels(ls);
    PlainOverLabels(p, len, i, ls);
    if ls == [] {
      NoLabels(ls);
    } else {
      FirstLabel(ls);
      assert p[i] == |ls[0]|;
    }
  }

  /** A label length that RFC 1035 reserves is taken for a length like any other. */
  lemma ReservedIsLength(p: seq<byte>, len: nat, i: nat)
    requires i < len <= |p| && 64 <= p[i] < 192
    requires i + 1 + p[i] < len ==> p[i + 1 + p[i]] == 0
    ensures NameEnd(p, len, i) == i + 2 + p[i]
  {
    assert PlainEnd(p, len, i + 1 + p[i]) == i + 1 + p[i];
  }

  lemma OwnerEnds(p: seq<byte>, len: nat, i: nat, o: Owner)
    requires GoodOwner(o) && i <= len <= |p| && EncOwner(o) <= p[i..len]
    ensures i < len && NameEnd(p, len, i) == i + |EncOwner(o)|
  {
    match o
    case Pointer(hi, lo) =>
      NoLabels([]);
      assert EncLabels([]) + [hi, lo] == [hi, lo];
      NameEndIff(p, len, i, [], [hi, lo]);
    case Plain(ls) =>
      NameEndIff(p, len, i, ls, [0]);
  }

  lemma FixedReads(p: seq<byte>, e: nat, rr: Record)
    requires Good(rr) && e + 10 <= |p| && p[e..e + 10] == EncFixed(rr)
    ensures Ttl(p, e) == rr.ttl && Be16(p[e + 8], p[e + 9]) == |rr.rdata|
  {
    hide Bytes32, Be32, Be16;
    var f, t, l := p[e..e + 10], Bytes32(rr.ttl), Bytes16(|rr.rdata|);
    assert f[4..8] == t && f[8..10] == l;
    assert p[e + 4] == t[0] && p[e + 5] == t[1] && p[e + 6] == t[2] && p[e + 7] == t[3] by {
      assert forall k :: 0 <= k < 10 ==> p[e + k] == f[k];
    }
    assert p[e + 8] == f[8] == l[0] && p[e + 9] == f[9] == l[1];
    Bytes32Back(rr.ttl);
    Bytes16Back(|rr.rdata|);
  }

  /** The walk reads a well-formed answer section record by record. */
  lemma {:induction false} WalkOverRecords(p: seq<byte>, len: nat, i: nat, rrs: seq<Record>, least: u32)
    requires AllGood(rrs)
    requires i <= len <= |p| && EncRecords(rrs) <= p[i..len]
    ensures AnswerWalk(p, len, i, |rrs|, least) == Some(LeastTtl(rrs, least))
    decreases |rrs|
  {
    hide AnswerWalk, EncRecords, LeastTtl, EncOwner, NameEnd, Ttl, EncFixed;
    if rrs == [] {
      NoRecords(p, len, i, rrs, least);
    } else {
      var rr := rrs[0];
      var e := i + |EncOwner(rr.owner)|;
      RecordInPlace(p, len, i, rrs);
      OwnerEnds(p, len, i, rr.owner);
      FixedReads(p, e, rr);
      OneRecord(p, len, i, rrs, least);
      WalkOverRecords(p, len, e + 10 + |rr.rdata|, rrs[1..], if rr.ttl < least then rr.ttl else least);
    }
  }

  lemma NoRecords(p: seq<byte>, len: nat, i: nat, rrs: seq<Record>, least: u32)
    requires len <= |p| && rrs == []
    ensures AnswerWalk(p, len, i, |rrs|, least) == Some(LeastTtl(rrs, least))
  {
  }

  /** One round of both recursions. */
  lemma OneRecord(p: seq<byte>, len: nat, i: nat, rrs: seq<Record>, least: u32)
    requires rrs != [] && i < len <= |p|
    requires var e := NameEnd(p, len, i);
      e + 10 <= len && Ttl(p, e) == rrs[0].ttl && Be16(p[e + 8], p[e + 9]) == |rrs[0].rdata|
    ensures var m := if rrs[0].ttl < least then rrs[0].ttl else least;
      && AnswerWalk(p, len, i, |rrs|, least)
         == AnswerWalk(p, len, NameEnd(p, len, i) + 10 + |rrs[0].rdata|, |rrs[1..]|, m)
      && LeastTtl(rrs, least) == LeastTtl(rrs[1..], m)
  {
    hide NameEnd, Ttl, Be16;
  }

  lemma RecordInPlace(p: seq<byte>, len: nat, i: nat, rrs: seq<Record>)
    requires rrs != [] && AllGood(rrs)
    requires i <= len <= |p| && EncRecords(rrs) <= p[i..len]
    ensures AllGood(rrs[1..])
    ensures var o := EncOwner(rrs[0].owner); var e := i + |o|; var next := e + 10 + |rrs[0].rdata|;
      next <= len && o <= p[i..len] && p[e..e + 10] == EncFixed(rrs[0]) && EncRecords(rrs[1..]) <= p[next..len]
  {
    hide EncOwner, EncFixed;
    var rr := rrs[0];
    TakeRecord(p, len, i, EncOwner(rr.owner), EncFixed(rr), rr.rdata, EncRecords(rrs[1..]));
  }

  lemma SliceOfSlice(p: seq<byte>, i: nat, len: nat, a: nat, b: nat)
    requires i <= len <= |p| && a <= b <= len - i
    ensures p[i..len][a..b] == p[i + a..i + b]
  {
    var x, y := p[i..len][a..b], p[i + a..i + b];
    forall k | 0 <= k < b - a
      ensures x[k] == y[k]
    {
      assert x[k] == p[i..len][a + k] == p[i + a + k];
    }
  }

  lemma TakeRecord(p: seq<byte>, len: nat, i: nat, o: seq<byte>, f: seq<byte>, d: seq<byte>, rest: seq<byte>)
    requires i <= len <= |p| && o + f + d + rest <= p[i..len]
    ensures var e := i + |o|; var next := e + |f| + |d|;
      next <= len && o <= p[i..len] && p[e..e + |f|] == f && rest <= p[next..len]
  {
    var s, u := p[i..len], o + f + d + rest;
    var e := i + |o|;
    var next := e + |f| + |d|;
    assert s[..|u|] == u;
    assert u[|o|..|o| + |f|] == f && u[next - i..] == rest;
    SliceOfSlice(s, 0, |u|, |o|, |o| + |f|);
    SliceOfSlice(p, i, len, |o|, |o| + |f|);
    assert p[next..len] == s[next - i..];
    assert s[next - i..][..|rest|] == u[next - i..];
  }

  /**
    On a well-formed response whose owners are lone pointers or plain labels, the
    lifetime is the least TTL of the answers, clamped.
  */
  lemma TtlIsClampedLeast(p: seq<byte>, len: nat, qlen: nat, rrs: seq<Record>, k: nat)
    requires AllGood(rrs) && k < |rrs|
    requires rrs[k].ttl < NO_TTL && forall j :: 0 <= j < |rrs| ==> rrs[k].ttl <= rrs[j].ttl
    requires 12 <= |p| && 12 + qlen <= len <= |p| && EncRecords(rrs) <= p[12 + qlen..len]
    requires Be16(p[6], p[7]) == |rrs| && (p[3] % 16 == 0 || p[3] % 16 == 3)
    ensures var ttl := rrs[k].ttl;
      RespTtl(p, len, qlen) == if ttl < 10 then 10 else if ttl > 3600 then 3600 else ttl
  {
    hide AnswerWalk, EncRecords, LeastTtl, Good;
    WalkOverRecords(p, len, 12 + qlen, rrs, NO_TTL);
    LeastTtlIsLeast(rrs, NO_TTL);
  }

  /** When every answer has the largest TTL there is, none counts, and the response is kept for fifteen seconds. */
  lemma UnsetTtlsAreNegative(p: seq<byte>, len: nat, qlen: nat, rrs: seq<Record>)
    requires AllGood(rrs) && forall j :: 0 <= j < |rrs| ==> rrs[j].ttl == 0xFFFF_FFFF
    requires 12 <= |p| && 12 + qlen <= len <= |p| && EncRecords(rrs) <= p[12 + qlen..len]
    requires Be16(p[6], p[7]) == |rrs| && (p[3] % 16 == 0 || p[3] % 16 == 3)
    ensures RespTtl(p, len, qlen) == 15
  {
    hide AnswerWalk, EncRecords, LeastTtl, Good;
    WalkOverRecords(p, len, 12 + qlen, rrs, NO_TTL);
    LeastTtlIsLeast(rrs, NO_TTL);
  }

  // ----- two packets the walks take differently from RFC 1035

  /** Twelve header bytes and the label "aaaa", and nothing after it: no root, no type, no class. */
  function CutQuery(): (p: seq<byte>)
    ensures |p| == 17 && forall i :: 0 <= i < 17 ==> p[i] == if i < 12 then 0 else if i == 12 then 4 else 97
  {
    seq(17, i => if i < 12 then 0 else if i == 12 then 4 else 97)
  }

  /** It is taken for a question of five bytes, which it is not. */
  lemma CutQueryAccepted()
    ensures QuestionLen(CutQuery()) == 5 && !IsQuestion(CutQuery()[12..17])
  {
    hide CutQuery, EncLabels;
    var p := CutQuery();
    assert QuestionWalk(p, 12) == QuestionWalk(p, 17) == 17;
    var q := p[12..17];
    assert q[..1] == [4];
    forall ls: seq<Label> | Labelled(ls)
      ensures EncName(ls) != [4]
    {
      EndsInRoot(ls);
    }
  }

  lemma EndsInRoot(ls: seq<Label>)
    requires Labelled(ls)
    ensures EncName(ls)[|EncName(ls)| - 1] == 0
  {
  }

  /**
    A response to the question for the root name's addresses, with one answer: owner "a"
    followed by a pointer, a TTL of 300 seconds, and an address.
  */
  function MixedByte(i: nat): byte {
    match i
    case 2 => 0x80
    case 5 => 1
    case 7 => 1
    case 14 => 1
    case 16 => 1
    case 17 => 1
    case 18 => 97
    case 19 => 0xc0
    case 20 => 12
    case 22 => 1
    case 24 => 1
    case 27 => 1
    case 28 => 44
    case 30 => 4
    case 31 => 10
    case _ => 0
  }

  function MixedResponse(): (p: seq<byte>)
    ensures |p| == 35 && forall i :: 0 <= i < 35 ==> p[i] == MixedByte(i)
  {
    seq(35, i requires 0 <= i < 35 => MixedByte(i))
  }

  /** The name ends at 21, where the record says 300; the walk runs past the packet and reports the negative lifetime. */
  lemma MixedResponseMisread()
    ensures var p := MixedResponse();
      && Labelled([[97]]) && p[17..21] == EncLabels([[97]]) + [0xc0, 12]
      && Ttl(p, 21) == 300 && Be16(p[29], p[30]) == 4 && 21 + 10 + 4 == |p|
      && NameEnd(p, 35, 17) != 21 && RespTtl(p, 35, 5) == TTL_NEG
  {
    hide MixedResponse;
    var p := MixedResponse();
    assert [[97 as byte]][1..] == [];
    assert EncLabels([[97]]) == [1, 97];
    assert p[17..21] == [1, 97, 0xc0, 12];
    assert PlainEnd(p, 35, 19) == PlainEnd(p, 35, 212) == 212;
    assert NameEnd(p, 35, 17) == 213;
    assert AnswerWalk(p, 35, 17, 1, NO_TTL) == None;
  }
}
