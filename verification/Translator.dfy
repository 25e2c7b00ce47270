/**
  The 4via6 translator as the firmware runs it: packets built byte by byte in a
  buffer, flows remembered and looked up in place.
*/
module Translator {
  import opened Words
  import opened Arithmetic
  import opened Checksum
  import opened FlowTable
  import opened FourVia6

  // ----- writing into a buffer

  method Write16(a: array<byte>, k: nat, v: u16)
    requires k + 1 < a.Length
    modifies a
    ensures a[..] == Put16(old(a[..]), k, v)
  {
    a[k] := v / 0x100;
    a[k + 1] := v % 0x100;
  }

  /** pbuf_copy_partial */
  method CopyInto(a: array<byte>, at: nat, src: seq<byte>)
    requires at + |src| <= a.Length
    modifies a
    ensures forall i :: 0 <= i < a.Length ==> a[i] == if at <= i < at + |src| then src[i - at] else old(a[i])
  {
    var i := 0;
    while i < |src|
      invariant 0 <= i <= |src|
      invariant forall j :: 0 <= j < a.Length ==> a[j] == if at <= j < at + i then src[j - at] else old(a[j])
    {
      a[at + i] := src[i];
      i := i + 1;
    }
  }

  lemma PutBehind(a: seq<byte>, b: seq<byte>, k: nat, v: u16)
    requires k + 1 < |b|
    ensures Put16(a + b, |a| + k, v) == a + Put16(b, k, v)
  {
  }

  // ----- checksums over a pseudo-header

  method ChecksumV4(src: u32, dst: u32, protocol: byte, payload: seq<byte>) returns (c: u16)
    requires |payload| < 0x1_0000
    ensures c == Complement(Sum(PseudoHeader4(src, dst, protocol, |payload|)) + Sum(payload))
  {
    hide Sum, Complement;
    var sum := ChecksumAdd(0, PseudoHeader4(src, dst, protocol, |payload|));
    SumFits(PseudoHeader4(src, dst, protocol, |payload|), payload);
    sum := ChecksumAdd(sum, payload);
    c := ChecksumFinish(sum);
  }

  lemma SumFits(a: seq<byte>, b: seq<byte>)
    requires |a| <= 48 && |b| < 0x1_0000
    ensures Sum(a) + Sum(b) < 0x1_0000_0000 && Sum(a) <= 0x30_0000
  {
  }

  method ChecksumV6(src: seq<byte>, dst: seq<byte>, next: byte, payload: seq<byte>) returns (c: u16)
    requires |src| == 16 && |dst| == 16 && |payload| < 0x1_0000
    ensures c == Complement(Base6(src, dst, |payload|, next) + Sum(payload))
  {
    hide Sum, Complement;
    SumFits(src, payload);
    SumFits(dst, payload);
    SumFits(PseudoTail6(|payload|, next), []);
    SumIsSmall(payload);
    var sum := ChecksumAdd(0, src);
    sum := ChecksumAdd(sum, dst);
    sum := ChecksumAdd(sum, PseudoTail6(|payload|, next));
    sum := ChecksumAdd(sum, payload);
    c := ChecksumFinish(sum);
  }

  lemma SumIsSmall(b: seq<byte>)
    requires |b| < 0x1_0000
    ensures Sum(b) <= 0xff00_0000
  {
  }

  // ----- one checksum field in a buffer

  /** Zeroes the field at offset k of the payload behind front, then fills in what c completes. */
  ghost predicate Holds(a: array<byte>, front: seq<byte>, body: seq<byte>)
    reads a
  {
    a[..] == front + body
  }

  method PutField(a: array<byte>, ghost front: seq<byte>, ghost body: seq<byte>, at: nat, k: nat, v: u16)
    requires |front| == at && k + 1 < |body| && Holds(a, front, body)
    modifies a
    ensures Holds(a, front, Put16(body, k, v))
  {
    PutBehind(front, body, k, v);
    assert a.Length == |front + body|;
    Write16(a, at + k, v);
  }

  method TcpUdp4(a: array<byte>, ghost front: seq<byte>, ghost payload: seq<byte>, next: byte, src: u32, dst: u32)
    requires |front| == 20 && Holds(a, front, payload)
    requires next in {6, 17} && 8 <= |payload| < 0x1_0000 && (next == 6 ==> |payload| >= 20)
    modifies a
    ensures Holds(a, front, Body4(payload, next, src, dst))
  {
    hide Sum, Complement, Put16, PseudoHeader4;
    var offset := if next == 6 then 16 else 6;
    PutField(a, front, payload, 20, offset, 0);
    BodyOf(a, front, Put16(payload, offset, 0));
    var check := ChecksumV4(src, dst, next, a[20..]);
    if next == 17 && check == 0 {
      check := 0xffff;
    }
    PutField(a, front, Put16(payload, offset, 0), 20, offset, check);
    PutTwice(payload, offset, check);
  }

  lemma BodyOf(a: array<byte>, front: seq<byte>, body: seq<byte>)
    requires Holds(a, front, body)
    ensures a.Length == |front| + |body| && a[|front|..] == body
  {
    assert a[|front|..] == a[..][|front|..];
  }

  lemma PutTwice(s: seq<byte>, k: nat, v: u16)
    requires k + 1 < |s|
    ensures Put16(Put16(s, k, 0), k, v) == Put16(s, k, v)
  {
  }

  method Icmp4(a: array<byte>, ghost front: seq<byte>, ghost payload: seq<byte>)
    requires |front| == 20 && Holds(a, front, payload) && 8 <= |payload| < 0x1_0000
    modifies a
    ensures Holds(a, front, Body4(payload, 58, 0, 0))
  {
    hide Sum, Complement, Put16;
    BodyOf(a, front, payload);
    ghost var typed := payload[0 := if payload[0] == 128 then 8 else 0];
    assert a[20] == payload[0];
    a[20] := if a[20] == 128 then 8 else 0;
    assert Holds(a, front, typed);
    PutField(a, front, typed, 20, 2, 0);
    BodyOf(a, front, Put16(typed, 2, 0));
    var check := ChecksumPlain(a[20..]);
    PutField(a, front, Put16(typed, 2, 0), 20, 2, check);
    PutTwice(typed, 2, check);
  }

  lemma BareBytes(tos: byte, length: u16, ident: u16, ttl: byte, protocol: byte, src: u32, dst: u32)
    ensures var h := BareHeader4(tos, length, ident, ttl, protocol, src, dst);
      && h[..10] == [0x45, tos, length / 0x100, length % 0x100, ident / 0x100, ident % 0x100, 0x40, 0, ttl, protocol]
      && h[10] == 0 && h[11] == 0 && h[12..16] == Bytes32(src) && h[16..] == Bytes32(dst)
  {
    hide Bytes32;
  }

  method Header4(a: array<byte>, ghost body: seq<byte>, tos: byte, ident: u16, ttl: byte, protocol: byte, src: u32, dst: u32)
    requires 20 <= a.Length < 0x1_0000 && Holds(a, seq(20, _ => 0), body)
    modifies a
    ensures Holds(a, Sealed(BareHeader4(tos, a.Length, ident, ttl, protocol, src, dst), 10, 0), body)
  {
    hide Sum, Complement, Put16, BareHeader4, Bytes32;
    BodyOf(a, seq(20, _ => 0), body);
    BareBytes(tos, a.Length, ident, ttl, protocol, src, dst);
    ghost var bare := BareHeader4(tos, a.Length, ident, ttl, protocol, src, dst);
    CopyInto(a, 0, [0x45, tos, a.Length / 0x100, a.Length % 0x100, ident / 0x100, ident % 0x100, 0x40, 0, ttl, protocol]);
    CopyInto(a, 12, Bytes32(src));
    CopyInto(a, 16, Bytes32(dst));
    Bare(a, bare, body, Bytes32(src), Bytes32(dst));
    var check := ChecksumPlain(a[..20]);
    Write16(a, 10, check);
    FrontPut(bare, body, 10, check);
    PutZero(bare);
  }

  lemma Bare(a: array<byte>, bare: seq<byte>, body: seq<byte>, src: seq<byte>, dst: seq<byte>)
    requires a.Length == 20 + |body| && |bare| == 20 && |src| == 4 && |dst| == 4
    requires forall i :: 0 <= i < 10 ==> a[i] == bare[..10][i]
    requires a[10] == bare[10] && a[11] == bare[11]
    requires bare[12..16] == src && bare[16..] == dst
    requires forall i :: 12 <= i < 16 ==> a[i] == src[i - 12]
    requires forall i :: 16 <= i < 20 ==> a[i] == dst[i - 16]
    requires forall i :: 20 <= i < a.Length ==> a[i] == body[i - 20]
    ensures a[..20] == bare && Holds(a, bare, body)
  {
    assert forall i :: 12 <= i < 16 ==> src[i - 12] == bare[i];
    assert forall i :: 16 <= i < 20 ==> dst[i - 16] == bare[i];
    assert forall i :: 0 <= i < 20 ==> a[i] == bare[i];
  }

  lemma FrontPut(a: seq<byte>, b: seq<byte>, k: nat, v: u16)
    requires k + 1 < |a|
    ensures Put16(a + b, k, v) == Put16(a, k, v) + b
  {
  }

  lemma PutZero(s: seq<byte>)
    requires |s| == 20 && s[10] == 0 && s[11] == 0
    ensures Put16(s, 10, 0) == s
  {
  }

  class Translator {
    var config: Config
    const flows: array<Flow>

    ghost predicate Valid()
      reads this, flows
    {
      ValidConfig(config) && flows.Length == FLOW_COUNT && forall i :: 0 <= i < FLOW_COUNT ==> |flows[i].client| == 16
    }

    /** fourvia6_init with a stored configuration: no flows yet. */
    constructor (config: Config)
      requires ValidConfig(config)
      ensures Valid() && this.config == config && forall i :: 0 <= i < FLOW_COUNT ==> !flows[i].valid
    {
      this.config := config;
      flows := new Flow[FLOW_COUNT](_ => Flow(false, FiveTuple(0, 0, 0, 0, 0), seq(16, _ => 0), 0));
    }

    /** fourvia6_translate_wg_input */
    method TranslateInput(packet: Packet, peer: u32, ident: u16, now: Time) returns (r: InputResult)
      requires Valid()
      modifies flows
      ensures Valid() && r == InputVerdict(config, packet, peer, ident)
      ensures r.Forwarded? ==> Remembered(old(flows[..]), flows[..], TupleOf(packet, peer), packet[8..24], now)
      ensures !r.Forwarded? ==> flows[..] == old(flows[..])
    {
      hide Sum, Complement, Special, Masked, Read32, SlotFor, Body4, Sealed;
      if !Ours(config, packet) {
        return NotOurs;
      }
      var payloadLen := PayloadLen(packet);
      if !Acceptable(config, packet, peer) {
        return Dropped;
      }
      if !Carriable(packet) {
        return Swallowed;
      }
      var v4 := Build4(packet, peer, ident);
      FlowRemember(flows, packet[8..24], TupleOf(packet, peer), now);
      r := Forwarded(v4);
    }

    /** fourvia6_translate_wg_output */
    method TranslateOutput(packet: Packet, now: Time) returns (r: OutputResult)
      requires Valid()
      modifies flows
      ensures Valid()
      ensures !config.enabled || !Returnable(packet) ==> r == Passed && flows[..] == old(flows[..])
      ensures config.enabled && Returnable(packet) ==>
        SentBack(old(flows[..]), flows[..], config, packet, now, r)
    {
      hide Read32, V6Of, FirstLive, ValidConfig;
      if !config.enabled || !Returnable(packet) {
        return Passed;
      }
      var found := FlowLookup(flows, ReplyTuple(packet), now);
      ClientsKept(old(flows[..]), flows[..], ReplyTuple(packet), now, found);
      if found.None? {
        r := Passed;
      } else if !Fits(packet) {
        r := Oversized;
      } else {
        var v6 := Build6(config.site, packet, found.value.client);
        r := Sent(v6);
      }
      assert Answered(old(flows[..]), flows[..], ReplyTuple(packet), now, found) && ClientOk(found) &&
             r == OutputVerdict(config, packet, found);
    }
  }

  ghost predicate ClientOk(found: Option<Flow>) {
    found.Some? ==> |found.value.client| == 16
  }

  /** The reply went by what the flow table answered. */
  ghost predicate SentBack(was: seq<Flow>, now: seq<Flow>, c: Config, q: Packet, time: Time, r: OutputResult)
    requires Returnable(q)
  {
    exists found ::
      Answered(was, now, ReplyTuple(q), time, found) && ClientOk(found) && r == OutputVerdict(c, q, found)
  }

  lemma ClientsKept(was: seq<Flow>, now: seq<Flow>, t: FiveTuple, time: Time, found: Option<Flow>)
    requires Answered(was, now, t, time, found) && forall i :: 0 <= i < |was| ==> |was[i].client| == 16
    ensures |now| == |was| && (forall i :: 0 <= i < |now| ==> |now[i].client| == 16) && ClientOk(found)
  {
  }

  method Build6(site: u16, packet: Packet, client: seq<byte>) returns (v6: seq<byte>)
    requires Returnable(packet) && Fits(packet) && |client| == 16
    ensures v6 == V6Of(site, packet, client)
  {
    hide Sum, Complement, Read32, Sealed, SealedUdp, Put16, Header6, Bytes32;
    var ihl := HeaderLen(packet);
    var n := TotalLen(packet) - ihl;
    var src := SiteAddress(site, Read32(packet, 12));
    ghost var payload := packet[ihl..TotalLen(packet)];
    var bytes := new byte[40 + n](_ => 0);
    CopyInto(bytes, 40, packet[ihl..ihl + n]);
    var header := Header6(site, packet, client);
    CopyInto(bytes, 0, header);
    assert Holds(bytes, header, payload);
    Body6In(bytes, header, payload, packet[9], src, client);
    v6 := bytes[..];
  }

  method Body6In(a: array<byte>, ghost front: seq<byte>, ghost payload: seq<byte>, protocol: byte,
                 src: seq<byte>, dst: seq<byte>)
    requires |front| == 40 && Holds(a, front, payload) && |src| == 16 && |dst| == 16
    requires protocol in {1, 6, 17} && 8 <= |payload| < 0x1_0000 && (protocol == 6 ==> |payload| >= 18)
    modifies a
    ensures Holds(a, front, Body6(payload, protocol, src, dst))
  {
    hide Sum, Complement, Put16, Base6;
    BodyOf(a, front, payload);
    ghost var typed := payload;
    if protocol == 1 {
      assert a[40] == payload[0];
      a[40] := if a[40] == 0 then 129 else 128;
      typed := payload[0 := if payload[0] == 0 then 129 else 128];
    }
    assert Holds(a, front, typed);
    var offset := if protocol == 6 then 16 else if protocol == 17 then 6 else 2;
    PutField(a, front, typed, 40, offset, 0);
    BodyOf(a, front, Put16(typed, offset, 0));
    var check := ChecksumV6(src, dst, if protocol == 1 then 58 else protocol, a[40..]);
    if protocol == 17 && check == 0 {
      check := 0xffff;
    }
    PutField(a, front, Put16(typed, offset, 0), 40, offset, check);
    PutTwice(typed, offset, check);
  }

  method Build4(packet: Packet, peer: u32, ident: u16) returns (v4: seq<byte>)
    requires |packet| >= 40 && |packet| >= 40 + PayloadLen(packet) && Carriable(packet)
    requires packet[7] > 1 && packet[6] in {6, 17, 58}
    ensures v4 == V4Of(packet, peer, ident)
  {
    hide Sum, Complement, Read32, Sealed, SealedUdp, Put16, BareHeader4;
    var n := PayloadLen(packet);
    ghost var zeros := seq(20, _ => 0 as byte);
    ghost var payload := packet[40..40 + n];
    var bytes := new byte[20 + n](_ => 0);
    CopyInto(bytes, 20, packet[40..40 + n]);
    assert Holds(bytes, zeros, payload);
    if packet[6] == 6 || packet[6] == 17 {
      TcpUdp4(bytes, zeros, payload, packet[6], peer, TargetOf(packet));
    } else {
      Icmp4(bytes, zeros, payload);
    }
    Header4(bytes, Body4(payload, packet[6], peer, TargetOf(packet)), packet[0] % 0x10, ident, packet[7] - 1,
            if packet[6] == 58 then 1 else packet[6], peer, TargetOf(packet));
    v4 := bytes[..];
  }
}
