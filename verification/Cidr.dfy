/** The two printers and parsers of networks in text: the packet filter's and the forwarding rules'. */
module Cidr {
  import opened Words
  import opened Arithmetic

  // ----- numbers in text

  predicate IsDigit(c: char) {
    '0' <= c <= '9'
  }

  predicate IsSpace(c: char) {
    c == ' ' || 9 as char <= c <= 13 as char
  }

  function DigitOf(d: nat): (c: char)
    requires d < 10
    ensures IsDigit(c) && ValueOf(c) == d
  {
    '0' + d as char
  }

  function ValueOf(c: char): (d: nat)
    requires IsDigit(c)
    ensures d < 10
  {
    (c - '0') as int
  }

  /** %u */
  function Decimal(n: nat): (s: string)
    ensures 1 <= |s| && forall k :: 0 <= k < |s| ==> IsDigit(s[k])
    ensures n < 10 ==> |s| == 1
    ensures n < 1000 ==> |s| <= 3
  {
    if n < 10 then [DigitOf(n)] else Decimal(n / 10) + [DigitOf(n % 10)]
  }

  /** The digits at the front of s, read after acc, and what follows them. */
  function ReadDigits(s: string, acc: nat): (r: (nat, string))
    decreases |s|
  {
    if s == "" || !IsDigit(s[0]) then (acc, s) else ReadDigits(s[1..], acc * 10 + ValueOf(s[0]))
  }

  /** strtol in base 10: white space, a sign, digits; nothing is consumed when there is no digit. */
  function Strtol(s: string): (int, string) {
    var t := SkipSpace(s);
    var negative := t != "" && t[0] == '-';
    var u := if t != "" && (t[0] == '-' || t[0] == '+') then t[1..] else t;
    if u == "" || !IsDigit(u[0]) then (0, s)
    else
      var (n, rest) := ReadDigits(u, 0);
      (if negative then 0 as int - n else n, rest)
  }

  function SkipSpace(s: string): string {
    if s != "" && IsSpace(s[0]) then SkipSpace(s[1..]) else s
  }

  lemma {:induction false} ReadDigitsAppend(s: string, c: char, rest: string, acc: nat)
    requires forall k :: 0 <= k < |s| ==> IsDigit(s[k])
    requires IsDigit(c) && (rest == "" || !IsDigit(rest[0]))
    ensures ReadDigits(s, acc).1 == ""
    ensures ReadDigits(s + [c] + rest, acc) == (ReadDigits(s, acc).0 * 10 + ValueOf(c), rest)
    decreases |s|
  {
    if s == "" {
      assert ([c] + rest)[1..] == rest;
      assert s + [c] + rest == [c] + rest;
    } else {
      assert (s + [c] + rest)[1..] == s[1..] + [c] + rest;
      ReadDigitsAppend(s[1..], c, rest, acc * 10 + ValueOf(s[0]));
    }
  }

  /** A printed number reads back, whatever non-digit follows. */
  lemma {:induction false} ReadsBack(n: nat, rest: string)
    requires rest == "" || !IsDigit(rest[0])
    ensures ReadDigits(Decimal(n) + rest, 0) == (n, rest)
  {
    if n < 10 {
      ReadDigitsAppend("", DigitOf(n), rest, 0);
      assert "" + [DigitOf(n)] + rest == Decimal(n) + rest;
    } else {
      var s := Decimal(n / 10);
      ReadsBack(n / 10, "");
      assert s + "" == s;
      ReadDigitsAppend(s, DigitOf(n % 10), rest, 0);
      assert Decimal(n) + rest == s + [DigitOf(n % 10)] + rest;
    }
  }

  lemma StrtolReadsBack(n: nat)
    ensures Strtol(Decimal(n)) == (n, "")
  {
    ReadsBack(n, "");
    assert Decimal(n) + "" == Decimal(n);
    assert IsDigit(Decimal(n)[0]);
  }

  /** A number is read behind any white space, with its sign, up to the first character that is no digit. */
  lemma StrtolReads(space: string, sign: string, n: nat, rest: string)
    requires forall c <- space :: c in " \t\n\r" || c == 11 as char || c == 12 as char
    requires sign in {"", "+", "-"} && (rest == "" || !IsDigit(rest[0]))
    ensures Strtol(space + (sign + Decimal(n) + rest)) == (if sign == "-" then 0 - n else n, rest)
  {
    hide Decimal, Strtol, SkipSpace;
    var u := sign + Decimal(n) + rest;
    SkipsSpace(space, u);
    SignedReads(space + u, u, sign, n, rest);
  }

  lemma SignedReads(s: string, u: string, sign: string, n: nat, rest: string)
    requires SkipSpace(s) == u == sign + Decimal(n) + rest
    requires sign in {"", "+", "-"} && (rest == "" || !IsDigit(rest[0]))
    ensures Strtol(s) == (if sign == "-" then 0 - n else n, rest)
  {
    hide Decimal, ReadDigits, SkipSpace;
    var d := Decimal(n) + rest;
    ReadsBack(n, rest);
    assert u == sign + d && d[0] == Decimal(n)[0] && u[|sign|..] == d;
  }

  lemma {:induction false} SkipsSpace(space: string, u: string)
    requires forall c <- space :: c in " \t\n\r" || c == 11 as char || c == 12 as char
    requires u != "" && (IsDigit(u[0]) || u[0] in "+-")
    ensures SkipSpace(space + u) == u
  {
    if space == "" {
      assert space + u == u;
    } else {
      assert space[0] in space && (space + u)[1..] == space[1..] + u;
      SkipsSpace(space[1..], u);
    }
  }

  // ----- addresses in text

  function Octet(ip: u32, k: nat): byte
    requires k < 4
  {
    Bytes32(ip)[k]
  }

  /** %u.%u.%u.%u */
  function Dotted(ip: u32): (s: string)
    ensures 7 <= |s| <= 15 && forall k :: 0 <= k < |s| ==> IsDigit(s[k]) || s[k] == '.'
  {
    Decimal(Octet(ip, 0)) + "." + Decimal(Octet(ip, 1)) + "." + Decimal(Octet(ip, 2)) + "." + Decimal(Octet(ip, 3))
  }

  /** All the parsers need of lwIP's ip4addr_aton: it reads back a dotted quad. */
  ghost predicate ReadsDotted(aton: string -> Option<u32>) {
    forall ip: u32 :: aton(Dotted(ip)) == Some(ip)
  }

  /** Where the first c is, or the length. */
  function IndexOf(s: string, c: char): (i: nat)
    ensures i <= |s| && (i < |s| ==> s[i] == c) && forall k :: 0 <= k < i ==> s[k] != c
  {
    if s == "" || s[0] == c then 0 else 1 + IndexOf(s[1..], c)
  }

  lemma IndexOfIs(s: string, c: char, i: nat)
    requires i <= |s| && (i < |s| ==> s[i] == c) && forall k :: 0 <= k < i ==> s[k] != c
    ensures IndexOf(s, c) == i
  {
  }

  // ----- masks

  function MaskOf(prefixLen: nat): u32
    requires prefixLen <= 32
  {
    Pow2Divides(32 - prefixLen, 32);
    Pow2Of32();
    TWO32 - Pow2(32 - prefixLen)
  }

  function Ones(m: nat): nat {
    if m == 0 then 0 else m % 2 + Ones(m / 2)
  }

  /** count_bits */
  method CountBits(mask: u32) returns (count: nat)
    ensures count == Ones(mask)
  {
    var m: nat := mask;
    count := 0;
    while m != 0
      invariant count + Ones(m) == Ones(mask)
    {
      count := count + m % 2;
      m := m / 2;
    }
  }

  lemma {:induction false} OnesShift(a: nat, k: nat)
    ensures Ones(a * Pow2(k)) == Ones(a)
    decreases k
  {
    if k > 0 {
      var b := a * Pow2(k - 1);
      assert a * Pow2(k) == 2 * b by {
        MulAssoc(a, 2, Pow2(k - 1));
      }
      OnesDouble(b);
      OnesShift(a, k - 1);
    }
  }

  lemma OnesDouble(b: nat)
    ensures Ones(2 * b) == Ones(b)
  {
    if b > 0 {
      assert (2 * b) % 2 == 0 && (2 * b) / 2 == b;
    }
  }

  lemma {:induction false} OnesAll(k: nat)
    ensures Ones(Pow2(k) - 1) == k
  {
    if k > 0 {
      var b := Pow2(k - 1) - 1;
      assert Pow2(k) - 1 == 2 * b + 1;
      assert (2 * b + 1) % 2 == 1 && (2 * b + 1) / 2 == b;
      OnesAll(k - 1);
    }
  }

  /** The mask of a prefix length has that many bits. */
  lemma MaskHasBits(p: nat)
    requires p <= 32
    ensures Ones(MaskOf(p)) == p
  {
    Pow2Split(p, 32 - p);
    Pow2Of32();
    LessOne(Pow2(p), Pow2(32 - p));
    OnesShift(Pow2(p) - 1, 32 - p);
    OnesAll(p);
  }

  lemma LessOne(a: nat, b: nat)
    ensures (a - 1) * b == a * b - b
  {
  }

  lemma {:induction false} Pow2Split(a: nat, b: nat)
    ensures Pow2(a + b) == Pow2(a) * Pow2(b)
    decreases a
  {
    if a > 0 {
      Pow2Split(a - 1, b);
      MulAssoc(2, Pow2(a - 1), Pow2(b));
    }
  }

  /** Bitwise and. */
  function And(a: nat, b: nat): nat {
    if a == 0 then 0 else 2 * And(a / 2, b / 2) + if a % 2 == 1 && b % 2 == 1 then 1 else 0
  }

  /** Below a zero bit of b the bits of a are lost. */
  lemma AndDouble(u: nat, r: nat, b: nat)
    ensures And(2 * u + r, 2 * b) == 2 * And(u + r / 2, b)
  {
    var a := 2 * u + r;
    assert (2 * b) % 2 == 0 && (2 * b) / 2 == b && a / 2 == u + r / 2;
  }

  lemma Twice(a: nat, m: nat)
    ensures a * (2 * m) == 2 * (a * m)
  {
  }

  lemma AndStep(q: nat, r: nat, b: nat, m: nat)
    ensures And(q * (2 * m) + r, b * (2 * m)) == 2 * And(q * m + r / 2, b * m)
  {
    hide And;
    Twice(q, m);
    Twice(b, m);
    AndDouble(q * m, r, b * m);
  }

  lemma Pow2Step(k: nat)
    requires k > 0
    ensures Pow2(k) == 2 * Pow2(k - 1)
  {
  }

  lemma {:induction false} AndShift(q: nat, r: nat, b: nat, k: nat)
    requires r < Pow2(k)
    ensures And(q * Pow2(k) + r, b * Pow2(k)) == And(q, b) * Pow2(k)
    decreases k
  {
    hide And, Pow2;
    if k > 0 {
      var m := Pow2(k - 1);
      Pow2Step(k);
      AndShift(q, r / 2, b, k - 1);
      AndStep(q, r, b, m);
      Twice(And(q, b), m);
    } else {
      AndWhole(q, r, b);
    }
  }

  lemma AndWhole(q: nat, r: nat, b: nat)
    requires r < Pow2(0)
    ensures And(q * Pow2(0) + r, b * Pow2(0)) == And(q, b) * Pow2(0)
  {
  }

  lemma {:induction false} AndOnes(a: nat, k: nat)
    requires a < Pow2(k)
    ensures And(a, Pow2(k) - 1) == a
  {
    if k > 0 {
      var b := Pow2(k - 1) - 1;
      assert Pow2(k) - 1 == 2 * b + 1;
      assert (2 * b + 1) % 2 == 1 && (2 * b + 1) / 2 == b;
      AndOnes(a / 2, k - 1);
    }
  }

  /** And with the mask is what clears the bits behind the prefix. */
  lemma MaskLeavesPrefix(ip: u32, p: nat)
    requires p <= 32
    ensures And(ip, MaskOf(p)) == Masked(ip, p)
  {
    hide And, Pow2, Masked;
    var m, q := Pow2(32 - p), ip / Pow2(32 - p);
    MaskedAligns(ip, p);
    Pow2Split(p, 32 - p);
    Pow2Of32();
    LessOne(Pow2(p), m);
    QuotientFits(ip, m, Pow2(p));
    AndShift(q, ip % m, Pow2(p) - 1, 32 - p);
    AndOnes(q, p);
  }

  lemma QuotientFits(a: nat, m: nat, k: nat)
    requires m > 0 && a < k * m
    ensures 0 <= a / m < k && a == a / m * m + a % m
  {
    var q := a / m;
    assert a == m * q + a % m;
    if q >= k {
      MulMono(m, k, q);
    }
    if q <= -1 {
      MulMono(m, q, -1);
    }
  }

  // ----- the packet filter's text form

  datatype Net = Net(ip: u32, mask: u32)

  /** acl_format_ip */
  function FormatIp(n: Net): string {
    if n.ip == 0 && n.mask == 0 then "any"
    else if n.mask == 0xFFFF_FFFF then Dotted(n.ip)
    else Dotted(n.ip) + "/" + Decimal(Ones(n.mask))
  }

  function Lower(c: char): char {
    if 'A' <= c <= 'Z' then c + 32 as char else c
  }

  /** strcasecmp with "any" */
  predicate IsAny(s: string) {
    |s| == 3 && Lower(s[0]) == 'a' && Lower(s[1]) == 'n' && Lower(s[2]) == 'y'
  }

  /** acl_parse_ip; only the first 31 characters are looked at. */
  function ParseIp(s: string, aton: string -> Option<u32>): Option<Net> {
    if IsAny(s) then Some(Net(0, 0))
    else
      var t := if |s| > 31 then s[..31] else s;
      var slash := IndexOf(t, '/');
      var cidr := if slash < |t| then Strtol(t[slash + 1..]).0 else 32;
      if cidr < 0 || cidr > 32 then None
      else
        match aton(t[..slash])
        case None => None
        case Some(ip) => Some(Net(Masked(ip, cidr), MaskOf(cidr)))
  }

  /** Whatever is accepted is a contiguous mask and an address without bits outside it. */
  lemma ParsedIsMasked(s: string, aton: string -> Option<u32>) returns (p: nat)
    requires ParseIp(s, aton).Some?
    ensures var n := ParseIp(s, aton).value; p <= 32 && n == Net(Masked(n.ip, p), MaskOf(p))
  {
    hide Masked, MaskOf, Strtol, IndexOf;
    if IsAny(s) {
      p := 0;
      AnyIsMasked();
    } else {
      var t := if |s| > 31 then s[..31] else s;
      var slash := IndexOf(t, '/');
      p := if slash < |t| then Strtol(t[slash + 1..]).0 else 32;
      MaskedTwice(aton(t[..slash]).value, p);
    }
  }

  lemma AnyIsMasked()
    ensures Masked(0, 0) == 0 && MaskOf(0) == 0
  {
    Pow2Of32();
  }

  lemma MaskedTwice(ip: u32, p: nat)
    requires p <= 32
    ensures Masked(Masked(ip, p), p) == Masked(ip, p)
  {
    hide Masked, AlignDown, Pow2;
    MaskedAligns(ip, p);
    MaskedAligns(Masked(ip, p), p);
    AlignedTwice(ip, Pow2(32 - p));
  }

  lemma AlignedTwice(x: nat, m: nat)
    requires m > 0
    ensures AlignDown(AlignDown(x, m), m) == AlignDown(x, m)
  {
    assert x == m * (x / m) + x % m;
    DivModUnique(m * (x / m), m, x / m, 0);
  }

  /** Parsing what was printed gives the network back, for every address and prefix length. */
  lemma AclRoundTrip(ip: u32, p: nat, aton: string -> Option<u32>)
    requires p <= 32 && ReadsDotted(aton)
    ensures ParseIp(FormatIp(Net(Masked(ip, p), MaskOf(p))), aton) == Some(Net(Masked(ip, p), MaskOf(p)))
  {
    hide Dotted, Strtol, Decimal, Ones, Masked, MaskOf;
    var n := Net(Masked(ip, p), MaskOf(p));
    MaskExtremes(p);
    MaskHasBits(p);
    MaskedTwice(ip, p);
    if n.ip == 0 && n.mask == 0 {
      AnyText();
    } else {
      DottedSlash(n.ip, Decimal(p));
      StrtolReadsBack(p);
      assert aton(Dotted(n.ip)) == Some(n.ip);
    }
  }

  /** The word is read in any mix of cases. */
  lemma AnyInAnyCase(s: string, aton: string -> Option<u32>)
    requires |s| == 3 && s[0] in "aA" && s[1] in "nN" && s[2] in "yY"
    ensures ParseIp(s, aton) == Some(Net(0, 0))
  {
  }

  lemma AnyText()
    ensures IsAny("any")
  {
  }

  lemma MaskExtremes(p: nat)
    requires p <= 32
    ensures MaskOf(p) == 0 <==> p == 0
    ensures MaskOf(p) == 0xFFFF_FFFF <==> p == 32
  {
    Pow2Of32();
    if p < 32 {
      Pow2Divides(1, 32 - p);
    }
    if p > 0 {
      Pow2Divides(32 - p, 31);
      assert Pow2(32) == 2 * Pow2(31);
    }
  }

  /** A dotted quad ends at the first slash and leaves room for a short suffix. */
  lemma DottedSlash(ip: u32, suffix: string)
    ensures var d := Dotted(ip); var t := d + "/" + suffix;
      && !IsAny(d) && !IsAny(t) && |d| <= 15
      && IndexOf(d, '/') == |d| && IndexOf(t, '/') == |d| && t[..|d|] == d && t[|d| + 1..] == suffix
      && d[..|d|] == d
  {
    hide Dotted;
    var d := Dotted(ip);
    IndexOfIs(d, '/', |d|);
    IndexOfIs(d + "/" + suffix, '/', |d|);
  }

  /** Printing any accepted text and parsing it again gives the same network. */
  lemma AcceptedTextIsStable(s: string, aton: string -> Option<u32>)
    requires ReadsDotted(aton) && ParseIp(s, aton).Some?
    ensures ParseIp(FormatIp(ParseIp(s, aton).value), aton) == ParseIp(s, aton)
  {
    hide ReadsDotted, Masked, MaskOf, FormatIp, ParseIp;
    var n := ParseIp(s, aton).value;
    var p := ParsedIsMasked(s, aton);
    AclRoundTrip(n.ip, p, aton);
  }

  // ----- the forwarding rules' text form

  /** tailnet_forward_format_cidr */
  function FormatCidr(network: u32, p: nat): string {
    Dotted(network) + "/" + Decimal(p)
  }

  /** tailnet_forward_parse_cidr */
  function ParseCidr(s: string, aton: string -> Option<u32>): Option<(u32, nat)> {
    var t := if |s| > 31 then s[..31] else s;
    var slash := IndexOf(t, '/');
    if slash == |t| then None
    else
      var text := t[slash + 1..];
      var (p, rest) := Strtol(text);
      if text == "" || rest != "" || p < 0 || p > 32 then None
      else
        match aton(t[..slash])
        case None => None
        case Some(ip) => Some((Masked(ip, p), p))
  }

  /** Printing then parsing gives the masked network, so it is the identity exactly on masked networks. */
  lemma ForwardRoundTrip(network: u32, p: nat, aton: string -> Option<u32>)
    requires p <= 32 && ReadsDotted(aton)
    ensures ParseCidr(FormatCidr(network, p), aton) == Some((Masked(network, p), p))
    ensures ParseCidr(FormatCidr(network, p), aton) == Some((network, p)) <==> Masked(network, p) == network
  {
    hide Dotted, Strtol, Decimal, Masked;
    DottedSlash(network, Decimal(p));
    StrtolReadsBack(p);
    assert Decimal(p) != "" && |Decimal(p)| <= 3;
    assert aton(Dotted(network)) == Some(network);
  }

  /** A negative length is refused by both; text behind the length only by the forwarding rules. */
  lemma SuffixesDiffer(ip: u32, p: nat, sign: string, more: string, aton: string -> Option<u32>)
    requires 1 <= p <= 32 && sign in {"", "-"} && |more| <= 10 && (more == "" || !IsDigit(more[0])) && ReadsDotted(aton)
    ensures var text := Dotted(ip) + "/" + (sign + Decimal(p) + more);
      && ParseIp(text, aton) == (if sign == "-" then None else Some(Net(Masked(ip, p), MaskOf(p))))
      && ParseCidr(text, aton) == (if sign == "-" || more != "" then None else Some((Masked(ip, p), p)))
  {
    hide Dotted, Strtol, Decimal, Masked, MaskOf;
    var suffix := sign + Decimal(p) + more;
    DottedSlash(ip, suffix);
    StrtolReads("", sign, p, more);
    assert "" + suffix == suffix && suffix != "" && |suffix| <= 14;
    assert aton(Dotted(ip)) == Some(ip);
  }

  // ----- some reader of dotted quads exists

  /** Four decimal numbers below 256, separated by dots. */
  function ReadQuad(s: string): Option<u32> {
    var (a, s1) := ReadDigits(s, 0);
    if s1 == "" || s1[0] != '.' then None
    else
      var (b, s2) := ReadDigits(s1[1..], 0);
      if s2 == "" || s2[0] != '.' then None
      else
        var (c, s3) := ReadDigits(s2[1..], 0);
        if s3 == "" || s3[0] != '.' then None
        else
          var (d, s4) := ReadDigits(s3[1..], 0);
          if s4 != "" || a > 255 || b > 255 || c > 255 || d > 255 then None else Some(Be32(a, b, c, d))
  }

  /** Dotted quads are unambiguous: reading the four numbers gives the address back. */
  lemma QuadReadsDotted()
    ensures ReadsDotted(ReadQuad)
  {
    hide ReadQuad, Dotted;
    forall ip: u32
      ensures ReadQuad(Dotted(ip)) == Some(ip)
    {
      QuadReads(ip);
    }
  }

  lemma QuadReads(ip: u32)
    ensures ReadQuad(Dotted(ip)) == Some(ip)
  {
    hide ReadDigits, Decimal, Octet, ReadQuad, Be32;
    var a, b, c, d := Octet(ip, 0), Octet(ip, 1), Octet(ip, 2), Octet(ip, 3);
    var t3 := Decimal(d);
    var t2 := Decimal(c) + ("." + t3);
    var t1 := Decimal(b) + ("." + t2);
    assert Dotted(ip) == Decimal(a) + ("." + t1);
    ReadsBack(a, "." + t1);
    ReadsBack(b, "." + t2);
    ReadsBack(c, "." + t3);
    ReadsBack(d, "");
    assert t3 + "" == t3;
    QuadIs(Dotted(ip), t1, t2, t3, a, b, c, d);
    OctetsBack(ip);
  }

  lemma QuadIs(s: string, t1: string, t2: string, t3: string, a: byte, b: byte, c: byte, d: byte)
    requires ReadDigits(s, 0) == (a, "." + t1) && ReadDigits(t1, 0) == (b, "." + t2)
    requires ReadDigits(t2, 0) == (c, "." + t3) && ReadDigits(t3, 0) == (d, "")
    ensures ReadQuad(s) == Some(Be32(a, b, c, d))
  {
    hide ReadDigits, Be32;
    assert ("." + t1)[1..] == t1 && ("." + t2)[1..] == t2 && ("." + t3)[1..] == t3;
  }

  lemma OctetsBack(ip: u32)
    ensures Be32(Octet(ip, 0), Octet(ip, 1), Octet(ip, 2), Octet(ip, 3)) == ip
  {
    hide Be32, Bytes32;
    Bytes32Back(ip);
  }
}
