/** What the access list does with addresses as they are written. */
module AclBlocks {
  import opened Bytes
  import opened Acl

  /** Blanks in front are skipped, and one sign is read. */
  lemma {:induction false} AtoiSigned(n: nat, rest: seq<Byte>)
    requires rest == [] || !Digit(rest[0])
    ensures Atoi(['-' as int] + (Decimal(n) + rest)) == 0 - n as int && Atoi(['+' as int] + (Decimal(n) + rest)) == n
    ensures forall c: Byte, s | c == 32 || 9 <= c <= 13 :: Atoi([c] + s) == Atoi(s)
  {
    var s := Decimal(n) + rest;
    AccumulateDecimal(n, rest);
    assert (['-' as int] + s)[1..] == s && (['+' as int] + s)[1..] == s;
    forall c: Byte, s | c == 32 || 9 <= c <= 13
      ensures Atoi([c] + s) == Atoi(s)
    {
      assert ([c] + s)[1..] == s;
    }
  }

  // ----- Blocks -----

  predicate Quad(x: seq<Byte>) {
    |x| == 4
  }

  /** An address as it is printed, with the length of its block or none. */
  function Printed(x: seq<Byte>, end: seq<Byte>): seq<Byte>
    requires Quad(x)
  {
    PrintAddress(x[0], x[1], x[2], x[3], end)
  }

  /** The word that four octets are scanned as. */
  function Number(x: seq<Byte>): nat
    requires Quad(x)
  {
    Address(x[0], x[1], x[2], x[3])
  }

  /** The number of the first `k` octets. */
  function Prefix(x: seq<Byte>, k: nat): nat
    requires k <= |x|
  {
    if k == 0 then 0 else 256 * Prefix(x, k - 1) + x[k - 1]
  }

  lemma {:induction false} PrefixIff(x: seq<Byte>, y: seq<Byte>, k: nat)
    requires k <= |x| && k <= |y|
    ensures Prefix(x, k) == Prefix(y, k) <==> x[..k] == y[..k]
  {
    if k > 0 {
      PrefixIff(x, y, k - 1);
      assert x[..k] == x[..k - 1] + [x[k - 1]] && y[..k] == y[..k - 1] + [y[k - 1]];
    }
  }

  lemma {:induction false} NumberIs(x: seq<Byte>)
    requires Quad(x)
    ensures Number(x) == Prefix(x, 4)
  {
    assert Prefix(x, 1) == x[0];
    assert Prefix(x, 2) == 256 * x[0] as int + x[1];
    assert Prefix(x, 3) == 0x10000 * x[0] as int + 256 * x[1] as int + x[2];
  }

  /** The leading octets of an address are its quotient. */
  lemma {:induction false} PrefixShr(x: seq<Byte>, k: nat)
    requires Quad(x) && k <= 4
    ensures Shr(Number(x), 8 * (4 - k)) == Prefix(x, k)
    decreases 4 - k
  {
    if k == 4 {
      NumberIs(x);
    } else {
      PrefixShr(x, k + 1);
      ShrTwice(Number(x), 8 * (3 - k), 8);
      ShrOctet(Prefix(x, k), x[k]);
    }
  }

  lemma {:induction false} ShrTwice(a: nat, m: nat, n: nat)
    ensures Shr(a, m + n) == Shr(Shr(a, m), n)
    decreases m
  {
    if m > 0 { ShrTwice(a / 2, m - 1, n); }
  }

  lemma {:induction false} ShrOctet(q: nat, b: Byte)
    ensures Shr(256 * q + b, 8) == q
  {
    ShrDivides(256 * q + b, 8);
    QuotientIs(256 * q + b, 256, q, b);
    assert Pow2(8) == 256;
  }

  /** The same for the leading `r` bits of the next octet. */
  lemma {:induction false} ShrBits(q: nat, b: Byte, r: nat)
    requires r <= 8
    ensures Shr(256 * q + b, 8 - r) == Pow2(r) * q + Shr(b, 8 - r) && Shr(b, 8 - r) < Pow2(r)
    decreases 8 - r
  {
    if r == 8 {
      assert Pow2(8) == 256;
    } else {
      ShrBits(q, b, r + 1);
      ShrTwice(256 * q + b, 7 - r, 1);
      ShrTwice(b, 7 - r, 1);
      OneBit(Pow2(r), q, Shr(b, 7 - r));
    }
  }

  lemma {:induction false} OneBit(p: nat, q: nat, u: nat)
    ensures Shr(2 * p * q + u, 1) == p * q + Shr(u, 1)
    ensures u < 2 * p ==> Shr(u, 1) < p
  {
    var z := p * q;
    assert 2 * p * q == 2 * z;
    assert Shr(2 * z + u, 1) == Shr((2 * z + u) / 2, 0) && Shr(u, 1) == Shr(u / 2, 0);
    assert (2 * z + u) / 2 == z + u / 2;
  }

  lemma {:induction false} SameParts(m: nat, q: nat, u: nat, q': nat, u': nat)
    requires u < m && u' < m
    ensures m * q + u == m * q' + u' <==> q == q' && u == u'
  {
    QuotientIs(m * q + u, m, q, u);
    QuotientIs(m * q' + u', m, q', u');
  }

  /** A block of `8 * k + r` bits holds an address if and only if their first `k` octets are
      equal, and the leading `r` bits of the next. */
  lemma {:induction false} BlockOctets(x: seq<Byte>, y: seq<Byte>, k: nat, r: nat)
    requires Quad(x) && Quad(y) && k <= 4 && r < 8 && (k == 4 ==> r == 0)
    ensures Number(x) / Pow2(32 - 8 * k - r) == Number(y) / Pow2(32 - 8 * k - r) <==>
      x[..k] == y[..k] && (r > 0 ==> Shr(x[k], 8 - r) == Shr(y[k], 8 - r))
  {
    var n := 32 - 8 * k - r;
    ShrDivides(Number(x), n);
    ShrDivides(Number(y), n);
    PrefixIff(x, y, k);
    ShrIff(x, y, k, r);
  }

  lemma {:induction false} ShrIff(x: seq<Byte>, y: seq<Byte>, k: nat, r: nat)
    requires Quad(x) && Quad(y) && k <= 4 && r < 8 && (k == 4 ==> r == 0)
    ensures Shr(Number(x), 32 - 8 * k - r) == Shr(Number(y), 32 - 8 * k - r) <==>
      Prefix(x, k) == Prefix(y, k) && (r > 0 ==> Shr(x[k], 8 - r) == Shr(y[k], 8 - r))
  {
    if r == 0 {
      PrefixShr(x, k);
      PrefixShr(y, k);
    } else {
      LeadingBits(x, k, r);
      LeadingBits(y, k, r);
      SameParts(Pow2(r), Prefix(x, k), Shr(x[k], 8 - r), Prefix(y, k), Shr(y[k], 8 - r));
    }
  }

  lemma {:induction false} LeadingBits(x: seq<Byte>, k: nat, r: nat)
    requires Quad(x) && k < 4 && 0 < r < 8
    ensures Shr(Number(x), 32 - 8 * k - r) == Pow2(r) * Prefix(x, k) + Shr(x[k], 8 - r)
    ensures Shr(x[k], 8 - r) < Pow2(r)
  {
    PrefixShr(x, k + 1);
    ShrTwice(Number(x), 8 * (3 - k), 8 - r);
    ShrBits(Prefix(x, k), x[k], r);
  }

  /** The octets that a length covers are equal, and the bits it covers of the next one. */
  predicate SameLeading(x: seq<Byte>, y: seq<Byte>, len: nat)
    requires Quad(x) && Quad(y) && len <= 32
  {
    var k, r := len / 8, len % 8;
    x[..k] == y[..k] && (r > 0 ==> Shr(x[k], 8 - r) == Shr(y[k], 8 - r))
  }

  /** A length as it is printed behind an address, if it is. */
  function LengthText(length: Option<nat>): seq<Byte> {
    if length.Some? then [SLASH] + Decimal(length.value) else []
  }

  function Bits(length: Option<nat>): nat {
    if length.Some? then length.value else 32
  }

  /** A printed rule matches a printed client if and only if the client's length is no shorter
      than the rule's and the addresses agree in what the rule's length covers. */
  lemma {:induction false} MatchingPrinted(x: seq<Byte>, m: Option<nat>, y: seq<Byte>, n: Option<nat>, action: int)
    requires Quad(x) && Quad(y) && Bits(m) <= 32 && Bits(n) <= 32
    ensures var rule, c := ScanCidr(Printed(x, LengthText(m))), ScanCidr(Printed(y, LengthText(n)));
      rule.Cidr? &&
      (Matching(Rule(rule.addr, rule.len, action), c) <==> Bits(m) <= Bits(n) && SameLeading(x, y, Bits(m)))
  {
    var rule := ScannedBlock(x, m);
    var c := ScannedBlock(y, n);
    MatchingNumbers(x, y, Rule(rule.addr, rule.len, action), c);
  }

  lemma {:induction false} ScannedBlock(x: seq<Byte>, length: Option<nat>) returns (c: Cidr)
    requires Quad(x) && Bits(length) <= 32
    ensures c == ScanCidr(Printed(x, LengthText(length))) == Cidr(Number(x), Bits(length))
  {
    if length.Some? {
      ScanPrinted(x[0], x[1], x[2], x[3], length.value);
    } else {
      ScanPrintedHost(x[0], x[1], x[2], x[3]);
    }
    c := Cidr(Number(x), Bits(length));
  }

  lemma {:induction false} MatchingNumbers(x: seq<Byte>, y: seq<Byte>, rule: Rule, c: Cidr)
    requires Quad(x) && Quad(y) && rule.len <= 32
    requires rule.addr == Number(x) && c.Cidr? && c.addr == Number(y)
    ensures Matching(rule, c) <==> rule.len <= c.len && SameLeading(x, y, rule.len)
  {
    BlockOctets(x, y, rule.len / 8, rule.len % 8);
    assert 8 * (rule.len / 8) + rule.len % 8 == rule.len;
  }

  /** A client checked against one printed rule: the rule's action if it matches, else deny. */
  method CheckBlock(x: seq<Byte>, m: Option<nat>, y: seq<Byte>, n: Option<nat>, permit: bool) returns (action: int)
    requires Quad(x) && Quad(y) && Bits(m) <= 32 && Bits(n) <= 32
    ensures action == if permit && Bits(m) <= Bits(n) && SameLeading(x, y, Bits(m)) then 1 else 2
  {
    var cidr, code := Printed(x, LengthText(m)), if permit then 1 else 2;
    ghost var call := Call(ScanCidr(cidr), code);
    MatchingPrinted(x, m, y, n, code);
    ghost var rules := OneRule(call);
    action := CheckAll([cidr], [code], [call], Printed(y, LengthText(n)));
    DecidesOne(rules, ScanCidr(Printed(y, LengthText(n))), action);
  }

  lemma {:induction false} OneRule(call: Call) returns (rules: seq<Rule>)
    requires Accepted(call)
    ensures rules == Built([call], |[call]|) == [RuleOf(call)]
  {
    rules := Built([call], 1);
    assert Built([call], 0) == [];
  }

  lemma {:induction false} DecidesOne(rules: seq<Rule>, c: Cidr, action: int)
    requires |rules| == 1 && Decides(rules, c, action)
    ensures action == if Matching(rules[0], c) then rules[0].action else HTTP_ACL_DENY
  {
  }

  /** `10.0.0.0/8` and `10.1.2.3` as they are written. */
  lemma {:induction false} PrintedExample()
    ensures Printed([10, 0, 0, 0], [SLASH] + Decimal(8)) == Ascii("10.0.0.0/8")
    ensures Printed([10, 1, 2, 3], []) == Ascii("10.1.2.3")
  {
    assert Decimal(10) == Ascii("10");
    assert Decimal(0) == Ascii("0") && Decimal(1) == Ascii("1") && Decimal(2) == Ascii("2");
    assert Decimal(3) == Ascii("3") && Decimal(8) == Ascii("8");
  }
}
