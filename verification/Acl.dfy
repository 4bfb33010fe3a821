/** The CIDR access list (src/httpd.cpp). */
module Acl {
  import opened Bytes
  import opened Tokens

  const HTTP_ACL_PERMIT := 1
  const HTTP_ACL_DENY := 2
  const WORD := 0x1_0000_0000

  datatype Cidr = Malformed | Cidr(addr: nat, len: nat)

  // ----- Numbers -----

  predicate Digit(c: Byte) {
    '0' as int <= c <= '9' as int
  }

  predicate Space(c: Byte) {
    c == ' ' as int || 9 <= c <= 13
  }

  /** The digits at the front of a text, behind `acc`. */
  function Accumulate(s: seq<Byte>, acc: nat): nat {
    if s == [] || !Digit(s[0]) then acc else Accumulate(s[1..], 10 * acc + (s[0] - '0' as int))
  }

  /** `atoi`. */
  function Atoi(s: seq<Byte>): int {
    if s == [] then 0
    else if Space(s[0]) then Atoi(s[1..])
    else if s[0] == '-' as int then 0 - Accumulate(s[1..], 0)
    else if s[0] == '+' as int then Accumulate(s[1..], 0)
    else Accumulate(s, 0)
  }

  /** `atoi` stored in an unsigned int. */
  function Unsigned(s: seq<Byte>): nat {
    Atoi(s) % WORD
  }

  /** A number as it is printed. */
  function Decimal(n: nat): seq<Byte> {
    if n < 10 then ['0' as int + n] else Decimal(n / 10) + ['0' as int + n % 10]
  }

  lemma {:induction false} DecimalDigits(n: nat)
    ensures Decimal(n) != [] && forall i | 0 <= i < |Decimal(n)| :: Digit(Decimal(n)[i])
  {
    if n >= 10 { DecimalDigits(n / 10); }
  }

  lemma {:induction false} AccumulateDecimal(n: nat, rest: seq<Byte>)
    ensures Accumulate(Decimal(n) + rest, 0) == Accumulate(rest, n)
  {
    var last: seq<Byte> := ['0' as int + n % 10];
    assert (last + rest)[1..] == rest;
    if n >= 10 {
      AccumulateDecimal(n / 10, last + rest);
      Associate(Decimal(n / 10), last, rest);
    }
  }

  lemma {:induction false} AtoiDecimal(n: nat, rest: seq<Byte>)
    requires rest == [] || !Digit(rest[0])
    ensures Atoi(Decimal(n) + rest) == n
  {
    DecimalDigits(n);
    AccumulateDecimal(n, rest);
    assert (Decimal(n) + rest)[0] == Decimal(n)[0];
  }

  // ----- scanCidr -----

  /** What stands behind the first `c`; `strchr` finds one. */
  function Behind(s: seq<Byte>, c: Byte): seq<Byte>
    requires IndexOf(s, c) < |s|
  {
    s[IndexOf(s, c) + 1..]
  }

  /** `scanCidr`. */
  function ScanCidr(val: seq<Byte>): Cidr {
    var res1 := Unsigned(val);
    if IndexOf(val, DOT) == |val| then Malformed else
    var cp2 := Behind(val, DOT);
    var res2 := Unsigned(cp2);
    if IndexOf(cp2, DOT) == |cp2| then Malformed else
    var cp3 := Behind(cp2, DOT);
    var res3 := Unsigned(cp3);
    if IndexOf(cp3, DOT) == |cp3| then Malformed else
    var cp4 := Behind(cp3, DOT);
    var res4 := Unsigned(cp4);
    var res5 := if IndexOf(cp4, SLASH) == |cp4| then 32 else Unsigned(Behind(cp4, SLASH));
    if res1 > 255 || res2 > 255 || res3 > 255 || res4 > 255 || res5 > 32 then Malformed
    else Cidr(Address(res1, res2, res3, res4), res5)
  }

  function Address(a: nat, b: nat, c: nat, d: nat): nat {
    a * 0x100_0000 + b * 0x10000 + c * 0x100 + d
  }

  lemma {:induction false} ScannedBounds(val: seq<Byte>)
    ensures ScanCidr(val).Cidr? ==> ScanCidr(val).addr < WORD && ScanCidr(val).len <= 32
  {
  }

  /** A field of a printed address: its number, and what stands behind its separator. */
  lemma {:induction false} Field(n: nat, sep: Byte, rest: seq<Byte>)
    requires n < WORD && !Digit(sep)
    ensures var s := Decimal(n) + ([sep] + rest);
      Unsigned(s) == n && IndexOf(s, sep) < |s| && Behind(s, sep) == rest
  {
    var s := Decimal(n) + ([sep] + rest);
    AtoiDecimal(n, [sep] + rest);
    DecimalDigits(n);
    IndexOfIs(s, sep, |Decimal(n)|);
    assert s[|Decimal(n)| + 1..] == rest;
  }

  function PrintAddress(a: nat, b: nat, c: nat, d: nat, end: seq<Byte>): seq<Byte> {
    Decimal(a) + ([DOT] + (Decimal(b) + ([DOT] + (Decimal(c) + ([DOT] + (Decimal(d) + end))))))
  }

  /** What the scan makes of these numbers: the fields of an address are octets, and a block
      has at most 32 bits. */
  function Scanned4(a: nat, b: nat, c: nat, d: nat, len: nat): Cidr {
    if a <= 255 && b <= 255 && c <= 255 && d <= 255 && len <= 32 then Cidr(Address(a, b, c, d), len) else Malformed
  }

  lemma {:induction false} ScanAddress(a: nat, b: nat, c: nat, d: nat, end: seq<Byte>, len: nat)
    requires a < WORD && b < WORD && c < WORD && Unsigned(Decimal(d) + end) == d
    requires var cp4 := Decimal(d) + end;
      len == if IndexOf(cp4, SLASH) == |cp4| then 32 else Unsigned(Behind(cp4, SLASH))
    ensures ScanCidr(PrintAddress(a, b, c, d, end)) == Scanned4(a, b, c, d, len)
  {
    var cp4 := Decimal(d) + end;
    var cp3 := Decimal(c) + ([DOT] + cp4);
    var cp2 := Decimal(b) + ([DOT] + cp3);
    Field(c, DOT, cp4);
    Field(b, DOT, cp3);
    Field(a, DOT, cp2);
  }

  lemma {:induction false} LastField(n: nat)
    requires n < WORD
    ensures Unsigned(Decimal(n)) == n && IndexOf(Decimal(n), SLASH) == |Decimal(n)|
  {
    AtoiDecimal(n, []);
    DecimalDigits(n);
    assert Decimal(n) + [] == Decimal(n);
    IndexOfIs(Decimal(n), SLASH, |Decimal(n)|);
  }

  /** Scanning inverts printing, with a length and without, and refuses what is out of range. */
  lemma {:induction false} ScanPrinted(a: nat, b: nat, c: nat, d: nat, len: nat)
    requires a < WORD && b < WORD && c < WORD && d < WORD && len < WORD
    ensures ScanCidr(PrintAddress(a, b, c, d, [SLASH] + Decimal(len))) == Scanned4(a, b, c, d, len)
  {
    Field(d, SLASH, Decimal(len));
    LastField(len);
    ScanAddress(a, b, c, d, [SLASH] + Decimal(len), len);
  }

  lemma {:induction false} ScanPrintedHost(a: nat, b: nat, c: nat, d: nat)
    requires a < WORD && b < WORD && c < WORD && d < WORD
    ensures ScanCidr(PrintAddress(a, b, c, d, [])) == Scanned4(a, b, c, d, 32)
  {
    LastField(d);
    assert Decimal(d) + [] == Decimal(d);
    ScanAddress(a, b, c, d, [], 32);
  }

  /** A text with fewer than three dots is refused. */
  lemma {:induction false} TooFewFields(val: seq<Byte>)
    requires |Split(val, DOT)| < 4
    ensures ScanCidr(val) == Malformed
  {
    var k := IndexOf(val, DOT);
    if k < |val| {
      assert |Split(val[k + 1..], DOT)| < 3;
      var cp2 := val[k + 1..];
      var k2 := IndexOf(cp2, DOT);
      if k2 < |cp2| { assert |Split(cp2[k2 + 1..], DOT)| < 2; }
    }
  }

  // ----- Masks -----

  function Pow2(k: nat): (p: nat)
    ensures p > 0
  {
    if k == 0 then 1 else 2 * Pow2(k - 1)
  }

  function And(a: nat, b: nat): nat
    decreases a
  {
    if a == 0 || b == 0 then 0
    else (if a % 2 == 1 && b % 2 == 1 then 1 else 0) + 2 * And(a / 2, b / 2)
  }

  /** `m << k` and `a >> k`. */
  function Shl(m: nat, k: nat): nat {
    if k == 0 then m else 2 * Shl(m, k - 1)
  }

  function Shr(a: nat, k: nat): nat {
    if k == 0 then a else Shr(a / 2, k - 1)
  }

  /** `n` bits set. */
  function Ones(n: nat): nat {
    if n == 0 then 0 else 2 * Ones(n - 1) + 1
  }

  lemma {:induction false} OnesBelow(n: nat)
    ensures Ones(n) < Pow2(n)
  {
    if n > 0 { OnesBelow(n - 1); }
  }

  lemma {:induction false} AndOnes(a: nat, n: nat)
    requires a < Pow2(n)
    ensures And(a, Ones(n)) == a
    decreases n
  {
    if a != 0 { AndOnes(a / 2, n - 1); }
  }

  /** Masking with shifted bits keeps what they keep of the leading bits. */
  lemma {:induction false} AndShifted(a: nat, m: nat, k: nat)
    ensures And(a, Shl(m, k)) == Shl(And(Shr(a, k), m), k)
    decreases k
  {
    if k > 0 {
      AndShifted(a / 2, m, k - 1);
      AndEven(a, Shl(m, k - 1));
    }
  }

  lemma {:induction false} AndEven(a: nat, x: nat)
    ensures And(a, 2 * x) == 2 * And(a / 2, x)
  {
  }

  lemma {:induction false} ShrBelow(a: nat, n: nat, k: nat)
    requires a < Pow2(n + k)
    ensures Shr(a, k) < Pow2(n)
    decreases k
  {
    if k > 0 { ShrBelow(a / 2, n, k - 1); }
  }

  lemma {:induction false} ShlBelow(m: nat, n: nat, k: nat)
    requires m < Pow2(n)
    ensures Shl(m, k) < Pow2(n + k)
    decreases k
  {
    if k > 0 { ShlBelow(m, n, k - 1); }
  }

  lemma {:induction false} ShlInjective(x: nat, y: nat, k: nat)
    ensures Shl(x, k) == Shl(y, k) <==> x == y
    decreases k
  {
    if k > 0 { ShlInjective(x, y, k - 1); }
  }

  /** The leading `len` bits of a 32-bit word, by its mask. */
  lemma {:induction false} AndMask(a: nat, len: nat, k: nat)
    requires a < Pow2(len + k)
    ensures And(a, Shl(Ones(len), k)) == Shl(Shr(a, k), k)
  {
    AndShifted(a, Ones(len), k);
    ShrBelow(a, len, k);
    AndOnes(Shr(a, k), len);
  }

  lemma {:induction false} Multiples(x: nat, y: nat, d: nat)
    requires x <= y
    ensures x * d <= y * d
  {
  }

  lemma {:induction false} QuotientIs(a: nat, d: nat, q: nat, r: nat)
    requires d > 0 && a == q * d + r && r < d
    ensures a / d == q
  {
    var q' := a / d;
    if q' < q {
      Multiples(q' + 1, q, d);
    } else if q < q' {
      Multiples(q + 1, q', d);
    }
  }

  lemma {:induction false} DivTwice(a: nat, p: nat)
    requires p > 0
    ensures a / (2 * p) == a / 2 / p
  {
    var h := a / 2;
    var q, r := h / p, h % p;
    QuotientIs(a, 2 * p, q, 2 * r + a % 2);
  }

  /** Shifting right divides by the power of two. */
  lemma {:induction false} ShrDivides(a: nat, k: nat)
    ensures Shr(a, k) == a / Pow2(k)
    decreases k
  {
    if k > 0 {
      ShrDivides(a / 2, k - 1);
      DivTwice(a, Pow2(k - 1));
    }
  }

  lemma {:induction false} Pow2Of32()
    ensures Pow2(32) == WORD
  {
    assert Pow2(8) == 0x100;
    assert Pow2(16) == 0x10000;
    assert Pow2(24) == 0x100_0000;
  }

  lemma {:induction false} Pow2Grows(a: nat, b: nat)
    requires a <= b
    ensures Pow2(a) <= Pow2(b)
    decreases b
  {
    if a < b { Pow2Grows(a, b - 1); }
  }

  /** Both addresses lie in the same block of the first one's length. */
  predicate InBlock(addr1: nat, len1: nat, addr2: nat, len2: nat) {
    len1 <= 32 && len1 <= len2 && addr1 / Pow2(32 - len1) == addr2 / Pow2(32 - len1)
  }

  /** The mask loop, in 32-bit arithmetic. */
  method Mask(len1: nat) returns (mask: nat)
    requires len1 <= 32
    ensures mask == Shl(Ones(len1), 32 - len1)
  {
    Pow2Of32();
    var count := 0;
    mask := 0;
    while count < len1
      invariant count <= len1 && mask == Ones(count)
    {
      OnesBelow(count + 1);
      Pow2Grows(count + 1, 32);
      mask := (mask * 2 + 1) % WORD;
      count := count + 1;
    }
    OnesBelow(len1);
    ShlBelow(mask, len1, 32 - len1);
    mask := Shl(mask, 32 - len1) % WORD;
  }

  /** Two words agree under the mask exactly when they lie in the same block. */
  lemma {:induction false} MaskedIff(addr1: nat, addr2: nat, len: nat, k: nat)
    requires addr1 < Pow2(len + k) && addr2 < Pow2(len + k)
    ensures And(addr1, Shl(Ones(len), k)) == And(addr2, Shl(Ones(len), k)) <==> addr1 / Pow2(k) == addr2 / Pow2(k)
  {
    AndMask(addr1, len, k);
    AndMask(addr2, len, k);
    ShlInjective(Shr(addr1, k), Shr(addr2, k), k);
    ShrDivides(addr1, k);
    ShrDivides(addr2, k);
  }

  /** `_isInCidrBlock`. */
  method IsInCidrBlock(addr1: nat, len1: nat, addr2: nat, len2: nat) returns (r: int)
    requires addr1 < WORD && addr2 < WORD && len1 <= 32
    ensures r == if InBlock(addr1, len1, addr2, len2) then 1 else 0
  {
    if len2 < len1 {
      return 0;
    }
    var mask := Mask(len1);
    Pow2Of32();
    MaskedIff(addr1, addr2, len1, 32 - len1);
    r := if And(addr1, mask) == And(addr2, mask) then 1 else 0;
  }

  // ----- The list -----

  datatype Rule = Rule(addr: nat, len: nat, action: int)

  class HttpAcl {
    var addr: nat
    var len: nat
    var action: int
    var next: HttpAcl?

    constructor ()
      ensures next == null
    {
      addr, len, action, next := 0, 0, 0, null;
    }
  }

  /** The list that starts at `acl` has these nodes and rules. */
  ghost predicate Chain(acl: HttpAcl?, nodes: seq<HttpAcl>, rules: seq<Rule>)
    reads nodes
  {
    |nodes| == |rules| && acl == (if nodes == [] then null else nodes[0]) &&
    (forall i {:trigger nodes[i].next} | 0 <= i < |nodes| ::
      nodes[i].next == if i + 1 < |nodes| then nodes[i + 1] else null) &&
    (forall i {:trigger nodes[i].addr} {:trigger nodes[i].len} {:trigger nodes[i].action} {:trigger rules[i]} |
      0 <= i < |nodes| ::
      Rule(nodes[i].addr, nodes[i].len, nodes[i].action) == rules[i]) &&
    forall i | 0 <= i < |rules| :: rules[i].addr < WORD && rules[i].len <= 32
  }

  /** An `httpdAddAcl` call, with its address scanned. */
  datatype Call = Call(cidr: Cidr, action: int)

  predicate Accepted(call: Call) {
    call.cidr.Cidr? && (call.action == HTTP_ACL_PERMIT || call.action == HTTP_ACL_DENY)
  }

  function RuleOf(call: Call): Rule
    requires Accepted(call)
  {
    Rule(call.cidr.addr, call.cidr.len, call.action)
  }

  /** The list a call leaves its caller with: none if the call fails. */
  function Added(rules: seq<Rule>, call: Call): seq<Rule> {
    if Accepted(call) then rules + [RuleOf(call)] else []
  }

  /** The list after the first `n` calls, each given the list the one before returned. */
  function Built(calls: seq<Call>, n: nat): seq<Rule>
    requires n <= |calls|
  {
    if n == 0 then [] else Added(Built(calls, n - 1), calls[n - 1])
  }

  /** The first call behind the last one that failed. */
  function FirstKept(calls: seq<Call>, n: nat): (k: nat)
    requires n <= |calls|
    ensures k <= n && (k > 0 ==> !Accepted(calls[k - 1])) && forall i | k <= i < n :: Accepted(calls[i])
  {
    if n == 0 || !Accepted(calls[n - 1]) then n else FirstKept(calls, n - 1)
  }

  /** The list has the rules of the calls behind the last one that failed, in order. */
  lemma {:induction false} BuiltInOrder(calls: seq<Call>, n: nat)
    requires n <= |calls|
    ensures var k := FirstKept(calls, n);
      |Built(calls, n)| == n - k && forall i | 0 <= i < n - k :: Built(calls, n)[i] == RuleOf(calls[k + i])
  {
    if n > 0 && Accepted(calls[n - 1]) { BuiltInOrder(calls, n - 1); }
  }

  /** `httpdAddAcl`. */
  method AddAcl(acl: HttpAcl?, cidr: seq<Byte>, action: int, ghost nodes: seq<HttpAcl>, ghost rules: seq<Rule>)
    returns (result: HttpAcl?, ghost more: seq<HttpAcl>)
    requires Chain(acl, nodes, rules)
    modifies nodes
    ensures Chain(result, more, Added(rules, Call(ScanCidr(cidr), action)))
    ensures forall i | 0 <= i < |more| :: (i < |nodes| && more[i] == nodes[i]) || fresh(more[i])
  {
    var c := ScanCidr(cidr);
    ScannedBounds(cidr);
    if c.Malformed? {
      return null, [];
    }
    if action != HTTP_ACL_PERMIT && action != HTTP_ACL_DENY {
      return null, [];
    }
    var cur := NewRule(c.addr, c.len, action);
    more := nodes + [cur];
    result := Append(acl, cur, nodes, rules, Rule(c.addr, c.len, action));
  }

  /** Finding a spot for the new rule. */
  method Append(acl: HttpAcl?, cur: HttpAcl, ghost nodes: seq<HttpAcl>, ghost rules: seq<Rule>, ghost rule: Rule)
    returns (result: HttpAcl)
    requires Chain(acl, nodes, rules) && cur !in nodes && cur.next == null
    requires Rule(cur.addr, cur.len, cur.action) == rule && rule.addr < WORD && rule.len <= 32
    modifies nodes
    ensures Chain(result, nodes + [cur], rules + [rule])
  {
    result := cur;
    if acl != null {
      var last := LastNode(acl, nodes, rules);
      assert forall i | 0 <= i < |nodes| - 1 :: nodes[i].next == nodes[i + 1];
      last.next := cur;
      result := acl;
    }
  }

  method NewRule(addr: nat, len: nat, action: int) returns (cur: HttpAcl)
    ensures fresh(cur) && cur.addr == addr && cur.len == len && cur.action == action && cur.next == null
  {
    cur := new HttpAcl();
    cur.addr, cur.len, cur.action := addr, len, action;
  }

  method LastNode(acl: HttpAcl, ghost nodes: seq<HttpAcl>, ghost rules: seq<Rule>) returns (last: HttpAcl)
    requires Chain(acl, nodes, rules)
    ensures last == nodes[|nodes| - 1]
  {
    last := acl;
    ghost var i := 0;
    while last.next != null
      invariant i < |nodes| && last == nodes[i]
      decreases |nodes| - i
    {
      last := last.next;
      i := i + 1;
    }
  }

  predicate Matching(rule: Rule, c: Cidr) {
    c.Cidr? && InBlock(rule.addr, rule.len, c.addr, c.len)
  }

  /** The first rule that matches decides, and none denies. */
  ghost predicate Decides(rules: seq<Rule>, c: Cidr, action: int) {
    (forall k | 0 <= k < |rules| && Matching(rules[k], c) && (forall j | 0 <= j < k :: !Matching(rules[j], c)) ::
      action == rules[k].action) &&
    ((forall k | 0 <= k < |rules| :: !Matching(rules[k], c)) ==> action == HTTP_ACL_DENY)
  }

  /** `httpdCheckAcl`: the action of the first rule that matches, else deny. */
  method CheckAcl(clientAddr: seq<Byte>, acl: HttpAcl?, ghost nodes: seq<HttpAcl>, ghost rules: seq<Rule>)
    returns (action: int)
    requires Chain(acl, nodes, rules)
    ensures Decides(rules, ScanCidr(clientAddr), action)
  {
    action := HTTP_ACL_DENY;
    var c := ScanCidr(clientAddr);
    ScannedBounds(clientAddr);
    if c.Cidr? {
      var cur := acl;
      ghost var i := 0;
      while cur != null
        invariant i <= |nodes| && cur == if i < |nodes| then nodes[i] else null
        invariant forall j | 0 <= j < i :: !Matching(rules[j], c)
        decreases |nodes| - i
      {
        assert rules[i] == Rule(cur.addr, cur.len, cur.action);
        var res := IsInCidrBlock(cur.addr, cur.len, c.addr, c.len);
        if res == 1 {
          action := cur.action;
          return;
        }
        cur := cur.next;
        i := i + 1;
      }
    }
  }

  /** The calls have these texts and actions. */
  ghost predicate Scanned(calls: seq<Call>, cidrs: seq<seq<Byte>>, actions: seq<int>) {
    |calls| == |cidrs| == |actions| &&
    forall i {:trigger cidrs[i]} | 0 <= i < |calls| :: calls[i] == Call(ScanCidr(cidrs[i]), actions[i])
  }

  /** One more call on the list that the first `n` have built. */
  method AddNext(acl: HttpAcl?, cidrs: seq<seq<Byte>>, actions: seq<int>, n: nat, ghost nodes: seq<HttpAcl>,
      ghost calls: seq<Call>)
    returns (result: HttpAcl?, ghost more: seq<HttpAcl>)
    requires Scanned(calls, cidrs, actions) && n < |calls| && Chain(acl, nodes, Built(calls, n))
    modifies nodes
    ensures Chain(result, more, Built(calls, n + 1))
    ensures forall i | 0 <= i < |more| :: (i < |nodes| && more[i] == nodes[i]) || fresh(more[i])
  {
    assert calls[n] == Call(ScanCidr(cidrs[n]), actions[n]);
    result, more := AddAcl(acl, cidrs[n], actions[n], nodes, Built(calls, n));
  }

  /** `httpdAddAcl` calls, each given the list the one before returned. */
  method AddAll(cidrs: seq<seq<Byte>>, actions: seq<int>, ghost calls: seq<Call>)
    returns (acl: HttpAcl?, ghost nodes: seq<HttpAcl>)
    requires Scanned(calls, cidrs, actions)
    ensures Chain(acl, nodes, Built(calls, |calls|))
    ensures forall i | 0 <= i < |nodes| :: fresh(nodes[i])
  {
    acl, nodes := null, [];
    for n := 0 to |cidrs|
      invariant Chain(acl, nodes, Built(calls, n))
      invariant forall i | 0 <= i < |nodes| :: fresh(nodes[i])
    {
      acl, nodes := AddNext(acl, cidrs, actions, n, nodes, calls);
    }
  }

  /** A client checked against the list that the calls have built. */
  method CheckAll(cidrs: seq<seq<Byte>>, actions: seq<int>, ghost calls: seq<Call>, clientAddr: seq<Byte>)
    returns (action: int)
    requires Scanned(calls, cidrs, actions)
    ensures Decides(Built(calls, |calls|), ScanCidr(clientAddr), action)
  {
    var acl;
    ghost var nodes;
    acl, nodes := AddAll(cidrs, actions, calls);
    action := CheckAcl(clientAddr, acl, nodes, Built(calls, |calls|));
  }
}
