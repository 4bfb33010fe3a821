/** What the octets of a domain name mean: sections 3.1 and 4.1.4 of RFC 1035,
    read as src/DNSLookup.cpp reads them. */
module DnsName {
  import opened Bytes
  import opened Tokens

  type Label = seq<Byte>

  /** The decoder takes a length octet with either top bit set for a pointer. */
  predicate IsPointer(b: Byte) {
    64 <= b
  }

  function Target(p: seq<Byte>, pos: nat): (t: nat)
    requires pos + 1 < |p|
    ensures t < 0x4000
  {
    Octets16(p, pos) % 0x4000
  }

  /** The name at `pos` expands to `labels` after following `hops` pointers. */
  ghost predicate Resolves(p: seq<Byte>, pos: nat, labels: seq<Label>, hops: nat)
    decreases |labels| + hops
  {
    pos < |p| &&
    if p[pos] == 0 then
      labels == [] && hops == 0
    else if IsPointer(p[pos]) then
      hops > 0 && pos + 1 < |p| && Resolves(p, Target(p, pos), labels, hops - 1)
    else
      labels != [] && pos + 1 + p[pos] <= |p| &&
      labels[0] == p[pos + 1..pos + 1 + p[pos]] &&
      Resolves(p, pos + 1 + p[pos], labels[1..], hops)
  }

  /** The name at `pos` is `labels`, however compressed. */
  ghost predicate Denotes(p: seq<Byte>, pos: nat, labels: seq<Label>) {
    exists hops: nat :: Resolves(p, pos, labels, hops)
  }

  /** Octets the name occupies at `pos` itself: up to and including the first
      terminator or two-octet pointer. */
  function WireLen(p: seq<Byte>, pos: nat): (n: nat)
    decreases |p| - pos
  {
    if pos >= |p| then 0
    else if p[pos] == 0 then 1
    else if IsPointer(p[pos]) then 2
    else 1 + p[pos] + WireLen(p, pos + 1 + p[pos])
  }

  /** The labels, each followed by a dot. */
  function Dotted(labels: seq<Label>): (d: seq<Byte>)
  {
    if labels == [] then [] else labels[0] + [DOT] + Dotted(labels[1..])
  }

  /** Sum of (label length + 1) over the list. */
  function Size(labels: seq<Label>): nat {
    if labels == [] then 0 else |labels[0]| + 1 + Size(labels[1..])
  }

  lemma {:induction false} SizeIsLength(labels: seq<Label>)
    ensures Size(labels) == |Dotted(labels)|
  {
    if labels != [] { SizeIsLength(labels[1..]); }
  }

  lemma {:induction false} DottedIsJoined(labels: seq<Label>)
    requires labels != []
    ensures Dotted(labels) == Join(labels, DOT) + [DOT]
  {
    if |labels| == 1 {
      assert Dotted(labels[1..]) == [];
    } else {
      DottedIsJoined(labels[1..]);
    }
  }

  lemma {:induction false} DottedAppend(a: seq<Label>, b: seq<Label>)
    ensures Dotted(a + b) == Dotted(a) + Dotted(b)
  {
    if a == [] {
      assert a + b == b;
    } else {
      var d := a[0] + [DOT];
      DottedAppend(a[1..], b);
      assert (a + b)[0] == a[0] && (a + b)[1..] == a[1..] + b;
      assert Dotted(a + b) == d + Dotted(a[1..] + b);
      Associate(d, Dotted(a[1..]), Dotted(b));
    }
  }

  /** A name has one expansion. */
  lemma {:induction false} ResolvesUnique(p: seq<Byte>, pos: nat,
        a: seq<Label>, m: nat, b: seq<Label>, n: nat)
    requires Resolves(p, pos, a, m) && Resolves(p, pos, b, n)
    ensures a == b && m == n
    decreases |a| + m
  {
    if p[pos] == 0 {
    } else if IsPointer(p[pos]) {
      ResolvesUnique(p, Target(p, pos), a, m - 1, b, n - 1);
    } else {
      ResolvesUnique(p, pos + 1 + p[pos], a[1..], m, b[1..], n);
      assert a == [a[0]] + a[1..] && b == [b[0]] + b[1..];
    }
  }

  lemma {:induction false} DenotesUnique(p: seq<Byte>, pos: nat, a: seq<Label>, b: seq<Label>)
    requires Denotes(p, pos, a) && Denotes(p, pos, b)
    ensures a == b
  {
    var m: nat :| Resolves(p, pos, a, m);
    var n: nat :| Resolves(p, pos, b, n);
    ResolvesUnique(p, pos, a, m, b, n);
  }

  /** One label in front of a name. */
  lemma {:induction false} DenotesCons(p: seq<Byte>, pos: nat, head: Label, rest: seq<Label>)
    requires 1 <= |head| <= 63 && pos + 1 + |head| <= |p|
    requires p[pos] == |head| && p[pos + 1..pos + 1 + |head|] == head
    requires Denotes(p, pos + 1 + |head|, rest)
    ensures Denotes(p, pos, [head] + rest)
    ensures WireLen(p, pos) == 1 + |head| + WireLen(p, pos + 1 + |head|)
  {
    var n: nat :| Resolves(p, pos + 1 + |head|, rest, n);
    assert ([head] + rest)[1..] == rest;
    assert Resolves(p, pos, [head] + rest, n);
  }

  lemma {:induction false} DenotesPointer(p: seq<Byte>, pos: nat, labels: seq<Label>)
    requires pos + 1 < |p| && IsPointer(p[pos])
    requires Denotes(p, Target(p, pos), labels)
    ensures Denotes(p, pos, labels)
    ensures WireLen(p, pos) == 2
  {
    var n: nat :| Resolves(p, Target(p, pos), labels, n);
    assert Resolves(p, pos, labels, n + 1);
  }

  /** Names octet by octet. A zero octet is the root; an octet up to 63 counts the octets of
      a label in front of the rest; any other starts a pointer, to the offset in the lower
      fourteen bits of two octets. */
  lemma {:induction false} DenotesOctets(p: seq<Byte>, pos: nat, labels: seq<Label>)
    requires pos < |p|
    ensures p[pos] == 0 ==> (Denotes(p, pos, labels) <==> labels == [])
    ensures 1 <= p[pos] <= 63 ==> (Denotes(p, pos, labels) <==>
      labels != [] && pos + 1 + p[pos] <= |p| && labels[0] == p[pos + 1..pos + 1 + p[pos]] &&
      Denotes(p, pos + 1 + p[pos], labels[1..]))
    ensures 64 <= p[pos] ==> (Denotes(p, pos, labels) <==>
      pos + 1 < |p| && Denotes(p, p[pos] as int % 64 * 256 + p[pos + 1], labels))
  {
    if p[pos] == 0 {
      assert Resolves(p, pos, [], 0);
    } else if p[pos] <= 63 {
      LabelDenotes(p, pos, labels);
    } else {
      PointerDenotes(p, pos, labels);
    }
  }

  lemma {:induction false} LabelDenotes(p: seq<Byte>, pos: nat, labels: seq<Label>)
    requires pos < |p| && 1 <= p[pos] <= 63
    ensures Denotes(p, pos, labels) <==>
      labels != [] && pos + 1 + p[pos] <= |p| && labels[0] == p[pos + 1..pos + 1 + p[pos]] &&
      Denotes(p, pos + 1 + p[pos], labels[1..])
  {
    var next := pos + 1 + p[pos];
    if Denotes(p, pos, labels) {
      var n: nat :| Resolves(p, pos, labels, n);
      assert Resolves(p, next, labels[1..], n);
    }
    if labels != [] && next <= |p| && labels[0] == p[pos + 1..next] && Denotes(p, next, labels[1..]) {
      DenotesCons(p, pos, labels[0], labels[1..]);
      assert labels == [labels[0]] + labels[1..];
    }
  }

  lemma {:induction false} PointerDenotes(p: seq<Byte>, pos: nat, labels: seq<Label>)
    requires pos < |p| && 64 <= p[pos]
    ensures Denotes(p, pos, labels) <==> pos + 1 < |p| && Denotes(p, p[pos] as int % 64 * 256 + p[pos + 1], labels)
  {
    if pos + 1 < |p| { TargetOctets(p, pos); }
    if Denotes(p, pos, labels) {
      var n: nat :| Resolves(p, pos, labels, n);
      assert Resolves(p, Target(p, pos), labels, n - 1);
    }
    if pos + 1 < |p| && Denotes(p, Target(p, pos), labels) { DenotesPointer(p, pos, labels); }
  }

  lemma {:induction false} TargetOctets(p: seq<Byte>, pos: nat)
    requires pos + 1 < |p|
    ensures Target(p, pos) == p[pos] as int % 64 * 256 + p[pos + 1]
  {
    var high: nat, low: nat := p[pos], p[pos + 1];
    assert high * 256 + low == high / 64 * 0x4000 + (high % 64 * 256 + low);
  }

  /** The two octets `0xc000 + o` point to the offset `o`. */
  lemma {:induction false} PointerTo(p: seq<Byte>, pos: nat, o: nat)
    requires o < 0x4000 && Holds(p, pos, BigEndian16(0xc000 + o))
    ensures pos + 1 < |p| && IsPointer(p[pos]) && Target(p, pos) == o && WireLen(p, pos) == 2
    ensures forall labels :: Denotes(p, pos, labels) <==> Denotes(p, o, labels)
  {
    HoldsWord(p, pos, 0xc000 + o);
    forall labels
      ensures Denotes(p, pos, labels) <==> Denotes(p, o, labels)
    {
      TargetOctets(p, pos);
      PointerDenotes(p, pos, labels);
    }
  }
}
