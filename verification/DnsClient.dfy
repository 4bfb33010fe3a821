/** `CDNSLookup::RecvDNSResponse` (src/DNSLookup.cpp): the walk over a response. */
module DnsClient {
  import opened Bytes
  import opened Tokens
  import opened DnsName
  import opened DnsDecode
  import opened DnsEncode
  import opened DnsMessage
  import opened DnsServer
  import opened DnsReply

  /** sizeof(szDotName). */
  const NAME_SIZE: nat := 128

  predicate Fits(labels: seq<Label>) {
    Size(labels) <= NAME_SIZE
  }

  /** What a decoded name leaves in szDotName, up to its first NUL. */
  function Spelled(labels: seq<Label>): seq<Byte> {
    Text(Join(labels, DOT) + [0])
  }

  /** What an A record adds to the address list, if there is one. */
  function AddressOf(want: bool, p: seq<Byte>, r: Record): seq<seq<Byte>> {
    if want && r.rtype == TYPE_A && r.start + 4 <= |p| then [p[r.start..r.start + 4]] else []
  }

  /** What a CNAME record adds to the name list, if there is one. */
  function NameOf(want: bool, r: Record, target: seq<Label>): seq<seq<Byte>> {
    if want && r.rtype == TYPE_CNAME then [Spelled(target)] else []
  }

  /** The names decoded for a record fit. */
  predicate Passes(want: bool, r: Record, target: seq<Label>) {
    Fits(r.owner) && (want && r.rtype == TYPE_CNAME ==> Fits(target))
  }

  /** The A addresses in message order. */
  function Addresses(want: bool, p: seq<Byte>, rs: seq<Record>): seq<seq<Byte>> {
    if rs == [] then [] else AddressOf(want, p, rs[0]) + Addresses(want, p, rs[1..])
  }

  /** The CNAME targets in message order; `targets[i]` belongs to `rs[i]`. */
  function Names(want: bool, rs: seq<Record>, targets: seq<seq<Label>>): seq<seq<Byte>>
    requires |rs| == |targets|
  {
    if rs == [] then [] else NameOf(want, rs[0], targets[0]) + Names(want, rs[1..], targets[1..])
  }

  predicate RecordsPass(want: bool, rs: seq<Record>, targets: seq<seq<Label>>)
    requires |rs| == |targets|
  {
    rs != [] ==> Passes(want, rs[0], targets[0]) && RecordsPass(want, rs[1..], targets[1..])
  }

  /** What the caller asks for: the addresses, the names, or both. */
  datatype Want = Want(addresses: bool, names: bool)

  /** A record the walk can read: no root name, four octets behind an A record and a
      name behind a CNAME record where they are asked for. */
  ghost predicate Readable(want: Want, p: seq<Byte>, r: Record, target: seq<Label>) {
    r.owner != [] && (want.addresses && r.rtype == TYPE_A ==> r.start + 4 <= |p|) &&
    (want.names && r.rtype == TYPE_CNAME ==> target != [] && Denotes(p, r.start, target))
  }

  ghost predicate AllReadable(want: Want, p: seq<Byte>, rs: seq<Record>, targets: seq<seq<Label>>)
    requires |rs| == |targets|
  {
    rs != [] ==> Readable(want, p, rs[0], targets[0]) && AllReadable(want, p, rs[1..], targets[1..])
  }

  /** No question name is root. */
  ghost predicate AllNamed(qs: seq<Question>) {
    qs != [] ==> qs[0].name != [] && AllNamed(qs[1..])
  }

  /** The questions are uncompressed and fit. */
  ghost predicate QuestionsPass(p: seq<Byte>, pos: nat, qs: seq<Question>)
    decreases |qs|
  {
    qs != [] ==> Resolves(p, pos, qs[0].name, 0) && Fits(qs[0].name) && QuestionsPass(p, qs[0].next, qs[1..])
  }

  lemma {:induction false} SpelledIs(d: seq<Byte>, was: seq<Byte>, labels: seq<Label>)
    requires labels != [] && Ended(d, was, 0, Dotted(labels))
    ensures Text(d) == Spelled(labels)
  {
    DottedIsJoined(labels);
    var text, s := Dotted(labels), Join(labels, DOT) + [0];
    var k := |text| - 1;
    HoldsSlice(d[k := DOT], 0, text);
    assert d[..k] == d[k := DOT][0..|text|][..k] == Join(labels, DOT);
    SameText(d, Join(labels, DOT));
  }

  /** One call of `DecodeDotStr` on szDotName. */
  method DecodeName(p: seq<Byte>, pos: nat, compressed: bool, name: array<Byte>, ghost labels: seq<Label>,
      ghost hops: nat)
    returns (ok: bool, used: nat)
    requires name.Length == NAME_SIZE && labels != [] && Resolves(p, pos, labels, hops) && |p| < 0x10000
    requires WireLen(p, pos) < 0x10000
    modifies name
    ensures ok <==> Fits(labels) && (compressed || hops == 0)
    ensures ok ==> used == WireLen(p, pos) && Text(name[..]) == Spelled(labels)
  {
    ghost var was := name[..];
    ghost var o := OutcomeOf(p, pos, compressed, labels, hops);
    ok, used := DecodeDotStr(p, pos, compressed, name, 0, NAME_SIZE, |labels| + hops + 1, o);
    if ok {
      SpelledIs(name[..], was, labels);
    }
  }

  lemma {:induction false} OutcomeOf(p: seq<Byte>, pos: nat, compressed: bool, labels: seq<Label>, hops: nat)
    returns (o: Outcome)
    requires Resolves(p, pos, labels, hops)
    ensures Runs(p, pos, NAME_SIZE, compressed, |labels| + hops + 1)
    ensures o == Decode(p, pos, NAME_SIZE, compressed, |labels| + hops + 1)
    ensures o == if Fits(labels) && (compressed || hops == 0) then Done(labels) else Fail
  {
    if compressed {
      DecodeExact(p, pos, labels, hops, NAME_SIZE);
    } else {
      DecodeUncompressed(p, pos, labels, hops, NAME_SIZE);
    }
    o := Decode(p, pos, NAME_SIZE, compressed, |labels| + hops + 1);
  }

  lemma {:induction false} PlainIff(p: seq<Byte>, pos: nat, labels: seq<Label>, hops: nat)
    requires Resolves(p, pos, labels, hops)
    ensures Resolves(p, pos, labels, 0) <==> hops == 0
  {
    if Resolves(p, pos, labels, 0) { ResolvesUnique(p, pos, labels, hops, labels, 0); }
  }

  /** The question loop: names without the packet start, so pointers are refused. */
  method SkipQuestions(p: seq<Byte>, count: nat, name: array<Byte>, ghost qs: seq<Question>) returns (ok: bool, at: nat)
    requires name.Length == NAME_SIZE && |p| < 0x10000
    requires |qs| == count && QuestionsAt(p, HEADER, qs) && AllNamed(qs)
    modifies name
    ensures ok <==> QuestionsPass(p, HEADER, qs)
    ensures ok ==> at == QuestionsEnd(HEADER, qs)
  {
    at := HEADER;
    ghost var left := qs;
    var q := 0;
    while q != count
      invariant 0 <= q <= count && q + |left| == count && QuestionsAt(p, at, left) && AllNamed(left)
      invariant QuestionsPass(p, HEADER, qs) <==> QuestionsPass(p, at, left)
      invariant QuestionsEnd(HEADER, qs) == QuestionsEnd(at, left)
      decreases count - q
    {
      ghost var labels := left[0].name;
      ghost var hops: nat :| Resolves(p, at, labels, hops);
      PlainIff(p, at, labels, hops);
      var good, used := DecodeName(p, at, false, name, labels, hops);
      if !good {
        return false, at;
      }
      at := at + used + 4;
      left := left[1..];
      q := q + 1;
    }
    ok := true;
  }

  /** One resource record. */
  method ReadRecord(p: seq<Byte>, pos: nat, name: array<Byte>, want: Want,
                    ghost r: Record, ghost target: seq<Label>)
    returns (ok: bool, next: nat, addresses: seq<seq<Byte>>, names: seq<seq<Byte>>)
    requires name.Length == NAME_SIZE && |p| < 0x10000
    requires RecordAt(p, pos, r) && Readable(want, p, r, target)
    modifies name
    ensures ok <==> Passes(want.names, r, target)
    ensures ok ==> next == r.start + r.length
    ensures ok ==> addresses == AddressOf(want.addresses, p, r) && names == NameOf(want.names, r, target)
  {
    addresses, names := [], [];
    ghost var hops: nat :| Resolves(p, pos, r.owner, hops);
    var used;
    ok, used := DecodeName(p, pos, true, name, r.owner, hops);
    if !ok {
      return ok, pos, addresses, names;
    }
    next := pos + used;
    var rtype := Octets16(p, next);
    var length := Octets16(p, next + 8);
    next := next + 10;
    if rtype == TYPE_A && want.addresses {
      addresses := [p[next..next + 4]];
    } else if rtype == TYPE_CNAME && want.names {
      ghost var more: nat :| Resolves(p, next, target, more);
      ResolvesWithin(p, next, target, more);
      ok, used := DecodeName(p, next, true, name, target, more);
      if !ok {
        return ok, pos, addresses, names;
      }
      names := [Text(name[..])];
    }
    next := next + length;
  }

  lemma {:induction false} ResolvesWithin(p: seq<Byte>, pos: nat, labels: seq<Label>, hops: nat)
    requires Resolves(p, pos, labels, hops)
    ensures pos + WireLen(p, pos) <= |p|
    decreases |p| - pos
  {
    if p[pos] != 0 && !IsPointer(p[pos]) { ResolvesWithin(p, pos + 1 + p[pos], labels[1..], hops); }
  }

  /** What is left of the records after some turns of the answer loop. */
  ghost predicate Left(want: Want, p: seq<Byte>, at: nat, rs: seq<Record>, targets: seq<seq<Label>>) {
    |rs| == |targets| && RecordsAt(p, at, rs) && AllReadable(want, p, rs, targets)
  }

  /** What has been found so far makes up, with what is left, what there is. */
  ghost predicate Found(total: seq<seq<Byte>>, found: seq<seq<Byte>>, rest: seq<seq<Byte>>) {
    total == found + rest
  }

  lemma {:induction false} FoundMore(total: seq<seq<Byte>>, found: seq<seq<Byte>>, next: seq<seq<Byte>>,
      rest: seq<seq<Byte>>)
    requires Found(total, found, next + rest)
    ensures Found(total, found + next, rest)
  {
    assert found + (next + rest) == found + next + rest;
  }

  /** The answer loop. */
  method ReadRecords(p: seq<Byte>, pos: nat, count: nat, name: array<Byte>, want: Want,
                     ghost rs: seq<Record>, ghost targets: seq<seq<Label>>)
    returns (ok: bool, addresses: seq<seq<Byte>>, names: seq<seq<Byte>>)
    requires name.Length == NAME_SIZE && |p| < 0x10000 && |rs| == |targets| == count
    requires RecordsAt(p, pos, rs) && AllReadable(want, p, rs, targets)
    modifies name
    ensures ok <==> RecordsPass(want.names, rs, targets)
    ensures ok ==> addresses == Addresses(want.addresses, p, rs) && names == Names(want.names, rs, targets)
  {
    addresses, names := [], [];
    var at := pos;
    ghost var left, more := rs, targets;
    ghost var as1, ns1 := Addresses(want.addresses, p, rs), Names(want.names, rs, targets);
    var a := 0;
    while a != count
      invariant 0 <= a <= count && a + |left| == count && Left(want, p, at, left, more)
      invariant RecordsPass(want.names, rs, targets) <==> RecordsPass(want.names, left, more)
      invariant Found(as1, addresses, Addresses(want.addresses, p, left))
      invariant Found(ns1, names, Names(want.names, left, more))
      decreases count - a
    {
      var found, aliases;
      ok, at, found, aliases := ReadRecord(p, at, name, want, left[0], more[0]);
      if !ok {
        return;
      }
      FoundMore(as1, addresses, found, Addresses(want.addresses, p, left[1..]));
      FoundMore(ns1, names, aliases, Names(want.names, left[1..], more[1..]));
      addresses, names := addresses + found, names + aliases;
      left, more := left[1..], more[1..];
      a := a + 1;
    }
    ok := true;
  }

  // ----- The lists record by record -----

  /** How many of the first `n` records have this type. */
  function CountOf(rs: seq<Record>, rtype: nat, n: nat): (k: nat)
    requires n <= |rs|
  {
    if n == 0 then 0 else CountOf(rs, rtype, n - 1) + if rs[n - 1].rtype == rtype then 1 else 0
  }

  lemma {:induction false} CountFirst(rs: seq<Record>, rtype: nat, n: nat)
    requires 0 < n <= |rs|
    ensures CountOf(rs, rtype, n) == (if rs[0].rtype == rtype then 1 else 0) + CountOf(rs[1..], rtype, n - 1)
    decreases n
  {
    if n > 1 { CountFirst(rs, rtype, n - 1); }
  }

  /** The names are one for each CNAME record, in order: the labels of its target between dots. */
  ghost predicate NamesListed(names: seq<seq<Byte>>, rs: seq<Record>, targets: seq<seq<Label>>)
    requires |rs| == |targets|
  {
    |names| == CountOf(rs, 5, |rs|) &&
    forall i | 0 <= i < |rs| && rs[i].rtype == 5 && NulFree(Join(targets[i], DOT)) ::
      CountOf(rs, 5, i) < |names| && names[CountOf(rs, 5, i)] == Join(targets[i], DOT)
  }

  /** The addresses are one for each A record, in order: the first four octets of its data. */
  ghost predicate AddressesListed(addresses: seq<seq<Byte>>, p: seq<Byte>, rs: seq<Record>) {
    |addresses| == CountOf(rs, 1, |rs|) &&
    forall i | 0 <= i < |rs| && rs[i].rtype == 1 ::
      CountOf(rs, 1, i) < |addresses| && rs[i].start + 4 <= |p| &&
      addresses[CountOf(rs, 1, i)] == p[rs[i].start..rs[i].start + 4]
  }

  lemma {:induction false} SpelledNulFree(labels: seq<Label>)
    requires NulFree(Join(labels, DOT))
    ensures Spelled(labels) == Join(labels, DOT)
  {
    TextOf(Join(labels, DOT), []);
    assert Join(labels, DOT) + [0] + [] == Join(labels, DOT) + [0];
  }

  lemma {:induction false} NamesAreListed(rs: seq<Record>, targets: seq<seq<Label>>)
    requires |rs| == |targets|
    ensures NamesListed(Names(true, rs, targets), rs, targets)
  {
    if rs != [] {
      var names := Names(true, rs, targets);
      NamesAreListed(rs[1..], targets[1..]);
      CountFirst(rs, 5, |rs|);
      forall i | 0 <= i < |rs| && rs[i].rtype == 5 && NulFree(Join(targets[i], DOT))
        ensures CountOf(rs, 5, i) < |names| && names[CountOf(rs, 5, i)] == Join(targets[i], DOT)
      {
        if i == 0 {
          SpelledNulFree(targets[0]);
        } else {
          CountFirst(rs, 5, i);
          assert rs[1..][i - 1] == rs[i] && targets[1..][i - 1] == targets[i];
        }
      }
    }
  }

  lemma {:induction false} AddressesAreListed(want: Want, p: seq<Byte>, rs: seq<Record>, targets: seq<seq<Label>>)
    requires |rs| == |targets| && want.addresses && AllReadable(want, p, rs, targets)
    ensures AddressesListed(Addresses(true, p, rs), p, rs)
  {
    if rs != [] {
      var addresses := Addresses(true, p, rs);
      AddressesAreListed(want, p, rs[1..], targets[1..]);
      CountFirst(rs, 1, |rs|);
      forall i | 0 <= i < |rs| && rs[i].rtype == 1
        ensures CountOf(rs, 1, i) < |addresses| && rs[i].start + 4 <= |p|
        ensures addresses[CountOf(rs, 1, i)] == p[rs[i].start..rs[i].start + 4]
      {
        if i > 0 {
          CountFirst(rs, 1, i);
          assert rs[1..][i - 1] == rs[i];
        }
      }
    }
  }

  lemma {:induction false} NothingWanted(p: seq<Byte>, rs: seq<Record>, targets: seq<seq<Label>>)
    requires |rs| == |targets|
    ensures Addresses(false, p, rs) == [] && Names(false, rs, targets) == []
  {
    if rs != [] { NothingWanted(p, rs[1..], targets[1..]); }
  }

  /** The walk over both sections. On every message whose records can be read it
      succeeds exactly when the names it decodes pass, and then returns the A
      addresses and the CNAME targets, each in message order. */
  method WalkResponse(p: seq<Byte>, want: Want,
                      ghost qs: seq<Question>, ghost rs: seq<Record>, ghost targets: seq<seq<Label>>)
    returns (ok: bool, addresses: seq<seq<Byte>>, names: seq<seq<Byte>>)
    requires HEADER <= |p| < 0x10000 && |rs| == |targets|
    requires Octets16(p, 4) == |qs| && QuestionsAt(p, HEADER, qs) && AllNamed(qs)
    requires Octets16(p, 6) == |rs| && RecordsAt(p, QuestionsEnd(HEADER, qs), rs) && AllReadable(want, p, rs, targets)
    ensures ok <==> QuestionsPass(p, HEADER, qs) && RecordsPass(want.names, rs, targets)
    ensures ok ==> addresses == Addresses(want.addresses, p, rs) && names == Names(want.names, rs, targets)
    ensures ok ==> if want.addresses then AddressesListed(addresses, p, rs) else addresses == []
    ensures ok ==> if want.names then NamesListed(names, rs, targets) else names == []
  {
    addresses, names := [], [];
    NamesAreListed(rs, targets);
    NothingWanted(p, rs, targets);
    if want.addresses { AddressesAreListed(want, p, rs, targets); }
    var name := new Byte[NAME_SIZE](_ => 0);
    var at: nat;
    ok, at := SkipQuestions(p, Octets16(p, 4), name, qs);
    if ok {
      ok, addresses, names := ReadRecords(p, at, Octets16(p, 6), name, want, rs, targets);
    }
  }

  // ----- The header test and the server's replies -----

  /** Flags with AA and RA masked out, as `& 0xfb7f` does. */
  function Masked(flags: nat): int {
    flags - flags / 0x400 % 2 * 0x400 - flags / 0x80 % 2 * 0x80
  }

  /** The test a response must pass before the walk; otherwise the client waits on. */
  predicate Accepts(p: seq<Byte>, id: nat)
    requires |p| >= HEADER
  {
    Octets16(p, 0) == id && Masked(Octets16(p, 2)) == 0x8100 && Octets16(p, 6) > 0
  }

  /** The test octet by octet: the identifier, QR and RD set and TC and the response code
      clear whatever AA and RA are, and an answer. */
  lemma {:induction false} AcceptsOctets(p: seq<Byte>, id: nat)
    requires |p| >= HEADER
    ensures Accepts(p, id) <==>
      p[0] as int * 256 + p[1] == id && (p[2] == 0x81 || p[2] == 0x85) && (p[3] == 0 || p[3] == 0x80) &&
      (p[6] != 0 || p[7] != 0)
  {
    MaskedOctets(p[2], p[3]);
  }

  lemma {:induction false} MaskedOctets(high: Byte, low: Byte)
    ensures Masked(high as int * 256 + low) == 0x8100 <==>
      (high == 0x81 || high == 0x85) && (low == 0 || low == 0x80)
  {
    var h: nat, l: nat := high, low;
    assert (h * 256 + l) / 0x400 == h / 4 && (h * 256 + l) / 0x80 == 2 * h + l / 0x80;
    var aa, ra := h / 4 % 2, l / 0x80;
    assert Masked(h * 256 + l) == (h - 4 * aa) * 256 + (l - 0x80 * ra);
    assert 0 <= l - 0x80 * ra < 256;
  }

  /** The server never sets RD, so the client accepts none of its replies. */
  lemma {:induction false} ServerReplyRejected(id: nat, name: seq<Byte>, qtype: nat, addr: seq<Byte>, any: nat)
    ensures |Reply(id, name, qtype, addr)| >= HEADER
    ensures !Accepts(Reply(id, name, qtype, addr), any)
  {
    var p := Reply(id, name, qtype, addr);
    ReplyLaid(id, name, qtype, addr, Split(name, DOT), ReplyData(qtype, addr));
    var a, b, c := BigEndian16(id), BigEndian16(0x8400), BigEndian16(1);
    var d, e, f := BigEndian16(Answers(qtype)), BigEndian16(Authorities(qtype)), BigEndian16(Additionals(qtype));
    HoldsSplit(p, 0, a + b + c + d + e, f);
    HoldsSplit(p, 0, a + b + c + d, e);
    HoldsSplit(p, 0, a + b + c, d);
    HoldsSplit(p, 0, a + b, c);
    HoldsSplit(p, 0, a, b);
    HoldsWord(p, 2, 0x8400);
  }

  const BOTH: Want := Want(true, true)

  /** Past that test the walk over the server's address reply meets every precondition; it
      passes exactly when the name fits szDotName, and its section holds exactly the
      spoof address. */
  lemma {:induction false} ServerReplyWalks(id: nat, name: seq<Byte>, qtype: nat, addr: seq<Byte>, m: Message,
      p: seq<Byte>)
    requires WellFormed(Split(name, DOT)) && |name| <= 255 && qtype < 0x10000 && |addr| == 4
    requires AsksForAddress(qtype) && p == Reply(id, name, qtype, addr) && MessageAt(p, m)
    ensures HEADER <= |p| < 0x10000 && AllNamed(m.questions)
    ensures QuestionsPass(p, HEADER, m.questions) <==> |name| + 1 <= NAME_SIZE
    ensures |m.answers| == 1 && RecordsAt(p, QuestionsEnd(HEADER, m.questions), m.answers)
    ensures AllReadable(BOTH, p, m.answers, [[]])
    ensures RecordsPass(true, m.answers, [[]]) <==> |name| + 1 <= NAME_SIZE
    ensures Addresses(true, p, m.answers) == [addr] && Names(true, m.answers, [[]]) == []
  {
    SpoofFacts(id, name, qtype, addr, m, p);
    SpoofWalks(p, m, Split(name, DOT), qtype, addr, HEADER + |name| + 6);
  }

  lemma {:induction false} SpoofFacts(id: nat, name: seq<Byte>, qtype: nat, addr: seq<Byte>, m: Message, p: seq<Byte>)
    requires WellFormed(Split(name, DOT)) && |name| <= 255 && qtype < 0x10000 && |addr| == 4
    requires AsksForAddress(qtype) && p == Reply(id, name, qtype, addr) && MessageAt(p, m)
    ensures HEADER <= |p| < 0x10000 && Resolves(p, HEADER, Split(name, DOT), 0)
    ensures Fits(Split(name, DOT)) <==> |name| + 1 <= NAME_SIZE
    ensures SpoofsAddress(p, m, Split(name, DOT), addr)
    ensures m.questions == [Question(Split(name, DOT), qtype, CLASS_IN, HEADER + |name| + 6)]
  {
    ReplySize(id, name, qtype, addr);
    ReplyParses(id, name, qtype, addr, p);
    NameFits(name);
    QueryName(id, name, qtype, addr, p);
  }

  lemma {:induction false} ReplySize(id: nat, name: seq<Byte>, qtype: nat, addr: seq<Byte>)
    requires AsksForAddress(qtype) && |addr| == 4
    ensures |Reply(id, name, qtype, addr)| == HEADER + |name| + 22
  {
    EncodedSplitLength(name);
  }

  /** The walk over the server's reply to an address query: it succeeds exactly when the
      name fits szDotName, and then returns exactly the spoof address. */
  method WalkServerReply(id: nat, name: seq<Byte>, qtype: nat, addr: seq<Byte>)
    returns (ok: bool, addresses: seq<seq<Byte>>, names: seq<seq<Byte>>)
    requires WellFormed(Split(name, DOT)) && |name| <= 255 && qtype < 0x10000 && |addr| == 4
    requires AsksForAddress(qtype)
    ensures ok <==> |name| < 128
    ensures ok ==> addresses == [addr] && names == []
  {
    var p := Reply(id, name, qtype, addr);
    ReplyParses(id, name, qtype, addr, p);
    ghost var m :| MessageAt(p, m);
    ServerReplyWalks(id, name, qtype, addr, m, p);
    ok, addresses, names := WalkResponse(p, BOTH, m.questions, m.answers, [[]]);
  }

  lemma {:induction false} SpoofWalks(p: seq<Byte>, m: Message, labels: seq<Label>, qtype: nat, addr: seq<Byte>,
      body: nat)
    requires labels != [] && |addr| == 4 && Resolves(p, HEADER, labels, 0)
    requires MessageAt(p, m) && SpoofsAddress(p, m, labels, addr)
    requires m.questions == [Question(labels, qtype, CLASS_IN, body)]
    ensures AllNamed(m.questions) && (QuestionsPass(p, HEADER, m.questions) <==> Fits(labels))
    ensures |m.answers| == 1 && RecordsAt(p, QuestionsEnd(HEADER, m.questions), m.answers)
    ensures AllReadable(BOTH, p, m.answers, [[]]) && (RecordsPass(true, m.answers, [[]]) <==> Fits(labels))
    ensures Addresses(true, p, m.answers) == [addr] && Names(true, m.answers, [[]]) == []
  {
    AddressRecordWalks(p, m, labels, addr);
    assert m.questions[1..] == [];
    assert m.answers + m.authority + m.additional == m.answers;
  }

  lemma {:induction false} NameFits(name: seq<Byte>)
    ensures Size(Split(name, DOT)) == |name| + 1
  {
    JoinSplit(name, DOT);
    DottedIsJoined(Split(name, DOT));
    SizeIsLength(Split(name, DOT));
  }

  lemma {:induction false} QueryName(id: nat, name: seq<Byte>, qtype: nat, addr: seq<Byte>, p: seq<Byte>)
    requires WellFormed(Split(name, DOT)) && p == Reply(id, name, qtype, addr)
    ensures Resolves(p, HEADER, Split(name, DOT), 0)
  {
    ReplyLaid(id, name, qtype, addr, Split(name, DOT), ReplyData(qtype, addr));
    EncodedResolves(p, HEADER, Split(name, DOT));
  }

  lemma {:induction false} AddressRecordWalks(p: seq<Byte>, m: Message, labels: seq<Label>, addr: seq<Byte>)
    requires SpoofsAddress(p, m, labels, addr) && labels != [] && |addr| == 4
    ensures AllReadable(BOTH, p, m.answers, [[]]) && (RecordsPass(true, m.answers, [[]]) <==> Fits(labels))
    ensures Addresses(true, p, m.answers) == [addr] && Names(true, m.answers, [[]]) == []
  {
    var targets: seq<seq<Label>> := [[]];
    assert m.answers[1..] == [] && targets[1..] == [];
    HoldsSlice(p, m.answers[0].start, addr);
  }
}
