/** Every reply of the server, read back under section 4.1 of RFC 1035. */
module DnsReply {
  import opened Bytes
  import opened Tokens
  import opened DnsName
  import opened DnsEncode
  import opened DnsMessage
  import opened DnsServer

  /** The four parts of a reply stand in `p`, and nothing behind them. */
  ghost predicate Laid(p: seq<Byte>, id: nat, labels: seq<Label>, qtype: nat, data: seq<Byte>, body: nat) {
    body == HEADER + |Encoded(labels)| + 5 && |p| == body + |data| &&
    Holds(p, 0, ReplyHeader(id, qtype)) &&
    Holds(p, HEADER, Encoded(labels) + [0]) &&
    Holds(p, body - 4, BigEndian16(qtype) + BigEndian16(CLASS_IN)) &&
    Holds(p, body, data)
  }

  lemma {:induction false} FourParts(a: seq<Byte>, b: seq<Byte>, c: seq<Byte>, d: seq<Byte>)
    ensures var p := a + b + c + d;
      Holds(p, 0, a) && Holds(p, |a|, b) && Holds(p, |a| + |b|, c) && Holds(p, |a| + |b| + |c|, d)
  {
    var p := a + b + c + d;
    HoldsSlice(p, 0, p);
    HoldsSplit(p, 0, a + b + c, d);
    HoldsSplit(p, 0, a + b, c);
    HoldsSplit(p, 0, a, b);
  }

  lemma {:induction false} ReplyLaid(id: nat, name: seq<Byte>, qtype: nat, addr: seq<Byte>, labels: seq<Label>,
      data: seq<Byte>)
    requires labels == Split(name, DOT) && data == ReplyData(qtype, addr)
    ensures Laid(Reply(id, name, qtype, addr), id, labels, qtype, data, HEADER + |Encoded(labels)| + 5)
  {
    FourParts(ReplyHeader(id, qtype), Encoded(labels) + [0], BigEndian16(qtype) + BigEndian16(CLASS_IN), data);
  }

  lemma {:induction false} HeaderCounts(p: seq<Byte>, id: nat, answers: nat, authority: nat, additional: nat)
    requires Holds(p, 0, Header(id, answers, authority, additional))
    requires answers < 0x10000 && authority < 0x10000 && additional < 0x10000
    ensures |p| >= HEADER && Octets16(p, 4) == 1 && Octets16(p, 6) == answers
    ensures Octets16(p, 8) == authority && Octets16(p, 10) == additional
  {
    var a, b, c := BigEndian16(id) + BigEndian16(0x8400), BigEndian16(1), BigEndian16(answers);
    var d, e := BigEndian16(authority), BigEndian16(additional);
    HoldsSplit(p, 0, a + b + c + d, e);
    HoldsSplit(p, 0, a + b + c, d);
    HoldsSplit(p, 0, a + b, c);
    HoldsSplit(p, 0, a, b);
    HoldsWord(p, 4, 1);
    HoldsWord(p, 6, answers);
    HoldsWord(p, 8, authority);
    HoldsWord(p, 10, additional);
  }

  /** The one question. */
  lemma {:induction false} QuestionParses(p: seq<Byte>, id: nat, labels: seq<Label>, qtype: nat, data: seq<Byte>,
      body: nat)
    requires WellFormed(labels) && qtype < 0x10000 && Laid(p, id, labels, qtype, data, body)
    ensures Resolves(p, HEADER, labels, 0)
    ensures QuestionAt(p, HEADER, Question(labels, qtype, CLASS_IN, body))
  {
    EncodedResolves(p, HEADER, labels);
    HoldsSplit(p, body - 4, BigEndian16(qtype), BigEndian16(CLASS_IN));
    HoldsWord(p, body - 4, qtype);
    HoldsWord(p, body - 2, CLASS_IN);
  }

  /** A pointer to the query name denotes it. */
  lemma {:induction false} PointerName(p: seq<Byte>, pos: nat, labels: seq<Label>)
    requires Resolves(p, HEADER, labels, 0) && Holds(p, pos, NAME_POINTER)
    ensures Denotes(p, pos, labels) && WireLen(p, pos) == 2
  {
    HoldsAt(p, pos, NAME_POINTER, 0);
    HoldsAt(p, pos, NAME_POINTER, 1);
    assert Target(p, pos) == HEADER;
    DenotesPointer(p, pos, labels);
  }

  /** A label in front of that pointer denotes the longer name. */
  lemma {:induction false} PrefixedName(p: seq<Byte>, pos: nat, prefix: Label, labels: seq<Label>)
    requires 1 <= |prefix| <= 63
    requires Resolves(p, HEADER, labels, 0) && Holds(p, pos, Prefixed(prefix))
    ensures Denotes(p, pos, [prefix] + labels) && WireLen(p, pos) == |prefix| + 3
  {
    HoldsSplit(p, pos, Piece(prefix), NAME_POINTER);
    PieceAt(p, pos, prefix);
    PointerName(p, pos + 1 + |prefix|, labels);
    DenotesCons(p, pos, prefix, labels);
  }

  /** TYPE, CLASS IN, TTL and RDLENGTH at `pos`. */
  ghost predicate FixedAt(p: seq<Byte>, pos: nat, rtype: nat, rdlength: nat) {
    pos + 10 <= |p| && Octets16(p, pos) == rtype && Octets16(p, pos + 2) == CLASS_IN &&
    Octets32(p, pos + 4) == TTL && Octets16(p, pos + 8) == rdlength
  }

  lemma {:induction false} FixedFields(p: seq<Byte>, pos: nat, rtype: nat, rdlength: nat)
    requires rtype < 0x10000 && rdlength < 0x10000 && Holds(p, pos, Fixed(rtype, rdlength))
    ensures FixedAt(p, pos, rtype, rdlength)
  {
    var a, b, c, d := BigEndian16(rtype), BigEndian16(1), BigEndian32(TTL), BigEndian16(rdlength);
    assert Fixed(rtype, rdlength) == a + b + c + d;
    HoldsSplit(p, pos, a + b + c, d);
    HoldsSplit(p, pos, a + b, c);
    HoldsSplit(p, pos, a, b);
    HoldsWord(p, pos, rtype);
    HoldsWord(p, pos + 2, 1);
    HoldsLong(p, pos + 4, TTL);
    HoldsWord(p, pos + 8, rdlength);
  }

  /** An answer owned by the query name, up to its `n` octets of data. */
  ghost predicate AnswerHead(p: seq<Byte>, pos: nat, rtype: nat, n: nat) {
    Holds(p, pos, NAME_POINTER) && FixedAt(p, pos + 2, rtype, n) && pos + 12 + n <= |p|
  }

  lemma {:induction false} AnswerHeadLaid(p: seq<Byte>, pos: nat, rtype: nat, n: nat, rdata: seq<Byte>)
    requires rtype < 0x10000 && n < 0x10000 && |rdata| == n
    requires Holds(p, pos, NAME_POINTER + Fixed(rtype, n) + rdata)
    ensures AnswerHead(p, pos, rtype, n) && Holds(p, pos + 12, rdata)
  {
    HoldsSplit(p, pos, NAME_POINTER + Fixed(rtype, n), rdata);
    HoldsSplit(p, pos, NAME_POINTER, Fixed(rtype, n));
    FixedFields(p, pos + 2, rtype, n);
    HoldsSlice(p, pos + 12, rdata);
  }

  lemma {:induction false} NamedRecord(p: seq<Byte>, pos: nat, labels: seq<Label>, rtype: nat, n: nat)
    requires Resolves(p, HEADER, labels, 0) && AnswerHead(p, pos, rtype, n)
    ensures RecordAt(p, pos, Record(labels, rtype, CLASS_IN, TTL, pos + 12, n))
  {
    PointerName(p, pos, labels);
  }

  /** A record with these octets at the head of its data. */
  ghost predicate Carries(p: seq<Byte>, r: Record, owner: seq<Label>, rtype: nat, fields: seq<Byte>) {
    r.owner == owner && r.rtype == rtype && r.rclass == CLASS_IN && r.ttl == TTL && Holds(p, r.start, fields)
  }

  /** The label `prefix` in front of the query name, at `pos`, in `n` octets. */
  ghost predicate Subdomain(p: seq<Byte>, pos: nat, prefix: Label, labels: seq<Label>, n: nat) {
    Denotes(p, pos, [prefix] + labels) && WireLen(p, pos) == n
  }

  ghost predicate SpoofsAddress(p: seq<Byte>, m: Message, labels: seq<Label>, addr: seq<Byte>) {
    |m.answers| == 1 && m.authority == m.additional == [] &&
    Carries(p, m.answers[0], labels, TYPE_A, addr) && m.answers[0].length == 4
  }

  /** An answer whose data are `fields` and then a subdomain that fills the rest of
      them, and that subdomain's address in the additional section. */
  ghost predicate SpoofsSubdomain(p: seq<Byte>, m: Message, labels: seq<Label>, rtype: nat, fields: seq<Byte>,
      prefix: Label, addr: seq<Byte>) {
    |m.answers| == |m.additional| == 1 && m.authority == [] &&
    var r, s := m.answers[0], m.additional[0];
    Carries(p, r, labels, rtype, fields) && Subdomain(p, r.start + |fields|, prefix, labels, |prefix| + 3) &&
    r.length == |fields| + |prefix| + 3 &&
    Carries(p, s, [prefix] + labels, TYPE_A, addr) && s.length == 4
  }

  /** Priority, weight and port of the SRV answer. */
  function SrvFields(): (b: seq<Byte>)
    ensures |b| == 6
  {
    BigEndian16(0) + BigEndian16(0) + BigEndian16(2048)
  }

  function SoaTimers(): (b: seq<Byte>)
    ensures |b| == 20
  {
    BigEndian32(0x517957f5) + BigEndian32(3600) + BigEndian32(600) + BigEndian32(604800) + BigEndian32(60)
  }

  ghost predicate SpoofsSoa(p: seq<Byte>, m: Message, labels: seq<Label>) {
    m.answers == m.additional == [] && |m.authority| == 1 &&
    var r := m.authority[0];
    Carries(p, r, labels, TYPE_SOA, []) && r.length == 6 + 8 + 20 &&
    Subdomain(p, r.start, Ascii("ns1"), labels, 6) && Subdomain(p, r.start + 6, Ascii("abuse"), labels, 8) &&
    Holds(p, r.start + 14, SoaTimers())
  }

  /** What a reply says when it is one message. */
  ghost predicate Spoofs(p: seq<Byte>, m: Message, labels: seq<Label>, qtype: nat, addr: seq<Byte>) {
    if AsksForAddress(qtype) then SpoofsAddress(p, m, labels, addr)
    else if qtype == TYPE_MX then SpoofsSubdomain(p, m, labels, TYPE_MX, BigEndian16(10), Ascii("mail"), addr)
    else if qtype == TYPE_SRV then SpoofsSubdomain(p, m, labels, TYPE_SRV, SrvFields(), Ascii("srv"), addr)
    else SpoofsSoa(p, m, labels)
  }

  /** What every reply is made of, once its question has been read. */
  ghost predicate Ready(p: seq<Byte>, labels: seq<Label>, qtype: nat, body: nat) {
    |p| >= HEADER && Resolves(p, HEADER, labels, 0) &&
    QuestionAt(p, HEADER, Question(labels, qtype, CLASS_IN, body)) && Octets16(p, 4) == 1 &&
    Octets16(p, 6) == Answers(qtype) && Octets16(p, 8) == Authorities(qtype) && Octets16(p, 10) == Additionals(qtype)
  }

  lemma {:induction false} LaidReady(p: seq<Byte>, id: nat, labels: seq<Label>, qtype: nat, data: seq<Byte>, body: nat)
    requires WellFormed(labels) && qtype < 0x10000 && Laid(p, id, labels, qtype, data, body)
    ensures Ready(p, labels, qtype, body)
  {
    QuestionParses(p, id, labels, qtype, data, body);
    HeaderCounts(p, id, Answers(qtype), Authorities(qtype), Additionals(qtype));
  }

  lemma {:induction false} OneRecord(p: seq<Byte>, labels: seq<Label>, qtype: nat, body: nat, r: Record, m: Message)
    requires Ready(p, labels, qtype, body)
    requires m.questions == [Question(labels, qtype, CLASS_IN, body)]
    requires |m.answers| == Answers(qtype) && |m.authority| == Authorities(qtype)
    requires |m.additional| == Additionals(qtype)
    requires m.answers + m.authority + m.additional == [r]
    requires RecordAt(p, body, r) && r.start + r.length == |p|
    ensures MessageAt(p, m)
  {
    var qs := m.questions;
    assert QuestionsAt(p, body, qs[1..]) && RecordsAt(p, |p|, [r][1..]);
  }

  lemma {:induction false} TwoRecords(p: seq<Byte>, labels: seq<Label>, qtype: nat, body: nat, r: Record, s: Record,
      m: Message)
    requires Ready(p, labels, qtype, body) && Additionals(qtype) == 1
    requires m == Message([Question(labels, qtype, CLASS_IN, body)], [r], [], [s])
    requires RecordAt(p, body, r) && RecordAt(p, r.start + r.length, s) && s.start + s.length == |p|
    ensures MessageAt(p, m)
  {
    var qs := m.questions;
    assert m.answers + m.authority + m.additional == [r, s];
    assert [r, s][1..] == [s];
    assert QuestionsAt(p, body, qs[1..]) && RecordsAt(p, |p|, [s][1..]);
  }

  lemma {:induction false} AddressReply(p: seq<Byte>, labels: seq<Label>, qtype: nat, addr: seq<Byte>, body: nat)
    returns (m: Message)
    requires Ready(p, labels, qtype, body) && AsksForAddress(qtype) && |addr| == 4
    requires AnswerHead(p, body, TYPE_A, 4) && Holds(p, body + 12, addr) && |p| == body + 16
    ensures MessageAt(p, m) && SpoofsAddress(p, m, labels, addr)
  {
    NamedRecord(p, body, labels, TYPE_A, 4);
    var r := Record(labels, TYPE_A, CLASS_IN, TTL, body + 12, 4);
    m := Message([Question(labels, qtype, CLASS_IN, body)], [r], [], []);
    OneRecord(p, labels, qtype, body, r, m);
  }

  /** An address record owned by a subdomain, spelled out at `pos`. */
  ghost predicate AddressLaid(p: seq<Byte>, pos: nat, prefix: Label, addr: seq<Byte>) {
    1 <= |prefix| <= 63 && |addr| == 4 &&
    Holds(p, pos, Prefixed(prefix)) && FixedAt(p, pos + |prefix| + 3, TYPE_A, 4) &&
    Holds(p, pos + |prefix| + 13, addr)
  }

  lemma {:induction false} SubdomainAddress(p: seq<Byte>, labels: seq<Label>, pos: nat, prefix: Label, addr: seq<Byte>)
    requires Resolves(p, HEADER, labels, 0) && AddressLaid(p, pos, prefix, addr)
    ensures RecordAt(p, pos, Record([prefix] + labels, TYPE_A, CLASS_IN, TTL, pos + |prefix| + 13, 4))
  {
    PrefixedName(p, pos, prefix, labels);
    HoldsSlice(p, pos + |prefix| + 13, addr);
  }

  /** The octets of an answer whose `n` octets of data end in a subdomain, and of
      that subdomain's address. */
  ghost predicate SubdomainLaid(p: seq<Byte>, rtype: nat, n: nat, fields: seq<Byte>, prefix: Label, addr: seq<Byte>,
      body: nat) {
    n == |fields| + |prefix| + 3 && |p| == body + 12 + n + |prefix| + 17 &&
    AnswerHead(p, body, rtype, n) && Holds(p, body + 12, fields) && Holds(p, body + 12 + |fields|, Prefixed(prefix)) &&
    AddressLaid(p, body + 12 + n, prefix, addr)
  }

  function SubdomainMessage(labels: seq<Label>, qtype: nat, n: nat, prefix: Label, body: nat): Message {
    Message([Question(labels, qtype, CLASS_IN, body)],
            [Record(labels, qtype, CLASS_IN, TTL, body + 12, n)], [],
            [Record([prefix] + labels, TYPE_A, CLASS_IN, TTL, body + 12 + n + |prefix| + 13, 4)])
  }

  lemma {:induction false} SubdomainReply(p: seq<Byte>, labels: seq<Label>, qtype: nat, n: nat, fields: seq<Byte>,
      prefix: Label, addr: seq<Byte>, body: nat)
    returns (m: Message)
    requires Ready(p, labels, qtype, body) && Additionals(qtype) == 1
    requires SubdomainLaid(p, qtype, n, fields, prefix, addr, body)
    ensures MessageAt(p, m) && SpoofsSubdomain(p, m, labels, qtype, fields, prefix, addr)
  {
    m := SubdomainMessage(labels, qtype, n, prefix, body);
    NamedRecord(p, body, labels, qtype, n);
    SubdomainAddress(p, labels, body + 12 + n, prefix, addr);
    TwoRecords(p, labels, qtype, body, m.answers[0], m.additional[0], m);
    PrefixedName(p, body + 12 + |fields|, prefix, labels);
  }

  lemma {:induction false} SubdomainLayout(p: seq<Byte>, body: nat, rtype: nat, n: nat, fields: seq<Byte>,
      prefix: Label, addr: seq<Byte>)
    requires Holds(p, body,
      NAME_POINTER + Fixed(rtype, n) + fields + Prefixed(prefix) + Prefixed(prefix) + Fixed(TYPE_A, 4) + addr)
    requires n == |fields| + |prefix| + 3 && |p| == body + 12 + n + |prefix| + 17
    requires rtype < 0x10000 && n < 0x10000 && 1 <= |prefix| <= 63 && |addr| == 4
    ensures SubdomainLaid(p, rtype, n, fields, prefix, addr, body)
  {
    var next, c := body + 12 + n, Prefixed(prefix);
    SplitAddress(p, body, NAME_POINTER + Fixed(rtype, n), fields, c, Fixed(TYPE_A, 4), addr);
    AnswerHeadLaid(p, body, rtype, n, fields + c);
    HoldsSplit(p, body + 12, fields, c);
    HoldsSplit(p, next, c, Fixed(TYPE_A, 4) + addr);
    HoldsSplit(p, next + |prefix| + 3, Fixed(TYPE_A, 4), addr);
    FixedFields(p, next + |prefix| + 3, TYPE_A, 4);
  }

  lemma {:induction false} SplitAddress(p: seq<Byte>, pos: nat, a: seq<Byte>, b: seq<Byte>, c: seq<Byte>,
      d: seq<Byte>, e: seq<Byte>)
    requires Holds(p, pos, a + b + c + c + d + e)
    ensures Holds(p, pos, a + (b + c)) && Holds(p, pos + |a| + |b| + |c|, c + (d + e))
  {
    Regroup(a, b, c, d, e);
    HoldsSplit(p, pos, a + (b + c), c + (d + e));
  }

  lemma {:induction false} Regroup(a: seq<Byte>, b: seq<Byte>, c: seq<Byte>, d: seq<Byte>, e: seq<Byte>)
    ensures a + b + c + c + d + e == a + (b + c) + (c + (d + e))
  {
  }

  lemma {:induction false} SoaReply(p: seq<Byte>, labels: seq<Label>, qtype: nat, body: nat) returns (m: Message)
    requires Ready(p, labels, qtype, body) && Authorities(qtype) == 1 && |p| == body + 46
    requires AnswerHead(p, body, TYPE_SOA, 34) && Holds(p, body + 12, Prefixed(Ascii("ns1")))
    requires Holds(p, body + 18, Prefixed(Ascii("abuse"))) && Holds(p, body + 26, SoaTimers())
    ensures MessageAt(p, m) && SpoofsSoa(p, m, labels)
  {
    NamedRecord(p, body, labels, TYPE_SOA, 34);
    SoaNames(p, body + 12, Ascii("ns1"), Ascii("abuse"), labels);
    var r := Record(labels, TYPE_SOA, CLASS_IN, TTL, body + 12, 34);
    m := Message([Question(labels, qtype, CLASS_IN, body)], [], [r], []);
    OneRecord(p, labels, qtype, body, r, m);
  }

  lemma {:induction false} SoaNames(p: seq<Byte>, start: nat, host: Label, mailbox: Label, labels: seq<Label>)
    requires Resolves(p, HEADER, labels, 0) && |host| == 3 && |mailbox| == 5
    requires Holds(p, start, Prefixed(host)) && Holds(p, start + 6, Prefixed(mailbox))
    ensures Subdomain(p, start, host, labels, 6) && Subdomain(p, start + 6, mailbox, labels, 8)
  {
    PrefixedName(p, start, host, labels);
    PrefixedName(p, start + 6, mailbox, labels);
  }

  lemma {:induction false} SoaLayout(p: seq<Byte>, body: nat)
    requires Holds(p, body, ReplySoa()) && |p| == body + 46
    ensures AnswerHead(p, body, TYPE_SOA, 34) && Holds(p, body + 12, Prefixed(Ascii("ns1")))
    ensures Holds(p, body + 18, Prefixed(Ascii("abuse"))) && Holds(p, body + 26, SoaTimers())
  {
    var ns1, abuse := Prefixed(Ascii("ns1")), Prefixed(Ascii("abuse"));
    SoaSpelled();
    AnswerHeadLaid(p, body, TYPE_SOA, 34, ns1 + abuse + SoaTimers());
    HoldsSplit(p, body + 12, ns1 + abuse, SoaTimers());
    HoldsSplit(p, body + 12, ns1, abuse);
  }

  lemma {:induction false} SoaSpelled()
    ensures ReplySoa() == NAME_POINTER + Fixed(TYPE_SOA, 34) +
      (Prefixed(Ascii("ns1")) + Prefixed(Ascii("abuse")) + SoaTimers())
  {
    assert BigEndian32(0x517957f5) == [0x51, 0x79, 0x57, 0xf5];
    assert BigEndian32(3600) == [0x00, 0x00, 0x0e, 0x10];
    assert BigEndian32(600) == [0x00, 0x00, 0x02, 0x58];
    assert BigEndian32(604800) == [0x00, 0x09, 0x3a, 0x80];
    assert BigEndian32(60) == [0x00, 0x00, 0x00, 0x3c];
    SevenParts(NAME_POINTER + Fixed(TYPE_SOA, 34), Prefixed(Ascii("ns1")), Prefixed(Ascii("abuse")),
      BigEndian32(0x517957f5), BigEndian32(3600), BigEndian32(600), BigEndian32(604800), BigEndian32(60));
  }

  lemma {:induction false} SevenParts(a: seq<Byte>, b: seq<Byte>, c: seq<Byte>, d: seq<Byte>, e: seq<Byte>,
      f: seq<Byte>, g: seq<Byte>, h: seq<Byte>)
    ensures a + b + c + d + e + f + g + h == a + (b + c + (d + e + f + g + h))
  {
  }

  /** The one message a reply is, for every type but WINS. */
  lemma {:induction false} ReplyMessage(p: seq<Byte>, labels: seq<Label>, qtype: nat, addr: seq<Byte>, body: nat)
    returns (m: Message)
    requires Ready(p, labels, qtype, body) && qtype != TYPE_WINS && |addr| == 4
    requires Holds(p, body, ReplyData(qtype, addr)) && |p| == body + |ReplyData(qtype, addr)|
    ensures MessageAt(p, m) && Spoofs(p, m, labels, qtype, addr)
  {
    if AsksForAddress(qtype) {
      AnswerHeadLaid(p, body, TYPE_A, 4, addr);
      m := AddressReply(p, labels, qtype, addr, body);
    } else if qtype == TYPE_MX {
      MxLayout(p, body, addr);
      m := SubdomainReply(p, labels, TYPE_MX, 9, BigEndian16(10), Ascii("mail"), addr, body);
    } else if qtype == TYPE_SRV {
      SrvLayout(p, body, addr);
      m := SubdomainReply(p, labels, TYPE_SRV, 12, SrvFields(), Ascii("srv"), addr, body);
    } else {
      SoaLayout(p, body);
      m := SoaReply(p, labels, qtype, body);
    }
  }

  lemma {:induction false} MxLayout(p: seq<Byte>, body: nat, addr: seq<Byte>)
    requires |addr| == 4 && Holds(p, body, ReplyMx(addr)) && |p| == body + 42
    ensures SubdomainLaid(p, TYPE_MX, 9, BigEndian16(10), Ascii("mail"), addr, body)
  {
    assert BigEndian16(10) == [0, 10];
    SubdomainLayout(p, body, TYPE_MX, 9, [0, 10], Ascii("mail"), addr);
  }

  lemma {:induction false} SrvLayout(p: seq<Byte>, body: nat, addr: seq<Byte>)
    requires |addr| == 4 && Holds(p, body, ReplySrv(addr)) && |p| == body + 44
    ensures SubdomainLaid(p, TYPE_SRV, 12, SrvFields(), Ascii("srv"), addr, body)
  {
    assert SrvFields() == [0, 0, 0, 0, 8, 0];
    SubdomainLayout(p, body, TYPE_SRV, 12, [0, 0, 0, 0, 8, 0], Ascii("srv"), addr);
  }

  lemma {:induction false} LaidParses(p: seq<Byte>, labels: seq<Label>, qtype: nat, addr: seq<Byte>, body: nat)
    requires Ready(p, labels, qtype, body) && |addr| == 4
    requires Holds(p, body, ReplyData(qtype, addr)) && |p| == body + |ReplyData(qtype, addr)|
    ensures qtype != TYPE_WINS <==> exists m :: MessageAt(p, m)
    ensures forall m | MessageAt(p, m) ::
      Spoofs(p, m, labels, qtype, addr) && m.questions == [Question(labels, qtype, CLASS_IN, body)]
  {
    if qtype == TYPE_WINS {
      WinsReply(p, labels, addr, body);
    } else {
      var m := ReplyMessage(p, labels, qtype, addr, body);
      forall m' | MessageAt(p, m') ensures m' == m { MessageUnique(p, m', m); }
      QuestionUnique(p, HEADER, m.questions[0], Question(labels, qtype, CLASS_IN, body));
    }
  }

  /** The reply to any well-formed name is one message that says what it should,
      for exactly the types other than WINS. */
  lemma {:induction false} ReplyParses(id: nat, name: seq<Byte>, qtype: nat, addr: seq<Byte>, p: seq<Byte>)
    requires WellFormed(Split(name, DOT)) && qtype < 0x10000 && |addr| == 4
    requires p == Reply(id, name, qtype, addr)
    ensures |p| >= HEADER && Octets16(p, 0) == id % 0x10000 && p[2] == 0x84 && p[3] == 0
    ensures qtype != TYPE_WINS <==> exists m :: MessageAt(p, m)
    ensures forall m | MessageAt(p, m) ::
      Spoofs(p, m, Split(name, DOT), qtype, addr) &&
      m.questions == [Question(Split(name, DOT), qtype, CLASS_IN, HEADER + |name| + 6)]
  {
    var labels := Split(name, DOT);
    EncodedSplitLength(name);
    var body, data := HEADER + |name| + 6, ReplyData(qtype, addr);
    ReplyLaid(id, name, qtype, addr, labels, data);
    LaidReady(p, id, labels, qtype, data, body);
    LaidParses(p, labels, qtype, addr, body);
    ReplyStarts(id, name, qtype, addr);
  }

  /** A record of class 1 with a TTL of an hour. */
  ghost predicate Hourly(r: Record, owner: seq<Label>, rtype: nat, length: nat) {
    r.owner == owner && r.rtype == rtype && r.rclass == 1 && r.ttl == 3600 && r.length == length
  }

  ghost predicate AddressRecord(p: seq<Byte>, r: Record, owner: seq<Label>, addr: seq<Byte>) {
    Hourly(r, owner, 1, 4) && Holds(p, r.start, addr)
  }

  ghost predicate SaysAddress(p: seq<Byte>, m: Message, name: seq<Label>, addr: seq<Byte>) {
    |m.answers| == 1 && m.authority == m.additional == [] && AddressRecord(p, m.answers[0], name, addr)
  }

  /** The mail exchange `mail` of preference 10. */
  ghost predicate SaysMail(p: seq<Byte>, m: Message, name: seq<Label>, addr: seq<Byte>) {
    |m.answers| == |m.additional| == 1 && m.authority == [] &&
    Hourly(m.answers[0], name, 15, 9) && Holds(p, m.answers[0].start, [0, 10]) &&
    Denotes(p, m.answers[0].start + 2, [Ascii("mail")] + name) &&
    AddressRecord(p, m.additional[0], [Ascii("mail")] + name, addr)
  }

  /** The service `srv` at port 2048, priority and weight 0. */
  ghost predicate SaysService(p: seq<Byte>, m: Message, name: seq<Label>, addr: seq<Byte>) {
    |m.answers| == |m.additional| == 1 && m.authority == [] &&
    Hourly(m.answers[0], name, 33, 12) && Holds(p, m.answers[0].start, [0, 0, 0, 0, 8, 0]) &&
    Denotes(p, m.answers[0].start + 6, [Ascii("srv")] + name) &&
    AddressRecord(p, m.additional[0], [Ascii("srv")] + name, addr)
  }

  /** The authority `ns1` with the mailbox `abuse`, and its serial number and timers. */
  ghost predicate SaysAuthority(p: seq<Byte>, m: Message, name: seq<Label>) {
    m.answers == m.additional == [] && |m.authority| == 1 &&
    Hourly(m.authority[0], name, 6, 34) &&
    Denotes(p, m.authority[0].start, [Ascii("ns1")] + name) &&
    Denotes(p, m.authority[0].start + 6, [Ascii("abuse")] + name) &&
    Holds(p, m.authority[0].start + 14,
      [0x51, 0x79, 0x57, 0xf5, 0, 0, 0x0e, 0x10, 0, 0, 2, 0x58, 0, 9, 0x3a, 0x80, 0, 0, 0, 60])
  }

  /** What a reply says, in the numbers of RFC 1035 and RFC 2782: an address for the types
      A, PTR, TXT and AAAA, else a mail exchange, a service or a start of authority. */
  lemma {:induction false} ReplyNumbers(id: nat, name: seq<Byte>, qtype: nat, addr: seq<Byte>, p: seq<Byte>,
      m: Message)
    requires WellFormed(Split(name, DOT)) && qtype < 0x10000 && |addr| == 4
    requires p == Reply(id, name, qtype, addr) && MessageAt(p, m)
    ensures qtype != 0xff01
    ensures
      if qtype == 1 || qtype == 12 || qtype == 16 || qtype == 28 then SaysAddress(p, m, Split(name, DOT), addr)
      else if qtype == 15 then SaysMail(p, m, Split(name, DOT), addr)
      else if qtype == 33 then SaysService(p, m, Split(name, DOT), addr)
      else SaysAuthority(p, m, Split(name, DOT))
  {
    ReplyParses(id, name, qtype, addr, p);
    var labels := Split(name, DOT);
    if AsksForAddress(qtype) {
    } else if qtype == TYPE_MX {
      MailNumbers(p, m, labels, addr);
    } else if qtype == TYPE_SRV {
      ServiceNumbers(p, m, labels, addr);
    } else {
      TimerOctets();
    }
  }

  lemma {:induction false} MailNumbers(p: seq<Byte>, m: Message, labels: seq<Label>, addr: seq<Byte>)
    requires SpoofsSubdomain(p, m, labels, TYPE_MX, BigEndian16(10), Ascii("mail"), addr)
    ensures SaysMail(p, m, labels, addr)
  {
    assert BigEndian16(10) == [0, 10];
  }

  lemma {:induction false} ServiceNumbers(p: seq<Byte>, m: Message, labels: seq<Label>, addr: seq<Byte>)
    requires SpoofsSubdomain(p, m, labels, TYPE_SRV, SrvFields(), Ascii("srv"), addr)
    ensures SaysService(p, m, labels, addr)
  {
    assert SrvFields() == [0, 0, 0, 0, 8, 0];
  }

  lemma {:induction false} TimerOctets()
    ensures SoaTimers() ==
      [0x51, 0x79, 0x57, 0xf5, 0, 0, 0x0e, 0x10, 0, 0, 2, 0x58, 0, 9, 0x3a, 0x80, 0, 0, 0, 60]
  {
    assert BigEndian32(0x517957f5) == [0x51, 0x79, 0x57, 0xf5];
    assert BigEndian32(3600) == [0, 0, 0x0e, 0x10];
    assert BigEndian32(600) == [0, 0, 2, 0x58];
    assert BigEndian32(604800) == [0, 9, 0x3a, 0x80];
    assert BigEndian32(60) == [0, 0, 0, 60];
  }

  /** The reply to WINS has a record behind its question that the header does not count. */
  lemma {:induction false} WinsReply(p: seq<Byte>, labels: seq<Label>, addr: seq<Byte>, body: nat)
    requires Ready(p, labels, TYPE_WINS, body) && |addr| == 4
    requires Holds(p, body, ReplyA(TYPE_WINS, addr))
    ensures RecordAt(p, body, Record(labels, TYPE_WINS, CLASS_IN, TTL, body + 12, 4))
    ensures forall m :: !MessageAt(p, m)
  {
    AnswerHeadLaid(p, body, TYPE_WINS, 4, addr);
    NamedRecord(p, body, labels, TYPE_WINS, 4);
    forall m
      ensures !MessageAt(p, m)
    {
      if MessageAt(p, m) {
        QuestionUnique(p, HEADER, m.questions[0], Question(labels, TYPE_WINS, CLASS_IN, body));
      }
    }
  }
}
