/** The message format of section 4.1 of RFC 1035, as a relation between octets
    and messages, independent of who wrote or reads them. */
module DnsMessage {
  import opened Bytes
  import opened DnsName

  const HEADER: nat := 12
  const TYPE_A: nat := 1
  const TYPE_CNAME: nat := 5
  const TYPE_SOA: nat := 6
  const TYPE_PTR: nat := 12
  const TYPE_MX: nat := 15
  const TYPE_TXT: nat := 16
  const TYPE_AAAA: nat := 28
  const TYPE_SRV: nat := 33
  const TYPE_WINS: nat := 0xff01
  const CLASS_IN: nat := 1

  /** `next` is where the question ends. */
  datatype Question = Question(name: seq<Label>, qtype: nat, qclass: nat, next: nat)

  /** The data are the `length` octets from `start` on. */
  datatype Record = Record(owner: seq<Label>, rtype: nat, rclass: nat, ttl: nat, start: nat, length: nat)

  datatype Message = Message(
    questions: seq<Question>, answers: seq<Record>, authority: seq<Record>, additional: seq<Record>)

  ghost predicate QuestionAt(p: seq<Byte>, pos: nat, q: Question) {
    var end := pos + WireLen(p, pos);
    Denotes(p, pos, q.name) && end + 4 <= |p| &&
    q.qtype == Octets16(p, end) && q.qclass == Octets16(p, end + 2) && q.next == end + 4
  }

  ghost predicate RecordAt(p: seq<Byte>, pos: nat, r: Record) {
    var end := pos + WireLen(p, pos);
    Denotes(p, pos, r.owner) && end + 10 <= |p| &&
    r.rtype == Octets16(p, end) && r.rclass == Octets16(p, end + 2) && r.ttl == Octets32(p, end + 4) &&
    r.length == Octets16(p, end + 8) && r.start == end + 10 && r.start + r.length <= |p|
  }

  ghost predicate QuestionsAt(p: seq<Byte>, pos: nat, qs: seq<Question>)
    decreases |qs|
  {
    qs != [] ==> QuestionAt(p, pos, qs[0]) && QuestionsAt(p, qs[0].next, qs[1..])
  }

  ghost predicate RecordsAt(p: seq<Byte>, pos: nat, rs: seq<Record>)
    decreases |rs|
  {
    rs != [] ==> RecordAt(p, pos, rs[0]) && RecordsAt(p, rs[0].start + rs[0].length, rs[1..])
  }

  function QuestionsEnd(pos: nat, qs: seq<Question>): nat {
    if qs == [] then pos else qs[|qs| - 1].next
  }

  function RecordsEnd(pos: nat, rs: seq<Record>): nat {
    if rs == [] then pos else rs[|rs| - 1].start + rs[|rs| - 1].length
  }

  /** The octets are exactly one message: as many questions and records as the
      header counts, and nothing behind them. */
  ghost predicate MessageAt(p: seq<Byte>, m: Message) {
    var records := m.answers + m.authority + m.additional;
    var body := QuestionsEnd(HEADER, m.questions);
    |p| >= HEADER &&
    Octets16(p, 4) == |m.questions| && Octets16(p, 6) == |m.answers| &&
    Octets16(p, 8) == |m.authority| && Octets16(p, 10) == |m.additional| &&
    QuestionsAt(p, HEADER, m.questions) && RecordsAt(p, body, records) && RecordsEnd(body, records) == |p|
  }

  lemma {:induction false} QuestionUnique(p: seq<Byte>, pos: nat, a: Question, b: Question)
    requires QuestionAt(p, pos, a) && QuestionAt(p, pos, b)
    ensures a == b
  {
    DenotesUnique(p, pos, a.name, b.name);
  }

  lemma {:induction false} RecordUnique(p: seq<Byte>, pos: nat, a: Record, b: Record)
    requires RecordAt(p, pos, a) && RecordAt(p, pos, b)
    ensures a == b
  {
    DenotesUnique(p, pos, a.owner, b.owner);
  }

  lemma {:induction false} QuestionsUnique(p: seq<Byte>, pos: nat, a: seq<Question>, b: seq<Question>)
    requires QuestionsAt(p, pos, a) && QuestionsAt(p, pos, b) && |a| == |b|
    ensures a == b
    decreases |a|
  {
    if a != [] {
      QuestionUnique(p, pos, a[0], b[0]);
      QuestionsUnique(p, a[0].next, a[1..], b[1..]);
      assert a == [a[0]] + a[1..] && b == [b[0]] + b[1..];
    }
  }

  lemma {:induction false} RecordsUnique(p: seq<Byte>, pos: nat, a: seq<Record>, b: seq<Record>)
    requires RecordsAt(p, pos, a) && RecordsAt(p, pos, b) && |a| == |b|
    ensures a == b
    decreases |a|
  {
    if a != [] {
      RecordUnique(p, pos, a[0], b[0]);
      RecordsUnique(p, a[0].start + a[0].length, a[1..], b[1..]);
      assert a == [a[0]] + a[1..] && b == [b[0]] + b[1..];
    }
  }

  /** Octets are at most one message. */
  lemma {:induction false} MessageUnique(p: seq<Byte>, a: Message, b: Message)
    requires MessageAt(p, a) && MessageAt(p, b)
    ensures a == b
  {
    QuestionsUnique(p, HEADER, a.questions, b.questions);
    var ra, rb := a.answers + a.authority + a.additional, b.answers + b.authority + b.additional;
    RecordsUnique(p, QuestionsEnd(HEADER, a.questions), ra, rb);
    var n, m := |a.answers|, |a.answers| + |a.authority|;
    assert a.answers == ra[..n] == rb[..n] == b.answers;
    assert a.authority == ra[n..m] == rb[n..m] == b.authority;
    assert a.additional == ra[m..] == rb[m..] == b.additional;
  }
}
