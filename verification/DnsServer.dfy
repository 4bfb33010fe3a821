/** `DnsServer::run` and its record builders (src/dnsserver.cpp): every query is
    answered with the spoof address. */
module DnsServer {
  import opened Bytes
  import opened Tokens
  import opened DnsName
  import opened DnsEncode
  import opened DnsMessage

  const BUFFER_SIZE: nat := 1024
  const TTL: nat := 3600

  /** Pointer to the query name, which always follows the header. */
  const NAME_POINTER: seq<Byte> := [0xc0, 0x0c]

  /** TYPE, CLASS IN, TTL and RDLENGTH of a record. */
  function Fixed(rtype: nat, rdlength: nat): (b: seq<Byte>)
    ensures |b| == 10
  {
    BigEndian16(rtype) + [0, 1] + BigEndian32(TTL) + BigEndian16(rdlength)
  }

  function ReplyA(rtype: nat, addr: seq<Byte>): seq<Byte> {
    NAME_POINTER + Fixed(rtype, 4) + addr
  }

  function Prefixed(prefix: Label): seq<Byte> {
    Piece(prefix) + NAME_POINTER
  }

  function ReplyMx(addr: seq<Byte>): seq<Byte> {
    NAME_POINTER + Fixed(TYPE_MX, 9) + [0, 10] + Prefixed(Ascii("mail")) +
    Prefixed(Ascii("mail")) + Fixed(TYPE_A, 4) + addr
  }

  function ReplySrv(addr: seq<Byte>): seq<Byte> {
    NAME_POINTER + Fixed(TYPE_SRV, 12) + [0, 0, 0, 0, 8, 0] + Prefixed(Ascii("srv")) +
    Prefixed(Ascii("srv")) + Fixed(TYPE_A, 4) + addr
  }

  function ReplySoa(): seq<Byte> {
    NAME_POINTER + Fixed(TYPE_SOA, 34) + Prefixed(Ascii("ns1")) + Prefixed(Ascii("abuse")) +
    [0x51, 0x79, 0x57, 0xf5] + [0x00, 0x00, 0x0e, 0x10] + [0x00, 0x00, 0x02, 0x58] +
    [0x00, 0x09, 0x3a, 0x80] + [0x00, 0x00, 0x00, 0x3c]
  }

  /** TYPE, CLASS, TTL and RDLENGTH, memcpy by memcpy. */
  method PutFixed(data: array<Byte>, at: nat, rtype: nat, rdlength: nat, ghost was: seq<Byte>, ghost text: seq<Byte>)
    requires Overlaid(data[..], was, 0, text) && at == |text| && at + 10 <= data.Length
    modifies data
    ensures Overlaid(data[..], was, 0, text + Fixed(rtype, rdlength))
  {
    var a, b, c := BigEndian16(rtype), BigEndian32(TTL), BigEndian16(rdlength);
    Append(data, at, a, was, 0, text);
    Append(data, at + 2, [0, 1], was, 0, text + a);
    Append(data, at + 4, b, was, 0, text + a + [0, 1]);
    Append(data, at + 8, c, was, 0, text + a + [0, 1] + b);
    assert text + a + [0, 1] + b + c == text + Fixed(rtype, rdlength);
  }

  /** A label in front of the query name: two memcpys. */
  method PutPrefixed(data: array<Byte>, at: nat, prefix: Label, ghost was: seq<Byte>, ghost text: seq<Byte>)
    requires Overlaid(data[..], was, 0, text) && at == |text| && at + |prefix| + 3 <= data.Length
    modifies data
    ensures Overlaid(data[..], was, 0, text + Prefixed(prefix))
  {
    Append(data, at, Piece(prefix), was, 0, text);
    Append(data, at + |prefix| + 1, NAME_POINTER, was, 0, text + Piece(prefix));
    assert text + Piece(prefix) + NAME_POINTER == text + Prefixed(prefix);
  }

  /** `prepare_dns_reply_a` and, with another type, `prepare_dns_reply_wins`. */
  method PrepareA(addr: seq<Byte>, rtype: nat) returns (data: array<Byte>)
    requires |addr| == 4
    ensures fresh(data) && data[..] == ReplyA(rtype, addr)
  {
    data := new Byte[16](_ => 0);
    ghost var was := data[..];
    Memcpy(data, 0, NAME_POINTER);
    PutFixed(data, 2, rtype, 4, was, NAME_POINTER);
    Append(data, 12, addr, was, 0, NAME_POINTER + Fixed(rtype, 4));
    OverlaidWhole(data[..], was, ReplyA(rtype, addr));
  }

  /** `prepare_dns_reply_mx`. */
  method PrepareMx(addr: seq<Byte>) returns (data: array<Byte>)
    requires |addr| == 4
    ensures fresh(data) && data[..] == ReplyMx(addr)
  {
    data := new Byte[42](_ => 0);
    ghost var was := data[..];
    ghost var text := NAME_POINTER;
    Memcpy(data, 0, NAME_POINTER);
    PutFixed(data, 2, TYPE_MX, 9, was, text);
    text := text + Fixed(TYPE_MX, 9);
    Append(data, 12, [0, 10], was, 0, text);
    text := text + [0, 10];
    PutPrefixed(data, 14, Ascii("mail"), was, text);
    text := text + Prefixed(Ascii("mail"));
    PutPrefixed(data, 21, Ascii("mail"), was, text);
    text := text + Prefixed(Ascii("mail"));
    PutFixed(data, 28, TYPE_A, 4, was, text);
    text := text + Fixed(TYPE_A, 4);
    Append(data, 38, addr, was, 0, text);
    OverlaidWhole(data[..], was, ReplyMx(addr));
  }

  /** `prepare_dns_reply_srv`, with the query name at offset 12. */
  method PrepareSrv(addr: seq<Byte>) returns (data: array<Byte>)
    requires |addr| == 4
    ensures fresh(data) && data[..] == ReplySrv(addr)
  {
    data := new Byte[44](_ => 0);
    ghost var was := data[..];
    ghost var text := NAME_POINTER;
    Memcpy(data, 0, NAME_POINTER);
    PutFixed(data, 2, TYPE_SRV, 12, was, text);
    text := text + Fixed(TYPE_SRV, 12);
    Append(data, 12, [0, 0, 0, 0, 8, 0], was, 0, text);
    text := text + [0, 0, 0, 0, 8, 0];
    PutPrefixed(data, 18, Ascii("srv"), was, text);
    text := text + Prefixed(Ascii("srv"));
    PutPrefixed(data, 24, Ascii("srv"), was, text);
    text := text + Prefixed(Ascii("srv"));
    PutFixed(data, 30, TYPE_A, 4, was, text);
    text := text + Fixed(TYPE_A, 4);
    Append(data, 40, addr, was, 0, text);
    OverlaidWhole(data[..], was, ReplySrv(addr));
  }

  /** `prepare_dns_reply_default`. */
  method PrepareSoa() returns (data: array<Byte>)
    ensures fresh(data) && data[..] == ReplySoa()
  {
    data := new Byte[46](_ => 0);
    ghost var was := data[..];
    ghost var text := NAME_POINTER;
    Memcpy(data, 0, NAME_POINTER);
    PutFixed(data, 2, TYPE_SOA, 34, was, text);
    text := text + Fixed(TYPE_SOA, 34);
    PutPrefixed(data, 12, Ascii("ns1"), was, text);
    text := text + Prefixed(Ascii("ns1"));
    PutPrefixed(data, 18, Ascii("abuse"), was, text);
    text := text + Prefixed(Ascii("abuse"));
    var timers: seq<seq<Byte>> := [[0x51, 0x79, 0x57, 0xf5], [0x00, 0x00, 0x0e, 0x10], [0x00, 0x00, 0x02, 0x58],
                                   [0x00, 0x09, 0x3a, 0x80], [0x00, 0x00, 0x00, 0x3c]];
    Append(data, 26, timers[0], was, 0, text);
    Append(data, 30, timers[1], was, 0, text + timers[0]);
    Append(data, 34, timers[2], was, 0, text + timers[0] + timers[1]);
    Append(data, 38, timers[3], was, 0, text + timers[0] + timers[1] + timers[2]);
    Append(data, 42, timers[4], was, 0, text + timers[0] + timers[1] + timers[2] + timers[3]);
    OverlaidWhole(data[..], was, ReplySoa());
  }

  // ----- run -----

  predicate AsksForAddress(qtype: nat) {
    qtype == TYPE_TXT || qtype == TYPE_PTR || qtype == TYPE_AAAA || qtype == TYPE_A
  }

  function ReplyData(qtype: nat, addr: seq<Byte>): seq<Byte> {
    if AsksForAddress(qtype) then ReplyA(TYPE_A, addr)
    else if qtype == TYPE_MX then ReplyMx(addr)
    else if qtype == TYPE_WINS then ReplyA(TYPE_WINS, addr)
    else if qtype == TYPE_SRV then ReplySrv(addr)
    else ReplySoa()
  }

  /** What the builders add to the three counters; `prepare_dns_reply_wins` adds nothing. */
  function Answers(qtype: nat): nat {
    if AsksForAddress(qtype) || qtype == TYPE_MX || qtype == TYPE_SRV then 1 else 0
  }

  function Authorities(qtype: nat): nat {
    if Answers(qtype) == 1 || qtype == TYPE_WINS then 0 else 1
  }

  function Additionals(qtype: nat): nat {
    if qtype == TYPE_MX || qtype == TYPE_SRV then 1 else 0
  }

  method Prepare(qtype: nat, addr: seq<Byte>) returns (data: array<Byte>, answers: nat, authority: nat, additional: nat)
    requires |addr| == 4
    ensures fresh(data) && data[..] == ReplyData(qtype, addr)
    ensures answers == Answers(qtype) && authority == Authorities(qtype) && additional == Additionals(qtype)
  {
    answers, authority, additional := 0, 0, 0;
    if qtype == TYPE_TXT || qtype == TYPE_PTR || qtype == TYPE_AAAA || qtype == TYPE_A {
      data := PrepareA(addr, TYPE_A);
      answers := answers + 1;
    } else if qtype == TYPE_MX {
      data := PrepareMx(addr);
      answers, additional := answers + 1, additional + 1;
    } else if qtype == TYPE_WINS {
      data := PrepareA(addr, TYPE_WINS);
    } else if qtype == TYPE_SRV {
      data := PrepareSrv(addr);
      answers, additional := answers + 1, additional + 1;
    } else {
      data := PrepareSoa();
      authority := authority + 1;
    }
  }

  function Header(id: nat, answers: nat, authority: nat, additional: nat): (b: seq<Byte>)
    ensures |b| == HEADER
  {
    BigEndian16(id) + BigEndian16(0x8400) + BigEndian16(1) +
    BigEndian16(answers) + BigEndian16(authority) + BigEndian16(additional)
  }

  /** `encode_spoof_dns_header`: six `put2byte` calls. */
  method EncodeHeader(buffer: array<Byte>, id: nat, answers: nat, authority: nat, additional: nat)
    requires buffer.Length >= HEADER
    modifies buffer
    ensures Overlaid(buffer[..], old(buffer[..]), 0, Header(id, answers, authority, additional))
  {
    ghost var was := buffer[..];
    var words := [id, 0x8400, 1, answers, authority, additional];
    Memcpy(buffer, 0, BigEndian16(words[0]));
    ghost var text := BigEndian16(words[0]);
    Append(buffer, 2, BigEndian16(words[1]), was, 0, text);
    text := text + BigEndian16(words[1]);
    Append(buffer, 4, BigEndian16(words[2]), was, 0, text);
    text := text + BigEndian16(words[2]);
    Append(buffer, 6, BigEndian16(words[3]), was, 0, text);
    text := text + BigEndian16(words[3]);
    Append(buffer, 8, BigEndian16(words[4]), was, 0, text);
    text := text + BigEndian16(words[4]);
    Append(buffer, 10, BigEndian16(words[5]), was, 0, text);
    assert text + BigEndian16(words[5]) == Header(id, answers, authority, additional);
  }

  function ReplyHeader(id: nat, qtype: nat): (b: seq<Byte>)
    ensures |b| == HEADER
  {
    Header(id, Answers(qtype), Authorities(qtype), Additionals(qtype))
  }

  /** The whole reply to a query for `name`. */
  function Reply(id: nat, name: seq<Byte>, qtype: nat, addr: seq<Byte>): seq<Byte> {
    ReplyHeader(id, qtype) + (Encoded(Split(name, DOT)) + [0]) +
    (BigEndian16(qtype) + BigEndian16(CLASS_IN)) + ReplyData(qtype, addr)
  }

  /** Class IN, a standard query, one question and no answer. */
  predicate Admitted(query: seq<Byte>, nameLen: nat)
    requires HEADER + nameLen + 4 <= |query|
  {
    Octets16(query, HEADER + nameLen + 2) == CLASS_IN &&
    query[2] / 128 == 0 && query[2] / 8 % 16 == 0 &&
    Octets16(query, 4) == 1 && Octets16(query, 6) == 0
  }

  /** The same octet by octet: QR and the four bits of the opcode clear, QDCOUNT 1, ANCOUNT 0
      and class 1. */
  lemma {:induction false} AdmittedOctets(query: seq<Byte>, nameLen: nat)
    requires HEADER + nameLen + 4 <= |query|
    ensures |query| >= 16 && (Admitted(query, nameLen) <==>
      query[2] < 8 && query[4] == 0 && query[5] == 1 && query[6] == query[7] == 0 &&
      query[12 + nameLen + 2] == 0 && query[12 + nameLen + 3] == 1)
  {
    var b: nat := query[2];
    assert b / 128 == 0 && b / 8 % 16 == 0 <==> b < 8;
  }

  /** Every reply starts with the identifier, the flags QR and AA, and one question. */
  lemma {:induction false} ReplyStarts(id: nat, name: seq<Byte>, qtype: nat, addr: seq<Byte>)
    ensures var p := Reply(id, name, qtype, addr);
      |p| >= 12 && p[0] == id / 256 % 256 && p[1] == id % 256 && p[2] == 0x84 && p[3] == 0 && p[4] == 0 && p[5] == 1
    ensures Octets16(Reply(id, name, qtype, addr), 0) == id % 0x10000
  {
    var header := ReplyHeader(id, qtype);
    assert Reply(id, name, qtype, addr)[..12] == header;
    assert header[0] == id / 256 % 256 && header[1] == id % 256;
    assert header[2] == 0x84 && header[3] == 0 && header[4] == 0 && header[5] == 1;
    TwoOctets(id);
  }

  lemma {:induction false} TwoOctets(w: nat)
    ensures w / 256 % 256 * 256 + w % 256 == w % 0x10000
  {
    var high := w / 256;
    assert w == high / 256 * 0x10000 + (high % 256 * 256 + w % 256);
  }

  /** Header, question and record of a reply with one address. */
  function AddressOctets(hi: Byte, lo: Byte, wire: seq<Byte>, t: Byte, addr: seq<Byte>): seq<Byte> {
    [hi, lo, 0x84, 0, 0, 1, 0, 1, 0, 0, 0, 0] + wire + [0, t, 0, 1] +
    ([0xc0, 12, 0, 1, 0, 1, 0, 0, 0x0e, 0x10, 0, 4] + addr)
  }

  /** The reply to a query of type A, PTR, TXT or AAAA, octet by octet around the name. */
  lemma {:induction false} AddressReplyOctets(id: nat, hi: Byte, lo: Byte, name: seq<Byte>, qtype: nat, t: Byte,
      addr: seq<Byte>)
    requires id == hi as int * 256 + lo && qtype == t && (t == 1 || t == 12 || t == 16 || t == 28)
    ensures Reply(id, name, qtype, addr) == AddressOctets(hi, lo, Encoded(Split(name, DOT)) + [0], t, addr)
  {
    assert id / 256 % 256 == hi && id % 256 == lo;
    assert ReplyHeader(id, qtype) == [hi, lo, 0x84, 0, 0, 1, 0, 1, 0, 0, 0, 0];
    assert BigEndian16(qtype) + BigEndian16(CLASS_IN) == [0, t, 0, 1];
    assert BigEndian32(TTL) == [0, 0, 0x0e, 0x10];
    assert NAME_POINTER + Fixed(TYPE_A, 4) == [0xc0, 12, 0, 1, 0, 1, 0, 0, 0x0e, 0x10, 0, 4];
  }

  method Clear(buffer: array<Byte>)
    modifies buffer
    ensures forall i | 0 <= i < buffer.Length :: buffer[i] == 0
  {
    for i := 0 to buffer.Length
      invariant forall j | 0 <= j < i :: buffer[j] == 0
    {
      buffer[i] := 0;
    }
  }

  /** One round of the loop of `run`: the query in `buffer` is answered in place.
      `dn_expand` gave `name`, taken up by `nameLen` octets of the query, and
      `addr` is the spoof address. */
  method Answer(buffer: array<Byte>, name: seq<Byte>, nameLen: nat, addr: seq<Byte>) returns (sent: bool, n: nat)
    requires buffer.Length == 1024 && HEADER + nameLen + 4 <= 1024
    requires |name| <= 255 && |addr| == 4
    modifies buffer
    ensures sent <==> Admitted(old(buffer[..]), nameLen)
    ensures sent <==>
      old(buffer[2]) < 8 && old(buffer[4]) == 0 && old(buffer[5]) == 1 && old(buffer[6]) == old(buffer[7]) == 0 &&
      old(buffer[12 + nameLen + 2]) == 0 && old(buffer[12 + nameLen + 3]) == 1
    ensures !sent ==> buffer[..] == old(buffer[..])
    ensures sent ==> n <= 1024
    ensures sent ==>
      buffer[..n] == Reply(Octets16(old(buffer[..]), 0), name, Octets16(old(buffer[..]), HEADER + nameLen), addr)
    ensures sent ==> forall i | n <= i < 1024 :: buffer[i] == 0
    ensures sent ==>
      buffer[0] == old(buffer[0]) && buffer[1] == old(buffer[1]) && buffer[2] == 0x84 && buffer[3] == 0
  {
    AdmittedOctets(buffer[..], nameLen);
    n := 0;
    var q := HEADER + nameLen;
    var id, qtype := Octets16(buffer[..], 0), Octets16(buffer[..], q);
    var qclass := Octets16(buffer[..], q + 2);
    if qclass != CLASS_IN {
      return false, n;
    }
    if buffer[2] / 128 != 0 || buffer[2] / 8 % 16 != 0 ||
       Octets16(buffer[..], 4) != 1 || Octets16(buffer[..], 6) != 0 {
      return false, n;
    }
    var data, answers, authority, additional := Prepare(qtype, addr);
    n := Assemble(buffer, id, answers, authority, additional, name, qtype, qclass, data[..], addr);
    ReplyStarts(id, name, qtype, addr);
    sent := true;
  }

  method Assemble(buffer: array<Byte>, id: nat, answers: nat, authority: nat, additional: nat, name: seq<Byte>,
                  qtype: nat, qclass: nat, data: seq<Byte>, ghost addr: seq<Byte>) returns (n: nat)
    requires buffer.Length == BUFFER_SIZE && |name| <= 255 && |data| <= 46
    requires data == ReplyData(qtype, addr) && qclass == CLASS_IN
    requires answers == Answers(qtype) && authority == Authorities(qtype) && additional == Additionals(qtype)
    modifies buffer
    ensures n <= BUFFER_SIZE && buffer[..n] == Reply(id, name, qtype, addr)
    ensures forall i | n <= i < BUFFER_SIZE :: buffer[i] == 0
  {
    Clear(buffer);
    ghost var was := buffer[..];
    EncodeHeader(buffer, id, answers, authority, additional);
    n := HEADER;
    ghost var text: seq<Byte> := ReplyHeader(id, qtype);
    ghost var before := buffer[..];
    var len := EncodeDomain(buffer, n, name);
    ghost var wire := Encoded(Split(name, DOT)) + [0];
    OverlaidTwice(buffer[..], before, was, 0, text, wire);
    n := n + len;
    text := text + wire;
    Append(buffer, n, BigEndian16(qtype), was, 0, text);
    Append(buffer, n + 2, BigEndian16(qclass), was, 0, text + BigEndian16(qtype));
    assert text + BigEndian16(qtype) + BigEndian16(qclass) == text + (BigEndian16(qtype) + BigEndian16(qclass));
    text := text + (BigEndian16(qtype) + BigEndian16(qclass));
    n := n + 4;
    Append(buffer, n, data, was, 0, text);
    n := n + |data|;
    OverlaidWhole(buffer[..], was, text + data);
  }

  /** The octets of a standard query with one question of type `t` and class 1. */
  ghost predicate Asks(query: seq<Byte>, hi: Byte, lo: Byte, nameLen: nat, t: Byte) {
    Holds(query, 0, [hi, lo, 1, 0, 0, 1, 0, 0, 0, 0, 0, 0]) && Holds(query, 12 + nameLen, [0, t, 0, 1])
  }

  lemma {:induction false} AsksOctets(query: seq<Byte>, hi: Byte, lo: Byte, nameLen: nat, t: Byte)
    requires Asks(query, hi, lo, nameLen, t)
    ensures 12 + nameLen + 4 <= |query| && Admitted(query, nameLen)
    ensures Octets16(query, 0) == hi as int * 256 + lo && Octets16(query, 12 + nameLen) == t
  {
    OctetsHeld(query, hi, lo, nameLen, t);
    AdmittedOctets(query, nameLen);
  }

  lemma {:induction false} OctetsHeld(query: seq<Byte>, hi: Byte, lo: Byte, nameLen: nat, t: Byte)
    requires Asks(query, hi, lo, nameLen, t)
    ensures 12 + nameLen + 4 <= |query| && query[0] == hi && query[1] == lo && query[2] == 1
    ensures query[4] == 0 && query[5] == 1 && query[6] == query[7] == 0
    ensures query[12 + nameLen] == 0 && query[12 + nameLen + 1] == t
    ensures query[12 + nameLen + 2] == 0 && query[12 + nameLen + 3] == 1
  {
    var head: seq<Byte>, tail: seq<Byte> := [hi, lo, 1, 0, 0, 1, 0, 0, 0, 0, 0, 0], [0, t, 0, 1];
    HoldsSlice(query, 0, head);
    HoldsSlice(query, 12 + nameLen, tail);
    var q := query[12 + nameLen..12 + nameLen + 4];
    assert query[0..12] == head && q == tail;
    assert q[0] == 0 && q[1] == t && q[2] == 0 && q[3] == 1;
  }

  lemma {:induction false} AsksReply(query: seq<Byte>, hi: Byte, lo: Byte, name: seq<Byte>, nameLen: nat, t: Byte,
      addr: seq<Byte>)
    requires (t == 1 || t == 12 || t == 16 || t == 28) && Asks(query, hi, lo, nameLen, t)
    ensures HEADER + nameLen + 4 <= |query| && Admitted(query, nameLen)
    ensures Reply(Octets16(query, 0), name, Octets16(query, HEADER + nameLen), addr) ==
      AddressOctets(hi, lo, Encoded(Split(name, DOT)) + [0], t, addr)
  {
    AsksOctets(query, hi, lo, nameLen, t);
    AddressReplyOctets(Octets16(query, 0), hi, lo, name, Octets16(query, HEADER + nameLen), t, addr);
  }

  /** An ordinary query of type A, PTR, TXT or AAAA is answered with its own identifier and
      question, and one address. */
  method AnswerAddress(buffer: array<Byte>, hi: Byte, lo: Byte, name: seq<Byte>, nameLen: nat, t: Byte,
      addr: seq<Byte>)
    returns (sent: bool, n: nat)
    requires buffer.Length == BUFFER_SIZE && |name| <= 255 && |addr| == 4
    requires (t == 1 || t == 12 || t == 16 || t == 28) && Asks(buffer[..], hi, lo, nameLen, t)
    modifies buffer
    ensures sent && n <= BUFFER_SIZE
    ensures buffer[..n] == AddressOctets(hi, lo, Encoded(Split(name, DOT)) + [0], t, addr)
  {
    AsksReply(buffer[..], hi, lo, name, nameLen, t, addr);
    sent, n := Answer(buffer, name, nameLen, addr);
  }
}
