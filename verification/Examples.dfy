/** Requests as they are written on the wire, and what the HTTP server makes of them. */
module Examples {
  import opened Bytes
  import opened Tokens
  import opened Sanitiser
  import opened Segments
  import opened Escape
  import opened Variables
  import opened Query
  import opened Url
  import opened Template
  import Base64

  // ----- A query and a URL -----

  /** `next=%2fhome&q=x=a+b`: small digits, a plus, and a value with an `=` in it. */
  lemma {:induction false} QueryExample(q: seq<Byte>)
    requires q == Ascii("next=%2fhome&q=x=a+b")
    ensures QueryPairs(q) == [Pair(Ascii("next"), Some(Ascii("/home"))), Pair(Ascii("q"), Some(Ascii("a b")))]
  {
    ExampleParts(q, Ascii("next"), Ascii("%2fhome"), Ascii("q"), Ascii("x"), Ascii("a+b"));
    ExampleCodes();
  }

  lemma {:induction false} ExampleParts(q: seq<Byte>, name: seq<Byte>, code: seq<Byte>, other: seq<Byte>,
      front: seq<Byte>, last: seq<Byte>)
    requires q == Ascii("next=%2fhome&q=x=a+b") && name == Ascii("next") && code == Ascii("%2fhome")
    requires other == Ascii("q") && front == Ascii("x") && last == Ascii("a+b")
    ensures QueryPairs(q) == [Pair(name, Some(Decoded(code))), Pair(other, Some(Decoded(last)))]
  {
    assert q == name + [EQUALS] + code + [AMPERSAND] + (other + [EQUALS] + (front + [EQUALS] + last));
    TwoPairs(q, name, code, other, front, last);
  }

  lemma {:induction false} ExampleCodes()
    ensures Decoded(Ascii("%2fhome")) == Ascii("/home") && Decoded(Ascii("a+b")) == Ascii("a b")
  {
    SmallDigits();
    assert Unescaped(Ascii("a+b"), 0, []) == Ascii("a b");
    Terminated(Ascii("a b"));
  }

  lemma {:induction false} SmallDigits()
    ensures Decoded(Ascii("%2fhome")) == Ascii("/home")
  {
    assert Unescaped(Ascii("%2fhome"), 0, []) == Ascii("/home");
    Terminated(Ascii("/home"));
  }

  /** `/x?next=%2fhome&q=x=a+b` stores `/home` under `next` and `a b` under `q`. */
  lemma {:induction false} UrlExample(url: seq<Byte>)
    requires url == Ascii("/x?next=%2fhome&q=x=a+b")
    ensures UrlPairs(url) == [Pair(Ascii("next"), Some(Ascii("/home"))), Pair(Ascii("q"), Some(Ascii("a b")))]
  {
    var path, q := Ascii("/x"), Ascii("next=%2fhome&q=x=a+b");
    assert url == path + [QUESTION] + q;
    TailPairs(path, q);
    QueryExample(q);
  }

  /** `/x?a=b//c`: the query is sanitised with the path, so that `b/c` is stored. */
  lemma {:induction false} SlashesExample(url: seq<Byte>)
    requires url == Ascii("/") + (Ascii("x?") + Ascii("a=b")) + Ascii("//") + Ascii("c")
    ensures UrlPairs(url) == [Pair(Ascii("a"), Some(Ascii("b/c")))]
  {
    CollapsedSegments(url, Ascii("x?") + Ascii("a=b"), Ascii("c"));
    SlashesQuery(Ascii("a"), Ascii("b/c"));
    var s := Ascii("/x?") + (Ascii("a") + ['=' as int] + Ascii("b/c"));
    assert Sanitised(url) == s;
    IndexOfIs(s, '?' as int, 2);
    assert s[3..] == Ascii("a") + ['=' as int] + Ascii("b/c");
  }

  lemma {:induction false} CollapsedSegments(s: seq<Byte>, first: Segment, last: Segment)
    requires s == Ascii("/") + first + Ascii("//") + last
    requires '/' as int !in first && '/' as int !in last
    requires first != [] && first != Ascii(".") && first != Ascii("..")
    ensures Sanitised(s) == Ascii("/") + first + Ascii("/") + last
  {
    var rest: seq<Segment>, kept: seq<Segment> := [first, [], last], [first, last];
    CollapsedText(first, last);
    assert s == [] + Tail(rest);
    assert rest[2..][1..] == [] && rest[1..][1..] == rest[2..] && AllClean(rest[2..]) && AllClean(rest[1..]);
    SplitOfTail([], rest);
    assert ([[]] + rest)[1..] == rest;
    SanitiserRefines(s);
    CollapsedRuns(first, last);
  }

  lemma {:induction false} CollapsedText(first: Segment, last: Segment)
    ensures Tail([first, [], last]) == Ascii("/") + first + Ascii("//") + last
    ensures Path([[], first, last]) == Ascii("/") + first + Ascii("/") + last
  {
    var rest: seq<Segment>, kept: seq<Segment> := [first, [], last], [first, last];
    assert rest[1..][1..] == kept[1..] && kept[1..][1..] == [] && [[], first, last][1..] == kept;
    assert Tail(kept[1..]) == [SLASH] + last + [] && Tail(rest[1..]) == [SLASH] + [] + Tail(kept[1..]);
  }

  lemma {:induction false} CollapsedRuns(first: Segment, last: Segment)
    requires first != [] && first != Ascii(".") && first != Ascii("..")
    ensures PopRuns([[]], true, Without(Without([first, [], last], EMPTY), ONE_DOT)) == [[], first, last]
  {
    var rest: seq<Segment>, kept: seq<Segment> := [first, [], last], [first, last];
    var root: seq<Segment>, out: seq<Segment> := [[]], [[], first];
    assert rest[1..][1..] == [last] && kept[1..] == [last] && [first] + [last] == kept;
    assert Without(rest[1..], EMPTY) == [last];
    assert Without(rest, EMPTY) == kept && Without(kept, ONE_DOT) == kept;
    assert root + [first] == out && out + [last] == [[], first, last];
  }

  lemma {:induction false} SlashesQuery(name: seq<Byte>, code: seq<Byte>)
    requires name == Ascii("a") && code == Ascii("b/c")
    ensures QueryPairs(name + ['=' as int] + code) == [Pair(name, Some(code))]
  {
    OnePair(name, code);
  }

  lemma {:induction false} OnePair(name: seq<Byte>, code: seq<Byte>)
    requires NulFree(name) && NulFree(code) && '=' as int !in name && '=' as int !in code && '&' as int !in name
    requires '&' as int !in code && '%' as int !in code && '+' as int !in code
    ensures QueryPairs(name + ['=' as int] + code) == [Pair(name, Some(code))]
  {
    var q := name + ['=' as int] + code;
    StoresPieces(q);
    IndexOfIs(q, '&' as int, |q|);
    var after := CodeStores(name, code, [], Zeros(|q| + 1));
    assert [q] + [] == [q] && Pairs([], after) == [];
    PlainCode(code, 0);
    assert code[..0] == [];
    Terminated(code);
  }

  lemma {:induction false} PlainCode(code: seq<Byte>, p: nat)
    requires p <= |code| && '%' as int !in code && '+' as int !in code
    ensures Unescaped(code, p, code[..p]) == code
    decreases |code| - p
  {
    if p == |code| {
      assert code[..p] == code;
    } else {
      PlainCode(code, p + 1);
      assert code[..p] + [code[p]] == code[..p + 1];
    }
  }

  // ----- A template -----

  function NodePieces(name: seq<Byte>, other: seq<Byte>): seq<Piece> {
    [Literal('<' as int), Reference(name), Literal(',' as int), Reference(other), Literal('>' as int)]
  }

  /** `<$nodeID,$node_1>` with two values for `nodeID` and none for `node_1`. */
  lemma {:induction false} NodeExample(msg: seq<Byte>, store: seq<Binding>)
    requires msg == Ascii("<$nodeID,$node_1>")
    requires store == AddAll([], [Pair(Ascii("nodeID"), Some(Ascii("123"))), Pair(Ascii("nodeID"), Some(Ascii("4")))])
    ensures Parse(msg, 0) == NodePieces(Ascii("nodeID"), Ascii("node_1"))
    ensures Meaning(Parse(msg, 0), store) == Ascii("<123,$node_1>")
  {
    NodeText(msg, Ascii("nodeID"), Ascii("node_1"), Ascii("123"));
    NodeExpands(msg, store, Ascii("nodeID"), Ascii("node_1"), Ascii("123"), Ascii("4"));
  }

  /** The texts around these names. */
  function Around(front: seq<Byte>, back: seq<Byte>): seq<Byte> {
    ['<' as int] + (front + [',' as int]) + (back + ['>' as int])
  }

  lemma {:induction false} NodeText(msg: seq<Byte>, name: seq<Byte>, other: seq<Byte>, value: seq<Byte>)
    requires msg == Ascii("<$nodeID,$node_1>") && name == Ascii("nodeID") && other == Ascii("node_1")
    requires value == Ascii("123")
    ensures AllNameChars(name) && AllNameChars(other) && name[0] == 'n' as int && name != other
    ensures msg == Around(['$' as int] + name, ['$' as int] + other)
    ensures Around(value, ['$' as int] + other) == Ascii("<123,$node_1>")
  {
    assert name[4] != other[4];
  }

  lemma {:induction false} NodeExpands(msg: seq<Byte>, store: seq<Binding>, name: seq<Byte>, other: seq<Byte>,
      value: seq<Byte>, more: seq<Byte>)
    requires AllNameChars(name) && AllNameChars(other) && name != [] && name[0] == 'n' as int && name != other
    requires msg == Around(['$' as int] + name, ['$' as int] + other)
    requires store == AddAll([], [Pair(name, Some(value)), Pair(name, Some(more))])
    ensures Parse(msg, 0) == NodePieces(name, other)
    ensures Meaning(Parse(msg, 0), store) == Around(value, ['$' as int] + other)
  {
    NodeStore(store, name, other, value, more);
    NodesCanonical(name, other);
    NodeRendered(name, other);
    NodeMeant(name, other, value, store);
    TemplatesArePieces(msg, NodePieces(name, other));
  }

  lemma {:induction false} NodeStore(store: seq<Binding>, name: seq<Byte>, other: seq<Byte>, value: seq<Byte>,
      more: seq<Byte>)
    requires name != [] && name[0] == 'n' as int && name != other
    requires store == AddAll([], [Pair(name, Some(value)), Pair(name, Some(more))])
    ensures FirstValue(store, name) == Some(value) && FirstValue(store, other) == None
  {
    var pairs := [Pair(name, Some(value)), Pair(name, Some(more))];
    StoreIsMultimap([], pairs, name);
    StoreIsMultimap([], pairs, other);
    assert Strip(name) == name && pairs[1..] == [Pair(name, Some(more))] && pairs[1..][1..] == [];
    assert Selected(pairs[1..][1..], name) == [] && Selected(pairs[1..][1..], other) == [];
    assert Selected(pairs[1..], name) == [Some(more)] && Selected(pairs[1..], other) == [];
    assert Lookup(store, name) == [] + ([Some(value)] + [Some(more)]);
  }

  lemma {:induction false} NodesCanonical(name: seq<Byte>, other: seq<Byte>)
    requires AllNameChars(name) && AllNameChars(other)
    ensures Canonical(NodePieces(name, other))
  {
    var pieces := NodePieces(name, other);
    assert pieces[4..][1..] == [] && pieces[3..][1..] == pieces[4..] && pieces[2..][1..] == pieces[3..];
    assert pieces[1..][1..] == pieces[2..];
    assert Canonical(pieces[4..]) && Canonical(pieces[3..]) && Canonical(pieces[2..]) && Canonical(pieces[1..]);
  }

  lemma {:induction false} NodeTails(name: seq<Byte>, other: seq<Byte>)
    ensures var pieces := NodePieces(name, other);
      pieces[1..][1..] == pieces[2..] && pieces[2..][1..] == pieces[3..] && pieces[3..][1..] == pieces[4..] &&
      pieces[4..][1..] == []
  {
  }

  lemma {:induction false} NodeRendered(name: seq<Byte>, other: seq<Byte>)
    ensures Render(NodePieces(name, other)) == Around(['$' as int] + name, ['$' as int] + other)
  {
    var pieces, end := NodePieces(name, other), ['$' as int] + other + ['>' as int];
    NodeTails(name, other);
    assert Render(pieces[4..]) == ['>' as int] + Render([]);
    assert Render(pieces[3..]) == end && Render(pieces[2..]) == [',' as int] + end;
    Associate(['$' as int] + name, [',' as int], end);
  }

  lemma {:induction false} MeaningAt(pieces: seq<Piece>, store: seq<Binding>, i: nat)
    requires i < |pieces|
    ensures Meaning(pieces[i..], store) == MeaningOne(pieces[i], store) + Meaning(pieces[i + 1..], store)
  {
    assert pieces[i..][1..] == pieces[i + 1..];
  }

  lemma {:induction false} NodeMeant(name: seq<Byte>, other: seq<Byte>, value: seq<Byte>, store: seq<Binding>)
    requires FirstValue(store, name) == Some(value) && FirstValue(store, other) == None
    ensures Meaning(NodePieces(name, other), store) == Around(value, ['$' as int] + other)
  {
    var pieces := NodePieces(name, other);
    forall j | 0 <= j < 5
      ensures Meaning(pieces[j..], store) == MeaningOne(pieces[j], store) + Meaning(pieces[j + 1..], store)
    {
      MeaningAt(pieces, store, j);
    }
    NodeSum(pieces, store, ['$' as int] + other, value);
  }

  lemma {:induction false} NodeSum(pieces: seq<Piece>, store: seq<Binding>, back: seq<Byte>, value: seq<Byte>)
    requires |pieces| == 5
    requires forall j | 0 <= j < 5 ::
      Meaning(pieces[j..], store) == MeaningOne(pieces[j], store) + Meaning(pieces[j + 1..], store)
    requires MeaningOne(pieces[0], store) == ['<' as int] && MeaningOne(pieces[1], store) == value
    requires MeaningOne(pieces[2], store) == [',' as int] && MeaningOne(pieces[3], store) == back
    requires MeaningOne(pieces[4], store) == ['>' as int]
    ensures Meaning(pieces, store) == Around(value, back)
  {
    assert pieces[5..] == [] && pieces[0..] == pieces;
    var end := back + ['>' as int];
    assert Meaning(pieces[3..], store) == back + (['>' as int] + []) == end;
    assert Meaning(pieces[2..], store) == [',' as int] + end;
    Associate(value, [',' as int], end);
  }

  // ----- Credentials -----

  lemma {:induction false} EncodeAppend(a: seq<Byte>, b: seq<Byte>)
    requires |a| % 3 == 0
    ensures Base64.Encode(a + b) == Base64.Encode(a) + Base64.Encode(b)
    decreases |a|
  {
    if a == [] {
      assert a + b == b;
    } else {
      var quad, more := Base64.Quad(a[0], a[1], a[2]), a[3..];
      EncodeAppend(more, b);
      EncodeFirst(a);
      EncodeFirst(a + b);
      assert (a + b)[3..] == more + b && Base64.Encode(a + b) == quad + Base64.Encode(more + b);
      Associate(quad, Base64.Encode(more), Base64.Encode(b));
    }
  }

  lemma {:induction false} EncodeFirst(d: seq<Byte>)
    requires |d| >= 3
    ensures Base64.Encode(d) == Base64.Quad(d[0], d[1], d[2]) + Base64.Encode(d[3..])
  {
  }

  lemma {:induction false} EncodeSix(d: seq<Byte>)
    requires |d| == 6
    ensures Base64.Encode(d) == Base64.Quad(d[0], d[1], d[2]) + Base64.Quad(d[3], d[4], d[5])
  {
    var rest := d[3..];
    assert rest[3..] == [] && Base64.Encode(rest) == Base64.Quad(d[3], d[4], d[5]) + [];
  }

  /** The example of section 2 of RFC 7617, `Aladdin` with `open sesame`. */
  lemma {:induction false} AladdinExample(cp: seq<Byte>, blank: Byte)
    requires (blank == 32 || blank == 9) && cp == [blank] + Ascii("QWxhZGRpbjpvcGVuIHNlc2FtZQ==") + [0]
    ensures Base64.Fits(cp, Base64.AUTH_BUF)
    ensures Base64.SplitCredentials(Text(Base64.Decoded(cp) + [0])) ==
      Base64.Credentials(Ascii("Aladdin"), Some(Ascii("open sesame")), 19)
  {
    var user, password := Ascii("Aladdin"), Ascii("open sesame");
    AladdinCode(user + [':' as int] + password);
    assert cp == cp + [];
    assert NulFree(user) && NulFree(password) && ':' as int !in user;
    Base64.CredentialsRoundTrip([blank], user, password, []);
  }

  lemma {:induction false} AladdinCode(d: seq<Byte>)
    requires d == Ascii("Aladdin") + [':' as int] + Ascii("open sesame")
    ensures Base64.Encode(d) == Ascii("QWxhZGRpbjpvcGVuIHNlc2FtZQ==")
  {
    var d1, d2, d3, d4 := Ascii("Aladdi"), Ascii("n:open"), Ascii(" sesam"), Ascii("e");
    AladdinText(d, d1, d2, d3, d4);
    EncodeAppend(d1, d2 + (d3 + d4));
    EncodeAppend(d2, d3 + d4);
    EncodeAppend(d3, d4);
    AladdinParts(d1, d2, d3, d4);
  }

  lemma {:induction false} AladdinText(d: seq<Byte>, d1: seq<Byte>, d2: seq<Byte>, d3: seq<Byte>, d4: seq<Byte>)
    requires d == Ascii("Aladdin") + [':' as int] + Ascii("open sesame")
    requires d1 == Ascii("Aladdi") && d2 == Ascii("n:open") && d3 == Ascii(" sesam") && d4 == Ascii("e")
    ensures d == d1 + (d2 + (d3 + d4))
    ensures Ascii("QWxhZGRp") + (Ascii("bjpvcGVu") + (Ascii("IHNlc2Ft") + Ascii("ZQ=="))) ==
      Ascii("QWxhZGRpbjpvcGVuIHNlc2FtZQ==")
  {
  }

  lemma {:induction false} AladdinParts(d1: seq<Byte>, d2: seq<Byte>, d3: seq<Byte>, d4: seq<Byte>)
    requires d1 == Ascii("Aladdi") && d2 == Ascii("n:open") && d3 == Ascii(" sesam") && d4 == Ascii("e")
    ensures Base64.Encode(d1) == Ascii("QWxhZGRp") && Base64.Encode(d2) == Ascii("bjpvcGVu")
    ensures Base64.Encode(d3) == Ascii("IHNlc2Ft") && Base64.Encode(d4) == Ascii("ZQ==")
  {
    FirstPart(d1);
    SecondPart(d2);
    ThirdPart(d3);
    LastPart(d4);
  }

  lemma {:induction false} ThirdPart(d: seq<Byte>)
    requires d == Ascii(" sesam")
    ensures Base64.Encode(d) == Ascii("IHNlc2Ft")
  {
    EncodeSix(d);
  }

  lemma {:induction false} LastPart(d: seq<Byte>)
    requires d == Ascii("e")
    ensures Base64.Encode(d) == Ascii("ZQ==")
  {
  }

  lemma {:induction false} FirstPart(d: seq<Byte>)
    requires d == Ascii("Aladdi")
    ensures Base64.Encode(d) == Ascii("QWxhZGRp")
  {
    EncodeSix(d);
  }

  lemma {:induction false} SecondPart(d: seq<Byte>)
    requires d == Ascii("n:open")
    ensures Base64.Encode(d) == Ascii("bjpvcGVu")
  {
    EncodeSix(d);
  }
}
