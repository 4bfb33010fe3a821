/** The URL data of `httpdReadRequest` (src/httpd.cpp): copied, sanitised, cut at its first
    `?` and stored. */
module Url {
  import opened Bytes
  import opened Tokens
  import opened InPlace
  import opened Sanitiser
  import opened Segments
  import opened Escape
  import opened Variables
  import opened Query

  /** What is stored for a request path. */
  function PathPairs(path: seq<Byte>): seq<Pair> {
    var s := Sanitised(path);
    var k := IndexOf(s, QUESTION);
    if k == |s| then [] else QueryPairs(s[k + 1..])
  }

  /** What is stored for a URL: its copy has at most 1023 octets. */
  function UrlPairs(url: seq<Byte>): seq<Pair> {
    PathPairs(Strncpy(url, HTTP_MAX_URL))
  }

  /** Copies the URL into `r->request.path`. */
  method CopyUrl(cp: seq<Byte>) returns (path: array<Byte>)
    requires NulFree(cp)
    ensures fresh(path) && path.Length == HTTP_MAX_URL && CString(path[..], 0, Strncpy(cp, HTTP_MAX_URL))
  {
    path := new Byte[HTTP_MAX_URL](_ => 0);
    var i := 0;
    while i < HTTP_MAX_URL && i < |cp|
      invariant i <= HTTP_MAX_URL && i <= |cp|
      invariant forall j | 0 <= j < i :: path[j] == cp[j]
      invariant forall j | i <= j < HTTP_MAX_URL :: path[j] == 0
    {
      path[i] := cp[i];
      i := i + 1;
    }
    path[HTTP_MAX_URL - 1] := 0;
  }

  /** The URL of a request line: copied, sanitised, and its query stored. */
  method StoreUrl(r: Request, cp: seq<Byte>) returns (path: array<Byte>)
    requires r.Valid() && NulFree(cp)
    modifies r, r.Nodes()
    ensures r.Valid() && fresh(r.Nodes() - old(r.Nodes()))
    ensures r.store == AddAll(old(r.store), UrlPairs(cp))
    ensures r.store == AddAll(old(r.store), PathPairs(if |cp| < 1024 then cp else cp[..1023]))
    ensures var s := Sanitised(Strncpy(cp, HTTP_MAX_URL)); CString(path[..], 0, s[..IndexOf(s, QUESTION)])
  {
    path := CopyUrl(cp);
    StoredText(path[..], 0, Strncpy(cp, HTTP_MAX_URL));
    CStringText(path[..], Strncpy(cp, HTTP_MAX_URL));
    StorePath(r, path);
  }

  lemma {:induction false} CStringText(d: seq<Byte>, s: seq<Byte>)
    requires CString(d, 0, s)
    ensures 0 in d && Text(d) == s
  {
    assert d[|s|] == 0 && d[..|s|] == s;
    StrLenOf(d, |s|);
  }

  /** The path sanitised in place, cut at the first `?`, and the query behind it stored. */
  method StorePath(r: Request, path: array<Byte>)
    requires r.Valid() && 0 in path[..]
    modifies path, r, r.Nodes()
    ensures r.Valid() && fresh(r.Nodes() - old(r.Nodes()))
    ensures r.store == AddAll(old(r.store), PathPairs(Text(old(path[..]))))
    ensures var s := Sanitised(Text(old(path[..]))); CString(path[..], 0, s[..IndexOf(s, QUESTION)])
  {
    ghost var s := Sanitised(Text(path[..]));
    SanitiseUrl(path);
    var cp := FindQuestion(path, s);
    if path[cp] != 0 {
      StoreBehind(r, path, cp, s);
    } else {
      assert s[..cp] == s;
    }
  }

  /** The text cut at `cp`, and what is behind it stored. */
  method StoreBehind(r: Request, path: array<Byte>, cp: nat, ghost s: seq<Byte>)
    requires r.Valid() && CString(path[..], 0, s) && cp < |s|
    modifies path, r, r.Nodes()
    ensures r.Valid() && fresh(r.Nodes() - old(r.Nodes()))
    ensures r.store == AddAll(old(r.store), QueryPairs(s[cp + 1..])) && CString(path[..], 0, s[..cp])
  {
    CutCStrings(path[..], s, cp);
    path[cp] := 0;
    ghost var cut := path[..];
    StoreData(r, path, cp + 1, s[cp + 1..]);
    KeptCString(path[..], cut, s[..cp]);
  }

  lemma {:induction false} CutCStrings(d: seq<Byte>, s: seq<Byte>, k: nat)
    requires CString(d, 0, s) && k < |s|
    ensures CString(d[k := 0], 0, s[..k]) && CString(d[k := 0], k + 1, s[k + 1..])
  {
  }

  lemma {:induction false} KeptCString(d: seq<Byte>, was: seq<Byte>, t: seq<Byte>)
    requires CString(was, 0, t) && Kept(d, was, |t| + 1)
    ensures CString(d, 0, t)
  {
  }

  /** `strchr(path, '?')`, or the end. */
  method FindQuestion(path: array<Byte>, ghost s: seq<Byte>) returns (cp: nat)
    requires CString(path[..], 0, s)
    ensures cp == IndexOf(s, QUESTION) < path.Length
  {
    cp := 0;
    while path[cp] != 0 && path[cp] != QUESTION
      invariant cp <= |s| && forall i | 0 <= i < cp :: s[i] != QUESTION
      decreases |s| - cp
    {
      cp := cp + 1;
    }
    IndexOfIs(s, QUESTION, cp);
  }

  // ----- What becomes of a query built with httpdUrlEncode -----

  lemma {:induction false} QueryLacks(items: seq<Item>, c: Byte)
    requires !Safe(c) && c != EQUALS && c != AMPERSAND
    requires forall i | 0 <= i < |items| :: c !in items[i].name
    ensures c !in QueryOf(items)
    decreases |items|
  {
    if items != [] {
      assert c !in items[0].name;
      EscapedLacks(items[0].value, c);
      QueryLacks(items[1..], c);
      assert Pieces(items)[1..] == Pieces(items[1..]);
      PiecesLength(items[1..]);
    }
  }

  /** The URL that a path and a query make. */
  function UrlOf(path: seq<Byte>, items: seq<Item>): seq<Byte> {
    path + [QUESTION] + QueryOf(items)
  }

  /** The sanitiser touches the path only, and the query behind it is stored. */
  lemma {:induction false} TailPairs(path: seq<Byte>, t: seq<Byte>)
    requires QUESTION !in path && SLASH !in t
    ensures Sanitised(path + [QUESTION] + t) == Sanitised(path) + [QUESTION] + t
    ensures PathPairs(path + [QUESTION] + t) == QueryPairs(t)
  {
    SanitisedKeepsEnd(path, [QUESTION] + t);
    Associate(path, [QUESTION], t);
    Associate(Sanitised(path), [QUESTION], t);
    SanitisedAddsNothing(path, QUESTION);
    var s := Sanitised(path) + [QUESTION] + t;
    IndexOfIs(s, QUESTION, |Sanitised(path)|);
    assert s[|Sanitised(path)| + 1..] == t;
  }

  /** A URL that fits its field, of a path without `?` and a query built from slash-free
      names: the store gets exactly the pairs; under each name it has the values given if
      and only if no name has a leading blank and no value a plus. */
  lemma {:induction false} UrlRoundTrip(path: seq<Byte>, items: seq<Item>)
    requires QUESTION !in path && AllSendable(items) && |UrlOf(path, items)| < 1024
    requires forall i | 0 <= i < |items| :: SLASH !in items[i].name
    ensures Sanitised(UrlOf(path, items)) == Sanitised(path) + [QUESTION] + QueryOf(items)
    ensures UrlPairs(UrlOf(path, items)) == Meant(items)
    ensures var store := AddAll([], UrlPairs(UrlOf(path, items)));
      (forall name :: Lookup(store, name) == Selected(Meant(items), name)) &&
      ((forall name :: Lookup(store, name) == GivenUnder(items, name)) <==> NoneBlanked(items) && NonePlussed(items)) &&
      (NamesOf(store) == GivenNames(items, []) <==> NoneBlanked(items))
  {
    ForAllNames(Meant(items));
    StoreExactIff(items);
    QueryLacks(items, SLASH);
    TailPairs(path, QueryOf(items));
    QueryRoundTrip(items);
  }

  // ----- URLs of any length -----

  /** How many octets the copy loses at its end. */
  function Lost(length: nat): nat {
    if length < HTTP_MAX_URL then 0 else length - (HTTP_MAX_URL - 1)
  }

  /** What is left of the code of a value decodes to it: there is no plus, and nothing is
      lost, or the last octet is escaped and has lost a `0`, or has lost both digits and
      finds itself at the place where its `%` is decoded. */
  predicate CodeKept(value: seq<Byte>, lost: nat) {
    PLUS !in value && (lost == 0 || (value != [] && EndKept(value, value[|value| - 1], lost)))
  }

  predicate EndKept(value: seq<Byte>, last: Byte, lost: nat) {
    var n, code := |value| - 1, Escaped(value);
    !Acceptable(last) &&
    if lost == 1 then last % 16 == 0 else lost == 2 && n >= 0 && code[n] == last
  }

  lemma {:induction false} EscapedLast(s: seq<Byte>)
    requires s != []
    ensures var n := |s| - 1; Escaped(s) == Escaped(s[..n]) + EscapeOne(s[n]) && |Escaped(s)| >= n + |EscapeOne(s[n])|
    decreases |s|
  {
    var n := |s| - 1;
    if n == 0 {
      assert s[1..] == [] && s[..0] == [];
    } else {
      EscapedLast(s[1..]);
      assert s[1..][..n - 1] == s[..n][1..];
      Associate(EscapeOne(s[0]), Escaped(s[..n][1..]), EscapeOne(s[n]));
    }
  }

  ghost predicate CodeAt(all: seq<Byte>, p: nat, code: seq<Byte>) {
    p + |code| <= |all| && forall i | 0 <= i < |code| :: all[p + i] == code[i]
  }

  lemma {:induction false} CodesAt(all: seq<Byte>, p: nat, first: seq<Byte>, rest: seq<Byte>)
    requires CodeAt(all, p, first + rest)
    ensures CodeAt(all, p, first) && CodeAt(all, p + |first|, rest)
  {
    forall i | 0 <= i < |first|
      ensures all[p + i] == first[i]
    {
      assert (first + rest)[i] == first[i];
    }
    forall i | 0 <= i < |rest|
      ensures all[p + |first| + i] == rest[i]
    {
      assert (first + rest)[|first| + i] == rest[i];
    }
  }

  lemma {:induction false} UnescapeOneAt(all: seq<Byte>, p: nat, a: Byte, out: seq<Byte>)
    requires |out| <= p && CodeAt(all, p, EscapeOne(a))
    ensures Unescaped(all, p, out) == Unescaped(all, p + |EscapeOne(a)|, out + [if a == PLUS then SPACE else a])
  {
    OneSafe(a);
    assert all[p + 0] == EscapeOne(a)[0];
    if !Acceptable(a) {
      assert all[p + 1] == EscapeOne(a)[1] && all[p + 2] == EscapeOne(a)[2];
      HexRoundTrip(a);
    }
  }

  /** A whole code is decoded before anything behind it is looked at. */
  lemma {:induction false} UnescapeFront(all: seq<Byte>, p: nat, s: seq<Byte>, out: seq<Byte>)
    requires |out| <= p && CodeAt(all, p, Escaped(s))
    ensures Unescaped(all, p, out) == Unescaped(all, p + |Escaped(s)|, out + Plussed(s))
    decreases |s|
  {
    if s == [] {
      assert out + [] == out;
    } else {
      var e, c := EscapeOne(s[0]), if s[0] == PLUS then SPACE else s[0];
      CodesAt(all, p, e, Escaped(s[1..]));
      UnescapeOneAt(all, p, s[0], out);
      UnescapeFront(all, p + |e|, s[1..], out + [c]);
      Associate(out, [c], Plussed(s[1..]));
    }
  }

  lemma {:induction false} UnescapeTail(s: seq<Byte>, t: seq<Byte>)
    ensures Unescaped(Escaped(s) + t, 0, []) == Unescaped(Escaped(s) + t, |Escaped(s)|, Plussed(s))
  {
    UnescapeFront(Escaped(s) + t, 0, s, []);
    assert [] + Plussed(s) == Plussed(s);
  }

  /** No part of a code decodes to more octets than the text has. */
  lemma {:induction false} PartShort(s: seq<Byte>, c: nat)
    requires c <= |Escaped(s)|
    ensures |Unescaped(Escaped(s)[..c], 0, [])| <= |s|
    decreases |s|
  {
    if s != [] {
      var n := |s| - 1;
      var code := Escaped(s[..n]);
      EscapedLast(s);
      if c <= |code| {
        assert Escaped(s)[..c] == code[..c];
        PartShort(s[..n], c);
      } else {
        var t := EscapeOne(s[n])[..c - |code|];
        assert Escaped(s)[..c] == code + t;
        UnescapeTail(s[..n], t);
      }
    }
  }

  /** Of the code of the last octet only the `%`, or the `%` and one digit, is left. */
  lemma {:induction false} DigitsLost(s: seq<Byte>, a: Byte, lost: nat)
    requires !Acceptable(a) && 1 <= lost <= 2
    ensures var left := Escaped(s) + EscapeOne(a)[..3 - lost];
      Unescaped(left, 0, []) == Plussed(s) + [if lost == 1 then a / 16 * 16 else left[|s|]]
  {
    var code, t := Escaped(s), EscapeOne(a)[..3 - lost];
    var left := code + t;
    UnescapeTail(s, t);
    FromHexDigit(a / 16);
    assert left[|code|] == PERCENT;
    if lost == 1 { assert left[|code| + 1] == HexDigit(a / 16); }
  }

  /** A text with room for no more than the NUL-free one is read back as that one only if
      it is that one. */
  lemma {:induction false} TextIs(s: seq<Byte>, t: seq<Byte>)
    requires NulFree(t) && |s| <= |t|
    ensures Text(s + [0]) == t <==> s == t
  {
    var n := StrLen(s + [0]);
    assert (s + [0])[|s|] == 0;
    assert (s + [0])[..n] == s[..n];
    if s == t { StrLenOf(s + [0], |s|); }
  }

  /** The code without its end decodes to the value if and only if it is kept. */
  lemma {:induction false} CodeKeptIff(value: seq<Byte>, lost: nat)
    requires NulFree(value) && lost <= |Escaped(value)|
    ensures Decoded(Escaped(value)[..|Escaped(value)| - lost]) == value <==> CodeKept(value, lost)
  {
    var left := Escaped(value)[..|Escaped(value)| - lost];
    PartShort(value, |left|);
    TextIs(Unescaped(left, 0, []), value);
    if lost == 0 {
      assert left == Escaped(value);
      EscapeRoundTrip(value);
    } else if value != [] {
      EndLost(value, lost);
    }
  }

  lemma {:induction false} EndLost(value: seq<Byte>, lost: nat)
    requires value != [] && 0 < lost <= |Escaped(value)|
    ensures Unescaped(Escaped(value)[..|Escaped(value)| - lost], 0, []) == value <==> CodeKept(value, lost)
  {
    var left, n := Escaped(value)[..|Escaped(value)| - lost], |value| - 1;
    var front, a := value[..n], value[n];
    EscapedLast(value);
    if lost >= |EscapeOne(a)| {
      assert left == Escaped(front)[..|left|];
      PartShort(front, |left|);
    } else {
      assert left == Escaped(front) + EscapeOne(a)[..3 - lost];
      CutInside(value, lost);
    }
  }

  lemma {:induction false} CutInside(value: seq<Byte>, lost: nat)
    requires value != [] && !Acceptable(value[|value| - 1]) && 1 <= lost <= 2
    ensures var front, a := value[..|value| - 1], value[|value| - 1];
      Unescaped(Escaped(front) + EscapeOne(a)[..3 - lost], 0, []) == value <==> CodeKept(value, lost)
  {
    var n := |value| - 1;
    var front, a := value[..n], value[n];
    var left := Escaped(front) + EscapeOne(a)[..3 - lost];
    EscapedLast(value);
    DigitsLost(front, a, lost);
    assert left[n] == Escaped(value)[n];
    FrontAndLast(value, if lost == 1 then a / 16 * 16 else left[n]);
  }

  lemma {:induction false} FrontAndLast(value: seq<Byte>, last: Byte)
    requires value != [] && !Acceptable(value[|value| - 1])
    ensures Plussed(value[..|value| - 1]) + [last] == value <==> PLUS !in value && last == value[|value| - 1]
  {
    var n := |value| - 1;
    PlussedSame(value[..n]);
    assert value == value[..n] + [value[n]];
    assert (Plussed(value[..n]) + [last])[..n] == Plussed(value[..n]);
  }

  /** No value but the last has a plus, and the last one's code survives the cut. */
  predicate SurvivesCut(items: seq<Item>, lost: nat) {
    if items == [] then true
    else if |items| == 1 then CodeKept(items[0].value, lost)
    else PLUS !in items[0].value && SurvivesCut(items[1..], lost)
  }

  lemma {:induction false} NothingKept(value: seq<Byte>, lost: nat)
    requires lost > |Escaped(value)|
    ensures !CodeKept(value, lost)
  {
    if value != [] { EscapedLast(value); }
  }

  lemma {:induction false} TooMuchLost(items: seq<Item>, lost: nat)
    requires items != [] && lost > |QueryOf(items)|
    ensures !SurvivesCut(items, lost)
  {
    if |items| == 1 {
      assert Pieces(items)[1..] == [];
      NothingKept(items[0].value, lost);
    } else {
      assert Pieces(items)[1..] == Pieces(items[1..]);
      PiecesLength(items[1..]);
      TooMuchLost(items[1..], lost);
    }
  }

  lemma {:induction false} OnePiece(s: seq<Byte>)
    requires AMPERSAND !in s
    ensures Split(s, AMPERSAND) == [s]
  {
    IndexOfIs(s, AMPERSAND, |s|);
  }

  lemma {:induction false} PieceLacks(item: Item)
    requires Sendable(item)
    ensures AMPERSAND !in PieceOf(item) && EQUALS !in Escaped(item.value)
  {
    EscapedLacks(item.value, AMPERSAND);
    EscapedLacks(item.value, EQUALS);
  }

  /** The start of a piece stores nothing before its `=`, and behind it what is left of the code. */
  lemma {:induction false} CutPiece(item: Item, c: nat, b: seq<Byte>)
    requires Sendable(item) && c <= |PieceOf(item)| && c < |b|
    ensures var cut := PieceOf(item)[..c]; var n := |item.name| + 1;
      Pairs(Split(cut, AMPERSAND), b) ==
        if c < n then [] else [Pair(item.name, Some(Decoded(Escaped(item.value)[..c - n])))]
  {
    var cut, n := PieceOf(item)[..c], |item.name| + 1;
    PieceLacks(item);
    OnePiece(cut);
    if c < n {
      assert cut == item.name[..c];
      IndexOfIs(cut, EQUALS, c);
    } else {
      var code := Escaped(item.value)[..c - n];
      assert cut == item.name + [EQUALS] + code;
      var after := CodeStores(item.name, code, [], b);
      assert [cut] + [] == [cut] && Pairs([], after) == [];
    }
  }

  /** The pairs of a query cut at its end: the names are those of the first items, and all
      values are kept exactly when they survive the cut. */
  lemma {:induction false} CutPairs(items: seq<Item>, c: nat, b: seq<Byte>)
    requires AllSendable(items) && items != [] && c <= |QueryOf(items)| && c < |b|
    ensures var pairs := Pairs(Split(QueryOf(items)[..c], AMPERSAND), b);
      NamedLike(pairs, items) && (ValuesKept(pairs, items) <==> SurvivesCut(items, |QueryOf(items)| - c))
    decreases |items|
  {
    var q, p0 := QueryOf(items), PieceOf(items[0]);
    PiecesLength(items[1..]);
    assert Pieces(items)[1..] == Pieces(items[1..]);
    if |items| == 1 {
      CutPiece(items[0], c, b);
      OneKept(items, c, b);
    } else {
      var more := QueryOf(items[1..]);
      assert q == p0 + [AMPERSAND] + more;
      if c <= |p0| {
        assert q[..c] == p0[..c];
        CutFront(items, c, b);
        TooMuchLost(items[1..], |q| - c);
      } else {
        CutBehind(items, c, b);
      }
    }
  }

  lemma {:induction false} OneKept(items: seq<Item>, c: nat, b: seq<Byte>)
    requires AllSendable(items) && |items| == 1 && c <= |PieceOf(items[0])| && c < |b|
    ensures var pairs := Pairs(Split(PieceOf(items[0])[..c], AMPERSAND), b);
      NamedLike(pairs, items) && (ValuesKept(pairs, items) <==> CodeKept(items[0].value, |PieceOf(items[0])| - c))
  {
    var value, n := items[0].value, |items[0].name| + 1;
    CutPiece(items[0], c, b);
    assert items[1..] == [];
    if c < n { NothingKept(value, |PieceOf(items[0])| - c); } else { CodeKeptIff(value, |Escaped(value)| - (c - n)); }
  }

  /** The cut leaves nothing of the second piece. */
  lemma {:induction false} CutFront(items: seq<Item>, c: nat, b: seq<Byte>)
    requires AllSendable(items) && |items| > 1 && c <= |PieceOf(items[0])| && c < |b|
    ensures var pairs := Pairs(Split(PieceOf(items[0])[..c], AMPERSAND), b);
      NamedLike(pairs, items) && !ValuesKept(pairs, items)
  {
    CutPiece(items[0], c, b);
    assert items[1..] != [] && !ValuesKept([], items[1..]);
  }

  lemma {:induction false} CutBehind(items: seq<Item>, c: nat, b: seq<Byte>)
    requires AllSendable(items) && |items| > 1 && |PieceOf(items[0])| < c <= |QueryOf(items)| && c < |b|
    ensures var pairs := Pairs(Split(QueryOf(items)[..c], AMPERSAND), b);
      NamedLike(pairs, items) && (ValuesKept(pairs, items) <==> SurvivesCut(items, |QueryOf(items)| - c))
    decreases |items|, 0
  {
    var q, p0, more := QueryOf(items), PieceOf(items[0]), QueryOf(items[1..]);
    PiecesLength(items[1..]);
    assert Pieces(items)[1..] == Pieces(items[1..]);
    assert q == p0 + [AMPERSAND] + more;
    var c' := c - |p0| - 1;
    assert q[..c] == p0 + [AMPERSAND] + more[..c'];
    PieceLacks(items[0]);
    SplitFirst(p0, more[..c'], AMPERSAND);
    var after := PieceStores(items[0], Split(more[..c'], AMPERSAND), b);
    CutPairs(items[1..], c', after);
    PlussedSame(items[0].value);
    var rest := Pairs(Split(more[..c'], AMPERSAND), after);
    var first := Pair(items[0].name, Some(Plussed(items[0].value)));
    assert ([first] + rest)[1..] == rest;
  }

  /** What is stored is the query without what the copy has lost, if that leaves the `?`. */
  lemma {:induction false} UrlCut(path: seq<Byte>, items: seq<Item>)
    requires QUESTION !in path
    requires forall i | 0 <= i < |items| :: SLASH !in items[i].name
    ensures var url, q := UrlOf(path, items), QueryOf(items);
      UrlPairs(url) == if Lost(|url|) > |q| then [] else QueryPairs(q[..|q| - Lost(|url|)])
  {
    var url, q := UrlOf(path, items), QueryOf(items);
    var lost := Lost(|url|);
    QueryLacks(items, SLASH);
    if lost > |q| {
      assert Strncpy(url, HTTP_MAX_URL) == path[..HTTP_MAX_URL - 1];
      SanitisedAddsNothing(path[..HTTP_MAX_URL - 1], QUESTION);
    } else {
      var t := q[..|q| - lost];
      assert Strncpy(url, HTTP_MAX_URL) == path + [QUESTION] + t;
      TailPairs(path, t);
    }
  }

  /** For URLs of any length: under every name the store has exactly the values given, if
      and only if no name has a leading blank, no value but the last a plus, and what the
      copy leaves of the last one's code still decodes to it. */
  lemma {:induction false} UrlExactIff(path: seq<Byte>, items: seq<Item>)
    requires QUESTION !in path && AllSendable(items)
    requires forall i | 0 <= i < |items| :: SLASH !in items[i].name
    ensures var url := UrlOf(path, items);
      var store := AddAll([], UrlPairs(url));
      ((forall name :: Lookup(store, name) == GivenUnder(items, name)) <==>
        NoneBlanked(items) && SurvivesCut(items, Lost(|url|))) &&
      (NoneBlanked(items) ==> |UrlPairs(url)| <= |items| && NamesOf(store) == GivenNames(items[..|UrlPairs(url)|], []))
  {
    var url, q := UrlOf(path, items), QueryOf(items);
    var lost, pairs := Lost(|url|), UrlPairs(url);
    CutKept(path, items);
    ForAllNames(pairs);
    KeptIff(pairs, items);
    NamesInOrder([], pairs);
    assert NamesOf([]) == [];
    if NoneBlanked(items) { NamesAreGiven(pairs, items, []); }
  }

  lemma {:induction false} CutKept(path: seq<Byte>, items: seq<Item>)
    requires QUESTION !in path && AllSendable(items)
    requires forall i | 0 <= i < |items| :: SLASH !in items[i].name
    ensures var url := UrlOf(path, items);
      NamedLike(UrlPairs(url), items) && (ValuesKept(UrlPairs(url), items) <==> SurvivesCut(items, Lost(|url|)))
  {
    var url, q := UrlOf(path, items), QueryOf(items);
    var lost := Lost(|url|);
    UrlCut(path, items);
    if items == [] {
      assert q == [];
    } else if lost > |q| {
      TooMuchLost(items, lost);
    } else {
      CutQuery(items, lost);
    }
  }

  lemma {:induction false} CutQuery(items: seq<Item>, lost: nat)
    requires AllSendable(items) && items != [] && lost <= |QueryOf(items)|
    ensures var pairs := QueryPairs(QueryOf(items)[..|QueryOf(items)| - lost]);
      NamedLike(pairs, items) && (ValuesKept(pairs, items) <==> SurvivesCut(items, lost))
  {
    var c := |QueryOf(items)| - lost;
    var cut := QueryOf(items)[..c];
    StoresPieces(cut);
    assert |cut| + 1 == c + 1;
    CutPairs(items, c, Zeros(c + 1));
  }

  /** A single value of 1020 octets or more behind `/?a=` is not what the store has. */
  lemma {:induction false} LongValueExample(path: seq<Byte>, items: seq<Item>)
    requires path == [SLASH] && |items| == 1 && items[0].name == ['a' as int]
    requires NulFree(items[0].value) && |items[0].value| >= 1020
    ensures AllSendable(items)
    ensures !forall name :: Lookup(AddAll([], UrlPairs(UrlOf(path, items))), name) == GivenUnder(items, name)
  {
    var v, code := items[0].value, Escaped(items[0].value);
    assert items[1..] == [] && Pieces(items)[1..] == [];
    EscapedLast(v);
    assert |UrlOf(path, items)| == 4 + |code|;
    UrlExactIff(path, items);
  }
}
