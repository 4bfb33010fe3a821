/** `httpdOutput` (src/httpd.cpp): a template expanded from the variables of a request. */
module Template {
  import opened Bytes
  import opened Variables

  const HTTP_MAX_LEN := 10240
  const NAME_LEN := 80
  const DOLLAR: Byte := '$' as int

  /** `isalnum` or an underscore. */
  predicate NameChar(c: Byte) {
    '0' as int <= c <= '9' as int || 'A' as int <= c <= 'Z' as int || 'a' as int <= c <= 'z' as int || c == '_' as int
  }

  // ----- What a template means -----

  /** A character of the text, or a `$` with the identifier behind it. */
  datatype Piece = Literal(c: Byte) | Reference(name: seq<Byte>)

  predicate AllNameChars(s: seq<Byte>) {
    forall i | 0 <= i < |s| :: NameChar(s[i])
  }

  /** Identifiers are as long as they can be, and a `$` is never a literal. */
  predicate Canonical(pieces: seq<Piece>) {
    pieces == [] ||
    (Canonical(pieces[1..]) &&
     match pieces[0]
     case Literal(c) => c != DOLLAR
     case Reference(name) =>
       AllNameChars(name) && (|pieces| > 1 && pieces[1].Literal? ==> !NameChar(pieces[1].c)))
  }

  function RenderOne(piece: Piece): seq<Byte> {
    match piece
    case Literal(c) => [c]
    case Reference(name) => [DOLLAR] + name
  }

  function Render(pieces: seq<Piece>): seq<Byte> {
    if pieces == [] then [] else RenderOne(pieces[0]) + Render(pieces[1..])
  }

  /** The first value of a variable. */
  function FirstValue(store: seq<Binding>, name: seq<Byte>): Value {
    var values := Lookup(store, name);
    if values == [] then None else values[0]
  }

  /** A reference to a variable means its first value; any other is left as it is. */
  function MeaningOne(piece: Piece, store: seq<Binding>): seq<Byte> {
    if piece.Reference? && FirstValue(store, piece.name).Some? then FirstValue(store, piece.name).value
    else RenderOne(piece)
  }

  function Meaning(pieces: seq<Piece>, store: seq<Binding>): seq<Byte> {
    if pieces == [] then [] else MeaningOne(pieces[0], store) + Meaning(pieces[1..], store)
  }

  /** How much of the meaning comes from variables. */
  function Substituted(pieces: seq<Piece>, store: seq<Binding>): nat {
    if pieces == [] then 0
    else
      (if pieces[0].Reference? && FirstValue(store, pieces[0].name).Some? then |MeaningOne(pieces[0], store)| else 0)
      + Substituted(pieces[1..], store)
  }

  // ----- Reading a template -----

  /** The end of the identifier that starts at `i`. */
  function NameEnd(msg: seq<Byte>, i: nat): (e: nat)
    requires i <= |msg|
    ensures i <= e <= |msg| && (e < |msg| ==> !NameChar(msg[e]))
    decreases |msg| - i
  {
    if i == |msg| || !NameChar(msg[i]) then i else NameEnd(msg, i + 1)
  }

  lemma {:induction false} NameEndChars(msg: seq<Byte>, i: nat)
    requires i <= |msg|
    ensures forall k | i <= k < NameEnd(msg, i) :: NameChar(msg[k])
    decreases |msg| - i
  {
    if i < |msg| && NameChar(msg[i]) { NameEndChars(msg, i + 1); }
  }

  function Parse(msg: seq<Byte>, i: nat): seq<Piece>
    requires i <= |msg|
    decreases |msg| - i
  {
    if i == |msg| then []
    else if msg[i] == DOLLAR then [Reference(msg[i + 1..NameEnd(msg, i + 1)])] + Parse(msg, NameEnd(msg, i + 1))
    else [Literal(msg[i])] + Parse(msg, i + 1)
  }

  lemma {:induction false} Front(msg: seq<Byte>, i: nat, e: nat)
    requires i < e <= |msg|
    ensures msg[i..e] == [msg[i]] + msg[i + 1..e]
  {
  }

  lemma {:induction false} Cut(msg: seq<Byte>, i: nat, e: nat)
    requires i <= e <= |msg|
    ensures msg[i..] == msg[i..e] + msg[e..]
  {
  }

  lemma {:induction false} RenderFirst(msg: seq<Byte>, i: nat) returns (e: nat)
    requires i < |msg|
    ensures i < e <= |msg| && Parse(msg, i) != [] && Parse(msg, i)[1..] == Parse(msg, e)
    ensures RenderOne(Parse(msg, i)[0]) == msg[i..e]
  {
    e := if msg[i] == DOLLAR then NameEnd(msg, i + 1) else i + 1;
    Front(msg, i, e);
    if msg[i] != DOLLAR {
      assert msg[i + 1..e] == [];
    }
  }

  lemma {:induction false} RenderParse(msg: seq<Byte>, i: nat)
    requires i <= |msg|
    ensures Render(Parse(msg, i)) == msg[i..]
    decreases |msg| - i
  {
    if i < |msg| {
      var e := RenderFirst(msg, i);
      RenderParse(msg, e);
      Cut(msg, i, e);
    }
  }

  lemma {:induction false} ParseCanonical(msg: seq<Byte>, i: nat)
    requires i <= |msg|
    ensures Canonical(Parse(msg, i))
    ensures i < |msg| && Parse(msg, i)[0].Literal? ==> Parse(msg, i)[0].c == msg[i]
    decreases |msg| - i
  {
    if i < |msg| {
      var e := if msg[i] == DOLLAR then NameEnd(msg, i + 1) else i + 1;
      NameEndChars(msg, i + 1);
      ParseCanonical(msg, e);
      assert Parse(msg, i)[1..] == Parse(msg, e);
      assert msg[i] == DOLLAR ==> AllNameChars(msg[i + 1..e]);
    }
  }

  lemma {:induction false} NameEndIs(msg: seq<Byte>, i: nat, e: nat)
    requires i <= e <= |msg| && (e < |msg| ==> !NameChar(msg[e]))
    requires forall k | i <= k < e :: NameChar(msg[k])
    ensures NameEnd(msg, i) == e
    decreases e - i
  {
    if i < e { NameEndIs(msg, i + 1, e); }
  }

  lemma {:induction false} ReferenceEnd(pre: seq<Byte>, name: seq<Byte>, rest: seq<Byte>)
    requires AllNameChars(name) && (rest != [] ==> !NameChar(rest[0]))
    ensures var msg := pre + ([DOLLAR] + name) + rest; var i := |pre|; var e := i + 1 + |name|;
      e <= |msg| && msg[i] == DOLLAR && NameEnd(msg, i + 1) == e && msg[i + 1..e] == name
  {
    var msg, i := pre + ([DOLLAR] + name) + rest, |pre|;
    var e := i + 1 + |name|;
    forall k | i + 1 <= k < e
      ensures NameChar(msg[k])
    {
      assert msg[k] == name[k - i - 1];
    }
    NameEndIs(msg, i + 1, e);
  }

  /** What follows a reference does not extend its name. */
  lemma {:induction false} RestEndsName(pieces: seq<Piece>)
    requires Canonical(pieces) && pieces != [] && pieces[0].Reference?
    ensures var rest := Render(pieces[1..]); rest != [] ==> !NameChar(rest[0])
  {
    if |pieces| > 1 { assert pieces[1..][0] == pieces[1]; }
  }

  /** The first piece of a canonical text is read back. */
  lemma {:induction false} ParseFirst(pre: seq<Byte>, piece: Piece, rest: seq<Byte>)
    requires match piece
      case Literal(c) => c != DOLLAR
      case Reference(name) => AllNameChars(name) && (rest != [] ==> !NameChar(rest[0]))
    ensures var next := pre + RenderOne(piece);
      Parse(next + rest, |pre|) == [piece] + Parse(next + rest, |next|)
  {
    if piece.Reference? { ReferenceEnd(pre, piece.name, rest); }
  }

  lemma {:induction false} ParseRenderFrom(pre: seq<Byte>, pieces: seq<Piece>)
    requires Canonical(pieces)
    ensures Parse(pre + Render(pieces), |pre|) == pieces
    decreases |pieces|
  {
    if pieces != [] {
      var next := pre + RenderOne(pieces[0]);
      ParseRenderFrom(next, pieces[1..]);
      ParseFirstOf(pre, pieces);
      assert pieces == [pieces[0]] + pieces[1..];
    }
  }

  lemma {:induction false} ParseFirstOf(pre: seq<Byte>, pieces: seq<Piece>)
    requires Canonical(pieces) && pieces != []
    ensures var next := pre + RenderOne(pieces[0]);
      pre + Render(pieces) == next + Render(pieces[1..]) &&
      Parse(next + Render(pieces[1..]), |pre|) == [pieces[0]] + Parse(next + Render(pieces[1..]), |next|)
  {
    Associate(pre, RenderOne(pieces[0]), Render(pieces[1..]));
    if pieces[0].Reference? { RestEndsName(pieces); }
    ParseFirst(pre, pieces[0], Render(pieces[1..]));
  }

  /** Every template reads as one canonical list of pieces, and no other renders to it. */
  lemma {:induction false} TemplatesArePieces(msg: seq<Byte>, pieces: seq<Piece>)
    ensures Render(Parse(msg, 0)) == msg && Canonical(Parse(msg, 0))
    ensures Canonical(pieces) && Render(pieces) == msg ==> pieces == Parse(msg, 0)
  {
    RenderParse(msg, 0);
    ParseCanonical(msg, 0);
    assert msg[0..] == msg;
    if Canonical(pieces) && Render(pieces) == msg {
      ParseRenderFrom([], pieces);
      assert [] + Render(pieces) == msg;
    }
  }

  // ----- The loop -----

  /** What the loop writes from `i` on when its guards let everything through: behind a
      reference it does not resolve, it goes on with the identifier as plain text. */
  function Expand(msg: seq<Byte>, store: seq<Binding>, i: nat): seq<Byte>
    requires i <= |msg|
    decreases |msg| - i
  {
    if i == |msg| then []
    else if msg[i] == DOLLAR && FirstValue(store, msg[i + 1..NameEnd(msg, i + 1)]).Some? then
      FirstValue(store, msg[i + 1..NameEnd(msg, i + 1)]).value + Expand(msg, store, NameEnd(msg, i + 1))
    else [msg[i]] + Expand(msg, store, i + 1)
  }

  lemma {:induction false} NameVerbatim(msg: seq<Byte>, store: seq<Binding>, i: nat)
    requires i <= |msg|
    ensures Expand(msg, store, i) == msg[i..NameEnd(msg, i)] + Expand(msg, store, NameEnd(msg, i))
    decreases |msg| - i
  {
    if i < |msg| && NameChar(msg[i]) {
      var e := NameEnd(msg, i);
      NameVerbatim(msg, store, i + 1);
      Front(msg, i, e);
      Associate([msg[i]], msg[i + 1..e], Expand(msg, store, e));
    } else {
      assert msg[i..NameEnd(msg, i)] == [];
    }
  }

  /** The loop writes the meaning of the template: each maximal `$identifier` replaced by
      its first value, unknown ones verbatim, values never read again. */
  lemma {:induction false} ExpandIsMeaning(msg: seq<Byte>, store: seq<Binding>, i: nat)
    requires i <= |msg|
    ensures Expand(msg, store, i) == Meaning(Parse(msg, i), store)
    decreases |msg| - i
  {
    if i < |msg| {
      var e := if msg[i] == DOLLAR then NameEnd(msg, i + 1) else i + 1;
      ExpandIsMeaning(msg, store, e);
      assert Parse(msg, i)[1..] == Parse(msg, e);
      if msg[i] == DOLLAR {
        NameVerbatim(msg, store, i + 1);
        Associate([DOLLAR], msg[i + 1..e], Expand(msg, store, e));
      }
    }
  }

  function SubstitutedFrom(msg: seq<Byte>, store: seq<Binding>, i: nat): nat
    requires i <= |msg|
    decreases |msg| - i
  {
    if i == |msg| then 0
    else if msg[i] == DOLLAR && FirstValue(store, msg[i + 1..NameEnd(msg, i + 1)]).Some? then
      |FirstValue(store, msg[i + 1..NameEnd(msg, i + 1)]).value| + SubstitutedFrom(msg, store, NameEnd(msg, i + 1))
    else SubstitutedFrom(msg, store, i + 1)
  }

  lemma {:induction false} NameSubstitutesNothing(msg: seq<Byte>, store: seq<Binding>, i: nat)
    requires i <= |msg|
    ensures SubstitutedFrom(msg, store, i) == SubstitutedFrom(msg, store, NameEnd(msg, i))
    decreases |msg| - i
  {
    if i < |msg| && NameChar(msg[i]) { NameSubstitutesNothing(msg, store, i + 1); }
  }

  lemma {:induction false} SubstitutedIs(msg: seq<Byte>, store: seq<Binding>, i: nat)
    requires i <= |msg|
    ensures SubstitutedFrom(msg, store, i) == Substituted(Parse(msg, i), store)
    decreases |msg| - i
  {
    if i < |msg| {
      var e := if msg[i] == DOLLAR then NameEnd(msg, i + 1) else i + 1;
      SubstitutedIs(msg, store, e);
      assert Parse(msg, i)[1..] == Parse(msg, e);
      if msg[i] == DOLLAR { NameSubstitutesNothing(msg, store, i + 1); }
    }
  }

  /** What a `$` at `i` is replaced with. */
  function Replacement(msg: seq<Byte>, store: seq<Binding>, i: nat): Value
    requires i < |msg|
  {
    if msg[i] == DOLLAR then FirstValue(store, msg[i + 1..NameEnd(msg, i + 1)]) else None
  }

  /** The guard of a substitution: `count` and the value together stay below the limit. */
  predicate Admits(count: nat, value: Value) {
    value.Some? && count + |value.value| < HTTP_MAX_LEN
  }

  /** What the loop writes from `i` on, with its guards: it ends when `count` reaches the
      limit, and leaves a reference whose value would take it there as plain text. */
  function Guarded(msg: seq<Byte>, store: seq<Binding>, i: nat, count: nat): seq<Byte>
    requires i <= |msg|
    decreases |msg| - i
  {
    if i == |msg| || count >= HTTP_MAX_LEN then []
    else
      var value := Replacement(msg, store, i);
      if Admits(count, value) then value.value + Guarded(msg, store, NameEnd(msg, i + 1), count)
      else [msg[i]] + Guarded(msg, store, i + 1, count + 1)
  }

  /** The length of what `count` misses. */
  function Missed(msg: seq<Byte>, store: seq<Binding>, i: nat, count: nat): nat
    requires i <= |msg|
    decreases |msg| - i
  {
    if i == |msg| || count >= HTTP_MAX_LEN then 0
    else
      var value := Replacement(msg, store, i);
      if Admits(count, value) then |value.value| + Missed(msg, store, NameEnd(msg, i + 1), count)
      else Missed(msg, store, i + 1, count + 1)
  }

  /** Below the limit the guards let everything through. */
  lemma {:induction false} GuardedIsExpand(msg: seq<Byte>, store: seq<Binding>, i: nat, count: nat)
    requires i <= |msg| && count + |Expand(msg, store, i)| < HTTP_MAX_LEN
    ensures Guarded(msg, store, i, count) == Expand(msg, store, i)
    ensures Missed(msg, store, i, count) == SubstitutedFrom(msg, store, i)
    decreases |msg| - i
  {
    if i < |msg| {
      var value := Replacement(msg, store, i);
      if value.Some? {
        GuardedIsExpand(msg, store, NameEnd(msg, i + 1), count);
      } else {
        GuardedIsExpand(msg, store, i + 1, count + 1);
      }
    }
  }

  /** What is written fits the buffer and is the meaning of the template, if and only if
      the meaning is shorter than the limit. */
  lemma {:induction false} GuardedIsMeaningIff(msg: seq<Byte>, store: seq<Binding>)
    ensures var written, meaning := Guarded(msg, store, 0, 0), Meaning(Parse(msg, 0), store);
      |written| < HTTP_MAX_LEN && written == meaning <==> |meaning| < HTTP_MAX_LEN
  {
    ExpandIsMeaning(msg, store, 0);
    if |Expand(msg, store, 0)| < HTTP_MAX_LEN { GuardedIsExpand(msg, store, 0, 0); }
  }

  // ----- When what is written fits the buffer -----

  /** The value of a reference, if it has one. */
  function ValueOf(piece: Piece, store: seq<Binding>): Value {
    if piece.Reference? then FirstValue(store, piece.name) else None
  }

  /** The length of a template piece by piece: a value that the guard admits at its place,
      else the piece as it is, which alone moves `count` on. */
  function Weight(pieces: seq<Piece>, store: seq<Binding>, count: nat): nat
    decreases |pieces|
  {
    if pieces == [] then 0
    else
      var value := ValueOf(pieces[0], store);
      if Admits(count, value) then |value.value| + Weight(pieces[1..], store, count)
      else
        var n := |RenderOne(pieces[0])|;
        n + Weight(pieces[1..], store, count + n)
  }

  /** Two lengths are equal, or both use up the room that `count` leaves. */
  predicate SameRoom(a: nat, b: nat, count: nat) {
    a == b || (a + count >= HTTP_MAX_LEN && b + count >= HTTP_MAX_LEN)
  }

  /** From `i` to `e` plain text is written, until `count` reaches the limit. */
  ghost predicate WritesPlain(msg: seq<Byte>, store: seq<Binding>, i: nat, e: nat, count: nat)
    requires i <= e <= |msg|
  {
    var n := e - i;
    (count + n >= HTTP_MAX_LEN ==> |Guarded(msg, store, i, count)| + count >= HTTP_MAX_LEN) &&
    (count + n < HTTP_MAX_LEN ==>
      |Guarded(msg, store, i, count)| == n + |Guarded(msg, store, e, count + n)|)
  }

  lemma {:induction false} PlainFirst(msg: seq<Byte>, store: seq<Binding>, i: nat, e: nat, count: nat)
    requires i < e <= |msg| && count < HTTP_MAX_LEN && !Admits(count, Replacement(msg, store, i))
    requires WritesPlain(msg, store, i + 1, e, count + 1)
    ensures WritesPlain(msg, store, i, e, count)
  {
    assert |Guarded(msg, store, i, count)| == 1 + |Guarded(msg, store, i + 1, count + 1)|;
    assert count + 1 + (e - (i + 1)) == count + (e - i);
  }

  lemma {:induction false} PlainName(msg: seq<Byte>, store: seq<Binding>, i: nat, count: nat)
    requires i <= |msg|
    ensures WritesPlain(msg, store, i, NameEnd(msg, i), count)
    decreases |msg| - i
  {
    if i < |msg| && NameChar(msg[i]) && count < HTTP_MAX_LEN {
      PlainName(msg, store, i + 1, count + 1);
      PlainFirst(msg, store, i, NameEnd(msg, i), count);
    }
  }

  lemma {:induction false} WeightCons(piece: Piece, rest: seq<Piece>, store: seq<Binding>, count: nat)
    ensures var value, n := ValueOf(piece, store), |RenderOne(piece)|;
      Weight([piece] + rest, store, count) ==
        if Admits(count, value) then |value.value| + Weight(rest, store, count) else n + Weight(rest, store, count + n)
  {
    assert ([piece] + rest)[1..] == rest;
  }

  lemma {:induction false} ParseHead(msg: seq<Byte>, store: seq<Binding>, i: nat, e: nat) returns (piece: Piece)
    requires i < e <= |msg| && e == if msg[i] == DOLLAR then NameEnd(msg, i + 1) else i + 1
    ensures Parse(msg, i) == [piece] + Parse(msg, e)
    ensures ValueOf(piece, store) == Replacement(msg, store, i) && |RenderOne(piece)| == e - i
  {
    piece := if msg[i] == DOLLAR then Reference(msg[i + 1..e]) else Literal(msg[i]);
  }

  lemma {:induction false} WeightFirst(msg: seq<Byte>, store: seq<Binding>, i: nat, count: nat, e: nat)
    requires i < e <= |msg| && e == if msg[i] == DOLLAR then NameEnd(msg, i + 1) else i + 1
    ensures var value := Replacement(msg, store, i);
      Weight(Parse(msg, i), store, count) ==
        if Admits(count, value) then |value.value| + Weight(Parse(msg, e), store, count)
        else e - i + Weight(Parse(msg, e), store, count + (e - i))
  {
    var piece := ParseHead(msg, store, i, e);
    WeightCons(piece, Parse(msg, e), store, count);
  }

  lemma {:induction false} GuardedOne(msg: seq<Byte>, store: seq<Binding>, i: nat, count: nat)
    requires i < |msg| && count < HTTP_MAX_LEN
    ensures var value, length := Replacement(msg, store, i), |Guarded(msg, store, i, count)|;
      if Admits(count, value) then length == |value.value| + |Guarded(msg, store, NameEnd(msg, i + 1), count)|
      else length == 1 + |Guarded(msg, store, i + 1, count + 1)|
  {
  }

  lemma {:induction false} PlainPiece(msg: seq<Byte>, store: seq<Binding>, i: nat, count: nat, e: nat)
    requires i < e <= |msg| && e == if msg[i] == DOLLAR then NameEnd(msg, i + 1) else i + 1
    requires count < HTTP_MAX_LEN && !Admits(count, Replacement(msg, store, i))
    ensures WritesPlain(msg, store, i, e, count)
  {
    if msg[i] == DOLLAR { PlainName(msg, store, i + 1, count + 1); }
    PlainFirst(msg, store, i, e, count);
  }

  lemma {:induction false} GuardedWeight(msg: seq<Byte>, store: seq<Binding>, i: nat, count: nat)
    requires i <= |msg|
    ensures SameRoom(|Guarded(msg, store, i, count)|, Weight(Parse(msg, i), store, count), count)
    decreases |msg| - i
  {
    if i < |msg| && count < HTTP_MAX_LEN {
      var e := if msg[i] == DOLLAR then NameEnd(msg, i + 1) else i + 1;
      var more := if Admits(count, Replacement(msg, store, i)) then count else count + (e - i);
      GuardedWeight(msg, store, e, more);
      RoomFirst(msg, store, i, count, e, more);
    }
  }

  lemma {:induction false} RoomFirst(msg: seq<Byte>, store: seq<Binding>, i: nat, count: nat, e: nat, more: nat)
    requires i < e <= |msg| && count < HTTP_MAX_LEN && e == if msg[i] == DOLLAR then NameEnd(msg, i + 1) else i + 1
    requires more == if Admits(count, Replacement(msg, store, i)) then count else count + (e - i)
    requires SameRoom(|Guarded(msg, store, e, more)|, Weight(Parse(msg, e), store, more), more)
    ensures SameRoom(|Guarded(msg, store, i, count)|, Weight(Parse(msg, i), store, count), count)
  {
    var value := Replacement(msg, store, i);
    WeightFirst(msg, store, i, count, e);
    if Admits(count, value) {
      GuardedOne(msg, store, i, count);
    } else {
      PlainPiece(msg, store, i, count, e);
    }
  }

  /** What is written fits the buffer if and only if the weight of the pieces does. */
  lemma {:induction false} FitsIffWeight(msg: seq<Byte>, store: seq<Binding>)
    ensures |Guarded(msg, store, 0, 0)| < HTTP_MAX_LEN <==> Weight(Parse(msg, 0), store, 0) < HTTP_MAX_LEN
  {
    GuardedWeight(msg, store, 0, 0);
  }

  /** No guard can refuse a value: each one and the template together stay below the limit. */
  ghost predicate SmallValues(msg: seq<Byte>, store: seq<Binding>) {
    forall i | 0 <= i < |msg| && Replacement(msg, store, i).Some? ::
      |msg| + |Replacement(msg, store, i).value| < HTTP_MAX_LEN
  }

  lemma {:induction false} GuardedSmall(msg: seq<Byte>, store: seq<Binding>, i: nat, count: nat)
    requires count <= i <= |msg| && SmallValues(msg, store)
    ensures SameRoom(|Guarded(msg, store, i, count)|, |Expand(msg, store, i)|, count)
    decreases |msg| - i
  {
    if i < |msg| && count < HTTP_MAX_LEN {
      var value := Replacement(msg, store, i);
      if value.Some? {
        GuardedSmall(msg, store, NameEnd(msg, i + 1), count);
      } else {
        GuardedSmall(msg, store, i + 1, count + 1);
      }
    }
  }

  /** With values that no guard refuses, what is written fits the buffer if and only if
      the meaning of the template does. */
  lemma {:induction false} FitsIffMeaning(msg: seq<Byte>, store: seq<Binding>)
    requires SmallValues(msg, store)
    ensures |Guarded(msg, store, 0, 0)| < HTTP_MAX_LEN <==> |Meaning(Parse(msg, 0), store)| < HTTP_MAX_LEN
  {
    GuardedSmall(msg, store, 0, 0);
    ExpandIsMeaning(msg, store, 0);
  }

  /** Two values of 6000 octets pass the guards, but the buffer does not hold them. */
  lemma {:induction false} GuardMisses(msg: seq<Byte>, store: seq<Binding>, value: seq<Byte>)
    requires msg == [DOLLAR, 'x' as int, DOLLAR, 'x' as int]
    requires |value| == 6000 && FirstValue(store, ['x' as int]) == Some(value)
    ensures Guarded(msg, store, 0, 0) == value + value && |Guarded(msg, store, 0, 0)| > HTTP_MAX_LEN
  {
    NameEndIs(msg, 1, 2);
    NameEndIs(msg, 3, 4);
    assert msg[1..2] == msg[3..4] == ['x' as int];
    assert Guarded(msg, store, 4, 0) == [];
    assert Guarded(msg, store, 2, 0) == value + [];
    assert value + [] == value;
  }

  /** The first value of every variable is a C string. */
  ghost predicate Readable(store: seq<Binding>) {
    forall k | 0 <= k < |store| ::
      store[k].values != [] && store[k].values[0].Some? && NulFree(store[k].values[0].value)
  }

  /** Every identifier fits `varName` with its terminator. */
  ghost predicate ShortNames(msg: seq<Byte>) {
    forall i | 0 <= i < |msg| && msg[i] == DOLLAR :: NameEnd(msg, i + 1) - (i + 1) < 80
  }

  /** Copies the identifier behind a `$` into `varName`. */
  method ReadName(msg: seq<Byte>, src: nat) returns (name: seq<Byte>)
    requires src < |msg| && NulFree(msg) && NameEnd(msg, src + 1) - src <= NAME_LEN
    ensures name == msg[src + 1..NameEnd(msg, src + 1)]
  {
    var varName := new Byte[NAME_LEN](_ => 0);
    var tmp, count2 := src + 1, 0;
    ghost var e := NameEnd(msg, src + 1);
    while tmp < |msg| && NameChar(msg[tmp]) && count2 < NAME_LEN
      invariant src + 1 <= tmp <= e && tmp == src + 1 + count2 && NameEnd(msg, tmp) == e
      invariant forall k | 0 <= k < count2 :: varName[k] == msg[src + 1 + k]
    {
      varName[count2] := msg[tmp];
      tmp := tmp + 1;
      count2 := count2 + 1;
    }
    varName[count2] := 0;
    assert varName[..][..count2] == msg[src + 1..e];
    StrLenOf(varName[..], count2);
    name := Text(varName[..]);
  }

  /** `done` stands at the front of the buffer, and the rest of it is still zero. */
  ghost predicate Written(d: seq<Byte>, done: seq<Byte>) {
    |done| < |d| == HTTP_MAX_LEN && NulFree(done) &&
    (forall k | 0 <= k < |done| :: d[k] == done[k]) && forall k | |done| <= k < |d| :: d[k] == 0
  }

  /** The state of the loop; `count` has missed what was substituted. */
  ghost predicate Expanding(d: seq<Byte>, msg: seq<Byte>, store: seq<Binding>, src: nat, count: nat, done: seq<Byte>) {
    src <= |msg| && Written(d, done) && |Guarded(msg, store, 0, 0)| < HTTP_MAX_LEN &&
    Guarded(msg, store, 0, 0) == done + Guarded(msg, store, src, count) &&
    count + Missed(msg, store, 0, 0) == |done| + Missed(msg, store, src, count)
  }

  /** `strcpy(dest, value); dest += strlen(dest); count += strlen(dest);` */
  method CopyValue(buf: array<Byte>, dest: nat, count: nat, value: seq<Byte>, ghost done: seq<Byte>)
    returns (next: nat, total: nat)
    requires Written(buf[..], done) && dest == |done| && dest + |value| < HTTP_MAX_LEN && NulFree(value)
    modifies buf
    ensures Written(buf[..], done + value) && next == dest + |value| && total == count
  {
    for k := 0 to |value|
      invariant buf.Length == HTTP_MAX_LEN
      invariant forall j | 0 <= j < dest :: buf[j] == done[j]
      invariant forall j | 0 <= j < k :: buf[dest + j] == value[j]
      invariant forall j | dest + k <= j < buf.Length :: buf[j] == 0
    {
      buf[dest + k] := value[k];
    }
    assert buf[dest..][..|value|] == value;
    StrLenOf(buf[dest..], |value|);
    next := dest + StrLen(buf[dest..]);
    StrLenOf(buf[next..], 0);
    total := count + StrLen(buf[next..]);
  }

  /** The value a reference stands for. */
  method FindValue(r: Request, name: seq<Byte>) returns (curVar: HttpVar?)
    requires r.Valid() && Readable(r.store)
    ensures curVar != null <==> FirstValue(r.store, name).Some?
    ensures curVar != null ==>
      curVar.value == FirstValue(r.store, name) && curVar.value.Some? && NulFree(curVar.value.value)
  {
    curVar := r.GetVariableByName(name);
    ghost var k := Find(r.store, name);
    if k < |r.store| { assert r.store[k].values[0].Some?; }
  }

  lemma {:induction false} ExpandingPlain(msg: seq<Byte>, store: seq<Binding>, src: nat, count: nat, done: seq<Byte>)
    requires src < |msg| && count < HTTP_MAX_LEN && !Admits(count, Replacement(msg, store, src))
    ensures done + Guarded(msg, store, src, count) == (done + [msg[src]]) + Guarded(msg, store, src + 1, count + 1)
    ensures Missed(msg, store, src, count) == Missed(msg, store, src + 1, count + 1)
  {
    Associate(done, [msg[src]], Guarded(msg, store, src + 1, count + 1));
  }

  lemma {:induction false} ExpandingValue(msg: seq<Byte>, store: seq<Binding>, src: nat, count: nat,
      done: seq<Byte>, value: seq<Byte>)
    requires src < |msg| && Replacement(msg, store, src) == Some(value) && Admits(count, Some(value))
    ensures var e := NameEnd(msg, src + 1);
      done + Guarded(msg, store, src, count) == (done + value) + Guarded(msg, store, e, count) &&
      Missed(msg, store, src, count) == |value| + Missed(msg, store, e, count)
  {
    Associate(done, value, Guarded(msg, store, NameEnd(msg, src + 1), count));
  }

  method PutChar(buf: array<Byte>, dest: nat, c: Byte, ghost done: seq<Byte>)
    requires Written(buf[..], done) && dest == |done| && dest + 1 < HTTP_MAX_LEN && c != 0
    modifies buf
    ensures Written(buf[..], done + [c])
  {
    buf[dest] := c;
  }

  /** The value of a reference that the guard lets through. */
  method FindReplacement(r: Request, msg: seq<Byte>, src: nat, count: nat) returns (value: Value, length: nat)
    requires r.Valid() && NulFree(msg) && ShortNames(msg) && Readable(r.store) && src < |msg|
    ensures value == if Admits(count, Replacement(msg, r.store, src)) then Replacement(msg, r.store, src) else None
    ensures value.Some? ==> NulFree(value.value) && length == NameEnd(msg, src + 1) - src - 1
  {
    value, length := None, 0;
    if msg[src] == DOLLAR {
      var name := ReadName(msg, src);
      var curVar := FindValue(r, name);
      if curVar != null && count + |curVar.value.value| < HTTP_MAX_LEN {
        value, length := curVar.value, |name|;
      }
    }
  }

  /** One turn of the loop. */
  method Step(r: Request, msg: seq<Byte>, buf: array<Byte>, src: nat, dest: nat, count: nat,
      ghost store: seq<Binding>, ghost done: seq<Byte>)
    returns (src': nat, dest': nat, count': nat, ghost more: seq<Byte>)
    requires r.Valid() && NulFree(msg) && ShortNames(msg) && Readable(store) && r.store == store
    requires Expanding(buf[..], msg, store, src, count, done) && dest == |done| && src < |msg| && count < HTTP_MAX_LEN
    modifies buf
    ensures Expanding(buf[..], msg, store, src', count', more) && dest' == |more| && src < src'
  {
    var value, length := FindReplacement(r, msg, src, count);
    if value.Some? {
      ExpandingValue(msg, store, src, count, done, value.value);
      more := done + value.value;
      src' := src + length + 1;
      dest', count' := CopyValue(buf, dest, count, value.value, done);
    } else {
      ExpandingPlain(msg, store, src, count, done);
      more := done + [msg[src]];
      PutChar(buf, dest, msg[src], done);
      src', dest', count' := src + 1, dest + 1, count + 1;
    }
  }

  /** `httpdOutput`: what is written to the client, and the final `count`. The buffer must
      hold what the loop writes and a terminator, which is what the weight tells. */
  method Output(r: Request, msg: seq<Byte>) returns (sent: seq<Byte>, count: nat)
    requires r.Valid() && NulFree(msg) && ShortNames(msg) && Readable(r.store)
    requires Weight(Parse(msg, 0), r.store, 0) < HTTP_MAX_LEN
    ensures |sent| < HTTP_MAX_LEN
    ensures sent == Guarded(msg, r.store, 0, 0) && count == |sent| - Missed(msg, r.store, 0, 0)
    ensures sent == Meaning(Parse(msg, 0), r.store) <==> |Meaning(Parse(msg, 0), r.store)| < HTTP_MAX_LEN
    ensures sent == Meaning(Parse(msg, 0), r.store) ==> count == |sent| - Substituted(Parse(msg, 0), r.store)
  {
    ghost var store := r.store;
    FitsIffWeight(msg, store);
    CountOfMeaning(msg, store);
    var buf := new Byte[HTTP_MAX_LEN](_ => 0);
    var src: nat, dest: nat := 0, 0;
    ghost var done: seq<Byte> := [];
    count := 0;
    assert done + Guarded(msg, store, 0, 0) == Guarded(msg, store, 0, 0);
    while src < |msg| && count < HTTP_MAX_LEN
      invariant r.Valid() && r.store == store
      invariant Expanding(buf[..], msg, store, src, count, done) && dest == |done|
      decreases |msg| - src
    {
      src, dest, count, done := Step(r, msg, buf, src, dest, count, store, done);
    }
    sent := Finish(buf, dest, done);
    assert done + [] == done;
  }

  lemma {:induction false} CountOfMeaning(msg: seq<Byte>, store: seq<Binding>)
    requires |Guarded(msg, store, 0, 0)| < HTTP_MAX_LEN
    ensures Guarded(msg, store, 0, 0) == Meaning(Parse(msg, 0), store) <==>
      |Meaning(Parse(msg, 0), store)| < HTTP_MAX_LEN
    ensures |Meaning(Parse(msg, 0), store)| < HTTP_MAX_LEN ==>
      Missed(msg, store, 0, 0) == Substituted(Parse(msg, 0), store)
  {
    GuardedIsMeaningIff(msg, store);
    ExpandIsMeaning(msg, store, 0);
    if |Expand(msg, store, 0)| < HTTP_MAX_LEN { GuardedIsExpand(msg, store, 0, 0); }
    SubstitutedIs(msg, store, 0);
  }

  /** `*dest = 0`, and the text that is sent. */
  method Finish(buf: array<Byte>, dest: nat, ghost done: seq<Byte>) returns (sent: seq<Byte>)
    requires Written(buf[..], done) && dest == |done|
    modifies buf
    ensures sent == done
  {
    buf[dest] := 0;
    assert buf[..][..dest] == done;
    StrLenOf(buf[..], dest);
    sent := Text(buf[..]);
  }

  // ----- Templates as they are written -----

  lemma {:induction false} GuardedPlain(msg: seq<Byte>, store: seq<Binding>, i: nat, e: nat, count: nat)
    requires i <= e <= |msg| && count + (e - i) <= HTTP_MAX_LEN
    requires forall k | i <= k < e :: msg[k] != '$' as int
    ensures Guarded(msg, store, i, count) == msg[i..e] + Guarded(msg, store, e, count + (e - i))
    decreases e - i
  {
    if i < e {
      GuardedPlain(msg, store, i + 1, e, count + 1);
      Front(msg, i, e);
      Associate([msg[i]], msg[i + 1..e], Guarded(msg, store, e, count + (e - i)));
    }
  }

  /** Text and then a reference to a variable with a value: the value is written if both
      together are shorter than 10240 octets; else the reference stays as it is, up to that limit. */
  lemma {:induction false} GuardExact(text: seq<Byte>, name: seq<Byte>, store: seq<Binding>, value: seq<Byte>)
    requires '$' as int !in text && |text| + 1 + |name| <= 10240 && AllNameChars(name)
    requires FirstValue(store, name) == Some(value)
    ensures Guarded(text + (['$' as int] + name), store, 0, 0) ==
      text + if |text| + |value| < 10240 then value else ['$' as int] + name
  {
    var reference := ['$' as int] + name;
    var msg, n := text + reference, |text|;
    assert text + reference + [] == msg;
    ReferenceEnd(text, name, []);
    GuardedPlain(msg, store, 0, n, 0);
    assert msg[0..n] == text;
    if Admits(n, Some(value)) {
      assert Guarded(msg, store, |msg|, n) == [] && value + [] == value;
    } else {
      NoDollars(name);
      GuardedPlain(msg, store, n + 1, |msg|, n + 1);
      assert msg[n + 1..] == name;
      assert Guarded(msg, store, |msg|, n + 1 + |name|) == [] && name + [] == name;
    }
  }

  lemma {:induction false} NoDollars(name: seq<Byte>)
    requires AllNameChars(name)
    ensures '$' as int !in name
  {
  }
}
