/** `_httpd_storeData` (src/httpd.cpp): a query parsed into the variable store. */
module Query {
  import opened Bytes
  import opened Tokens
  import opened InPlace
  import opened Escape
  import opened Variables

  // ----- What a query stores -----

  /** `t` written into the buffer from `n` on. */
  function Over(b: seq<Byte>, n: nat, t: seq<Byte>): (r: seq<Byte>)
    ensures |r| == |b|
    decreases |t|
  {
    if t == [] || n >= |b| then b else Over(b[n := t[0]], n + 1, t[1..])
  }

  /** Where the text behind the last `=` starts. */
  function LastStart(v: seq<Byte>): (k: nat)
    ensures k <= |v| && (k > 0 ==> v[k - 1] == EQUALS)
    ensures forall i | k <= i < |v| :: v[i] != EQUALS
  {
    if v == [] || v[|v| - 1] == EQUALS then |v| else LastStart(v[..|v| - 1])
  }

  function AfterLast(v: seq<Byte>): seq<Byte> {
    v[LastStart(v)..]
  }

  /** The unescaped text as `strdup` copies it: up to its first NUL. */
  function Decoded(v: seq<Byte>): seq<Byte> {
    Text(Unescaped(v, 0, []) + [0])
  }

  predicate HasValue(piece: seq<Byte>) {
    IndexOf(piece, EQUALS) < |piece|
  }

  /** What the buffer receives: the name and its terminator, or a piece without `=`
      unterminated. */
  function NamePart(piece: seq<Byte>): seq<Byte> {
    if HasValue(piece) then piece[..IndexOf(piece, EQUALS)] + [0] else piece
  }

  /** The value stored: what is left after the last `=`, decoded. */
  function ValuePart(piece: seq<Byte>): seq<Byte> {
    if HasValue(piece) then Decoded(AfterLast(piece[IndexOf(piece, EQUALS) + 1..])) else []
  }

  /** The pairs of the pieces between `&`s. The name buffer `b` is shared, so the end of
      an earlier name can show through behind a piece without `=`; such a piece stores
      the empty value, and nothing if it is the last. */
  function Pairs(pieces: seq<seq<Byte>>, b: seq<Byte>): seq<Pair>
    decreases |pieces|
  {
    if pieces == [] || (|pieces| == 1 && !HasValue(pieces[0])) then []
    else
      var after := Over(b, 0, NamePart(pieces[0]));
      [Pair(Text(after), Some(ValuePart(pieces[0])))] + Pairs(pieces[1..], after)
  }

  // ----- The character loop -----

  /** What the loop stores from position `cp` on, with `n` octets of the current name
      in the buffer `b` and the value starting at `val`, if it has started. */
  function Run(q: seq<Byte>, cp: nat, b: seq<Byte>, n: nat, val: Option<nat>): seq<Pair>
    requires n <= cp <= |q| < |b| && (val.Some? ==> val.value <= cp)
    decreases |q| - cp
  {
    if cp == |q| then
      if val.Some? then [Pair(Text(b), Some(Decoded(q[val.value..cp])))] else []
    else if q[cp] == EQUALS then Run(q, cp + 1, b[n := 0], n, Some(cp + 1))
    else if q[cp] == AMPERSAND then
      [Pair(Text(b), Some(if val.Some? then Decoded(q[val.value..cp]) else []))] + Run(q, cp + 1, b, 0, None)
    else if val.Some? then Run(q, cp + 1, b, n, val)
    else Run(q, cp + 1, b[n := q[cp]], n + 1, None)
  }

  function QueryPairs(q: seq<Byte>): seq<Pair> {
    Run(q, 0, Zeros(|q| + 1), 0, None)
  }

  lemma {:induction false} AddAllCons(store: seq<Binding>, pair: Pair, rest: seq<Pair>)
    ensures AddAll(store, [pair] + rest) == AddAll(Add(store, Strip(pair.name), pair.value), rest)
  {
    assert ([pair] + rest)[1..] == rest;
  }

  ghost predicate Storing(goal: seq<Binding>, store: seq<Binding>, q: seq<Byte>, cp: nat, b: seq<Byte>, n: nat,
      val: Option<nat>) {
    n <= cp <= |q| < |b| && (val.Some? ==> val.value <= cp) && goal == AddAll(store, Run(q, cp, b, n, val))
  }

  /** The part of the query not yet looked at, and the value being read, are untouched. */
  ghost predicate Untouched(d: seq<Byte>, base: nat, q: seq<Byte>, cp: nat, val: Option<nat>) {
    cp <= |q| && base + |q| < |d| && d[base + |q|] == 0 &&
    forall i | (if val.Some? then val.value else cp) <= i < |q| :: d[base + i] == q[i]
  }

  /** What stands before the query is untouched. */
  ghost predicate Kept(d: seq<Byte>, was: seq<Byte>, base: nat) {
    base <= |d| == |was| && forall i | 0 <= i < base :: d[i] == was[i]
  }

  /** The state of the loop. */
  ghost predicate Scanning(d: seq<Byte>, base: nat, goal: seq<Binding>, store: seq<Binding>, q: seq<Byte>, cp: nat,
      b: seq<Byte>, n: nat, val: Option<nat>) {
    NulFree(q) && Untouched(d, base, q, cp, val) && Storing(goal, store, q, cp, b, n, val)
  }

  lemma {:induction false} SkipValue(d: seq<Byte>, base: nat, goal: seq<Binding>, store: seq<Binding>, q: seq<Byte>,
      cp: nat, b: seq<Byte>, n: nat, val: Option<nat>)
    requires Scanning(d, base, goal, store, q, cp, b, n, val)
    requires cp < |q| && q[cp] != EQUALS && q[cp] != AMPERSAND && val.Some?
    ensures Scanning(d, base, goal, store, q, cp + 1, b, n, val)
  {
  }

  lemma {:induction false} ValueCString(d: seq<Byte>, base: nat, q: seq<Byte>, v: nat, cp: nat)
    requires v <= cp <= |q| && NulFree(q) && base + cp < |d| && d[base + cp] == 0
    requires forall i | v <= i < cp :: d[base + i] == q[i]
    ensures CString(d, base + v, q[v..cp])
  {
    var s := q[v..cp];
    forall i | base + v <= i < base + cp
      ensures d[i] == s[i - base - v]
    {
      assert d[base + (i - base)] == q[i - base];
    }
  }

  /** `_httpd_unescape(val)`, with the value ended at `cp`. */
  method TakeValue(query: array<Byte>, base: nat, val: Option<nat>, cp: nat, ghost q: seq<Byte>)
    returns (value: seq<Byte>)
    requires NulFree(q) && Untouched(query[..], base, q, cp, val) && (val.Some? ==> val.value <= cp)
    modifies query
    ensures value == if val.Some? then Decoded(q[val.value..cp]) else []
    ensures forall i | 0 <= i < base || base + cp < i < query.Length :: query[i] == old(query[i])
  {
    value := [];
    query[base + cp] := 0;
    if val.Some? {
      ValueCString(query[..], base, q, val.value, cp);
      value := TakeText(query, base + val.value, q[val.value..cp]);
    }
  }

  method TakeText(query: array<Byte>, from: nat, ghost s: seq<Byte>) returns (value: seq<Byte>)
    requires CString(query[..], from, s)
    modifies query
    ensures value == Decoded(s)
    ensures forall i | 0 <= i < from || from + |s| < i < query.Length :: query[i] == old(query[i])
  {
    UnescapeText(query, from, s);
    StoredText(query[..], from, Unescaped(s, 0, []));
    value := Text(query[from..]);
  }

  /** `httpdAddVariable(r, var, _httpd_unescape(val))`. */
  method StorePair(r: Request, query: array<Byte>, base: nat, name: seq<Byte>, val: Option<nat>, cp: nat,
      ghost q: seq<Byte>)
    requires r.Valid() && NulFree(q) && Untouched(query[..], base, q, cp, val) && (val.Some? ==> val.value <= cp)
    modifies query, r, r.Nodes()
    ensures r.Valid() && fresh(r.Nodes() - old(r.Nodes()))
    ensures r.store == Add(old(r.store), Strip(name), Some(if val.Some? then Decoded(q[val.value..cp]) else []))
    ensures forall i | 0 <= i < base || base + cp < i < query.Length :: query[i] == old(query[i])
  {
    var value := TakeValue(query, base, val, cp, q);
    r.AddVariable(name, Some(value));
  }

  /** The branch of an ampersand. */
  method EndPiece(r: Request, query: array<Byte>, base: nat, variable: array<Byte>, n: nat, val: Option<nat>,
      cp: nat, ghost q: seq<Byte>, ghost goal: seq<Binding>)
    requires r.Valid() && query != variable && cp < |q| && q[cp] == AMPERSAND
    requires Scanning(query[..], base, goal, r.store, q, cp, variable[..], n, val)
    modifies query, r, r.Nodes()
    ensures r.Valid() && fresh(r.Nodes() - old(r.Nodes()))
    ensures Scanning(query[..], base, goal, r.store, q, cp + 1, variable[..], 0, None)
    ensures Kept(query[..], old(query[..]), base)
  {
    ghost var b := variable[..];
    AmpersandStored(goal, r.store, q, cp, b, n, val);
    StorePair(r, query, base, Text(variable[..]), val, cp, q);
    assert variable[..] == b;
  }

  lemma {:induction false} AmpersandStored(goal: seq<Binding>, store: seq<Binding>, q: seq<Byte>, cp: nat,
      b: seq<Byte>, n: nat, val: Option<nat>)
    requires Storing(goal, store, q, cp, b, n, val) && cp < |q| && q[cp] == AMPERSAND
    ensures var value := if val.Some? then Decoded(q[val.value..cp]) else [];
      Storing(goal, Add(store, Strip(Text(b)), Some(value)), q, cp + 1, b, 0, None)
  {
    var value := if val.Some? then Decoded(q[val.value..cp]) else [];
    AddAllCons(store, Pair(Text(b), Some(value)), Run(q, cp + 1, b, 0, None));
  }

  /** What is stored behind the loop. */
  method EndQuery(r: Request, query: array<Byte>, base: nat, variable: array<Byte>, n: nat, val: Option<nat>,
      cp: nat, ghost q: seq<Byte>, ghost goal: seq<Binding>)
    requires r.Valid() && cp == |q|
    requires Scanning(query[..], base, goal, r.store, q, cp, variable[..], n, val)
    modifies query, r, r.Nodes()
    ensures r.Valid() && fresh(r.Nodes() - old(r.Nodes()))
    ensures r.store == goal && Kept(query[..], old(query[..]), base)
  {
    if val != None {
      var name := Text(variable[..]);
      ghost var pair := Pair(name, Some(Decoded(q[val.value..cp])));
      AddAllCons(r.store, pair, []);
      assert [pair] + [] == [pair];
      StorePair(r, query, base, name, val, cp, q);
    }
  }

  /** The branches that end or extend the name in the buffer. */
  method PutName(r: Request, ghost d: seq<Byte>, ghost base: nat, variable: array<Byte>, n: nat, c: Byte,
      ghost q: seq<Byte>, ghost cp: nat, ghost val: Option<nat>, ghost goal: seq<Binding>)
    requires r.Valid() && Scanning(d, base, goal, r.store, q, cp, variable[..], n, val)
    requires cp < |q| && q[cp] != AMPERSAND && (q[cp] == EQUALS || val.None?)
    requires c == if q[cp] == EQUALS then 0 else q[cp]
    modifies variable
    ensures r.Valid() && r.Nodes() == old(r.Nodes())
    ensures Scanning(d, base, goal, r.store, q, cp + 1, variable[..],
      if q[cp] == EQUALS then n else n + 1, if q[cp] == EQUALS then Some(cp + 1) else None)
  {
    ghost var b := variable[..];
    variable[n] := c;
    assert variable[..] == b[n := c];
  }

  /** One turn of the loop. */
  method Step(r: Request, query: array<Byte>, base: nat, variable: array<Byte>, cp: nat, cp2: nat, val: Option<nat>,
      ghost q: seq<Byte>, ghost goal: seq<Binding>)
    returns (next: nat, next2: nat, value: Option<nat>)
    requires r.Valid() && query != variable && cp < |q|
    requires Scanning(query[..], base, goal, r.store, q, cp, variable[..], cp2, val)
    modifies query, variable, r, r.Nodes()
    ensures r.Valid() && fresh(r.Nodes() - old(r.Nodes())) && Kept(query[..], old(query[..]), base)
    ensures Scanning(query[..], base, goal, r.store, q, next, variable[..], next2, value) && next == cp + 1
  {
    var c := query[base + cp];
    if c == EQUALS {
      PutName(r, query[..], base, variable, cp2, 0, q, cp, val, goal);
      return cp + 1, cp2, Some(cp + 1);
    }
    if c == AMPERSAND {
      EndPiece(r, query, base, variable, cp2, val, cp, q, goal);
      return cp + 1, 0, None;
    }
    if val != None {
      SkipValue(query[..], base, goal, r.store, q, cp, variable[..], cp2, val);
      return cp + 1, cp2, val;
    }
    PutName(r, query[..], base, variable, cp2, c, q, cp, val, goal);
    return cp + 1, cp2 + 1, None;
  }

  /** The loop of `_httpd_storeData`, and what is stored behind it. */
  method Scan(r: Request, query: array<Byte>, base: nat, variable: array<Byte>, ghost q: seq<Byte>,
      ghost goal: seq<Binding>)
    requires r.Valid() && query != variable
    requires Scanning(query[..], base, goal, r.store, q, 0, variable[..], 0, None)
    modifies query, variable, r, r.Nodes()
    ensures r.Valid() && fresh(r.Nodes() - old(r.Nodes()))
    ensures r.store == goal && Kept(query[..], old(query[..]), base)
  {
    ghost var was := query[..];
    var cp: nat, cp2: nat := 0, 0;
    var val: Option<nat> := None;
    while query[base + cp] != 0
      invariant r.Valid() && fresh(r.Nodes() - old(r.Nodes())) && Kept(query[..], was, base)
      invariant Scanning(query[..], base, goal, r.store, q, cp, variable[..], cp2, val)
      decreases |q| - cp
    {
      cp, cp2, val := Step(r, query, base, variable, cp, cp2, val, q, goal);
    }
    EndQuery(r, query, base, variable, cp2, val, cp, q, goal);
  }

  /** `_httpd_storeData` on the C string `q` at `base`. */
  method StoreData(r: Request, query: array<Byte>, base: nat, ghost q: seq<Byte>)
    requires r.Valid() && CString(query[..], base, q)
    modifies query, r, r.Nodes()
    ensures r.Valid() && fresh(r.Nodes() - old(r.Nodes()))
    ensures r.store == AddAll(old(r.store), QueryPairs(q)) && Kept(query[..], old(query[..]), base)
  {
    StrLenOf(query[base..], |q|);
    var variable := new Byte[StrLen(query[base..]) + 1](_ => 0);
    assert variable[..] == Zeros(|q| + 1);
    ghost var goal := AddAll(r.store, QueryPairs(q));
    Scan(r, query, base, variable, q, goal);
  }

  function Zeros(n: nat): (z: seq<Byte>)
    ensures |z| == n && forall i | 0 <= i < n :: z[i] == 0
  {
    seq(n, _ => 0)
  }

  // ----- The loop stores the pieces between ampersands -----

  lemma {:induction false} OverEnd(b: seq<Byte>, n: nat, t: seq<Byte>, c: Byte)
    requires n + |t| < |b|
    ensures Over(b, n, t + [c]) == Over(b, n, t)[n + |t| := c]
    decreases |t|
  {
    if t == [] {
      var one: seq<Byte> := [c];
      assert t + [c] == one && one[1..] == [];
    } else {
      assert (t + [c])[0] == t[0] && (t + [c])[1..] == t[1..] + [c];
      OverEnd(b[n := t[0]], n + 1, t[1..], c);
    }
  }

  lemma {:induction false} NameRun(q: seq<Byte>, cp: nat, b: seq<Byte>, n: nat, name: seq<Byte>)
    requires n <= cp <= |q| < |b| && Holds(q, cp, name)
    requires forall i | 0 <= i < |name| :: name[i] != EQUALS && name[i] != AMPERSAND
    ensures cp + |name| <= |q|
    ensures Run(q, cp, b, n, None) == Run(q, cp + |name|, Over(b, n, name), n + |name|, None)
    decreases |name|
  {
    if name != [] { NameRun(q, cp + 1, b[n := name[0]], n + 1, name[1..]); }
  }

  /** Where the value starts after the rest of the piece has been read. */
  function LastFrom(q: seq<Byte>, v: nat, cp: nat, e: nat): (w: nat)
    requires v <= cp <= e <= |q|
    ensures v <= w <= e
    decreases e - cp
  {
    if cp == e then v else LastFrom(q, if q[cp] == EQUALS then cp + 1 else v, cp + 1, e)
  }

  lemma {:induction false} ValueRun(q: seq<Byte>, v: nat, cp: nat, e: nat, b: seq<Byte>, n: nat)
    requires n <= v <= cp <= e <= |q| < |b| && b[n] == 0
    requires forall i | cp <= i < e :: q[i] != AMPERSAND
    ensures Run(q, cp, b, n, Some(v)) == Run(q, e, b, n, Some(LastFrom(q, v, cp, e)))
    decreases e - cp
  {
    if cp < e {
      assert b[n := 0] == b;
      ValueRun(q, if q[cp] == EQUALS then cp + 1 else v, cp + 1, e, b, n);
    }
  }

  lemma {:induction false} LastFromIs(q: seq<Byte>, v: nat, cp: nat, e: nat)
    requires v <= cp <= e <= |q|
    requires forall i | v <= i < cp :: q[i] != EQUALS
    ensures var w := LastFrom(q, v, cp, e);
      (v < w ==> q[w - 1] == EQUALS) && forall i | w <= i < e :: q[i] != EQUALS
    decreases e - cp
  {
    if cp < e { LastFromIs(q, if q[cp] == EQUALS then cp + 1 else v, cp + 1, e); }
  }

  lemma {:induction false} FindFromFirst(s: seq<Byte>, c: Byte, from: nat)
    requires from <= |s|
    ensures forall i | from <= i < FindFrom(s, c, from) :: s[i] != c
    decreases |s| - from
  {
    if from < |s| && s[from] != c { FindFromFirst(s, c, from + 1); }
  }

  /** The loop over one piece. */
  lemma {:induction false} PieceRun(q: seq<Byte>, cp: nat, b: seq<Byte>, piece: seq<Byte>)
    returns (after: seq<Byte>, n: nat, val: Option<nat>)
    requires cp + |piece| <= |q| < |b| && Holds(q, cp, piece) && AMPERSAND !in piece
    ensures var e := cp + |piece|;
      n <= e && |after| == |b| && (val.Some? ==> val.value <= e) &&
      Run(q, cp, b, 0, None) == Run(q, e, after, n, val) &&
      after == Over(b, 0, NamePart(piece)) && (val.Some? <==> HasValue(piece)) &&
      (if val.Some? then Decoded(q[val.value..e]) else []) == ValuePart(piece)
  {
    var j, e := IndexOf(piece, EQUALS), cp + |piece|;
    var name := piece[..j];
    n, after := j, Over(b, 0, name);
    if j < |piece| {
      var value, k := piece[j + 1..], cp + j + 1;
      CutPiece(q, cp, piece, j);
      NameRun(q, cp, b, 0, name);
      OverEnd(b, 0, name, 0);
      after := after[j := 0];
      assert Run(q, cp, b, 0, None) == Run(q, k, after, j, Some(k));
      var w := ValueOf(q, k, e, after, j, value);
      val := Some(w);
    } else {
      assert name == piece;
      NameRun(q, cp, b, 0, name);
      val := None;
    }
  }

  lemma {:induction false} CutPiece(q: seq<Byte>, cp: nat, piece: seq<Byte>, j: nat)
    requires Holds(q, cp, piece) && j < |piece|
    ensures Holds(q, cp, piece[..j]) && cp + j < |q| && q[cp + j] == piece[j] && Holds(q, cp + j + 1, piece[j + 1..])
  {
    HoldsAt(q, cp, piece, j);
    assert piece == piece[..j] + ([piece[j]] + piece[j + 1..]);
    HoldsSplit(q, cp, piece[..j], [piece[j]] + piece[j + 1..]);
    HoldsSplit(q, cp + j, [piece[j]], piece[j + 1..]);
  }

  lemma {:induction false} ValueOf(q: seq<Byte>, k: nat, e: nat, b: seq<Byte>, n: nat, value: seq<Byte>)
    returns (w: nat)
    requires n <= k <= e <= |q| < |b| && b[n] == 0 && Holds(q, k, value) && |value| == e - k && AMPERSAND !in value
    ensures k <= w <= e && Run(q, k, b, n, Some(k)) == Run(q, e, b, n, Some(w)) && q[w..e] == AfterLast(value)
  {
    HoldsSlice(q, k, value);
    assert forall i | k <= i < e :: q[i] == value[i - k];
    ValueRun(q, k, k, e, b, n);
    LastFromIs(q, k, k, e);
    w := LastFrom(q, k, k, e);
    assert w - k <= LastStart(value) by { if k < w { assert value[w - k - 1] == EQUALS; } }
    assert w - k == LastStart(value);
    assert q[w..e] == value[w - k..];
  }

  lemma {:induction false} RunIsPairs(q: seq<Byte>, cp: nat, b: seq<Byte>)
    requires cp <= |q| < |b|
    ensures Run(q, cp, b, 0, None) == Pairs(SplitFrom(q, AMPERSAND, cp), b)
    decreases |q| - cp
  {
    var e := FindFrom(q, AMPERSAND, cp);
    var rest := if e == |q| then [] else SplitFrom(q, AMPERSAND, e + 1);
    var after, n, val := FirstPairs(q, cp, b, e, rest);
    if e < |q| {
      RunIsPairs(q, e + 1, after);
      AmpersandRun(q, e, after, n, val);
      assert rest != [];
    }
    SplitStep(q, cp, e, rest);
  }

  lemma {:induction false} SplitStep(q: seq<Byte>, cp: nat, e: nat, rest: seq<seq<Byte>>)
    requires cp <= |q| && e == FindFrom(q, AMPERSAND, cp)
    requires rest == if e == |q| then [] else SplitFrom(q, AMPERSAND, e + 1)
    ensures SplitFrom(q, AMPERSAND, cp) == [q[cp..e]] + rest
  {
  }

  /** The loop over the first piece prepares what it stores. */
  lemma {:induction false} FirstPairs(q: seq<Byte>, cp: nat, b: seq<Byte>, e: nat, rest: seq<seq<Byte>>)
    returns (after: seq<Byte>, n: nat, val: Option<nat>)
    requires cp <= |q| < |b| && e == FindFrom(q, AMPERSAND, cp)
    ensures n <= e && |after| == |b| && (val.Some? ==> val.value <= e)
    ensures Run(q, cp, b, 0, None) == Run(q, e, after, n, val)
    ensures Pairs([q[cp..e]] + rest, b) ==
      if rest == [] && val == None then []
      else [Pair(Text(after), Some(if val.Some? then Decoded(q[val.value..e]) else []))] + Pairs(rest, after)
  {
    var piece := q[cp..e];
    FindFromFirst(q, AMPERSAND, cp);
    HoldsSlice(q, cp, piece);
    after, n, val := PieceRun(q, cp, b, piece);
    PairsCons(piece, rest, b);
  }

  lemma {:induction false} AmpersandRun(q: seq<Byte>, e: nat, b: seq<Byte>, n: nat, val: Option<nat>)
    requires n <= e < |q| < |b| && (val.Some? ==> val.value <= e) && q[e] == AMPERSAND
    ensures Run(q, e, b, n, val) ==
      [Pair(Text(b), Some(if val.Some? then Decoded(q[val.value..e]) else []))] + Run(q, e + 1, b, 0, None)
  {
  }

  lemma {:induction false} PairsCons(piece: seq<Byte>, rest: seq<seq<Byte>>, b: seq<Byte>)
    ensures Pairs([piece] + rest, b) ==
      if rest == [] && !HasValue(piece) then []
      else
        var after := Over(b, 0, NamePart(piece));
        [Pair(Text(after), Some(ValuePart(piece)))] + Pairs(rest, after)
  {
    assert ([piece] + rest)[1..] == rest;
  }

  /** The loop cuts the query at its ampersands. */
  lemma {:induction false} StoresPieces(q: seq<Byte>)
    ensures QueryPairs(q) == Pairs(Split(q, AMPERSAND), Zeros(|q| + 1))
  {
    RunIsPairs(q, 0, Zeros(|q| + 1));
    SplitFromIs(q, AMPERSAND, 0);
    assert q[0..] == q;
  }

  // ----- Which name a piece is stored under -----

  /** The name buffer after the first `i` pieces. */
  function Before(pieces: seq<seq<Byte>>, b: seq<Byte>, i: nat): (r: seq<Byte>)
    requires i <= |pieces|
    ensures |r| == |b|
  {
    if i == 0 then b else Over(Before(pieces, b, i - 1), 0, NamePart(pieces[i - 1]))
  }

  /** The last earlier piece that reaches position `n` of the name buffer ends its name
      there, or there is no such piece. */
  predicate Ends(pieces: seq<seq<Byte>>, i: nat, n: nat)
    requires i <= |pieces|
  {
    i == 0 ||
    if |NamePart(pieces[i - 1])| > n then IndexOf(pieces[i - 1], EQUALS) == n else Ends(pieces, i - 1, n)
  }

  /** The text in front of the first `=`, or all of it. */
  function OwnName(piece: seq<Byte>): seq<Byte> {
    piece[..IndexOf(piece, EQUALS)]
  }

  ghost predicate FitPieces(pieces: seq<seq<Byte>>, n: nat) {
    forall i | 0 <= i < |pieces| :: NulFree(pieces[i]) && |pieces[i]| < n
  }

  /** What a piece leaves at one position of the name buffer. */
  lemma {:induction false} OverPiece(b: seq<Byte>, piece: seq<Byte>, n: nat)
    requires NulFree(piece) && |piece| < |b| && n < |b|
    ensures var d := Over(b, 0, NamePart(piece));
      if n < |NamePart(piece)| then d[n] == 0 <==> IndexOf(piece, EQUALS) == n else d[n] == b[n]
  {
    OverText(b, 0, NamePart(piece));
  }

  lemma {:induction false} BufferEnds(pieces: seq<seq<Byte>>, b: seq<Byte>, i: nat, n: nat)
    requires i <= |pieces| && FitPieces(pieces, |b|) && n < |b| && b[n] == 0
    ensures Before(pieces, b, i)[n] == 0 <==> Ends(pieces, i, n)
  {
    if i > 0 {
      BufferEnds(pieces, b, i - 1, n);
      OverPiece(Before(pieces, b, i - 1), pieces[i - 1], n);
    }
  }

  /** A piece with `=` is stored under its own name; one without is if and only if the
      name buffer ends behind it. */
  lemma {:induction false} PieceName(b: seq<Byte>, piece: seq<Byte>)
    requires NulFree(piece) && |piece| < |b|
    ensures Text(Over(b, 0, NamePart(piece))) == OwnName(piece) <==> HasValue(piece) || b[|piece|] == 0
  {
    var d, k := Over(b, 0, NamePart(piece)), IndexOf(piece, EQUALS);
    OverText(b, 0, NamePart(piece));
    assert d[..k] == piece[..k];
    if HasValue(piece) || b[|piece|] == 0 {
      StrLenOf(d, k);
    } else {
      assert d[k] != 0;
      assert |Text(d)| != k;
    }
  }

  lemma {:induction false} BeforeTail(pieces: seq<seq<Byte>>, b: seq<Byte>, i: nat)
    requires 0 < i <= |pieces|
    ensures Before(pieces, b, i) == Before(pieces[1..], Over(b, 0, NamePart(pieces[0])), i - 1)
  {
    if i > 1 { BeforeTail(pieces, b, i - 1); }
  }

  /** There is a pair for every piece but a last one without `=`. */
  predicate Paired(pieces: seq<seq<Byte>>, i: nat) {
    i < |pieces| && (i + 1 < |pieces| || HasValue(pieces[i]))
  }

  /** What a piece stores, given the name buffer it finds. */
  function PairOf(piece: seq<Byte>, b: seq<Byte>): Pair {
    Pair(Text(Over(b, 0, NamePart(piece))), Some(ValuePart(piece)))
  }

  lemma {:induction false} PairsFirst(pieces: seq<seq<Byte>>, b: seq<Byte>)
    requires pieces != []
    ensures Pairs(pieces, b) == if !Paired(pieces, 0) then []
      else [PairOf(pieces[0], b)] + Pairs(pieces[1..], Over(b, 0, NamePart(pieces[0])))
  {
  }

  lemma {:induction false} PairsAt(pieces: seq<seq<Byte>>, b: seq<Byte>, i: nat)
    requires i < |pieces|
    ensures i < |Pairs(pieces, b)| <==> Paired(pieces, i)
    ensures Paired(pieces, i) ==>
      Pairs(pieces, b)[i] == PairOf(pieces[i], Before(pieces, b, i))
    decreases i
  {
    PairsFirst(pieces, b);
    if i > 0 {
      var rest, after := pieces[1..], Over(b, 0, NamePart(pieces[0]));
      BeforeTail(pieces, b, i);
      PairsAt(rest, after, i - 1);
      assert rest[i - 1] == pieces[i] && (Paired(rest, i - 1) <==> Paired(pieces, i));
    }
  }

  lemma {:induction false} SplitNulFree(s: seq<Byte>, sep: Byte, i: nat)
    requires NulFree(s) && i < |Split(s, sep)|
    ensures NulFree(Split(s, sep)[i]) && |Split(s, sep)[i]| <= |s|
    decreases i
  {
    var k := IndexOf(s, sep);
    if i > 0 { SplitNulFree(s[k + 1..], sep, i - 1); }
  }

  /** Every piece but a last one without `=` is stored with its value, and under its own
      name if and only if it has an `=` or the buffer ends where the piece does. */
  lemma {:induction false} OwnNameIff(q: seq<Byte>, i: nat)
    requires NulFree(q) && i < |Split(q, AMPERSAND)|
    ensures var pieces := Split(q, AMPERSAND);
      (i < |QueryPairs(q)| <==> Paired(pieces, i)) &&
      (Paired(pieces, i) ==>
        QueryPairs(q)[i].value == Some(ValuePart(pieces[i])) &&
        (QueryPairs(q)[i].name == OwnName(pieces[i]) <==> HasValue(pieces[i]) || Ends(pieces, i, |pieces[i]|)))
  {
    var pieces, b := Split(q, AMPERSAND), Zeros(|q| + 1);
    StoresPieces(q);
    PairsAt(pieces, b, i);
    forall j | 0 <= j < |pieces|
      ensures NulFree(pieces[j]) && |pieces[j]| < |b|
    {
      SplitNulFree(q, AMPERSAND, j);
    }
    BufferEnds(pieces, b, i, |pieces[i]|);
    PieceName(Before(pieces, b, i), pieces[i]);
  }

  /** `abc=1&x&` stores its second piece under `xbc`. */
  lemma {:induction false} LeftoverExample(q: seq<Byte>)
    requires q == Ascii("abc=1&x&")
    ensures |QueryPairs(q)| == 2 && QueryPairs(q)[1] == Pair(Ascii("xbc"), Some([]))
  {
    var pieces: seq<seq<Byte>> := [Ascii("abc=1"), Ascii("x"), []];
    LeftoverPieces(pieces);
    SplitJoin(pieces, AMPERSAND);
    StoresPieces(q);
    var b := Zeros(|q| + 1);
    PairsAt(pieces, b, 1);
    PairsAt(pieces, b, 2);
    LeftoverNames();
    LeftoverText(b, Ascii("abc"), Ascii("x"));
    assert Before(pieces, b, 1) == Over(Before(pieces, b, 0), 0, NamePart(pieces[0]));
  }

  lemma {:induction false} LeftoverPieces(pieces: seq<seq<Byte>>)
    requires pieces == [Ascii("abc=1"), Ascii("x"), []]
    ensures Join(pieces, AMPERSAND) == Ascii("abc=1&x&")
  {
    var rest := pieces[1..];
    assert rest[1..] == [[]] && Join(rest[1..], AMPERSAND) == [];
    assert Join(rest, AMPERSAND) == Ascii("x&");
  }

  lemma {:induction false} LeftoverNames()
    ensures NamePart(Ascii("abc=1")) == Ascii("abc") + [0]
    ensures !HasValue(Ascii("x")) && !HasValue([]) && Ascii("x") + Ascii("abc")[1..] == Ascii("xbc")
  {
    var first, second := Ascii("abc=1"), Ascii("x");
    IndexOfIs(first, EQUALS, 3);
    IndexOfIs(second, EQUALS, 1);
    assert first[..3] == Ascii("abc");
  }

  /** A shorter piece over an ended name keeps the end of that name. */
  lemma {:induction false} LeftoverText(b: seq<Byte>, name: seq<Byte>, piece: seq<Byte>)
    requires NulFree(name) && NulFree(piece) && |piece| <= |name| < |b|
    ensures Text(Over(Over(b, 0, name + [0]), 0, piece)) == piece + name[|piece|..]
  {
    var c := Over(b, 0, name + [0]);
    OverText(b, 0, name + [0]);
    OverText(c, 0, piece);
    var d := Over(c, 0, piece);
    assert d[..|name|] == piece + name[|piece|..];
    StrLenOf(d, |name|);
  }

  // ----- A query built with httpdUrlEncode -----

  datatype Item = Item(name: seq<Byte>, value: seq<Byte>)

  function PieceOf(item: Item): seq<Byte> {
    item.name + [EQUALS] + Escaped(item.value)
  }

  function Pieces(items: seq<Item>): seq<seq<Byte>> {
    if items == [] then [] else [PieceOf(items[0])] + Pieces(items[1..])
  }

  function QueryOf(items: seq<Item>): seq<Byte> {
    Join(Pieces(items), AMPERSAND)
  }

  /** Each value with its pluses turned into spaces. */
  function Meant(items: seq<Item>): seq<Pair> {
    if items == [] then [] else [Pair(items[0].name, Some(Plussed(items[0].value)))] + Meant(items[1..])
  }

  ghost predicate Sendable(item: Item) {
    NulFree(item.name) && NulFree(item.value) && EQUALS !in item.name && AMPERSAND !in item.name
  }

  ghost predicate AllSendable(items: seq<Item>) {
    items != [] ==> Sendable(items[0]) && AllSendable(items[1..])
  }

  lemma {:induction false} EscapedLacks(s: seq<Byte>, c: Byte)
    requires !Safe(c)
    ensures c !in Escaped(s)
  {
    EscapedSafe(s);
  }

  lemma {:induction false} OverText(b: seq<Byte>, n: nat, t: seq<Byte>)
    requires n + |t| <= |b|
    ensures forall i | 0 <= i < |b| :: Over(b, n, t)[i] == if n <= i < n + |t| then t[i - n] else b[i]
    decreases |t|
  {
    if t != [] && n < |b| { OverText(b[n := t[0]], n + 1, t[1..]); }
  }

  /** A name and its terminator hide whatever the buffer held. */
  lemma {:induction false} NameText(b: seq<Byte>, name: seq<Byte>)
    requires NulFree(name) && |name| < |b|
    ensures Text(Over(b, 0, name + [0])) == name
  {
    var d := Over(b, 0, name + [0]);
    OverText(b, 0, name + [0]);
    assert d[..|name|] == name;
    StrLenOf(d, |name|);
  }

  lemma {:induction false} ValueText(value: seq<Byte>)
    requires NulFree(value)
    ensures Decoded(Escaped(value)) == Plussed(value)
  {
    EscapeRoundTrip(value);
    PlussedNulFree(value);
    TextOf(Plussed(value), []);
    assert Plussed(value) + [0] + [] == Plussed(value) + [0];
  }

  /** A piece with a name that separators leave whole and a code without `=` stores the
      decoded code under that name. */
  lemma {:induction false} CodeStores(name: seq<Byte>, code: seq<Byte>, rest: seq<seq<Byte>>, b: seq<Byte>)
    returns (after: seq<Byte>)
    requires NulFree(name) && EQUALS !in name && EQUALS !in code && |name| < |b|
    ensures |after| == |b|
    ensures Pairs([name + [EQUALS] + code] + rest, b) == [Pair(name, Some(Decoded(code)))] + Pairs(rest, after)
  {
    var piece, n := name + [EQUALS] + code, |name|;
    IndexOfIs(piece, EQUALS, n);
    assert piece[..n] == name && piece[n + 1..] == code;
    assert AfterLast(code) == code;
    after := Over(b, 0, name + [0]);
    NameText(b, name);
    PairsCons(piece, rest, b);
  }

  lemma {:induction false} PieceStores(item: Item, rest: seq<seq<Byte>>, b: seq<Byte>) returns (after: seq<Byte>)
    requires Sendable(item) && |PieceOf(item)| < |b|
    ensures |after| == |b|
    ensures Pairs([PieceOf(item)] + rest, b) == [Pair(item.name, Some(Plussed(item.value)))] + Pairs(rest, after)
  {
    EscapedLacks(item.value, EQUALS);
    ValueText(item.value);
    after := CodeStores(item.name, Escaped(item.value), rest, b);
  }

  ghost predicate Fit(pieces: seq<seq<Byte>>, n: nat) {
    pieces != [] ==> |pieces[0]| < n && Fit(pieces[1..], n)
  }

  lemma {:induction false} PiecesStore(items: seq<Item>, b: seq<Byte>)
    requires AllSendable(items) && Fit(Pieces(items), |b|)
    ensures Pairs(Pieces(items), b) == Meant(items)
    decreases |items|
  {
    if items != [] {
      var after := PieceStores(items[0], Pieces(items[1..]), b);
      assert Pieces(items)[1..] == Pieces(items[1..]);
      PiecesStore(items[1..], after);
    }
  }

  lemma {:induction false} JoinFits(parts: seq<seq<Byte>>, sep: Byte, n: nat)
    requires |Join(parts, sep)| < n
    ensures Fit(parts, n)
    decreases |parts|
  {
    if |parts| == 1 {
      assert parts[1..] == [];
    } else if parts != [] {
      JoinFits(parts[1..], sep, n);
    }
  }

  lemma {:induction false} PiecesClean(items: seq<Item>, i: nat)
    requires AllSendable(items) && i < |items|
    ensures |Pieces(items)| == |items| && Clean(Pieces(items)[i], AMPERSAND)
    decreases |items|
  {
    EscapedLacks(items[0].value, AMPERSAND);
    if |items| > 1 { PiecesClean(items[1..], if i == 0 then 0 else i - 1); }
  }

  /** Names without `=` and `&` and escaped values: exactly the pairs are stored, in
      order, with each plus in a value turned into a space. */
  lemma {:induction false} QueryRoundTrip(items: seq<Item>)
    requires AllSendable(items)
    ensures QueryPairs(QueryOf(items)) == Meant(items)
    ensures forall name :: Lookup(AddAll([], QueryPairs(QueryOf(items))), name) == Selected(Meant(items), name)
  {
    ForAllNames(Meant(items));
    var q := QueryOf(items);
    if items != [] {
      StoresPieces(q);
      forall i | 0 <= i < |Pieces(items)|
        ensures Clean(Pieces(items)[i], AMPERSAND)
      {
        PiecesLength(items);
        PiecesClean(items, i);
      }
      SplitJoin(Pieces(items), AMPERSAND);
      JoinFits(Pieces(items), AMPERSAND, |q| + 1);
      PiecesStore(items, Zeros(|q| + 1));
    }
  }

  lemma {:induction false} PiecesLength(items: seq<Item>)
    ensures |Pieces(items)| == |items|
  {
    if items != [] { PiecesLength(items[1..]); }
  }

  /** The pairs as they were given. */
  function Given(items: seq<Item>): seq<Pair> {
    if items == [] then [] else [Pair(items[0].name, Some(items[0].value))] + Given(items[1..])
  }

  lemma {:induction false} MeantIsGivenIff(items: seq<Item>)
    ensures Meant(items) == Given(items) <==> forall i | 0 <= i < |items| :: PLUS !in items[i].value
  {
    if items != [] {
      PlussedSame(items[0].value);
      MeantIsGivenIff(items[1..]);
      assert Meant(items)[0] == Pair(items[0].name, Some(Plussed(items[0].value)));
      assert Meant(items)[1..] == Meant(items[1..]);
      assert Given(items)[0] == Pair(items[0].name, Some(items[0].value)) && Given(items)[1..] == Given(items[1..]);
      assert forall i | 0 <= i < |items[1..]| :: items[1..][i] == items[i + 1];
      assert forall i | 0 < i < |items| :: items[i] == items[1..][i - 1];
    }
  }

  // ----- What the store holds -----

  lemma {:induction false} ForAllNames(pairs: seq<Pair>)
    ensures forall name :: Lookup(AddAll([], pairs), name) == Selected(pairs, name)
  {
    forall name
      ensures Lookup(AddAll([], pairs), name) == Selected(pairs, name)
    {
      StoreIsMultimap([], pairs, name);
    }
  }

  /** The values given under a name, in order. */
  function GivenUnder(items: seq<Item>, name: seq<Byte>): seq<Value> {
    if items == [] then []
    else (if items[0].name == name then [Some(items[0].value)] else []) + GivenUnder(items[1..], name)
  }

  /** The names given, in order of their first use. */
  function GivenNames(items: seq<Item>, known: seq<seq<Byte>>): seq<seq<Byte>>
    decreases |items|
  {
    if items == [] then known
    else GivenNames(items[1..], if items[0].name in known then known else known + [items[0].name])
  }

  /** `httpdAddVariable` would drop the front of the name. */
  predicate Blanked(name: seq<Byte>) {
    name != [] && (name[0] == SPACE || name[0] == TAB)
  }

  predicate NoneBlanked(items: seq<Item>) {
    items != [] ==> !Blanked(items[0].name) && NoneBlanked(items[1..])
  }

  predicate NonePlussed(items: seq<Item>) {
    items != [] ==> PLUS !in items[0].value && NonePlussed(items[1..])
  }

  lemma {:induction false} StripBlanks(name: seq<Byte>)
    ensures !Blanked(Strip(name)) && (!Blanked(name) ==> Strip(name) == name)
  {
    if Blanked(name) { StripBlanks(name[1..]); }
  }

  /** The pairs have the names of the first items. */
  ghost predicate NamedLike(pairs: seq<Pair>, items: seq<Item>) {
    pairs != [] ==> items != [] && pairs[0].name == items[0].name && NamedLike(pairs[1..], items[1..])
  }

  /** There is a pair for every item, with its value. */
  ghost predicate ValuesKept(pairs: seq<Pair>, items: seq<Item>) {
    if pairs == [] || items == [] then pairs == [] && items == []
    else pairs[0].value == Some(items[0].value) && ValuesKept(pairs[1..], items[1..])
  }

  lemma {:induction false} NeverUnderBlanked(pairs: seq<Pair>, name: seq<Byte>)
    requires Blanked(name)
    ensures Selected(pairs, name) == []
  {
    if pairs != [] {
      StripBlanks(pairs[0].name);
      NeverUnderBlanked(pairs[1..], name);
    }
  }

  lemma {:induction false} GivenUnderBlanked(items: seq<Item>) returns (name: seq<Byte>)
    requires !NoneBlanked(items)
    ensures Blanked(name) && GivenUnder(items, name) != []
  {
    name := items[0].name;
    if !Blanked(name) { name := GivenUnderBlanked(items[1..]); }
  }

  lemma {:induction false} SelectedFirst(pairs: seq<Pair>, name: seq<Byte>)
    requires pairs != [] && !Blanked(pairs[0].name)
    ensures Selected(pairs, name) ==
      (if pairs[0].name == name then [pairs[0].value] else []) + Selected(pairs[1..], name)
  {
    StripBlanks(pairs[0].name);
  }

  lemma {:induction false} SelectedIsGiven(pairs: seq<Pair>, items: seq<Item>, name: seq<Byte>)
    requires NamedLike(pairs, items) && NoneBlanked(items) && ValuesKept(pairs, items)
    ensures Selected(pairs, name) == GivenUnder(items, name)
  {
    if pairs != [] {
      SelectedFirst(pairs, name);
      SelectedIsGiven(pairs[1..], items[1..], name);
    }
  }

  /** A value that is lost or changed shows under its name. */
  lemma {:induction false} LossShows(pairs: seq<Pair>, items: seq<Item>) returns (name: seq<Byte>)
    requires NamedLike(pairs, items) && NoneBlanked(items) && !ValuesKept(pairs, items)
    ensures Selected(pairs, name) != GivenUnder(items, name)
  {
    name := items[0].name;
    if pairs != [] {
      if pairs[0].value != Some(items[0].value) {
        SelectedFirst(pairs, name);
        assert Selected(pairs, name)[0] != GivenUnder(items, name)[0];
      } else {
        name := LossShows(pairs[1..], items[1..]);
        SelectedFirst(pairs, name);
        var first: seq<Value> := if items[0].name == name then [Some(items[0].value)] else [];
        DifferBehind(first, Selected(pairs[1..], name), GivenUnder(items[1..], name));
      }
    }
  }

  lemma {:induction false} DifferBehind(first: seq<Value>, a: seq<Value>, b: seq<Value>)
    requires a != b
    ensures first + a != first + b
  {
    assert (first + a)[|first|..] == a && (first + b)[|first|..] == b;
  }

  /** Under every name exactly the values given under it, if and only if no name has a
      leading blank and every value is kept. */
  lemma {:induction false} KeptIff(pairs: seq<Pair>, items: seq<Item>)
    requires NamedLike(pairs, items)
    ensures (forall name :: Selected(pairs, name) == GivenUnder(items, name)) <==>
      NoneBlanked(items) && ValuesKept(pairs, items)
  {
    if !NoneBlanked(items) {
      var name := GivenUnderBlanked(items);
      NeverUnderBlanked(pairs, name);
    } else if !ValuesKept(pairs, items) {
      var name := LossShows(pairs, items);
    } else {
      forall name
        ensures Selected(pairs, name) == GivenUnder(items, name)
      {
        SelectedIsGiven(pairs, items, name);
      }
    }
  }

  lemma {:induction false} MeantLike(items: seq<Item>)
    ensures NamedLike(Meant(items), items) && |Meant(items)| == |items|
    ensures ValuesKept(Meant(items), items) <==> NonePlussed(items)
  {
    if items != [] {
      PlussedSame(items[0].value);
      MeantLike(items[1..]);
      assert Meant(items)[1..] == Meant(items[1..]);
    }
  }

  /** With pluses as the only loss, on names without leading blanks. */
  lemma {:induction false} ValuesIff(items: seq<Item>)
    ensures (forall name :: Selected(Meant(items), name) == GivenUnder(items, name)) <==>
      NoneBlanked(items) && NonePlussed(items)
  {
    MeantLike(items);
    KeptIff(Meant(items), items);
  }

  lemma {:induction false} NamesAreGiven(pairs: seq<Pair>, items: seq<Item>, known: seq<seq<Byte>>)
    requires NamedLike(pairs, items) && NoneBlanked(items)
    ensures |pairs| <= |items| && Names(pairs, known) == GivenNames(items[..|pairs|], known)
    decreases |pairs|
  {
    if pairs != [] {
      var name := pairs[0].name;
      StripBlanks(name);
      NamesAreGiven(pairs[1..], items[1..], if name in known then known else known + [name]);
      assert items[..|pairs|][1..] == items[1..][..|pairs| - 1];
    }
  }

  lemma {:induction false} NamesNotBlanked(pairs: seq<Pair>, known: seq<seq<Byte>>)
    requires forall name | name in known :: !Blanked(name)
    ensures forall name | name in Names(pairs, known) :: !Blanked(name)
    decreases |pairs|
  {
    if pairs != [] {
      var name := Strip(pairs[0].name);
      StripBlanks(pairs[0].name);
      NamesNotBlanked(pairs[1..], if name in known then known else known + [name]);
    }
  }

  lemma {:induction false} GivenNamesHave(items: seq<Item>, known: seq<seq<Byte>>, name: seq<Byte>)
    requires name in known || GivenUnder(items, name) != []
    ensures name in GivenNames(items, known)
    decreases |items|
  {
    if items != [] {
      GivenNamesHave(items[1..], if items[0].name in known then known else known + [items[0].name], name);
    }
  }

  /** The names as given, in order of first use, if and only if none has a leading blank. */
  lemma {:induction false} NamesIff(items: seq<Item>)
    ensures Names(Meant(items), []) == GivenNames(items, []) <==> NoneBlanked(items)
  {
    if NoneBlanked(items) {
      MeantLike(items);
      NamesAreGiven(Meant(items), items, []);
      assert items[..|items|] == items;
    } else {
      var name := GivenUnderBlanked(items);
      GivenNamesHave(items, [], name);
      NamesNotBlanked(Meant(items), []);
    }
  }

  /** The pairs handed on are those given exactly when no value has a plus; the store
      then holds exactly the values given under each name when also no name has a
      leading blank, and that alone decides whether it has the names given. */
  lemma {:induction false} QueryExactIff(items: seq<Item>)
    requires AllSendable(items)
    ensures QueryPairs(QueryOf(items)) == Given(items) <==> forall i | 0 <= i < |items| :: PLUS !in items[i].value
    ensures var store := AddAll([], QueryPairs(QueryOf(items)));
      ((forall name :: Lookup(store, name) == GivenUnder(items, name)) <==> NoneBlanked(items) && NonePlussed(items)) &&
      (NamesOf(store) == GivenNames(items, []) <==> NoneBlanked(items))
  {
    QueryRoundTrip(items);
    MeantIsGivenIff(items);
    StoreExactIff(items);
  }

  /** A tab or a space before a name: the pair is handed on as given, and stored under the
      name without it. */
  lemma {:induction false} TabExample(items: seq<Item>, blank: Byte)
    requires (blank == 9 || blank == 32) && items == [Item([blank, 'a' as int], ['b' as int])]
    ensures AllSendable(items) && QueryPairs(QueryOf(items)) == Given(items)
    ensures Lookup(AddAll([], QueryPairs(QueryOf(items))), items[0].name) == []
  {
    var rest: seq<Item> := items[1..];
    assert rest == [];
    QueryExactIff(items);
    QueryRoundTrip(items);
    NeverUnderBlanked(Meant(items), items[0].name);
  }

  lemma {:induction false} StoreExactIff(items: seq<Item>)
    ensures var store := AddAll([], Meant(items));
      ((forall name :: Lookup(store, name) == GivenUnder(items, name)) <==> NoneBlanked(items) && NonePlussed(items)) &&
      (NamesOf(store) == GivenNames(items, []) <==> NoneBlanked(items))
  {
    ForAllNames(Meant(items));
    ValuesIff(items);
    NamesInOrder([], Meant(items));
    assert NamesOf([]) == [];
    NamesIff(items);
  }

  // ----- A query coded in any way -----

  /** A name, and a value with the codes of its octets. */
  datatype Sent = Sent(name: seq<Byte>, codes: seq<seq<Byte>>, value: seq<Byte>)

  ghost predicate Legible(x: Sent) {
    NulFree(x.name) && EQUALS !in x.name && AMPERSAND !in x.name &&
    EQUALS !in Concat(x.codes) && AMPERSAND !in Concat(x.codes) && NulFree(x.value) && Spells(x.codes, x.value)
  }

  function SentPieces(xs: seq<Sent>): (pieces: seq<seq<Byte>>)
    ensures |pieces| == |xs|
  {
    if xs == [] then [] else [xs[0].name + [EQUALS] + Concat(xs[0].codes)] + SentPieces(xs[1..])
  }

  function SentPairs(xs: seq<Sent>): seq<Pair> {
    if xs == [] then [] else [Pair(xs[0].name, Some(xs[0].value))] + SentPairs(xs[1..])
  }

  ghost predicate AllLegible(xs: seq<Sent>) {
    xs != [] ==> Legible(xs[0]) && AllLegible(xs[1..])
  }

  lemma {:induction false} SentStore(xs: seq<Sent>, b: seq<Byte>)
    requires AllLegible(xs) && Fit(SentPieces(xs), |b|)
    ensures Pairs(SentPieces(xs), b) == SentPairs(xs)
    decreases |xs|
  {
    if xs != [] {
      var code := Concat(xs[0].codes);
      UnescapeReads(xs[0].codes, xs[0].value);
      Terminated(xs[0].value);
      var after := CodeStores(xs[0].name, code, SentPieces(xs[1..]), b);
      assert SentPieces(xs)[1..] == SentPieces(xs[1..]);
      SentStore(xs[1..], after);
    }
  }

  lemma {:induction false} SentClean(xs: seq<Sent>, i: nat)
    requires AllLegible(xs) && i < |xs|
    ensures Clean(SentPieces(xs)[i], AMPERSAND)
    decreases |xs|
  {
    if i > 0 { SentClean(xs[1..], i - 1); }
  }

  /** Whatever octets of its values are coded, and in whichever case: the query hands on the
      names and the values, in order, and stores them. */
  lemma {:induction false} CodedRoundTrip(xs: seq<Sent>)
    requires AllLegible(xs)
    ensures var q := Join(SentPieces(xs), '&' as int);
      QueryPairs(q) == SentPairs(xs) &&
      forall name :: Lookup(AddAll([], QueryPairs(q)), name) == Selected(SentPairs(xs), name)
  {
    ForAllNames(SentPairs(xs));
    var q := Join(SentPieces(xs), AMPERSAND);
    if xs != [] {
      StoresPieces(q);
      forall i | 0 <= i < |SentPieces(xs)|
        ensures Clean(SentPieces(xs)[i], AMPERSAND)
      {
        SentClean(xs, i);
      }
      SplitJoin(SentPieces(xs), AMPERSAND);
      JoinFits(SentPieces(xs), AMPERSAND, |q| + 1);
      SentStore(xs, Zeros(|q| + 1));
    }
  }

  /** A value with an `=` in it stores what is behind the last one. */
  lemma {:induction false} LastValueStores(name: seq<Byte>, front: seq<Byte>, code: seq<Byte>, rest: seq<seq<Byte>>,
      b: seq<Byte>)
    returns (after: seq<Byte>)
    requires NulFree(name) && EQUALS !in name && EQUALS !in code && |name| < |b|
    ensures |after| == |b|
    ensures Pairs([name + [EQUALS] + (front + [EQUALS] + code)] + rest, b) ==
      [Pair(name, Some(Decoded(code)))] + Pairs(rest, after)
  {
    var value, n := front + [EQUALS] + code, |name|;
    var piece := name + [EQUALS] + value;
    IndexOfIs(piece, EQUALS, n);
    assert piece[..n] == name && piece[n + 1..] == value;
    assert value[|front| + 1..] == code;
    LastStartIs(value, |front| + 1);
    after := Over(b, 0, name + [0]);
    NameText(b, name);
    PairsCons(piece, rest, b);
  }

  lemma {:induction false} LastStartIs(v: seq<Byte>, k: nat)
    requires 0 < k <= |v| && v[k - 1] == EQUALS && EQUALS !in v[k..]
    ensures LastStart(v) == k
    decreases |v|
  {
    if k < |v| {
      assert v[k..][|v| - 1 - k] == v[|v| - 1];
      assert v[..|v| - 1][k..] == v[k..][..|v| - 1 - k];
      LastStartIs(v[..|v| - 1], k);
    }
  }

  ghost predicate Plain(name: seq<Byte>, code: seq<Byte>) {
    NulFree(name) && EQUALS !in name && AMPERSAND !in name && EQUALS !in code && AMPERSAND !in code
  }

  lemma {:induction false} TwoPairs(q: seq<Byte>, name: seq<Byte>, code: seq<Byte>, other: seq<Byte>, front: seq<Byte>,
      last: seq<Byte>)
    requires Plain(name, code) && Plain(other, last) && AMPERSAND !in front
    requires q == name + [EQUALS] + code + [AMPERSAND] + (other + [EQUALS] + (front + [EQUALS] + last))
    ensures QueryPairs(q) == [Pair(name, Some(Decoded(code))), Pair(other, Some(Decoded(last)))]
  {
    var first, second, b := name + [EQUALS] + code, other + [EQUALS] + (front + [EQUALS] + last), Zeros(|q| + 1);
    StoresPieces(q);
    TwoPieces(first, second);
    var after := CodeStores(name, code, [second], b);
    var none := LastValueStores(other, front, last, [], after);
    assert [second] + [] == [second] && Pairs([], none) == [];
  }

  lemma {:induction false} TwoPieces(first: seq<Byte>, second: seq<Byte>)
    requires AMPERSAND !in first && AMPERSAND !in second
    ensures Split(first + [AMPERSAND] + second, AMPERSAND) == [first] + [second]
  {
    SplitFirst(first, second, AMPERSAND);
    IndexOfIs(second, AMPERSAND, |second|);
  }

  lemma {:induction false} Terminated(t: seq<Byte>)
    requires NulFree(t)
    ensures Text(t + [0]) == t
  {
    TextOf(t, []);
    assert t + [0] + [] == t + [0];
  }
}
