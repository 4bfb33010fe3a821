/** Cutting texts at a separator: `strchr`, `std::string::find` and `strtok`. */
module Tokens {
  import opened Bytes

  /** The first `c` in `s`, or the end. */
  function IndexOf(s: seq<Byte>, c: Byte): (k: nat)
    ensures k <= |s| && (k < |s| ==> s[k] == c)
    ensures forall i | 0 <= i < k :: s[i] != c
  {
    if s == [] || s[0] == c then 0 else 1 + IndexOf(s[1..], c)
  }

  lemma {:induction false} IndexOfIs(s: seq<Byte>, c: Byte, k: nat)
    requires k <= |s| && (k < |s| ==> s[k] == c)
    requires forall i | 0 <= i < k :: s[i] != c
    ensures IndexOf(s, c) == k
  {
  }

  /** All pieces between separators, empty ones included. */
  function Split(s: seq<Byte>, sep: Byte): (parts: seq<seq<Byte>>)
    ensures |parts| > 0
  {
    var k := IndexOf(s, sep);
    if k == |s| then [s] else [s[..k]] + Split(s[k + 1..], sep)
  }

  /** The first `c` at or after `from`, or the end. */
  function FindFrom(s: seq<Byte>, c: Byte, from: nat): (k: nat)
    requires from <= |s|
    ensures from <= k <= |s| && (k < |s| ==> s[k] == c)
    decreases |s| - from
  {
    if from == |s| || s[from] == c then from else FindFrom(s, c, from + 1)
  }

  lemma {:induction false} FindFromIs(s: seq<Byte>, c: Byte, from: nat)
    requires from <= |s|
    ensures FindFrom(s, c, from) == from + IndexOf(s[from..], c)
    decreases |s| - from
  {
    if from < |s| && s[from] != c {
      FindFromIs(s, c, from + 1);
      assert s[from..][1..] == s[from + 1..];
    }
  }

  /** The pieces from a position on. */
  function SplitFrom(s: seq<Byte>, sep: Byte, start: nat): seq<seq<Byte>>
    requires start <= |s|
    decreases |s| - start
  {
    var k := FindFrom(s, sep, start);
    if k == |s| then [s[start..k]] else [s[start..k]] + SplitFrom(s, sep, k + 1)
  }

  lemma {:induction false} SplitCut(rest: seq<Byte>, sep: Byte, k: nat, head: seq<Byte>, more: seq<Byte>)
    requires k == IndexOf(rest, sep) < |rest| && head == rest[..k] && more == rest[k + 1..]
    ensures Split(rest, sep) == [head] + Split(more, sep)
  {
  }

  lemma {:induction false} SplitHere(s: seq<Byte>, sep: Byte, start: nat, k: nat)
    requires start <= |s| && k == FindFrom(s, sep, start)
    ensures Split(s[start..], sep) == if k == |s| then [s[start..k]] else [s[start..k]] + Split(s[k + 1..], sep)
  {
    FindFromIs(s, sep, start);
    SliceOfSlice(s, start, k);
    if k < |s| { SplitCut(s[start..], sep, k - start, s[start..k], s[k + 1..]); }
  }

  lemma {:induction false} SplitFromIs(s: seq<Byte>, sep: Byte, start: nat)
    requires start <= |s|
    ensures SplitFrom(s, sep, start) == Split(s[start..], sep)
    decreases |s| - start
  {
    var k := FindFrom(s, sep, start);
    SplitHere(s, sep, start, k);
    if k < |s| { SplitFromIs(s, sep, k + 1); }
  }

  lemma {:induction false} SliceOfSlice(s: seq<Byte>, start: nat, k: nat)
    requires start <= k <= |s|
    ensures s[start..][..k - start] == s[start..k] && s[start..][k - start..] == s[k..]
    ensures k == |s| ==> s[start..] == s[start..k]
    ensures k < |s| ==> s[start..][k - start + 1..] == s[k + 1..]
  {
  }

  /** The pieces with a separator between them. */
  function Join(parts: seq<seq<Byte>>, sep: Byte): seq<Byte> {
    if parts == [] then []
    else if |parts| == 1 then parts[0]
    else parts[0] + [sep] + Join(parts[1..], sep)
  }

  /** What repeated `strtok` calls return. */
  function Tokenize(s: seq<Byte>, sep: Byte): seq<seq<Byte>>
    decreases |s|
  {
    if s == [] then []
    else if s[0] == sep then Tokenize(s[1..], sep)
    else var k := IndexOf(s, sep); [s[..k]] + Tokenize(s[k..], sep)
  }

  function NonEmpty(parts: seq<seq<Byte>>): seq<seq<Byte>> {
    if parts == [] then []
    else (if parts[0] == [] then [] else [parts[0]]) + NonEmpty(parts[1..])
  }

  ghost predicate Clean(part: seq<Byte>, sep: Byte) {
    sep !in part
  }

  lemma {:induction false} SplitClean(s: seq<Byte>, sep: Byte)
    ensures forall i | 0 <= i < |Split(s, sep)| :: Clean(Split(s, sep)[i], sep)
  {
    var k := IndexOf(s, sep);
    if k < |s| { SplitClean(s[k + 1..], sep); }
  }

  lemma {:induction false} JoinSplit(s: seq<Byte>, sep: Byte)
    ensures Join(Split(s, sep), sep) == s
  {
    var k := IndexOf(s, sep);
    if k < |s| {
      JoinSplit(s[k + 1..], sep);
      assert Split(s, sep)[1..] == Split(s[k + 1..], sep);
      assert s == s[..k] + [sep] + s[k + 1..];
    }
  }

  lemma {:induction false} SplitFirst(first: seq<Byte>, rest: seq<Byte>, sep: Byte)
    requires Clean(first, sep)
    ensures Split(first + [sep] + rest, sep) == [first] + Split(rest, sep)
  {
    var s := first + [sep] + rest;
    IndexOfIs(s, sep, |first|);
    assert s[..|first|] == first && s[|first| + 1..] == rest;
  }

  lemma {:induction false} SplitJoin(parts: seq<seq<Byte>>, sep: Byte)
    requires parts != []
    requires forall i | 0 <= i < |parts| :: Clean(parts[i], sep)
    ensures Split(Join(parts, sep), sep) == parts
  {
    var s := Join(parts, sep);
    assert Clean(parts[0], sep);
    if |parts| == 1 {
      IndexOfIs(s, sep, |s|);
    } else {
      SplitJoin(parts[1..], sep);
      SplitFirst(parts[0], Join(parts[1..], sep), sep);
      assert parts == [parts[0]] + parts[1..];
    }
  }

  /** `strtok` returns the non-empty pieces. */
  lemma {:induction false} TokenizeIsNonEmpty(s: seq<Byte>, sep: Byte)
    ensures Tokenize(s, sep) == NonEmpty(Split(s, sep))
    decreases |s|
  {
    var k := IndexOf(s, sep);
    if s == [] {
    } else if s[0] == sep {
      TokenizeIsNonEmpty(s[1..], sep);
      assert Split(s, sep)[1..] == Split(s[1..], sep);
    } else if k == |s| {
      assert s[k..] == [] && s[..k] == s;
      assert Tokenize(s, sep) == [s] + [];
      assert NonEmpty([s]) == [s] + NonEmpty([s][1..]);
    } else {
      TokenizeIsNonEmpty(s[k + 1..], sep);
      assert s[k..][1..] == s[k + 1..];
      assert Split(s, sep)[1..] == Split(s[k + 1..], sep);
    }
  }

  lemma {:induction false} NonEmptyAll(parts: seq<seq<Byte>>)
    requires [] !in parts
    ensures NonEmpty(parts) == parts
  {
    if parts != [] { NonEmptyAll(parts[1..]); }
  }

  /** `string::find`. */
  method Find(s: seq<Byte>, c: Byte, from: nat) returns (k: nat)
    requires from <= |s|
    ensures k == FindFrom(s, c, from)
  {
    k := from;
    while k < |s| && s[k] != c
      invariant from <= k <= |s|
      invariant FindFrom(s, c, from) == FindFrom(s, c, k)
    {
      k := k + 1;
    }
  }

  /** What repeated `strtok` calls return from a position on. */
  function TokenizeFrom(s: seq<Byte>, sep: Byte, from: nat): seq<seq<Byte>>
    requires from <= |s|
    decreases |s| - from
  {
    if from == |s| then []
    else if s[from] == sep then TokenizeFrom(s, sep, from + 1)
    else var k := FindFrom(s, sep, from); [s[from..k]] + TokenizeFrom(s, sep, k)
  }

  lemma {:induction false} TokenizeFromIs(s: seq<Byte>, sep: Byte, from: nat)
    requires from <= |s|
    ensures TokenizeFrom(s, sep, from) == Tokenize(s[from..], sep)
    decreases |s| - from
  {
    var rest := s[from..];
    if from == |s| {
    } else if s[from] == sep {
      TokenizeFromIs(s, sep, from + 1);
      assert rest[1..] == s[from + 1..];
    } else {
      FindFromIs(s, sep, from);
      var k := FindFrom(s, sep, from);
      TokenizeFromIs(s, sep, k);
      assert rest[..k - from] == s[from..k] && rest[k - from..] == s[k..];
    }
  }

  /** One `strtok` call: the next token, or none. */
  method NextToken(s: seq<Byte>, sep: Byte, from: nat) returns (found: bool, start: nat, end: nat)
    requires from <= |s|
    ensures from <= start <= end <= |s| && (found <==> start < end)
    ensures TokenizeFrom(s, sep, from) == if found then [s[start..end]] + TokenizeFrom(s, sep, end) else []
  {
    start := from;
    while start < |s| && s[start] == sep
      invariant from <= start <= |s|
      invariant TokenizeFrom(s, sep, from) == TokenizeFrom(s, sep, start)
    {
      start := start + 1;
    }
    end := Find(s, sep, start);
    found := start < end;
  }
}
