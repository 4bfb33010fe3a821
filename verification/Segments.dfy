/** The URL sanitiser as an operation on the segments between slashes, and what
    its result is free of. */
module Segments {
  import opened Bytes
  import opened Tokens
  import opened Sanitiser

  type Segment = seq<Byte>

  /** Each segment behind its slash. */
  function Tail(rest: seq<Segment>): seq<Byte> {
    if rest == [] then [] else [SLASH] + rest[0] + Tail(rest[1..])
  }

  ghost predicate AllClean(segments: seq<Segment>) {
    segments != [] ==> SLASH !in segments[0] && AllClean(segments[1..])
  }

  lemma {:induction false} TailCons(g: Segment, rest: seq<Segment>)
    ensures Tail([g] + rest) == [SLASH] + g + Tail(rest)
  {
    assert ([g] + rest)[1..] == rest;
  }

  lemma {:induction false} TailAppend(a: seq<Segment>, b: seq<Segment>)
    ensures Tail(a + b) == Tail(a) + Tail(b)
  {
    if a == [] {
      assert a + b == b && Tail(a) + Tail(b) == Tail(b);
    } else {
      TailAppend(a[1..], b);
      assert a + b == [a[0]] + (a[1..] + b);
      TailCons(a[0], a[1..] + b);
      Associate([SLASH] + a[0], Tail(a[1..]), Tail(b));
    }
  }

  lemma {:induction false} CleanAppend(a: seq<Segment>, b: seq<Segment>)
    ensures AllClean(a + b) <==> AllClean(a) && AllClean(b)
  {
    if a == [] {
      assert a + b == b;
    } else {
      CleanAppend(a[1..], b);
      assert (a + b)[0] == a[0] && (a + b)[1..] == a[1..] + b;
    }
  }

  /** A text is its first segment and the tail of the others. */
  lemma {:induction false} SplitTail(s: seq<Byte>) returns (first: Segment, rest: seq<Segment>)
    ensures Split(s, SLASH) == [first] + rest && s == first + Tail(rest)
    ensures SLASH !in first && AllClean(rest)
    ensures s != [] && s[0] == SLASH ==> first == []
    decreases |s|
  {
    var k := IndexOf(s, SLASH);
    first := s[..k];
    if k == |s| {
      rest := [];
      assert s == first && first + [] == first;
      assert [first] + rest == [first];
    } else {
      var g, more := SplitTail(s[k + 1..]);
      rest := [g] + more;
      TailCons(g, more);
      CutAtSlash(s, k, g, Tail(more));
      assert ([g] + more)[0] == g && ([g] + more)[1..] == more;
    }
  }

  lemma {:induction false} CutAtSlash(s: seq<Byte>, k: nat, g: seq<Byte>, t: seq<Byte>)
    requires k < |s| && s[k] == SLASH && s[k + 1..] == g + t
    ensures s == s[..k] + ([SLASH] + g + t)
  {
    assert s == s[..k] + [s[k]] + s[k + 1..];
  }

  lemma {:induction false} SplitOfTail(first: Segment, rest: seq<Segment>)
    requires SLASH !in first && AllClean(rest)
    ensures Split(first + Tail(rest), SLASH) == [first] + rest
    decreases |rest|
  {
    if rest == [] {
      assert first + Tail(rest) == first && [first] + rest == [first];
      IndexOfIs(first, SLASH, |first|);
    } else {
      SplitOfTail(rest[0], rest[1..]);
      assert first + Tail(rest) == first + [SLASH] + (rest[0] + Tail(rest[1..]));
      SplitFirst(first, rest[0] + Tail(rest[1..]), SLASH);
      assert rest == [rest[0]] + rest[1..];
    }
  }

  // ----- The first two passes -----

  /** The segments without those equal to `dead`, the last one excepted. */
  function Without(rest: seq<Segment>, dead: Segment): seq<Segment> {
    if |rest| <= 1 then rest
    else if rest[0] == dead then Without(rest[1..], dead)
    else [rest[0]] + Without(rest[1..], dead)
  }

  lemma {:induction false} DropCopies(g: Segment, t: seq<Byte>, dead: Segment)
    requires SLASH !in g
    ensures Drop(g + t, dead) == g + Drop(t, dead)
  {
    if g == [] {
      assert g + t == t && g + Drop(t, dead) == Drop(t, dead);
    } else {
      assert (g + t)[0] == g[0] && (g + t)[1..] == g[1..] + t;
      NoStart(g + t, dead);
      DropCopies(g[1..], t, dead);
      assert [g[0]] + (g[1..] + Drop(t, dead)) == g + Drop(t, dead);
    }
  }

  lemma {:induction false} NoStart(s: seq<Byte>, dead: Segment)
    requires s != [] && s[0] != SLASH
    ensures !Starts(s, Slashed(dead))
  {
    if |dead| + 2 <= |s| { assert s[..|dead| + 2][0] == s[0]; }
  }

  /** A tail starts with the slashed segment exactly when that is its first
      segment and not its last. */
  lemma {:induction false} StartsTail(rest: seq<Segment>, dead: Segment)
    requires rest != [] && AllClean(rest) && SLASH !in dead
    ensures Starts(Tail(rest), Slashed(dead)) <==> |rest| > 1 && rest[0] == dead
    ensures |rest| > 1 && rest[0] == dead ==> Tail(rest)[|dead| + 1..] == Tail(rest[1..])
  {
    var g, t := rest[0], Tail(rest[1..]);
    var s := Tail(rest);
    assert s == [SLASH] + g + t;
    if |rest| > 1 {
      assert t == [SLASH] + rest[1] + Tail(rest[1..][1..]);
      assert t[0] == SLASH;
    }
    if |rest| > 1 && g == dead {
      assert s[..|dead| + 2] == [SLASH] + g + [t[0]];
      assert s[|dead| + 1..] == t;
    }
    assert |g| > |dead| ==> s[|dead| + 1] == g[|dead|];
    assert |rest| > 1 ==> s[|g| + 1] == SLASH;
    assert |g| < |dead| ==> Slashed(dead)[|g| + 1] == dead[|g|];
    if Starts(s, Slashed(dead)) {
      var p := s[..|dead| + 2];
      assert p[|dead| + 1] == SLASH;
      assert |g| == |dead|;
      assert g == s[1..|g| + 1] == p[1..|g| + 1] == dead;
    }
  }

  /** A segment that is not dead, or is the last, is copied with its slash. */
  lemma {:induction false} DropKeepsSegment(g: Segment, t: seq<Byte>, dead: Segment)
    requires SLASH !in g && !Starts([SLASH] + g + t, Slashed(dead))
    ensures Drop([SLASH] + g + t, dead) == [SLASH] + g + Drop(t, dead)
  {
    var s := [SLASH] + g + t;
    assert s[0] == SLASH && s[1..] == g + t;
    DropCopies(g, t, dead);
    Associate([SLASH], g, Drop(t, dead));
  }

  lemma {:induction false} DropTail(rest: seq<Segment>, dead: Segment)
    requires AllClean(rest) && SLASH !in dead
    ensures Drop(Tail(rest), dead) == Tail(Without(rest, dead))
    ensures AllClean(Without(rest, dead))
    decreases |rest|
  {
    if rest != [] {
      var g, t := rest[0], Tail(rest[1..]);
      StartsTail(rest, dead);
      DropTail(rest[1..], dead);
      if |rest| == 1 {
        assert rest[1..] == [] && t == [];
        DropKeepsSegment(g, t, dead);
      } else if g != dead {
        DropKeepsSegment(g, t, dead);
        TailCons(g, Without(rest[1..], dead));
        assert ([g] + Without(rest[1..], dead))[1..] == Without(rest[1..], dead);
      }
    }
  }

  // ----- The third pass -----

  /** The text of a stack of segments whose first has no slash before it. */
  function Path(out: seq<Segment>): seq<Byte>
    requires out != []
  {
    out[0] + Tail(out[1..])
  }

  /** Gives up the top segment; the first one can only be emptied. */
  function PopTop(out: seq<Segment>): (r: seq<Segment>)
    requires out != []
    ensures r != []
  {
    if |out| == 1 then [[]] else out[..|out| - 1]
  }

  /** A maximal run of `..` segments gives up one segment: only the first `..` of
      a run is `armed`. The last segment is never interpreted. */
  function PopRuns(out: seq<Segment>, armed: bool, rest: seq<Segment>): (r: seq<Segment>)
    requires out != []
    ensures r != []
    decreases |rest|
  {
    if |rest| <= 1 then out + rest
    else if rest[0] == TWO_DOTS then PopRuns(if armed then PopTop(out) else out, false, rest[1..])
    else PopRuns(out + [rest[0]], true, rest[1..])
  }

  /** Where the third pass has its last slash: before the top segment, or at the
      end of the text once that has been given up. */
  function LastSlash(out: seq<Segment>, armed: bool): nat
    requires out != []
  {
    if !armed then |Path(out)| else if |out| == 1 then 0 else |Path(out[..|out| - 1])|
  }

  lemma {:induction false} PathPush(out: seq<Segment>, g: Segment)
    requires out != []
    ensures Path(out + [g]) == Path(out) + ([SLASH] + g)
    ensures (out + [g])[..|out|] == out
  {
    assert (out + [g])[0] == out[0] && (out + [g])[1..] == out[1..] + [g];
    TailAppend(out[1..], [g]);
    var top: seq<Segment> := [g];
    assert top[1..] == [] && Tail(top) == [SLASH] + g + [];
    assert out[0] + (Tail(out[1..]) + ([SLASH] + g)) == out[0] + Tail(out[1..]) + ([SLASH] + g);
  }

  /** Cutting at the last slash is giving up the top segment. */
  lemma {:induction false} CutTop(out: seq<Segment>, armed: bool)
    requires out != []
    ensures LastSlash(out, armed) <= |Path(out)|
    ensures Path(out)[..LastSlash(out, armed)] == Path(if armed then PopTop(out) else out)
    ensures LastSlash(out, armed) == LastSlash(if armed then PopTop(out) else out, false)
  {
    if !armed {
      assert Path(out)[..|Path(out)|] == Path(out);
    } else if |out| == 1 {
      var none: seq<Segment> := [[]];
      assert none[1..] == [] && Path(none) == [];
    } else {
      var lower, g := out[..|out| - 1], out[|out| - 1];
      assert out == lower + [g];
      PathPush(lower, g);
    }
  }

  lemma {:induction false} PopCopies(g: Segment, t: seq<Byte>, out: seq<Byte>, last: nat)
    requires SLASH !in g && last <= |out|
    ensures Pop(g + t, out, last) == Pop(t, out + g, last)
  {
    if g == [] {
      assert g + t == t && out + g == out;
    } else {
      assert (g + t)[0] == g[0] && (g + t)[1..] == g[1..] + t;
      NoStart(g + t, TWO_DOTS);
      PopCopies(g[1..], t, out + [g[0]], last);
      assert out + [g[0]] + g[1..] == out + g;
    }
  }

  lemma {:induction false} PopPushes(out: seq<Segment>, g: Segment, t: seq<Byte>, last: nat)
    requires out != [] && SLASH !in g && last <= |Path(out)| && !Starts([SLASH] + g + t, Slashed(TWO_DOTS))
    ensures |Path(out)| <= |Path(out + [g])|
    ensures Pop([SLASH] + g + t, Path(out), last) == Pop(t, Path(out + [g]), |Path(out)|)
  {
    var s, text := [SLASH] + g + t, Path(out);
    assert s[0] == SLASH && s[1..] == g + t;
    PopCopies(g, t, text + [SLASH], |text|);
    PathPush(out, g);
    Associate(text, [SLASH], g);
  }

  lemma {:induction false} PopTail(out: seq<Segment>, armed: bool, rest: seq<Segment>)
    requires out != [] && AllClean(rest)
    ensures LastSlash(out, armed) <= |Path(out)|
    ensures Pop(Tail(rest), Path(out), LastSlash(out, armed)) == Path(PopRuns(out, armed, rest))
    decreases |rest|
  {
    CutTop(out, armed);
    if rest == [] {
      assert out + rest == out;
    } else {
      var g := rest[0];
      StartsTail(rest, TWO_DOTS);
      if |rest| > 1 && g == TWO_DOTS {
        PopTail(if armed then PopTop(out) else out, false, rest[1..]);
      } else {
        PopPushes(out, g, Tail(rest[1..]), LastSlash(out, armed));
        PathPush(out, g);
        PopTail(out + [g], true, rest[1..]);
        if |rest| == 1 { assert out + rest == out + [g] == out + [g] + rest[1..]; }
      }
    }
  }

  // ----- The sanitiser refines the segment function -----

  /** Collapse empty segments, drop `.` segments, then let each run of `..`
      segments give up one segment; the first and last are never interpreted. */
  function SanitisedSegments(segments: seq<Segment>): (r: seq<Segment>)
    requires segments != []
    ensures r != []
  {
    PopRuns([segments[0]], true, Without(Without(segments[1..], EMPTY), ONE_DOT))
  }

  lemma {:induction false} SanitiserRefines(s: seq<Byte>)
    ensures Sanitised(s) == Path(SanitisedSegments(Split(s, SLASH)))
  {
    var first, rest := SplitTail(s);
    assert ([first] + rest)[0] == first && ([first] + rest)[1..] == rest;
    DropCopies(first, Tail(rest), EMPTY);
    DropTail(rest, EMPTY);
    var r1 := Without(rest, EMPTY);
    DropCopies(first, Tail(r1), ONE_DOT);
    DropTail(r1, ONE_DOT);
    var r2 := Without(r1, ONE_DOT);
    PopCopies(first, Tail(r2), [], 0);
    assert [] + first == first;
    var bottom: seq<Segment> := [first];
    assert bottom[1..] == [] && Path(bottom) == first + [];
    assert first + [] == first;
    PopTail([first], true, r2);
  }

  // ----- What the result is free of -----

  /** No segment but the last is `dead`. */
  predicate Lacks(rest: seq<Segment>, dead: Segment) {
    |rest| > 1 ==> rest[0] != dead && Lacks(rest[1..], dead)
  }

  predicate Never(rest: seq<Segment>, dead: Segment) {
    rest != [] ==> rest[0] != dead && Never(rest[1..], dead)
  }

  lemma {:induction false} WithoutLacks(rest: seq<Segment>, dead: Segment)
    ensures Lacks(Without(rest, dead), dead)
  {
    if |rest| > 1 {
      WithoutLacks(rest[1..], dead);
      assert ([rest[0]] + Without(rest[1..], dead))[1..] == Without(rest[1..], dead);
    }
  }

  lemma {:induction false} WithoutKeepsLacks(rest: seq<Segment>, dead: Segment, other: Segment)
    requires Lacks(rest, other)
    ensures Lacks(Without(rest, dead), other)
  {
    if |rest| > 1 {
      WithoutKeepsLacks(rest[1..], dead, other);
      assert ([rest[0]] + Without(rest[1..], dead))[1..] == Without(rest[1..], dead);
    }
  }

  lemma {:induction false} NeverLacks(a: seq<Segment>, b: seq<Segment>, dead: Segment)
    requires Never(a, dead) && Lacks(b, dead)
    ensures Lacks(a + b, dead)
  {
    if a == [] {
      assert a + b == b;
    } else {
      NeverLacks(a[1..], b, dead);
      assert (a + b)[0] == a[0] && (a + b)[1..] == a[1..] + b;
    }
  }

  lemma {:induction false} NeverAppend(a: seq<Segment>, g: Segment, dead: Segment)
    ensures Never(a + [g], dead) <==> Never(a, dead) && g != dead
  {
    if a == [] {
      assert a + [g] == [g];
    } else {
      NeverAppend(a[1..], g, dead);
      assert (a + [g])[0] == a[0] && (a + [g])[1..] == a[1..] + [g];
    }
  }

  lemma {:induction false} NeverPopTop(out: seq<Segment>, dead: Segment)
    requires out != [] && Never(out[1..], dead)
    ensures Never(PopTop(out)[1..], dead)
  {
    if |out| > 1 {
      var g := out[|out| - 1];
      assert out[1..] == PopTop(out)[1..] + [g];
      NeverAppend(PopTop(out)[1..], g, dead);
    } else {
      assert PopTop(out)[1..] == [];
    }
  }

  /** The runs of `..` put nothing between slashes that was not there, and leave no `..`. */
  lemma {:induction false} PopRunsLacks(out: seq<Segment>, armed: bool, rest: seq<Segment>, dead: Segment)
    requires out != [] && Never(out[1..], dead)
    requires dead == TWO_DOTS || Lacks(rest, dead)
    ensures Lacks(PopRuns(out, armed, rest)[1..], dead)
    decreases |rest|
  {
    if |rest| <= 1 {
      assert Lacks(rest, dead);
      NeverLacks(out[1..], rest, dead);
      assert (out + rest)[1..] == out[1..] + rest;
    } else if rest[0] == TWO_DOTS {
      NeverPopTop(out, dead);
      PopRunsLacks(if armed then PopTop(out) else out, false, rest[1..], dead);
    } else {
      NeverAppend(out[1..], rest[0], dead);
      assert (out + [rest[0]])[1..] == out[1..] + [rest[0]];
      PopRunsLacks(out + [rest[0]], true, rest[1..], dead);
    }
  }

  lemma {:induction false} PopRunsClean(out: seq<Segment>, armed: bool, rest: seq<Segment>)
    requires out != [] && AllClean(out) && AllClean(rest)
    ensures AllClean(PopRuns(out, armed, rest))
    decreases |rest|
  {
    if |rest| <= 1 {
      CleanAppend(out, rest);
    } else if rest[0] == TWO_DOTS {
      PopTopClean(out);
      PopRunsClean(if armed then PopTop(out) else out, false, rest[1..]);
    } else {
      PushClean(out, rest[0]);
      PopRunsClean(out + [rest[0]], true, rest[1..]);
    }
  }

  lemma {:induction false} PushClean(out: seq<Segment>, g: Segment)
    requires AllClean(out) && SLASH !in g
    ensures AllClean(out + [g])
  {
    var top: seq<Segment> := [g];
    assert top[1..] == [];
    CleanAppend(out, top);
  }

  lemma {:induction false} PopTopClean(out: seq<Segment>)
    requires out != [] && AllClean(out)
    ensures AllClean(PopTop(out))
  {
    if |out| > 1 {
      CleanAppend(PopTop(out), [out[|out| - 1]]);
      assert PopTop(out) + [out[|out| - 1]] == out;
    } else {
      var none: seq<Segment> := [[]];
      assert none[1..] == [];
    }
  }

  /** The segments of a sanitised text: the first, and the others without an
      empty, `.` or `..` one before the last. */
  lemma {:induction false} SanitisedForm(s: seq<Byte>) returns (first: Segment, rest: seq<Segment>)
    ensures Sanitised(s) == first + Tail(rest) && SLASH !in first && AllClean(rest)
    ensures Lacks(rest, EMPTY) && Lacks(rest, ONE_DOT) && Lacks(rest, TWO_DOTS)
  {
    SanitiserRefines(s);
    var f, r := SplitTail(s);
    assert ([f] + r)[0] == f && ([f] + r)[1..] == r;
    DropTail(r, EMPTY);
    DropTail(Without(r, EMPTY), ONE_DOT);
    WithoutLacks(r, EMPTY);
    WithoutLacks(Without(r, EMPTY), ONE_DOT);
    WithoutKeepsLacks(Without(r, EMPTY), ONE_DOT, EMPTY);
    var r2 := Without(Without(r, EMPTY), ONE_DOT);
    var bottom: seq<Segment> := [f];
    assert bottom[1..] == [];
    PopRunsLacks(bottom, true, r2, EMPTY);
    PopRunsLacks(bottom, true, r2, ONE_DOT);
    PopRunsLacks(bottom, true, r2, TWO_DOTS);
    PopRunsClean(bottom, true, r2);
    var out := PopRuns(bottom, true, r2);
    first, rest := out[0], out[1..];
  }

  lemma {:induction false} NoOccurrence(first: Segment, rest: seq<Segment>, dead: Segment, i: nat)
    requires SLASH !in first && AllClean(rest) && SLASH !in dead && Lacks(rest, dead)
    requires i <= |first + Tail(rest)|
    ensures !Starts((first + Tail(rest))[i..], Slashed(dead))
    decreases |first| + |Tail(rest)|
  {
    var s := first + Tail(rest);
    if i == |s| {
    } else if first != [] {
      assert s[1..] == first[1..] + Tail(rest);
      if i == 0 {
        NoStart(s, dead);
        assert s[0..] == s;
      } else {
        NoOccurrence(first[1..], rest, dead, i - 1);
        assert s[i..] == s[1..][i - 1..];
      }
    } else {
      assert s == Tail(rest);
      StartsTail(rest, dead);
      if i == 0 {
        assert s[0..] == s;
      } else {
        assert Tail(rest)[1..] == rest[0] + Tail(rest[1..]);
        NoOccurrence(rest[0], rest[1..], dead, i - 1);
        assert s[i..] == s[1..][i - 1..];
      }
    }
  }

  /** No `//`, no `/./` and no `/../` anywhere. */
  lemma {:induction false} SanitisedClean(s: seq<Byte>, i: nat)
    requires i <= |Sanitised(s)|
    ensures !Starts(Sanitised(s)[i..], Slashed(EMPTY))
    ensures !Starts(Sanitised(s)[i..], Slashed(ONE_DOT))
    ensures !Starts(Sanitised(s)[i..], Slashed(TWO_DOTS))
  {
    var first, rest := SanitisedForm(s);
    NoOccurrence(first, rest, EMPTY, i);
    NoOccurrence(first, rest, ONE_DOT, i);
    NoOccurrence(first, rest, TWO_DOTS, i);
  }

  lemma {:induction false} WithoutNothing(rest: seq<Segment>, dead: Segment)
    requires Lacks(rest, dead)
    ensures Without(rest, dead) == rest
  {
    if |rest| > 1 { WithoutNothing(rest[1..], dead); }
  }

  lemma {:induction false} PopRunsNothing(out: seq<Segment>, armed: bool, rest: seq<Segment>)
    requires out != [] && Lacks(rest, TWO_DOTS)
    ensures PopRuns(out, armed, rest) == out + rest
    decreases |rest|
  {
    if |rest| > 1 {
      PopRunsNothing(out + [rest[0]], true, rest[1..]);
      assert out + [rest[0]] + rest[1..] == out + rest;
    }
  }

  /** Sanitising twice is sanitising once. */
  lemma {:induction false} SanitisedTwice(s: seq<Byte>)
    ensures Sanitised(Sanitised(s)) == Sanitised(s)
  {
    var first, rest := SanitisedForm(s);
    SanitiserRefines(Sanitised(s));
    SplitOfTail(first, rest);
    assert ([first] + rest)[0] == first && ([first] + rest)[1..] == rest;
    WithoutNothing(rest, EMPTY);
    WithoutNothing(rest, ONE_DOT);
    PopRunsNothing([first], true, rest);
  }

  // ----- What the sanitiser leaves alone -----

  lemma {:induction false} StartsKeeps(s: seq<Byte>, t: seq<Byte>, dead: Segment)
    requires SLASH !in t && s != []
    ensures Starts(s + t, Slashed(dead)) <==> Starts(s, Slashed(dead))
  {
    var n := |dead| + 2;
    if n <= |s| {
      assert (s + t)[..n] == s[..n];
    } else if n <= |s + t| {
      assert (s + t)[..n][n - 1] == t[n - 1 - |s|];
      assert Slashed(dead)[n - 1] == SLASH;
    }
  }

  lemma {:induction false} DropKeeps(s: seq<Byte>, t: seq<Byte>, dead: Segment)
    requires SLASH !in t
    ensures Drop(s + t, dead) == Drop(s, dead) + t
    decreases |s|
  {
    if s == [] {
      assert s + t == t && t + [] == t;
      DropCopies(t, [], dead);
    } else {
      StartsKeeps(s, t, dead);
      if Starts(s, Slashed(dead)) {
        assert (s + t)[|dead| + 1..] == s[|dead| + 1..] + t;
        DropKeeps(s[|dead| + 1..], t, dead);
      } else {
        assert (s + t)[0] == s[0] && (s + t)[1..] == s[1..] + t;
        DropKeeps(s[1..], t, dead);
        Associate([s[0]], Drop(s[1..], dead), t);
      }
    }
  }

  lemma {:induction false} PopKeeps(s: seq<Byte>, t: seq<Byte>, out: seq<Byte>, last: nat)
    requires SLASH !in t && last <= |out|
    ensures Pop(s + t, out, last) == Pop(s, out, last) + t
    decreases |s|
  {
    if s == [] {
      assert s + t == t && t + [] == t;
      PopCopies(t, [], out, last);
    } else {
      StartsKeeps(s, t, TWO_DOTS);
      if Starts(s, Slashed(TWO_DOTS)) {
        assert (s + t)[3..] == s[3..] + t;
        PopKeeps(s[3..], t, out[..last], last);
      } else {
        assert (s + t)[0] == s[0] && (s + t)[1..] == s[1..] + t;
        PopKeeps(s[1..], t, out + [s[0]], if s[0] == SLASH then |out| else last);
      }
    }
  }

  /** A slash-free end of the text passes unchanged. */
  lemma {:induction false} SanitisedKeepsEnd(s: seq<Byte>, t: seq<Byte>)
    requires SLASH !in t
    ensures Sanitised(s + t) == Sanitised(s) + t
  {
    DropKeeps(s, t, EMPTY);
    DropKeeps(Drop(s, EMPTY), t, ONE_DOT);
    PopKeeps(Drop(Drop(s, EMPTY), ONE_DOT), t, [], 0);
  }

  lemma {:induction false} DropAddsNothing(s: seq<Byte>, dead: Segment, c: Byte)
    requires c !in s
    ensures c !in Drop(s, dead)
    decreases |s|
  {
    if s == [] {
    } else if Starts(s, Slashed(dead)) {
      DropAddsNothing(s[|dead| + 1..], dead, c);
    } else {
      DropAddsNothing(s[1..], dead, c);
    }
  }

  lemma {:induction false} PopAddsNothing(s: seq<Byte>, out: seq<Byte>, last: nat, c: Byte)
    requires last <= |out| && c !in s && c !in out
    ensures c !in Pop(s, out, last)
    decreases |s|
  {
    if s == [] {
    } else if Starts(s, Slashed(TWO_DOTS)) {
      PopAddsNothing(s[3..], out[..last], last, c);
    } else {
      PopAddsNothing(s[1..], out + [s[0]], if s[0] == SLASH then |out| else last, c);
    }
  }

  lemma {:induction false} SanitisedAddsNothing(s: seq<Byte>, c: Byte)
    requires c !in s
    ensures c !in Sanitised(s)
  {
    DropAddsNothing(s, EMPTY, c);
    DropAddsNothing(Drop(s, EMPTY), ONE_DOT, c);
    PopAddsNothing(Drop(Drop(s, EMPTY), ONE_DOT), [], 0, c);
  }
}
