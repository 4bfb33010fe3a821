/** remove_dot_segments of section 5.2.4 of RFC 3986, and exactly when the URL
    sanitiser agrees with it. */
module RemoveDots {
  import opened Bytes
  import opened Tokens
  import opened Sanitiser
  import opened Segments

  // ----- The algorithm of the RFC, rule by rule -----

  /** The output buffer without its last segment and the slash before that. */
  function RemoveLast(output: seq<Byte>): seq<Byte> {
    if output == [] then []
    else if output[|output| - 1] == SLASH then output[..|output| - 1]
    else RemoveLast(output[..|output| - 1])
  }

  /** Length of the first path segment with its leading slash, if any. */
  function FirstLength(input: seq<Byte>): (k: nat)
    requires input != []
    ensures 0 < k <= |input|
  {
    if input[0] == SLASH then 1 + IndexOf(input[1..], SLASH) else IndexOf(input, SLASH)
  }

  function RemoveDotSegments(input: seq<Byte>, output: seq<Byte>): seq<Byte>
    decreases |input|
  {
    if input == [] then output
    else if Starts(input, TWO_DOTS + [SLASH]) then RemoveDotSegments(input[3..], output)           // 2A
    else if Starts(input, ONE_DOT + [SLASH]) then RemoveDotSegments(input[2..], output)            // 2A
    else if Starts(input, Slashed(ONE_DOT)) then RemoveDotSegments(input[2..], output)             // 2B
    else if input == [SLASH] + ONE_DOT then RemoveDotSegments([SLASH], output)                     // 2B
    else if Starts(input, Slashed(TWO_DOTS)) then RemoveDotSegments(input[3..], RemoveLast(output)) // 2C
    else if input == [SLASH] + TWO_DOTS then RemoveDotSegments([SLASH], RemoveLast(output))        // 2C
    else if input == ONE_DOT || input == TWO_DOTS then RemoveDotSegments([], output)               // 2D
    else RemoveDotSegments(input[FirstLength(input)..], output + input[..FirstLength(input)])      // 2E
  }

  // ----- The same on segments -----

  /** A `..` gives up a segment every time; a last `.` or `..` leaves an empty segment. */
  function DotRuns(out: seq<Segment>, rest: seq<Segment>): (r: seq<Segment>)
    requires out != []
    ensures r != []
    decreases |rest|
  {
    if rest == [] then out
    else if rest[0] == ONE_DOT then if |rest| == 1 then out + [[]] else DotRuns(out, rest[1..])
    else if rest[0] == TWO_DOTS then if |rest| == 1 then PopTop(out) + [[]] else DotRuns(PopTop(out), rest[1..])
    else DotRuns(out + [rest[0]], rest[1..])
  }

  lemma {:induction false} RemoveLastSkips(x: seq<Byte>, g: Segment)
    requires SLASH !in g
    ensures RemoveLast(x + g) == RemoveLast(x)
    decreases |g|
  {
    if g == [] {
      assert x + g == x;
    } else {
      var h := g[..|g| - 1];
      assert (x + g)[..|x + g| - 1] == x + h && (x + g)[|x + g| - 1] == g[|g| - 1];
      RemoveLastSkips(x, h);
    }
  }

  lemma {:induction false} RemoveLastPops(out: seq<Segment>)
    requires out != [] && AllClean(out)
    ensures RemoveLast(Path(out)) == Path(PopTop(out))
  {
    if |out| == 1 {
      assert Path(out) == [] + out[0];
      RemoveLastSkips([], out[0]);
      var none: seq<Segment> := [[]];
      assert none[1..] == [] && Path(none) == [];
    } else {
      var lower, g := out[..|out| - 1], out[|out| - 1];
      assert out == lower + [g];
      CleanAppend(lower, [g]);
      PathPush(lower, g);
      assert Path(lower) + ([SLASH] + g) == Path(lower) + [SLASH] + g;
      RemoveLastSkips(Path(lower) + [SLASH], g);
      assert (Path(lower) + [SLASH])[..|Path(lower)|] == Path(lower);
    }
  }

  lemma {:induction false} NoRelative(s: seq<Byte>, pat: seq<Byte>)
    requires s != [] && s[0] == SLASH && pat != [] && pat[0] != SLASH
    ensures !Starts(s, pat)
  {
    if |pat| <= |s| { assert s[..|pat|][0] == s[0]; }
  }

  lemma {:induction false} OneSegment(rest: seq<Segment>, dead: Segment)
    requires rest != [] && AllClean(rest) && SLASH !in dead
    ensures Tail(rest) == [SLASH] + dead <==> |rest| == 1 && rest[0] == dead
  {
    var g, t := rest[0], Tail(rest[1..]);
    assert Tail(rest) == [SLASH] + g + t;
    assert Tail(rest)[1..] == g + t;
    if |rest| > 1 {
      assert t == [SLASH] + rest[1] + Tail(rest[1..][1..]);
      assert (g + t)[|g|] == SLASH;
      assert ([SLASH] + dead)[1..] == dead;
      assert |g| < |dead| ==> dead[|g|] in dead;
    } else {
      assert g + t == g;
      assert ([SLASH] + dead)[1..] == dead;
    }
  }

  lemma {:induction false} FirstOfTail(rest: seq<Segment>)
    requires rest != [] && AllClean(rest)
    ensures Tail(rest) != [] && FirstLength(Tail(rest)) == 1 + |rest[0]|
    ensures Tail(rest)[..1 + |rest[0]|] == [SLASH] + rest[0] && Tail(rest)[1 + |rest[0]|..] == Tail(rest[1..])
  {
    var g, t := rest[0], Tail(rest[1..]);
    assert Tail(rest) == [SLASH] + g + t;
    assert Tail(rest)[1..] == g + t;
    if |rest| > 1 { assert t == [SLASH] + rest[1] + Tail(rest[1..][1..]); }
    IndexOfIs(g + t, SLASH, |g|);
  }

  /** The rule for one segment behind a slash, in the order of the RFC. */
  lemma {:induction false} TailRule(rest: seq<Segment>, output: seq<Byte>)
    requires rest != [] && AllClean(rest)
    ensures RemoveDotSegments(Tail(rest), output) ==
      if rest[0] == ONE_DOT then RemoveDotSegments(if |rest| == 1 then [SLASH] else Tail(rest[1..]), output)
      else if rest[0] == TWO_DOTS then
        RemoveDotSegments(if |rest| == 1 then [SLASH] else Tail(rest[1..]), RemoveLast(output))
      else RemoveDotSegments(Tail(rest[1..]), output + ([SLASH] + rest[0]))
  {
    var s := Tail(rest);
    FirstOfTail(rest);
    NoRelative(s, TWO_DOTS + [SLASH]);
    NoRelative(s, ONE_DOT + [SLASH]);
    StartsTail(rest, ONE_DOT);
    StartsTail(rest, TWO_DOTS);
    OneSegment(rest, ONE_DOT);
    OneSegment(rest, TWO_DOTS);
    assert s[0] == SLASH;
  }

  lemma {:induction false} LoneSlash(output: seq<Byte>)
    ensures RemoveDotSegments([SLASH], output) == output + [SLASH]
  {
    var rest: seq<Segment> := [[]];
    assert rest[1..] == [] && Tail(rest) == [SLASH];
    assert AllClean(rest);
    TailRule(rest, output);
    assert [SLASH] + rest[0] == [SLASH];
  }

  lemma {:induction false} DotRunsTail(out: seq<Segment>, rest: seq<Segment>)
    requires out != [] && AllClean(out) && AllClean(rest)
    ensures RemoveDotSegments(Tail(rest), Path(out)) == Path(DotRuns(out, rest))
    decreases |rest|
  {
    if rest != [] {
      TailRule(rest, Path(out));
      RemoveLastPops(out);
      PopTopClean(out);
      if |rest| == 1 && (rest[0] == ONE_DOT || rest[0] == TWO_DOTS) {
        var o := if rest[0] == ONE_DOT then out else PopTop(out);
        LoneSlash(Path(o));
        PathPush(o, []);
        assert [SLASH] + [] == [SLASH];
      } else if rest[0] == ONE_DOT {
        DotRunsTail(out, rest[1..]);
      } else if rest[0] == TWO_DOTS {
        DotRunsTail(PopTop(out), rest[1..]);
      } else {
        PushClean(out, rest[0]);
        PathPush(out, rest[0]);
        DotRunsTail(out + [rest[0]], rest[1..]);
      }
    }
  }

  // ----- When the two agree -----

  /** Every `..` behind another `..` arrives at the root, where there is nothing
      left to give up. `depth` counts the segments above the root. */
  predicate RunsEndAtRoot(depth: nat, armed: bool, rest: seq<Segment>)
    decreases |rest|
  {
    |rest| <= 1 ||
    if rest[0] == TWO_DOTS then
      (armed || depth == 0) && RunsEndAtRoot(if armed && depth > 0 then depth - 1 else depth, false, rest[1..])
    else
      RunsEndAtRoot(depth + 1, true, rest[1..])
  }

  predicate DotsLast(rest: seq<Segment>) {
    rest != [] && (rest[|rest| - 1] == ONE_DOT || rest[|rest| - 1] == TWO_DOTS)
  }

  lemma {:induction false} DotRunsIgnoresDots(out: seq<Segment>, rest: seq<Segment>)
    requires out != []
    ensures DotRuns(out, Without(rest, ONE_DOT)) == DotRuns(out, rest)
    decreases |rest|
  {
    if |rest| > 1 {
      var more := Without(rest[1..], ONE_DOT);
      WithoutLast(rest[1..], ONE_DOT);
      if rest[0] == ONE_DOT {
        DotRunsIgnoresDots(out, rest[1..]);
      } else {
        assert ([rest[0]] + more)[0] == rest[0] && ([rest[0]] + more)[1..] == more;
        DotRunsIgnoresDots(if rest[0] == TWO_DOTS then PopTop(out) else out + [rest[0]], rest[1..]);
      }
    }
  }

  lemma {:induction false} WithoutLast(rest: seq<Segment>, dead: Segment)
    requires rest != []
    ensures var r := Without(rest, dead); r != [] && r[|r| - 1] == rest[|rest| - 1]
  {
    if |rest| > 1 { WithoutLast(rest[1..], dead); }
  }

  /** Once the sanitiser has kept a segment too many it stays ahead. */
  lemma {:induction false} StaysLonger(kept: seq<Segment>, armed: bool, out: seq<Segment>, rest: seq<Segment>)
    requires |kept| > |out| > 0 && (armed ==> |out| > 1) && Lacks(rest, ONE_DOT)
    ensures |PopRuns(kept, armed, rest)| > |DotRuns(out, rest)|
    decreases |rest|
  {
    if |rest| > 1 {
      if rest[0] == TWO_DOTS {
        StaysLonger(if armed then PopTop(kept) else kept, false, PopTop(out), rest[1..]);
      } else {
        StaysLonger(kept + [rest[0]], true, out + [rest[0]], rest[1..]);
      }
    } else if |rest| == 1 {
      assert DotRuns(out + [rest[0]], rest[1..]) == out + [rest[0]];
    }
  }

  lemma {:induction false} AgreeIff(out: seq<Segment>, armed: bool, rest: seq<Segment>)
    requires out != [] && out[0] == [] && Lacks(rest, ONE_DOT)
    ensures PopRuns(out, armed, rest) == DotRuns(out, rest)
       <==> RunsEndAtRoot(|out| - 1, armed, rest) && !DotsLast(rest)
    decreases |rest|
  {
    if rest == [] {
      assert out + rest == out;
    } else if |rest| == 1 {
      var kept := out + rest;
      assert kept[|kept| - 1] == rest[0] && out + [rest[0]] == kept;
      var none: seq<Segment> := [[]];
      assert (out + none)[|out|] == [];
      if rest[0] == TWO_DOTS { assert (PopTop(out) + none)[|PopTop(out)|] == []; }
    } else if rest[0] == TWO_DOTS {
      if armed {
        AgreeIff(PopTop(out), false, rest[1..]);
      } else if |out| == 1 {
        assert PopTop(out) == out;
        AgreeIff(out, false, rest[1..]);
      } else {
        StaysLonger(out, false, PopTop(out), rest[1..]);
      }
    } else {
      AgreeIff(out + [rest[0]], true, rest[1..]);
    }
  }

  /** The segments the third pass sees. */
  function ThirdPass(s: seq<Byte>): seq<Segment> {
    Without(Without(Split(s, SLASH)[1..], EMPTY), ONE_DOT)
  }

  /** A caller can check this before the call. */
  predicate FollowsRfc(s: seq<Byte>) {
    RunsEndAtRoot(0, true, ThirdPass(s)) && !DotsLast(ThirdPass(s))
  }

  /** On every absolute path: collapsing slashes and then removing dot segments as
      the RFC says gives the sanitised path, exactly when no `..` directly behind
      another one finds a segment to give up and the last segment is not a dot one. */
  lemma {:induction false} SanitiserFollowsRfcIff(s: seq<Byte>)
    requires s != [] && s[0] == SLASH
    ensures Sanitised(s) == RemoveDotSegments(Drop(s, EMPTY), []) <==> FollowsRfc(s)
  {
    var first, rest := SplitTail(s);
    assert ([first] + rest)[0] == first && ([first] + rest)[1..] == rest;
    assert [] + Tail(rest) == Tail(rest);
    DropTail(rest, EMPTY);
    var r1 := Without(rest, EMPTY);
    DropTail(r1, ONE_DOT);
    var r2 := Without(r1, ONE_DOT);
    var root: seq<Segment> := [[]];
    assert root[1..] == [] && Path(root) == [] && AllClean(root);
    SanitiserRefines(s);
    DotRunsTail(root, r1);
    DotRunsIgnoresDots(root, r1);
    WithoutLacks(r1, ONE_DOT);
    AgreeIff(root, true, r2);
    PopRunsClean(root, true, r2);
    DotRunsClean(root, r1);
    SamePath(PopRuns(root, true, r2), DotRuns(root, r1));
  }

  lemma {:induction false} DotRunsClean(out: seq<Segment>, rest: seq<Segment>)
    requires out != [] && AllClean(out) && AllClean(rest)
    ensures AllClean(DotRuns(out, rest))
    decreases |rest|
  {
    if rest != [] {
      PopTopClean(out);
      if rest[0] == ONE_DOT {
        if |rest| == 1 { PushClean(out, []); } else { DotRunsClean(out, rest[1..]); }
      } else if rest[0] == TWO_DOTS {
        if |rest| == 1 { PushClean(PopTop(out), []); } else { DotRunsClean(PopTop(out), rest[1..]); }
      } else {
        PushClean(out, rest[0]);
        DotRunsClean(out + [rest[0]], rest[1..]);
      }
    }
  }

  /** Stacks of segments are determined by their text. */
  lemma {:induction false} SamePath(a: seq<Segment>, b: seq<Segment>)
    requires a != [] && b != [] && AllClean(a) && AllClean(b)
    ensures Path(a) == Path(b) <==> a == b
  {
    SplitOfTail(a[0], a[1..]);
    SplitOfTail(b[0], b[1..]);
    assert a == [a[0]] + a[1..] && b == [b[0]] + b[1..];
  }

  /** No `..` directly behind another one. */
  predicate NoRuns(rest: seq<Segment>) {
    |rest| > 1 ==> !(rest[0] == TWO_DOTS && rest[1] == TWO_DOTS) && NoRuns(rest[1..])
  }

  lemma {:induction false} NoRunsEndAtRoot(depth: nat, armed: bool, rest: seq<Segment>)
    requires NoRuns(rest) && (armed || rest == [] || rest[0] != TWO_DOTS)
    ensures RunsEndAtRoot(depth, armed, rest)
    decreases |rest|
  {
    if |rest| > 1 {
      if rest[0] == TWO_DOTS {
        NoRunsEndAtRoot(if armed && depth > 0 then depth - 1 else depth, false, rest[1..]);
      } else {
        NoRunsEndAtRoot(depth + 1, true, rest[1..]);
      }
    }
  }

  /** In particular on paths without adjacent `..` and without a final dot segment. */
  lemma {:induction false} SanitiserFollowsRfc(s: seq<Byte>)
    requires s != [] && s[0] == SLASH
    requires NoRuns(ThirdPass(s)) && !DotsLast(ThirdPass(s))
    ensures Sanitised(s) == RemoveDotSegments(Drop(s, EMPTY), [])
  {
    NoRunsEndAtRoot(0, true, ThirdPass(s));
    SanitiserFollowsRfcIff(s);
  }

  ghost predicate Ordinary(g: Segment) {
    '/' as int !in g && g != [] && g != ['.' as int] && g != ['.' as int, '.' as int]
  }

  /** `//a/./b/../../c` with any three names: the empty and the `.` segment go, and the run
      gives up `b` only, where the RFC leaves `/c`. */
  lemma {:induction false} AdjacentRunExample(s: seq<Byte>, a: Segment, b: Segment, c: Segment)
    requires Ordinary(a) && Ordinary(b) && Ordinary(c)
    requires s == Ascii("//") + a + Ascii("/./") + b + Ascii("/../../") + c
    ensures Sanitised(s) == Ascii("/") + a + Ascii("/") + c
    ensures RemoveDotSegments(Drop(s, EMPTY), []) == Ascii("/") + c
  {
    var dots: seq<Segment> := [TWO_DOTS, TWO_DOTS, c];
    var rest, r1, r2 := [[], a, ONE_DOT, b] + dots, [a, ONE_DOT, b] + dots, [a, b] + dots;
    ExampleTail(s, a, b, c, rest);
    ExampleSegments(a, b, c, rest, r1, r2);
    SplitOfTail([], rest);
    assert [] + s == s && ([[]] + rest)[1..] == rest;
    DropTail(rest, EMPTY);
    SanitiserRefines(s);
    ExampleRuns(a, b, c, r1, r2);
    var root: seq<Segment> := [[]];
    assert root[1..] == [] && Path(root) == [] && AllClean(root);
    DotRunsTail(root, r1);
    ExamplePaths(a, c);
  }

  lemma {:induction false} ExampleTail(s: seq<Byte>, a: Segment, b: Segment, c: Segment, rest: seq<Segment>)
    requires s == Ascii("//") + a + Ascii("/./") + b + Ascii("/../../") + c
    requires rest == [[], a, ONE_DOT, b, TWO_DOTS, TWO_DOTS, c]
    ensures s == Tail(rest)
  {
    var t6, t5, t4 := rest[6..], rest[5..], rest[4..];
    var t3, t2, t1 := rest[3..], rest[2..], rest[1..];
    assert t6[1..] == [] && t5[1..] == t6 && t4[1..] == t5 && t3[1..] == t4 && t2[1..] == t3 && t1[1..] == t2;
    var dots := Ascii("/../../") + c;
    assert Tail(t6) == [SLASH] + c + [];
    assert Tail(t4) == [SLASH] + TWO_DOTS + ([SLASH] + TWO_DOTS + Tail(t6)) == dots;
    assert Tail(t3) == [SLASH] + b + dots;
    assert Tail(t2) == Ascii("/./") + (b + dots);
    assert Tail(rest) == [SLASH] + [] + ([SLASH] + a + Tail(t2));
    ExampleText(a, b, dots, c);
  }

  lemma {:induction false} ExampleText(a: Segment, b: Segment, dots: seq<Byte>, c: Segment)
    requires dots == Ascii("/../../") + c
    ensures Ascii("//") + a + Ascii("/./") + b + Ascii("/../../") + c ==
      [SLASH] + [] + ([SLASH] + a + (Ascii("/./") + (b + dots)))
  {
    assert Ascii("//") == [SLASH] + [] + [SLASH];
  }

  lemma {:induction false} ExampleSegments(a: Segment, b: Segment, c: Segment, rest: seq<Segment>, r1: seq<Segment>,
      r2: seq<Segment>)
    requires Ordinary(a) && Ordinary(b) && Ordinary(c)
    requires rest == [[]] + r1 && r1 == [a, ONE_DOT, b, TWO_DOTS, TWO_DOTS, c] && r2 == [a, b, TWO_DOTS, TWO_DOTS, c]
    ensures AllClean(rest) && AllClean(r1)
    ensures Without(rest, EMPTY) == r1 && Without(r1, ONE_DOT) == r2
  {
    var t5, t4, t3, t2, t1 := r1[5..], r1[4..], r1[3..], r1[2..], r1[1..];
    assert t5[1..] == [] && t4[1..] == t5 && t3[1..] == t4 && t2[1..] == t3 && t1[1..] == t2 && rest[1..] == r1;
    assert AllClean(t5) && AllClean(t4) && AllClean(t3) && AllClean(t2) && AllClean(t1);
    assert Lacks(t5, EMPTY) && Lacks(t4, EMPTY) && Lacks(t3, EMPTY) && Lacks(t2, EMPTY) && Lacks(t1, EMPTY);
    WithoutNothing(r1, EMPTY);
    assert Lacks(t5, ONE_DOT) && Lacks(t4, ONE_DOT) && Lacks(t3, ONE_DOT);
    WithoutNothing(t2, ONE_DOT);
    assert r2 == [a] + t2;
  }

  lemma {:induction false} ExampleRuns(a: Segment, b: Segment, c: Segment, r1: seq<Segment>, r2: seq<Segment>)
    requires Ordinary(a) && Ordinary(b) && Ordinary(c)
    requires r2 == [a, b, TWO_DOTS, TWO_DOTS, c] && r2 == Without(r1, ONE_DOT)
    ensures PopRuns([[]], true, r2) == [[], a, c] && DotRuns([[]], r1) == [[], c]
  {
    DotRunsIgnoresDots([[]], r1);
    var u4, u3, u2, u1 := r2[4..], r2[3..], r2[2..], r2[1..];
    assert u4[1..] == [] && u3[1..] == u4 && u2[1..] == u3 && u1[1..] == u2;
    var root: seq<Segment>, one: seq<Segment>, two: seq<Segment> := [[]], [[], a], [[], a, b];
    assert root + [a] == one && one + [b] == two && PopTop(two) == one && PopTop(one) == root;
    assert PopRuns(one, false, u3) == PopRuns(one, false, u4) == one + [c];
    assert PopRuns(two, true, u2) == PopRuns(one, false, u3);
    assert PopRuns(root, true, r2) == PopRuns(one, true, u1) == PopRuns(two, true, u2);
    assert one + [c] == [[], a, c] && root + [c] == [[], c];
    assert DotRuns(root, u4) == root + [c];
    assert DotRuns(two, u2) == DotRuns(one, u3) == DotRuns(root, u4);
    assert DotRuns(root, r2) == DotRuns(one, u1) == DotRuns(two, u2);
  }

  lemma {:induction false} ExamplePaths(a: Segment, c: Segment)
    ensures Path([[], a, c]) == Ascii("/") + a + Ascii("/") + c && Path([[], c]) == Ascii("/") + c
  {
    var two: seq<Segment>, one: seq<Segment> := [a, c], [c];
    assert [[], a, c][1..] == two && two[1..] == one && [[], c][1..] == one && one[1..] == [];
    assert Tail(one) == [SLASH] + c + Tail([]);
  }
}
