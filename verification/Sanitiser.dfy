/** `_httpd_sanitiseUrl` (src/httpd.cpp): three passes over the URL, in place. */
module Sanitiser {
  import opened Bytes
  import opened InPlace

  /** `pat` stands at the head of `s`. */
  predicate Starts(s: seq<Byte>, pat: seq<Byte>) {
    |pat| <= |s| && s[..|pat|] == pat
  }

  /** A segment with the slashes around it. */
  function Slashed(segment: seq<Byte>): seq<Byte> {
    [SLASH] + segment + [SLASH]
  }

  /** Removes every complete segment `dead` together with the slash before it. */
  function Drop(s: seq<Byte>, dead: seq<Byte>): (r: seq<Byte>)
    decreases |s|
  {
    if s == [] then []
    else if Starts(s, Slashed(dead)) then Drop(s[|dead| + 1..], dead)
    else [s[0]] + Drop(s[1..], dead)
  }

  const EMPTY: seq<Byte> := []
  const ONE_DOT: seq<Byte> := [DOT]
  const TWO_DOTS: seq<Byte> := [DOT, DOT]

  /** The third pass, with `out` written so far and its last slash at `last`: at a
      complete `..` segment everything from that slash on is given up. */
  function Pop(s: seq<Byte>, out: seq<Byte>, last: nat): (r: seq<Byte>)
    requires last <= |out|
    decreases |s|
  {
    if s == [] then out
    else if Starts(s, Slashed(TWO_DOTS)) then Pop(s[3..], out[..last], last)
    else Pop(s[1..], out + [s[0]], if s[0] == SLASH then |out| else last)
  }

  function Sanitised(s: seq<Byte>): seq<Byte> {
    Pop(Drop(Drop(s, EMPTY), ONE_DOT), [], 0)
  }

  lemma {:induction false} DropNulFree(s: seq<Byte>, dead: seq<Byte>)
    requires NulFree(s)
    ensures NulFree(Drop(s, dead))
    decreases |s|
  {
    if s == [] {
    } else if Starts(s, Slashed(dead)) {
      DropNulFree(s[|dead| + 1..], dead);
    } else {
      DropNulFree(s[1..], dead);
    }
  }

  lemma {:induction false} PopNulFree(s: seq<Byte>, out: seq<Byte>, last: nat)
    requires last <= |out| && NulFree(s) && NulFree(out)
    ensures NulFree(Pop(s, out, last))
    decreases |s|
  {
    if s == [] {
    } else if Starts(s, Slashed(TWO_DOTS)) {
      PopNulFree(s[3..], out[..last], last);
    } else {
      PopNulFree(s[1..], out + [s[0]], if s[0] == SLASH then |out| else last);
    }
  }

  /** The state of the first two passes. */
  ghost predicate Dropping(d: seq<Byte>, was: seq<Byte>, s: seq<Byte>, dead: seq<Byte>, from: nat, to: nat,
      done: seq<Byte>) {
    CString(was, 0, s) && from <= |s| && Rewritten(d, was, 0, from, to, done) &&
    Drop(s, dead) == done + Drop(s[from..], dead)
  }

  lemma {:induction false} DroppingStart(d: seq<Byte>, s: seq<Byte>, dead: seq<Byte>)
    requires CString(d, 0, s)
    ensures Dropping(d, d, s, dead, 0, 0, [])
  {
    assert s[0..] == s;
    assert [] + Drop(s, dead) == Drop(s, dead);
  }

  lemma {:induction false} DroppingSkips(d: seq<Byte>, was: seq<Byte>, s: seq<Byte>, dead: seq<Byte>, from: nat,
      to: nat, done: seq<Byte>)
    requires Dropping(d, was, s, dead, from, to, done) && Starts(s[from..], Slashed(dead))
    ensures from + |dead| + 1 <= |s|
    ensures Dropping(d, was, s, dead, from + |dead| + 1, to, done)
  {
    assert s[from..][|dead| + 1..] == s[from + |dead| + 1..];
  }

  method DropStep(url: array<Byte>, from: nat, to: nat, ghost was: seq<Byte>, ghost s: seq<Byte>,
      ghost dead: seq<Byte>, ghost done: seq<Byte>)
    returns (ghost more: seq<Byte>)
    requires Dropping(url[..], was, s, dead, from, to, done) && from < |s| && !Starts(s[from..], Slashed(dead))
    modifies url
    ensures Dropping(url[..], was, s, dead, from + 1, to + 1, more)
  {
    more := done + [s[from]];
    assert s[from..][1..] == s[from + 1..];
    assert done + ([s[from]] + Drop(s[from + 1..], dead)) == more + Drop(s[from + 1..], dead);
    Put(url, 0, from, to, url[from], was, done);
  }

  lemma {:induction false} StartsEmpty(s: seq<Byte>, from: nat)
    requires from < |s|
    ensures Starts(s[from..], Slashed(EMPTY)) <==> s[from] == SLASH && from + 1 < |s| && s[from + 1] == SLASH
  {
    if from + 1 < |s| { assert s[from..][..2] == [s[from], s[from + 1]]; }
  }

  lemma {:induction false} StartsDot(s: seq<Byte>, from: nat)
    requires from < |s|
    ensures Starts(s[from..], Slashed(ONE_DOT)) <==>
      s[from] == SLASH && from + 2 < |s| && s[from + 1] == DOT && s[from + 2] == SLASH
  {
    if from + 2 < |s| { assert s[from..][..3] == [s[from], s[from + 1], s[from + 2]]; }
  }

  lemma {:induction false} StartsDots(s: seq<Byte>, from: nat)
    requires from < |s|
    ensures Starts(s[from..], Slashed(TWO_DOTS)) <==>
      s[from] == SLASH && from + 3 < |s| && s[from + 1] == DOT && s[from + 2] == DOT && s[from + 3] == SLASH
  {
    if from + 3 < |s| { assert s[from..][..4] == [s[from], s[from + 1], s[from + 2], s[from + 3]]; }
  }

  /** First pass: multiple slashes. */
  method CollapseSlashes(url: array<Byte>, ghost s: seq<Byte>)
    requires CString(url[..], 0, s)
    modifies url
    ensures CString(url[..], 0, Drop(s, EMPTY))
    ensures forall i | |s| < i < url.Length :: url[i] == old(url[i])
  {
    ghost var was, done := url[..], EMPTY;
    var from: nat, to: nat := 0, 0;
    DroppingStart(was, s, EMPTY);
    while url[from] != 0
      invariant Dropping(url[..], was, s, EMPTY, from, to, done)
      decreases |s| - from
    {
      StartsEmpty(s, from);
      if url[from] == SLASH && url[from + 1] == SLASH {
        DroppingSkips(url[..], was, s, EMPTY, from, to, done);
        from := from + 1;
        continue;
      }
      done := DropStep(url, from, to, was, s, EMPTY, done);
      to := to + 1;
      from := from + 1;
    }
    EndDropping(url, from, to, was, s, EMPTY, done);
  }

  /** Second pass: `./` sequences. */
  method DropDots(url: array<Byte>, ghost s: seq<Byte>)
    requires CString(url[..], 0, s)
    modifies url
    ensures CString(url[..], 0, Drop(s, ONE_DOT))
    ensures forall i | |s| < i < url.Length :: url[i] == old(url[i])
  {
    ghost var was, done := url[..], EMPTY;
    var from: nat, to: nat := 0, 0;
    DroppingStart(was, s, ONE_DOT);
    while url[from] != 0
      invariant Dropping(url[..], was, s, ONE_DOT, from, to, done)
      decreases |s| - from
    {
      StartsDot(s, from);
      if url[from] == SLASH && url[from + 1] == DOT && url[from + 2] == SLASH {
        DroppingSkips(url[..], was, s, ONE_DOT, from, to, done);
        from := from + 2;
        continue;
      }
      done := DropStep(url, from, to, was, s, ONE_DOT, done);
      to := to + 1;
      from := from + 1;
    }
    EndDropping(url, from, to, was, s, ONE_DOT, done);
  }

  method EndDropping(url: array<Byte>, from: nat, to: nat, ghost was: seq<Byte>, ghost s: seq<Byte>,
      ghost dead: seq<Byte>, ghost done: seq<Byte>)
    requires Dropping(url[..], was, s, dead, from, to, done) && url[from] == 0
    modifies url
    ensures CString(url[..], 0, Drop(s, dead))
    ensures forall i | |s| < i < url.Length :: url[i] == was[i]
  {
    assert s[from..] == [] && done + [] == done;
    DropNulFree(s, dead);
    Finish(url, 0, from, to, was, done);
  }

  /** The state of the third pass. */
  ghost predicate Popping(d: seq<Byte>, was: seq<Byte>, s: seq<Byte>, from: nat, to: nat, last: nat, out: seq<Byte>) {
    CString(was, 0, s) && from <= |s| && last <= to && Rewritten(d, was, 0, from, to, out) &&
    Pop(s, [], 0) == Pop(s[from..], out, last)
  }

  lemma {:induction false} PoppingBack(d: seq<Byte>, was: seq<Byte>, s: seq<Byte>, from: nat, to: nat, last: nat,
      out: seq<Byte>)
    requires Popping(d, was, s, from, to, last, out) && Starts(s[from..], Slashed(TWO_DOTS))
    ensures from + 3 <= |s| && Popping(d, was, s, from + 3, last, last, out[..last])
  {
    assert s[from..][3..] == s[from + 3..];
  }

  method PopStep(url: array<Byte>, from: nat, to: nat, last: nat, ghost was: seq<Byte>, ghost s: seq<Byte>,
      ghost out: seq<Byte>)
    returns (ghost more: seq<Byte>)
    requires Popping(url[..], was, s, from, to, last, out) && from < |s| && !Starts(s[from..], Slashed(TWO_DOTS))
    modifies url
    ensures Popping(url[..], was, s, from + 1, to + 1, if s[from] == SLASH then to else last, more)
  {
    more := out + [s[from]];
    assert s[from..][1..] == s[from + 1..];
    Put(url, 0, from, to, url[from], was, out);
  }

  /** Third pass: `/../` sequences. */
  method PopSegments(url: array<Byte>, ghost s: seq<Byte>)
    requires CString(url[..], 0, s)
    modifies url
    ensures CString(url[..], 0, Pop(s, [], 0))
    ensures forall i | |s| < i < url.Length :: url[i] == old(url[i])
  {
    ghost var was, out := url[..], EMPTY;
    var from: nat, to: nat, last: nat := 0, 0, 0;
    assert s[0..] == s;
    while url[from] != 0
      invariant Popping(url[..], was, s, from, to, last, out)
      decreases |s| - from
    {
      StartsDots(s, from);
      if url[from] == SLASH && url[from + 1] == DOT && url[from + 2] == DOT && url[from + 3] == SLASH {
        PoppingBack(url[..], was, s, from, to, last, out);
        out := out[..last];
        to := last;
        from := from + 3;
        continue;
      }
      var slash := url[from] == SLASH;
      out := PopStep(url, from, to, last, was, s, out);
      if slash {
        last := to;
      }
      to := to + 1;
      from := from + 1;
    }
    assert s[from..] == [];
    PopNulFree(s, [], 0);
    Finish(url, 0, from, to, was, out);
  }

  /** `_httpd_sanitiseUrl`. */
  method SanitiseUrl(url: array<Byte>)
    requires 0 in url[..]
    modifies url
    ensures CString(url[..], 0, Sanitised(Text(old(url[..]))))
    ensures |Sanitised(Text(old(url[..])))| <= |Text(old(url[..]))|
    ensures forall i | |Text(old(url[..]))| < i < url.Length :: url[i] == old(url[i])
  {
    ghost var s := Text(url[..]);
    TextCString(url[..]);
    CollapseSlashes(url, s);
    DropLength(s, EMPTY);
    DropDots(url, Drop(s, EMPTY));
    DropLength(Drop(s, EMPTY), ONE_DOT);
    PopSegments(url, Drop(Drop(s, EMPTY), ONE_DOT));
    PopLength(Drop(Drop(s, EMPTY), ONE_DOT), [], 0);
  }

  lemma {:induction false} DropLength(s: seq<Byte>, dead: seq<Byte>)
    ensures |Drop(s, dead)| <= |s|
    decreases |s|
  {
    if s == [] {
    } else if Starts(s, Slashed(dead)) {
      DropLength(s[|dead| + 1..], dead);
    } else {
      DropLength(s[1..], dead);
    }
  }

  lemma {:induction false} PopLength(s: seq<Byte>, out: seq<Byte>, last: nat)
    requires last <= |out|
    ensures |Pop(s, out, last)| <= |s| + |out|
    decreases |s|
  {
    if s == [] {
    } else if Starts(s, Slashed(TWO_DOTS)) {
      PopLength(s[3..], out[..last], last);
    } else {
      PopLength(s[1..], out + [s[0]], if s[0] == SLASH then |out| else last);
    }
  }
}
