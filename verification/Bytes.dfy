/** Octets, C strings and big-endian words shared by every other module. */
module Bytes {
  type Byte = x: int | 0 <= x < 256

  const DOT: Byte := '.' as int
  const SLASH: Byte := '/' as int
  const EQUALS: Byte := '=' as int
  const SPACE: Byte := ' ' as int
  const TAB: Byte := 9

  /** The size of the fields that hold a URL or a path. */
  const HTTP_MAX_URL := 1024

  datatype Option<T> = None | Some(value: T)

  function Octet(c: char): Byte
    requires c < 256 as char
  {
    c as int
  }

  /** The octets of an ASCII literal. */
  function Ascii(s: string): (b: seq<Byte>)
    requires forall c | c in s :: c < 256 as char
    ensures |b| == |s|
    ensures forall i | 0 <= i < |s| :: b[i] == s[i] as int
  {
    seq(|s|, i requires 0 <= i < |s| => assert s[i] in s; Octet(s[i]))
  }

  /** A text without a terminator in it. */
  predicate NulFree(s: seq<Byte>) {
    forall i | 0 <= i < |s| :: s[i] != 0
  }

  /** `strlen`, reading at most the whole buffer. */
  function StrLen(s: seq<Byte>): (n: nat)
    ensures n <= |s|
    ensures forall i | 0 <= i < n :: s[i] != 0
    ensures n < |s| ==> s[n] == 0
  {
    if s == [] || s[0] == 0 then 0 else 1 + StrLen(s[1..])
  }

  /** The C string a buffer holds. */
  function Text(s: seq<Byte>): (t: seq<Byte>)
    ensures NulFree(t)
  {
    s[..StrLen(s)]
  }

  lemma {:induction false} StrLenOf(s: seq<Byte>, n: nat)
    requires n <= |s| && NulFree(s[..n])
    requires n < |s| ==> s[n] == 0
    ensures StrLen(s) == n && Text(s) == s[..n]
  {
    var m := StrLen(s);
    forall i | 0 <= i < n
      ensures s[i] != 0
    {
      assert s[i] == s[..n][i];
    }
  }

  /** A NUL-free text followed by its terminator reads back as the text. */
  lemma {:induction false} TextOf(t: seq<Byte>, rest: seq<Byte>)
    requires NulFree(t)
    ensures Text(t + [0] + rest) == t
  {
    var s := t + [0] + rest;
    assert s[..|t|] == t;
    StrLenOf(s, |t|);
  }

  /** A buffer that starts with a text and a terminator holds what these two hold. */
  lemma {:induction false} SameText(d: seq<Byte>, t: seq<Byte>)
    requires |t| < |d| && d[..|t|] == t && d[|t|] == 0
    ensures Text(d) == Text(t + [0]) && StrLen(d) == |Text(d)| < |d| && d[StrLen(d)] == 0
  {
    var n := StrLen(t + [0]);
    assert (t + [0])[|t|] == 0;
    forall i | 0 <= i <= n
      ensures d[i] == (t + [0])[i]
    {
      assert i < |t| ==> d[i] == d[..|t|][i];
    }
    assert d[..n] == (t + [0])[..n];
    StrLenOf(d, n);
  }

  /** What `strncpy` leaves in a field of that size whose last octet is then cleared. */
  function Strncpy(t: seq<Byte>, size: nat): seq<Byte>
    requires size > 0
  {
    if |t| < size then t else t[..size - 1]
  }

  lemma {:induction false} Associate(a: seq<Byte>, b: seq<Byte>, c: seq<Byte>)
    ensures a + (b + c) == a + b + c
  {
  }

  function BigEndian16(w: nat): (b: seq<Byte>)
    ensures |b| == 2
  {
    [w / 256 % 256, w % 256]
  }

  lemma {:induction false} Word16(w: nat)
    requires w < 0x10000
    ensures BigEndian16(w)[0] as int * 256 + BigEndian16(w)[1] == w
  {
  }

  /** `text` stands in `p` at `pos`. */
  ghost predicate Holds(p: seq<Byte>, pos: nat, text: seq<Byte>)
    decreases |text|
  {
    if text == [] then pos <= |p| else pos < |p| && p[pos] == text[0] && Holds(p, pos + 1, text[1..])
  }

  lemma {:induction false} HoldsSlice(p: seq<Byte>, pos: nat, text: seq<Byte>)
    ensures Holds(p, pos, text) <==> pos + |text| <= |p| && p[pos..pos + |text|] == text
    decreases |text|
  {
    if text != [] && pos < |p| {
      HoldsSlice(p, pos + 1, text[1..]);
      if pos + |text| <= |p| {
        assert p[pos..pos + |text|] == [p[pos]] + p[pos + 1..pos + |text|];
        assert text == [text[0]] + text[1..];
      }
    }
  }

  lemma {:induction false} HoldsAt(p: seq<Byte>, pos: nat, text: seq<Byte>, i: nat)
    requires Holds(p, pos, text) && i < |text|
    ensures pos + |text| <= |p| && p[pos + i] == text[i]
  {
    HoldsSlice(p, pos, text);
    assert p[pos + i] == p[pos..pos + |text|][i];
  }

  lemma {:induction false} HoldsSplit(p: seq<Byte>, pos: nat, a: seq<Byte>, b: seq<Byte>)
    ensures Holds(p, pos, a + b) <==> Holds(p, pos, a) && Holds(p, pos + |a|, b)
  {
    HoldsSlice(p, pos, a + b);
    HoldsSlice(p, pos, a);
    HoldsSlice(p, pos + |a|, b);
    if pos + |a| + |b| <= |p| {
      var m := pos + |a|;
      var w := p[pos..m + |b|];
      assert w[..|a|] == p[pos..m] && w[|a|..] == p[m..m + |b|];
      assert (a + b)[..|a|] == a && (a + b)[|a|..] == b;
      assert w == w[..|a|] + w[|a|..];
    }
  }

  /** `d` and `was` agree outside the `n` octets from `base` on. */
  ghost predicate SameOutside(d: seq<Byte>, was: seq<Byte>, base: nat, n: nat) {
    |d| == |was| && forall i | 0 <= i < |d| && !(base <= i < base + n) :: d[i] == was[i]
  }

  /** `d` is `was` with `text` laid over it from `base` on. */
  ghost predicate Overlaid(d: seq<Byte>, was: seq<Byte>, base: nat, text: seq<Byte>) {
    Holds(d, base, text) && SameOutside(d, was, base, |text|)
  }

  /** What is laid over the end of an earlier text replaces it. */
  lemma {:induction false} OverlaidOver(e: seq<Byte>, d: seq<Byte>, was: seq<Byte>, base: nat, text: seq<Byte>,
      end: seq<Byte>, more: seq<Byte>)
    requires Overlaid(d, was, base, text + end) && Overlaid(e, d, base + |text|, more) && |end| <= |more|
    ensures Overlaid(e, was, base, text + more)
  {
    HoldsSplit(d, base, text, end);
    HoldsUnder(e, d, base, text, base + |text|, |more|);
    HoldsSplit(e, base, text, more);
  }

  lemma {:induction false} OverlaidTwice(e: seq<Byte>, d: seq<Byte>, was: seq<Byte>, base: nat, text: seq<Byte>,
      more: seq<Byte>)
    requires Overlaid(d, was, base, text) && Overlaid(e, d, base + |text|, more)
    ensures Overlaid(e, was, base, text + more)
  {
    HoldsUnder(e, d, base, text, base + |text|, |more|);
    HoldsSplit(e, base, text, more);
  }

  /** A text survives changes made behind it. */
  lemma {:induction false} HoldsUnder(e: seq<Byte>, d: seq<Byte>, base: nat, text: seq<Byte>, from: nat, n: nat)
    requires Holds(d, base, text) && base + |text| <= from && SameOutside(e, d, from, n)
    ensures Holds(e, base, text)
  {
    HoldsSlice(d, base, text);
    HoldsSlice(e, base, text);
    assert e[base..base + |text|] == d[base..base + |text|];
  }

  /** A text laid over the whole buffer is its content. */
  lemma {:induction false} OverlaidWhole(d: seq<Byte>, was: seq<Byte>, text: seq<Byte>)
    requires Overlaid(d, was, 0, text)
    ensures |text| <= |d| && d[..|text|] == text
    ensures |text| == |d| ==> d == text
  {
    HoldsSlice(d, 0, text);
    assert d[0..|text|] == d[..|text|];
    if |text| == |d| { assert d[..|d|] == d; }
  }

  /** `memcpy` into a buffer at an offset. */
  method Memcpy(dest: array<Byte>, offset: nat, src: seq<Byte>)
    requires offset + |src| <= dest.Length
    modifies dest
    ensures Overlaid(dest[..], old(dest[..]), offset, src)
  {
    for i := 0 to |src|
      invariant forall j | 0 <= j < i :: dest[offset + j] == src[j]
      invariant forall j | 0 <= j < dest.Length && !(offset <= j < offset + i) :: dest[j] == old(dest[j])
    {
      dest[offset + i] := src[i];
    }
    assert dest[..][offset..offset + |src|] == src;
    HoldsSlice(dest[..], offset, src);
  }

  /** `memcpy` right behind what was already laid over `was` from `base` on. */
  method Append(dest: array<Byte>, at: nat, src: seq<Byte>, ghost was: seq<Byte>, ghost base: nat,
      ghost text: seq<Byte>)
    requires Overlaid(dest[..], was, base, text) && at == base + |text|
    requires at + |src| <= dest.Length
    modifies dest
    ensures Overlaid(dest[..], was, base, text + src)
  {
    ghost var before := dest[..];
    Memcpy(dest, at, src);
    OverlaidTwice(dest[..], before, was, base, text, src);
  }

  function Octets16(p: seq<Byte>, pos: nat): nat
    requires pos + 2 <= |p|
  {
    p[pos] as int * 256 + p[pos + 1]
  }

  function Octets32(p: seq<Byte>, pos: nat): nat
    requires pos + 4 <= |p|
  {
    Octets16(p, pos) * 0x10000 + Octets16(p, pos + 2)
  }

  function BigEndian32(w: nat): (b: seq<Byte>)
    ensures |b| == 4
  {
    BigEndian16(w / 0x10000) + BigEndian16(w % 0x10000)
  }

  lemma {:induction false} HoldsWord(p: seq<Byte>, pos: nat, w: nat)
    requires w < 0x10000 && Holds(p, pos, BigEndian16(w))
    ensures pos + 2 <= |p| && Octets16(p, pos) == w
  {
    HoldsAt(p, pos, BigEndian16(w), 0);
    HoldsAt(p, pos, BigEndian16(w), 1);
    Word16(w);
  }

  lemma {:induction false} HoldsLong(p: seq<Byte>, pos: nat, w: nat)
    requires w < 0x1_0000_0000 && Holds(p, pos, BigEndian32(w))
    ensures pos + 4 <= |p| && Octets32(p, pos) == w
  {
    HoldsSplit(p, pos, BigEndian16(w / 0x10000), BigEndian16(w % 0x10000));
    HoldsWord(p, pos, w / 0x10000);
    HoldsWord(p, pos + 2, w % 0x10000);
  }
}
