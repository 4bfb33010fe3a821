/** `_httpd_decode` and the Basic credentials of `httpdReadRequest` (src/httpd.cpp). */
module Base64 {
  import opened Bytes
  import opened Tokens

  const MAXVAL := 63
  const COLON: Byte := ':' as int
  const HTTP_MAX_AUTH := 128
  const AUTH_BUF := 100

  // ----- The alphabet -----

  /** `six2pr`. */
  function Six(i: nat): Byte
    requires i < 64
  {
    if i < 26 then 'A' as int + i
    else if i < 52 then 'a' as int + i - 26
    else if i < 62 then '0' as int + i - 52
    else if i == 62 then '+' as int
    else '/' as int
  }

  /** The inverse of `six2pr`; 64 for what is not in the alphabet. */
  function Dec(c: Byte): (v: nat)
    ensures v <= 64
  {
    if 'A' as int <= c <= 'Z' as int then c - 'A' as int
    else if 'a' as int <= c <= 'z' as int then c - 'a' as int + 26
    else if '0' as int <= c <= '9' as int then c - '0' as int + 52
    else if c == '+' as int then 62
    else if c == '/' as int then 63
    else 64
  }

  lemma {:induction false} DecSix(i: nat)
    requires i < 64
    ensures Dec(Six(i)) == i
  {
  }

  lemma {:induction false} SixDec(c: Byte)
    ensures Dec(c) < 64 ==> Six(Dec(c)) == c
  {
  }

  /** The initialisation of `pr2six`. */
  method BuildTable() returns (pr2six: array<nat>)
    ensures fresh(pr2six) && pr2six.Length == 256
    ensures forall c: Byte :: pr2six[c] == Dec(c)
  {
    pr2six := new nat[256](_ => MAXVAL + 1);
    for j := 0 to 64
      invariant forall c: Byte :: pr2six[c] == if Dec(c) < j then Dec(c) else 64
    {
      DecSix(j);
      pr2six[Six(j)] := j;
      forall c: Byte
        ensures pr2six[c] == if Dec(c) < j + 1 then Dec(c) else 64
      {
        SixDec(c);
      }
    }
  }

  // ----- Bitwise or -----

  function Or(a: nat, b: nat): nat
    decreases a + b
  {
    if a == 0 && b == 0 then 0
    else (if a % 2 == 1 || b % 2 == 1 then 1 else 0) + 2 * Or(a / 2, b / 2)
  }

  lemma {:induction false} OrZero(a: nat)
    ensures Or(a, 0) == a
  {
    if a != 0 { OrZero(a / 2); }
  }

  lemma {:induction false} OrShift(x: nat, y: nat)
    ensures Or(2 * x, y) == 2 * Or(x, y / 2) + y % 2
  {
    assert 2 * x / 2 == x;
    if x == 0 && y == 0 { OrZero(0); }
  }

  /** Bits that do not overlap are added. */
  lemma {:induction false} Or4(h: nat, l: nat)
    requires l < 4
    ensures Or(4 * h, l) == 4 * h + l
  {
    OrShift(2 * h, l);
    OrShift(h, l / 2);
    OrZero(h);
  }

  lemma {:induction false} Or16(h: nat, l: nat)
    requires l < 16
    ensures Or(16 * h, l) == 16 * h + l
  {
    OrShift(8 * h, l);
    OrShift(4 * h, l / 2);
    Or4(h, l / 2 / 2);
  }

  lemma {:induction false} Or64(h: nat, l: nat)
    requires l < 64
    ensures Or(64 * h, l) == 64 * h + l
  {
    OrShift(32 * h, l);
    OrShift(16 * h, l / 2);
    Or16(h, l / 2 / 2);
  }

  /** Table 1 of RFC 4648: the values of the letters, the digits and the last two characters. */
  lemma {:induction false} AlphabetIs(i: nat)
    ensures i < 26 ==> Dec('A' as int + i) == i && Dec('a' as int + i) == 26 + i
    ensures i < 10 ==> Dec('0' as int + i) == 52 + i
    ensures Dec('+' as int) == 62 && Dec('/' as int) == 63
  {
  }

  // ----- What is decoded -----

  /** Three octets from four characters, in `unsigned char` arithmetic. */
  function First(c0: Byte, c1: Byte): Byte {
    Or(4 * Dec(c0), Dec(c1) / 16) % 256
  }

  function Second(c1: Byte, c2: Byte): Byte {
    Or(16 * Dec(c1), Dec(c2) / 4) % 256
  }

  function Third(c2: Byte, c3: Byte): Byte {
    Or(64 * Dec(c2), Dec(c3)) % 256
  }

  function Group(s: seq<Byte>, i: nat): seq<Byte>
    requires i + 4 <= |s|
  {
    [First(s[i], s[i + 1]), Second(s[i + 1], s[i + 2]), Third(s[i + 2], s[i + 3])]
  }

  /** Three octets have the 24 bits of four characters, in order. */
  lemma {:induction false} GroupBits(c0: Byte, c1: Byte, c2: Byte, c3: Byte)
    requires Dec(c0) < 64 && Dec(c1) < 64 && Dec(c2) < 64 && Dec(c3) < 64
    ensures First(c0, c1) as int * 0x10000 + Second(c1, c2) as int * 0x100 + Third(c2, c3) ==
      Dec(c0) * 0x40000 + Dec(c1) * 0x1000 + Dec(c2) * 0x40 + Dec(c3)
  {
    FirstBits(c0, c1);
    SecondBits(c1, c2);
    ThirdBits(c2, c3);
  }

  lemma {:induction false} FirstBits(c0: Byte, c1: Byte)
    requires Dec(c0) < 64 && Dec(c1) < 64
    ensures First(c0, c1) == 4 * Dec(c0) + Dec(c1) / 16
  {
    Bits4(Dec(c0), Dec(c1) / 16);
  }

  lemma {:induction false} Bits4(s: nat, l: nat)
    requires s < 64 && l < 4
    ensures Or(4 * s, l) % 256 == 4 * s + l
  {
    Or4(s, l);
  }

  lemma {:induction false} SecondBits(c1: Byte, c2: Byte)
    requires Dec(c1) < 64 && Dec(c2) < 64
    ensures Second(c1, c2) == Dec(c1) % 16 * 16 + Dec(c2) / 4
  {
    Bits16(Dec(c1), Dec(c2) / 4);
  }

  lemma {:induction false} Bits16(s: nat, l: nat)
    requires l < 16
    ensures Or(16 * s, l) % 256 == s % 16 * 16 + l
  {
    OrByte16(s, l, s / 16, s % 16 * 16 + l);
  }

  lemma {:induction false} ThirdBits(c2: Byte, c3: Byte)
    requires Dec(c2) < 64 && Dec(c3) < 64
    ensures Third(c2, c3) == Dec(c2) % 4 * 64 + Dec(c3)
  {
    Bits64(Dec(c2), Dec(c3));
  }

  lemma {:induction false} Bits64(s: nat, l: nat)
    requires l < 64
    ensures Or(64 * s, l) % 256 == s % 4 * 64 + l
  {
    OrByte64(s, l, s / 4, s % 4 * 64 + l);
  }

  function Plain(s: seq<Byte>, i: nat, groups: nat): (r: seq<Byte>)
    requires i + 4 * groups <= |s|
    ensures |r| == 3 * groups
    decreases groups
  {
    if groups == 0 then [] else Group(s, i) + Plain(s, i + 4, groups - 1)
  }

  /** The first character that is neither a blank nor a tab. */
  function SkipFrom(s: seq<Byte>, i: nat): (b: nat)
    requires i <= |s|
    ensures i <= b <= |s|
    decreases |s| - i
  {
    if i < |s| && (s[i] == SPACE || s[i] == TAB) then SkipFrom(s, i + 1) else i
  }

  /** The first character outside the alphabet. */
  function RunEnd(s: seq<Byte>, i: nat): (e: nat)
    requires i <= |s|
    ensures i <= e <= |s|
    decreases |s| - i
  {
    if i < |s| && Dec(s[i]) <= MAXVAL then RunEnd(s, i + 1) else i
  }

  /** Where the code starts, and how many characters it has. */
  function Start(s: seq<Byte>): nat {
    SkipFrom(s, 0)
  }

  function Count(s: seq<Byte>): nat {
    RunEnd(s, Start(s)) - Start(s)
  }

  function Groups(s: seq<Byte>): nat {
    (Count(s) + 3) / 4
  }

  /** The code ends within the text, and whole groups can be read. */
  ghost predicate Readable(s: seq<Byte>) {
    RunEnd(s, Start(s)) < |s| && Start(s) + 4 * Groups(s) <= |s|
  }

  /** The output buffer holds whole groups, and the terminator. */
  ghost predicate Fits(s: seq<Byte>, outbufsize: nat) {
    Readable(s) && 3 * Groups(s) <= outbufsize && (Count(s) % 4 == 0 ==> 3 * Groups(s) < outbufsize)
  }

  /** `nprbytes` as the loop starts: fewer if the buffer looks too small. */
  function Shortened(n: nat, outbufsize: nat): nat {
    if (n + 3) / 4 * 3 > outbufsize then outbufsize * 4 / 3 else n
  }

  function LoopGroups(n: nat, outbufsize: nat): nat {
    (Shortened(n, outbufsize) + 3) / 4
  }

  /** What is taken off the length if the last group read is not full. */
  function Correction(s: seq<Byte>, outbufsize: nat): nat {
    var third := Start(s) + 4 * LoopGroups(Count(s), outbufsize) - 2;
    if Shortened(Count(s), outbufsize) % 4 == 0 then 0
    else if 0 <= third < |s| && Dec(s[third]) > MAXVAL then 2 else 1
  }

  /** Every octet the loop writes, and the terminator, is inside the buffer. */
  predicate StaysInside(s: seq<Byte>, outbufsize: nat) {
    3 * LoopGroups(Count(s), outbufsize) <= outbufsize && 3 * Groups(s) - Correction(s, outbufsize) < outbufsize
  }

  lemma {:induction false} ShortenedGroups(n: nat, groups: nat, outbufsize: nat)
    requires groups == (n + 3) / 4 && 3 * groups > outbufsize
    ensures Shortened(n, outbufsize) == outbufsize * 4 / 3
    ensures 3 * LoopGroups(n, outbufsize) <= outbufsize ==> outbufsize % 3 == 0 && Shortened(n, outbufsize) % 4 == 0
  {
    var q, r := outbufsize / 3, outbufsize % 3;
    assert outbufsize == 3 * q + r;
    assert outbufsize * 4 / 3 == 4 * q + r * 4 / 3;
  }

  /** The writes stay inside the buffer if and only if it fits: where the source reads
      fewer characters, it still keeps the length of all of them. */
  lemma {:induction false} StaysInsideIff(s: seq<Byte>, outbufsize: nat)
    requires Readable(s)
    ensures StaysInside(s, outbufsize) <==> Fits(s, outbufsize)
  {
    var n, groups := Count(s), Groups(s);
    if 3 * groups > outbufsize {
      ShortenedGroups(n, groups, outbufsize);
    } else {
      LastQuad(n, groups);
    }
  }

  /** `nbytesdecoded`: a group that is not full gives two octets or one, by its third character. */
  function DecodedLength(s: seq<Byte>): (n: nat)
    requires Start(s) + 4 * Groups(s) <= |s|
    ensures n <= 3 * Groups(s) && (Count(s) % 4 != 0 ==> n < 3 * Groups(s))
  {
    3 * Groups(s) - if Count(s) % 4 == 0 then 0 else if Dec(s[Start(s) + 4 * Groups(s) - 2]) > MAXVAL then 2 else 1
  }

  function Decoded(s: seq<Byte>): seq<Byte>
    requires Start(s) + 4 * Groups(s) <= |s|
  {
    Plain(s, Start(s), Groups(s))[..DecodedLength(s)]
  }

  // ----- The method -----

  /** The two scans at the front of `_httpd_decode`. */
  method ScanCode(s: seq<Byte>, pr2six: array<nat>) returns (start: nat, n: nat)
    requires RunEnd(s, Start(s)) < |s| && pr2six.Length == 256 && forall c: Byte :: pr2six[c] == Dec(c)
    ensures start == Start(s) && n == Count(s)
  {
    start := 0;
    while start < |s| && (s[start] == SPACE || s[start] == TAB)
      invariant start <= |s| && SkipFrom(s, start) == Start(s)
    {
      start := start + 1;
    }
    var bufin := start;
    while pr2six[s[bufin]] <= MAXVAL
      invariant start <= bufin <= RunEnd(s, start) && RunEnd(s, bufin) == RunEnd(s, start)
      decreases |s| - bufin
    {
      bufin := bufin + 1;
    }
    n := bufin - start;
  }

  ghost predicate Decoding(d: seq<Byte>, was: seq<Byte>, s: seq<Byte>, start: nat, groups: nat, k: nat,
      done: seq<Byte>) {
    k <= groups && start + 4 * groups <= |s| && Overlaid(d, was, 0, done) && |done| == 3 * k &&
    Plain(s, start, groups) == done + Plain(s, start + 4 * k, groups - k)
  }

  /** One turn of the decoding loop. */
  method DecodeGroup(s: seq<Byte>, pr2six: array<nat>, bufplain: array<Byte>, start: nat, bufin: nat, bufout: nat,
      ghost groups: nat, ghost k: nat, ghost was: seq<Byte>, ghost done: seq<Byte>)
    returns (ghost more: seq<Byte>)
    requires pr2six.Length == 256 && forall c: Byte :: pr2six[c] == Dec(c)
    requires Decoding(bufplain[..], was, s, start, groups, k, done) && k < groups
    requires bufin == start + 4 * k && bufout == 3 * k && bufout + 3 <= bufplain.Length
    modifies bufplain
    ensures Decoding(bufplain[..], was, s, start, groups, k + 1, more)
  {
    var c0, c1, c2, c3 := pr2six[s[bufin]], pr2six[s[bufin + 1]], pr2six[s[bufin + 2]], pr2six[s[bufin + 3]];
    more := done + Group(s, bufin);
    Associate(done, Group(s, bufin), Plain(s, bufin + 4, groups - k - 1));
    var group: seq<Byte> := [Or(4 * c0, c1 / 16) % 256, Or(16 * c1, c2 / 4) % 256, Or(64 * c2, c3) % 256];
    Append(bufplain, bufout, group, was, 0, done);
  }

  /** The decoding loop, and what it leaves in `nprbytes`. */
  method DecodeGroups(s: seq<Byte>, pr2six: array<nat>, bufplain: array<Byte>, start: nat, n: nat,
      ghost groups: nat)
    returns (nprbytes: int, bufin: nat)
    requires pr2six.Length == 256 && forall c: Byte :: pr2six[c] == Dec(c)
    requires n <= 4 * groups < n + 4 && start + 4 * groups <= |s| && 3 * groups <= bufplain.Length
    modifies bufplain
    ensures Overlaid(bufplain[..], old(bufplain[..]), 0, Plain(s, start, groups))
    ensures bufin == start + 4 * groups && nprbytes == n - 4 * groups
  {
    nprbytes := n;
    bufin := start;
    var bufout := 0;
    ghost var was, done, k := bufplain[..], [], 0;
    NoneDecoded(was, s, start, groups);
    while nprbytes > 0
      invariant Decoding(bufplain[..], was, s, start, groups, k, done)
      invariant bufin == start + 4 * k && bufout == 3 * k && nprbytes == n - 4 * k
      decreases groups - k
    {
      done := DecodeGroup(s, pr2six, bufplain, start, bufin, bufout, groups, k, was, done);
      bufin, bufout, nprbytes, k := bufin + 4, bufout + 3, nprbytes - 4, k + 1;
    }
    assert k == groups;
    AllDecoded(bufplain[..], was, s, start, groups, done);
  }

  lemma {:induction false} AllDecoded(d: seq<Byte>, was: seq<Byte>, s: seq<Byte>, start: nat, groups: nat,
      done: seq<Byte>)
    requires Decoding(d, was, s, start, groups, groups, done)
    ensures Overlaid(d, was, 0, Plain(s, start, groups))
  {
    assert done + [] == done;
  }

  lemma {:induction false} NoneDecoded(d: seq<Byte>, s: seq<Byte>, start: nat, groups: nat)
    requires start + 4 * groups <= |s|
    ensures Decoding(d, d, s, start, groups, 0, [])
  {
    assert [] + Plain(s, start, groups) == Plain(s, start, groups);
  }

  lemma {:induction false} LastQuad(n: nat, groups: nat)
    requires n <= 4 * groups < n + 4
    ensures (n - 4 * groups) % 4 == 0 <==> n == 4 * groups
    ensures n % 4 == 0 <==> n == 4 * groups
  {
  }

  /** The corrections for a group that is not full. */
  method Adjust(s: seq<Byte>, pr2six: array<nat>, nprbytes: int, bufin: nat, full: nat) returns (nbytesdecoded: nat)
    requires pr2six.Length == 256 && forall c: Byte :: pr2six[c] == Dec(c)
    requires bufin == Start(s) + 4 * Groups(s) <= |s| && nprbytes == Count(s) - 4 * Groups(s) && full == 3 * Groups(s)
    ensures nbytesdecoded == DecodedLength(s)
  {
    LastQuad(Count(s), Groups(s));
    nbytesdecoded := full;
    if nprbytes % 4 != 0 {
      if pr2six[s[bufin - 2]] > MAXVAL {
        nbytesdecoded := nbytesdecoded - 2;
      } else {
        nbytesdecoded := nbytesdecoded - 1;
      }
    }
  }

  lemma {:induction false} Prefix(d: seq<Byte>, was: seq<Byte>, plain: seq<Byte>, n: nat)
    requires Overlaid(d, was, 0, plain) && n <= |plain|
    ensures n <= |d| && d[..n] == plain[..n]
  {
    OverlaidWhole(d, was, plain);
    assert d[..n] == d[..|plain|][..n];
  }

  /** `_httpd_decode`. */
  method Decode(bufcoded: seq<Byte>, bufplain: array<Byte>) returns (nbytesdecoded: nat)
    requires Fits(bufcoded, bufplain.Length)
    modifies bufplain
    ensures nbytesdecoded == |Decoded(bufcoded)| < bufplain.Length
    ensures bufplain[..nbytesdecoded] == Decoded(bufcoded) && bufplain[nbytesdecoded] == 0
  {
    var pr2six := BuildTable();
    var start, n := ScanCode(bufcoded, pr2six);
    ghost var was := bufplain[..];
    nbytesdecoded := (n + 3) / 4 * 3;
    n := Shortened(n, bufplain.Length);
    var nprbytes, bufin := DecodeGroups(bufcoded, pr2six, bufplain, start, n, Groups(bufcoded));
    nbytesdecoded := Adjust(bufcoded, pr2six, nprbytes, bufin, nbytesdecoded);
    Prefix(bufplain[..], was, Plain(bufcoded, start, Groups(bufcoded)), nbytesdecoded);
    Terminate(bufplain, nbytesdecoded);
  }

  method Terminate(bufplain: array<Byte>, n: nat)
    requires n < bufplain.Length
    modifies bufplain
    ensures bufplain[n] == 0 && bufplain[..n] == old(bufplain[..n])
  {
    bufplain[n] := 0;
  }

  // ----- The encoding of section 4 of RFC 4648 -----

  function Encode(d: seq<Byte>): seq<Byte> {
    if d == [] then []
    else if |d| == 1 then [Six(d[0] / 4), Six(d[0] % 4 * 16), EQUALS, EQUALS]
    else if |d| == 2 then [Six(d[0] / 4), Six(d[0] % 4 * 16 + d[1] / 16), Six(d[1] % 16 * 4), EQUALS]
    else Quad(d[0], d[1], d[2]) + Encode(d[3..])
  }

  function Quad(a: Byte, b: Byte, c: Byte): seq<Byte> {
    [Six(a / 4), Six(a % 4 * 16 + b / 16), Six(b % 16 * 4 + c / 64), Six(c % 64)]
  }

  function Quads(d: seq<Byte>): nat {
    if d == [] then 0 else if |d| <= 2 then 1 else 1 + Quads(d[3..])
  }

  function Pad(d: seq<Byte>): nat {
    if d == [] then 0 else if |d| <= 2 then 3 - |d| else Pad(d[3..])
  }

  lemma {:induction false} EncodedLength(d: seq<Byte>)
    ensures |Encode(d)| == 4 * Quads(d) && |d| == 3 * Quads(d) - Pad(d)
    ensures Pad(d) <= 2 && (Pad(d) > 0 ==> Quads(d) > 0)
  {
    if |d| > 2 { EncodedLength(d[3..]); }
  }

  lemma {:induction false} Halves(a: Byte)
    ensures a / 4 < 64 && a % 4 * 16 < 64 && a / 16 < 16 && a % 16 * 4 < 64 && a / 64 < 4 && a % 64 < 64
    ensures a == a / 4 * 4 + a % 4 == a / 16 * 16 + a % 16 == a / 64 * 64 + a % 64
  {
  }

  lemma {:induction false} FirstOf(a: Byte, s1: nat)
    requires s1 < 64 && s1 / 16 == a % 4
    ensures First(Six(a / 4), Six(s1)) == a
  {
    Halves(a);
    var h := a / 4;
    DecSix(h);
    DecSix(s1);
    OrByte(h, s1 / 16, a);
  }

  lemma {:induction false} OrByte(h: nat, l: nat, a: Byte)
    requires l < 4 && a == 4 * h + l
    ensures Or(4 * h, l) % 256 == a
  {
    Or4(h, l);
  }

  lemma {:induction false} Mod256(high: nat, b: Byte)
    ensures (256 * high + b) % 256 == b
  {
  }

  lemma {:induction false} OrByte16(s: nat, l: nat, high: nat, b: Byte)
    requires l < 16 && 16 * s + l == 256 * high + b
    ensures Or(16 * s, l) % 256 == b
  {
    Or16(s, l);
    Mod256(high, b);
  }

  lemma {:induction false} OrByte64(s: nat, l: nat, high: nat, c: Byte)
    requires l < 64 && 64 * s + l == 256 * high + c
    ensures Or(64 * s, l) % 256 == c
  {
    Or64(s, l);
    Mod256(high, c);
  }

  lemma {:induction false} SecondOf(a: Byte, b: Byte, s2: nat)
    requires s2 < 64 && s2 / 4 == b % 16
    ensures Second(Six(a % 4 * 16 + b / 16), Six(s2)) == b
  {
    Halves(a);
    Halves(b);
    var s1 := a % 4 * 16 + b / 16;
    DecSix(s1);
    DecSix(s2);
    OrByte16(s1, s2 / 4, a % 4, b);
  }

  lemma {:induction false} ThirdOf(b: Byte, c: Byte)
    ensures Third(Six(b % 16 * 4 + c / 64), Six(c % 64)) == c
  {
    Halves(b);
    Halves(c);
    var s2, s3 := b % 16 * 4 + c / 64, c % 64;
    DecSix(s2);
    DecSix(s3);
    OrByte64(s2, s3, b % 16, c);
  }

  lemma {:induction false} QuadDecodes(a: Byte, b: Byte, c: Byte)
    ensures var q := Quad(a, b, c);
      First(q[0], q[1]) == a && Second(q[1], q[2]) == b && Third(q[2], q[3]) == c
  {
    Halves(a);
    Halves(b);
    Halves(c);
    FirstOf(a, a % 4 * 16 + b / 16);
    SecondOf(a, b, b % 16 * 4 + c / 64);
    ThirdOf(b, c);
  }

  /** The first full group of an encoding. */
  lemma {:induction false} FullGroup(s: seq<Byte>, i: nat, d: seq<Byte>)
    requires |d| >= 3 && Holds(s, i, Encode(d))
    ensures i + 4 <= |s| && Group(s, i) == d[..3] && Holds(s, i + 4, Encode(d[3..]))
    ensures forall k | i <= k < i + 4 :: Dec(s[k]) < 64
  {
    var q := Quad(d[0], d[1], d[2]);
    HoldsSplit(s, i, q, Encode(d[3..]));
    forall k: nat | k < 4
      ensures i + 4 <= |s| && s[i + k] == q[k] && Dec(q[k]) < 64
    {
      HoldsAt(s, i, q, k);
      QuadValid(d[0], d[1], d[2], k);
    }
    assert s[i] == s[i + 0];
    QuadDecodes(d[0], d[1], d[2]);
  }

  lemma {:induction false} QuadValid(a: Byte, b: Byte, c: Byte, k: nat)
    requires k < 4
    ensures Dec(Quad(a, b, c)[k]) < 64
  {
    Halves(a);
    Halves(b);
    Halves(c);
    DecSix(a / 4);
    DecSix(a % 4 * 16 + b / 16);
    DecSix(b % 16 * 4 + c / 64);
    DecSix(c % 64);
  }

  lemma {:induction false} HoldsFour(s: seq<Byte>, i: nat, e: seq<Byte>)
    requires |e| == 4 && Holds(s, i, e)
    ensures i + 4 <= |s| && s[i] == e[0] && s[i + 1] == e[1] && s[i + 2] == e[2] && s[i + 3] == e[3]
  {
    HoldsSlice(s, i, e);
    assert s[i..i + 4] == e;
  }

  lemma {:induction false} LastOne(s: seq<Byte>, i: nat, a: Byte)
    requires Holds(s, i, [Six(a / 4), Six(a % 4 * 16), EQUALS, EQUALS])
    ensures i + 4 <= |s| && First(s[i], s[i + 1]) == a
    ensures Dec(s[i]) < 64 && Dec(s[i + 1]) < 64 && Dec(s[i + 2]) == 64
  {
    HoldsFour(s, i, [Six(a / 4), Six(a % 4 * 16), EQUALS, EQUALS]);
    Halves(a);
    DecSix(a / 4);
    DecSix(a % 4 * 16);
    FirstOf(a, a % 4 * 16);
  }

  lemma {:induction false} LastTwo(s: seq<Byte>, i: nat, a: Byte, b: Byte)
    requires Holds(s, i, [Six(a / 4), Six(a % 4 * 16 + b / 16), Six(b % 16 * 4), EQUALS])
    ensures i + 4 <= |s| && First(s[i], s[i + 1]) == a && Second(s[i + 1], s[i + 2]) == b
    ensures Dec(s[i]) < 64 && Dec(s[i + 1]) < 64 && Dec(s[i + 2]) < 64 && Dec(s[i + 3]) == 64
  {
    HoldsFour(s, i, [Six(a / 4), Six(a % 4 * 16 + b / 16), Six(b % 16 * 4), EQUALS]);
    Halves(a);
    Halves(b);
    DecSix(a / 4);
    DecSix(a % 4 * 16 + b / 16);
    DecSix(b % 16 * 4);
    FirstOf(a, a % 4 * 16 + b / 16);
    SecondOf(a, b, b % 16 * 4);
  }

  /** The scan stops at the padding, or behind the code. */
  lemma {:induction false} EncodedEnd(s: seq<Byte>, i: nat, d: seq<Byte>)
    requires Holds(s, i, Encode(d)) && i + 4 * Quads(d) < |s| && Dec(s[i + 4 * Quads(d)]) == 64
    ensures Pad(d) <= 4 * Quads(d) && RunEnd(s, i) == i + 4 * Quads(d) - Pad(d)
    decreases |d|
  {
    if |d| == 1 {
      LastOne(s, i, d[0]);
      assert RunEnd(s, i + 1) == i + 2;
    } else if |d| == 2 {
      LastTwo(s, i, d[0], d[1]);
      assert RunEnd(s, i + 1) == RunEnd(s, i + 2) == i + 3;
    } else if d != [] {
      FullGroup(s, i, d);
      EncodedEnd(s, i + 4, d[3..]);
      assert RunEnd(s, i + 1) == RunEnd(s, i + 2) == RunEnd(s, i + 3);
    }
  }

  /** The groups of an encoding give its data back, ahead of what the padding decodes to. */
  lemma {:induction false} EncodedPlain(s: seq<Byte>, i: nat, d: seq<Byte>) returns (rest: seq<Byte>)
    requires Holds(s, i, Encode(d))
    ensures i + 4 * Quads(d) <= |s| && Plain(s, i, Quads(d)) == d + rest
    decreases |d|
  {
    if d == [] {
      rest := [];
    } else if |d| == 1 {
      LastOne(s, i, d[0]);
      rest := Group(s, i)[1..];
      assert Plain(s, i, 1) == Group(s, i) + Plain(s, i + 4, 0) == d + rest;
    } else if |d| == 2 {
      LastTwo(s, i, d[0], d[1]);
      rest := Group(s, i)[2..];
      assert Plain(s, i, 1) == Group(s, i) + Plain(s, i + 4, 0) == d + rest;
    } else {
      FullGroup(s, i, d);
      rest := EncodedPlain(s, i + 4, d[3..]);
      assert d == d[..3] + d[3..];
      Associate(d[..3], d[3..], rest);
    }
  }

  /** The third character of the last group tells how much padding there is. */
  lemma {:induction false} EncodedPad(s: seq<Byte>, i: nat, d: seq<Byte>)
    requires Holds(s, i, Encode(d)) && Pad(d) > 0
    ensures 0 < Quads(d) && i + 4 * Quads(d) <= |s| && (Dec(s[i + 4 * Quads(d) - 2]) == 64 <==> Pad(d) == 2)
    decreases |d|
  {
    if |d| == 1 {
      LastOne(s, i, d[0]);
    } else if |d| == 2 {
      LastTwo(s, i, d[0], d[1]);
    } else {
      FullGroup(s, i, d);
      EncodedPad(s, i + 4, d[3..]);
    }
  }

  ghost predicate Blanks(s: seq<Byte>) {
    forall i | 0 <= i < |s| :: s[i] == SPACE || s[i] == TAB
  }

  lemma {:induction false} SkipBlanks(s: seq<Byte>, i: nat, b: nat)
    requires i <= b < |s| && s[b] != SPACE && s[b] != TAB
    requires forall k | i <= k < b :: s[k] == SPACE || s[k] == TAB
    ensures SkipFrom(s, i) == b
    decreases b - i
  {
    if i < b { SkipBlanks(s, i + 1, b); }
  }

  /** The text of a header: blanks, an encoding and a terminator. */
  function Coded(blanks: seq<Byte>, d: seq<Byte>, tail: seq<Byte>): seq<Byte> {
    blanks + Encode(d) + [0] + tail
  }

  lemma {:induction false} CodedStart(blanks: seq<Byte>, d: seq<Byte>, tail: seq<Byte>)
    requires Blanks(blanks)
    ensures var s := Coded(blanks, d, tail); var b := |blanks|;
      Start(s) == b && Holds(s, b, Encode(d)) && b + |Encode(d)| < |s| && s[b + |Encode(d)|] == 0
  {
    var s, b := Coded(blanks, d, tail), |blanks|;
    HoldsSlice(s, b, Encode(d));
    assert s[b..b + |Encode(d)|] == Encode(d);
    assert s[b] == if d == [] then 0 else Encode(d)[0];
    forall k | 0 <= k < b
      ensures s[k] == SPACE || s[k] == TAB
    {
      assert s[k] == blanks[k];
    }
    if d != [] {
      Halves(d[0]);
      SixVisible(d[0] / 4);
    }
    SkipBlanks(s, 0, b);
  }

  lemma {:induction false} SixVisible(i: nat)
    requires i < 64
    ensures Six(i) != SPACE && Six(i) != TAB
  {
  }

  /** Decoding the encoding of any octets gives exactly these octets and their number,
      behind any leading blanks and whatever follows the terminator. */
  lemma {:induction false} DecodeEncode(blanks: seq<Byte>, d: seq<Byte>, tail: seq<Byte>)
    requires Blanks(blanks)
    ensures var s := Coded(blanks, d, tail);
      Start(s) + 4 * Groups(s) <= |s| && Decoded(s) == d && RunEnd(s, Start(s)) < |s| &&
      Groups(s) == Quads(d) && Count(s) == 4 * Quads(d) - Pad(d)
  {
    var s, b := Coded(blanks, d, tail), |blanks|;
    CodedStart(blanks, d, tail);
    EncodedLength(d);
    EncodedEnd(s, b, d);
    var rest := EncodedPlain(s, b, d);
    if Pad(d) > 0 { EncodedPad(s, b, d); }
    QuadCount(Quads(d), Pad(d));
    LengthOf(s, d);
    assert (d + rest)[..|d|] == d;
  }

  lemma {:induction false} QuadCount(q: nat, p: nat)
    requires p <= 2 && (p > 0 ==> q > 0)
    ensures (4 * q - p + 3) / 4 == q && ((4 * q - p) % 4 == 0 <==> p == 0)
  {
  }

  lemma {:induction false} LengthOf(s: seq<Byte>, d: seq<Byte>)
    requires Count(s) == 4 * Quads(d) - Pad(d) && Groups(s) == Quads(d) && Start(s) + 4 * Groups(s) <= |s|
    requires Pad(d) > 0 ==> Quads(d) > 0 && (Dec(s[Start(s) + 4 * Quads(d) - 2]) == 64 <==> Pad(d) == 2)
    ensures DecodedLength(s) == |d|
  {
    EncodedLength(d);
    QuadCount(Quads(d), Pad(d));
  }

  /** The encoding fits the output buffer exactly when the data leave room for a
      terminator and the padding. */
  lemma {:induction false} EncodingFits(blanks: seq<Byte>, d: seq<Byte>, tail: seq<Byte>, outbufsize: nat)
    requires Blanks(blanks)
    ensures Fits(Coded(blanks, d, tail), outbufsize) <==>
      3 * Quads(d) <= outbufsize && |d| < outbufsize
  {
    DecodeEncode(blanks, d, tail);
    EncodedLength(d);
    QuadCount(Quads(d), Pad(d));
  }

  // ----- The credentials -----

  datatype Credentials = Credentials(user: seq<Byte>, password: Option<seq<Byte>>, length: nat)

  /** The decoded text cut at its first colon; without one there is no password. */
  function SplitCredentials(t: seq<Byte>): Credentials {
    var k := IndexOf(t, COLON);
    Credentials(Strncpy(t[..k], HTTP_MAX_AUTH), if k < |t| then Some(Strncpy(t[k + 1..], HTTP_MAX_AUTH)) else None, |t|)
  }

  /** The Basic branch of `httpdReadRequest`, on the text behind `Basic `. */
  method Authorise(cp: seq<Byte>) returns (c: Credentials)
    requires Fits(cp, AUTH_BUF)
    ensures c == SplitCredentials(Text(Decoded(cp) + [0]))
  {
    var authBuf := new Byte[AUTH_BUF](_ => 0);
    var n := Decode(cp, authBuf);
    SameText(authBuf[..], Decoded(cp));
    c := CutAtColon(authBuf);
  }

  method CutAtColon(authBuf: array<Byte>) returns (c: Credentials)
    requires StrLen(authBuf[..]) < authBuf.Length
    modifies authBuf
    ensures c == SplitCredentials(Text(old(authBuf[..])))
  {
    ghost var t := Text(authBuf[..]);
    var authLength := StrLen(authBuf[..]);
    var colon := Tokens.Find(authBuf[..authLength], COLON, 0);
    FindFromIs(t, COLON, 0);
    assert t[0..] == t;
    var password: Option<seq<Byte>> := None;
    if colon < authLength {
      var behind := TextBehind(authBuf, colon + 1, t);
      password := Some(Strncpy(behind, HTTP_MAX_AUTH));
      authBuf[colon] := 0;
    }
    assert authBuf[..][..colon] == t[..colon];
    StrLenOf(authBuf[..], colon);
    c := Credentials(Strncpy(Text(authBuf[..]), HTTP_MAX_AUTH), password, authLength);
  }

  /** The C string from `i` on. */
  method TextBehind(authBuf: array<Byte>, i: nat, ghost t: seq<Byte>) returns (behind: seq<Byte>)
    requires t == Text(authBuf[..]) && i <= |t| == StrLen(authBuf[..]) < authBuf.Length
    ensures behind == t[i..]
  {
    ghost var d := authBuf[i..];
    assert d[..|t| - i] == t[i..];
    StrLenOf(d, |t| - i);
    behind := Text(authBuf[i..]);
  }

  /** Section 2 of RFC 7617: a user without a colon and any password are recovered from
      their encoding, whatever blanks stand before it. */
  lemma {:induction false} CredentialsRoundTrip(blanks: seq<Byte>, user: seq<Byte>, password: seq<Byte>,
      tail: seq<Byte>)
    requires Blanks(blanks) && NulFree(user) && NulFree(password) && COLON !in user
    requires |user| + 1 + |password| < 100
    ensures var s := Coded(blanks, user + [COLON] + password, tail);
      Fits(s, AUTH_BUF) &&
      SplitCredentials(Text(Decoded(s) + [0])) == Credentials(user, Some(password), |user| + 1 + |password|)
  {
    var d := user + [COLON] + password;
    assert NulFree(d);
    CodedText(blanks, d, tail);
    SplitsBack(user, password);
  }

  lemma {:induction false} CodedText(blanks: seq<Byte>, d: seq<Byte>, tail: seq<Byte>)
    requires Blanks(blanks) && NulFree(d) && |d| < AUTH_BUF
    ensures var s := Coded(blanks, d, tail); Fits(s, AUTH_BUF) && Text(Decoded(s) + [0]) == d
  {
    DecodeEncode(blanks, d, tail);
    EncodingFits(blanks, d, tail, AUTH_BUF);
    EncodedLength(d);
    TextOf(d, []);
    assert d + [0] + [] == d + [0];
  }

  lemma {:induction false} SplitsBack(user: seq<Byte>, password: seq<Byte>)
    requires COLON !in user && |user| + 1 + |password| < AUTH_BUF
    ensures SplitCredentials(user + [COLON] + password) == Credentials(user, Some(password), |user| + 1 + |password|)
  {
    var d := user + [COLON] + password;
    IndexOfIs(d, COLON, |user|);
    assert d[..|user|] == user && d[|user| + 1..] == password;
  }
}
