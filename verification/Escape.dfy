/** `_httpd_escape`, `httpdUrlEncode`, `_httpd_unescape` and `_httpd_from_hex` (src/httpd.cpp). */
module Escape {
  import opened Bytes
  import opened InPlace

  const PERCENT: Byte := '%' as int
  const PLUS: Byte := '+' as int
  const AMPERSAND: Byte := '&' as int
  const QUESTION: Byte := '?' as int

  /** The table `isAcceptable`, from the space on: bit 1 marks what passes unescaped. */
  function IsAcceptable(i: nat): nat {
    match i
    case 0 | 3 | 5 => 0
    case 11 => 6
    case 15 => 4
    case 26 | 27 | 28 | 29 | 30 | 31 => 0
    case 59 | 60 | 61 | 62 | 64 => 0
    case 91 | 92 | 93 | 94 | 95 => 0
    case _ => 7
  }

  /** ACCEPTABLE with the mask URL_XPALPHAS. */
  predicate Acceptable(a: Byte) {
    a != AMPERSAND && 32 <= a < 128 && IsAcceptable(a - 32) / 2 % 2 == 1
  }

  /** The digits `0` to `9`, then `A` to `F`. */
  function HexDigit(i: nat): Byte
    requires i < 16
  {
    if i < 10 then '0' as int + i else 'A' as int + i - 10
  }

  /** `_httpd_from_hex`, in char arithmetic; anything else counts as a small letter. */
  function FromHex(c: Byte): Byte {
    if '0' as int <= c <= '9' as int then c - '0' as int
    else if 'A' as int <= c <= 'F' as int then c - 'A' as int + 10
    else ((c as int) - 'a' as int + 10) % 256
  }

  function EscapeOne(a: Byte): seq<Byte> {
    if Acceptable(a) then [a] else [PERCENT, HexDigit(a / 16), HexDigit(a % 16)]
  }

  function Escaped(s: seq<Byte>): (r: seq<Byte>)
    ensures |r| >= |s|
  {
    if s == [] then [] else EscapeOne(s[0]) + Escaped(s[1..])
  }

  function EscapedFrom(s: seq<Byte>, i: nat): seq<Byte>
    requires i <= |s|
    decreases |s| - i
  {
    if i == |s| then [] else EscapeOne(s[i]) + EscapedFrom(s, i + 1)
  }

  lemma {:induction false} EscapedFromIs(s: seq<Byte>, i: nat)
    requires i <= |s|
    ensures EscapedFrom(s, i) == Escaped(s[i..])
    decreases |s| - i
  {
    if i < |s| {
      EscapedFromIs(s, i + 1);
      assert s[i..][1..] == s[i + 1..];
    }
  }

  /** `unacceptable`: two more octets for each one that needs escaping. */
  function ExtraFrom(s: seq<Byte>, i: nat): nat
    requires i <= |s|
    decreases |s| - i
  {
    if i == |s| then 0 else (if Acceptable(s[i]) then 0 else 2) + ExtraFrom(s, i + 1)
  }

  lemma {:induction false} EscapedLength(s: seq<Byte>, i: nat)
    requires i <= |s|
    ensures |EscapedFrom(s, i)| == |s| - i + ExtraFrom(s, i)
    decreases |s| - i
  {
    if i < |s| { EscapedLength(s, i + 1); }
  }

  /** `_httpd_escape`: the result fills its allocation exactly. */
  method EscapeText(s: seq<Byte>) returns (result: array<Byte>)
    ensures fresh(result) && result.Length == |s| + ExtraFrom(s, 0) + 1
    ensures result[..] == Escaped(s) + [0]
  {
    var extra: nat, i: nat := 0, 0;
    while i < |s|
      invariant i <= |s| && extra + ExtraFrom(s, i) == ExtraFrom(s, 0)
    {
      if !Acceptable(s[i]) {
        extra := extra + 2;
      }
      i := i + 1;
    }
    result := new Byte[i + extra + 1](_ => 0);
    EscapedLength(s, 0);
    FillEscaped(s, result);
  }

  ghost predicate Filling(d: seq<Byte>, was: seq<Byte>, s: seq<Byte>, p: nat, done: seq<Byte>) {
    p <= |s| && Overlaid(d, was, 0, done) && EscapedFrom(s, 0) == done + EscapedFrom(s, p)
  }

  method FillEscaped(s: seq<Byte>, result: array<Byte>)
    requires result.Length == |EscapedFrom(s, 0)| + 1
    modifies result
    ensures result[..] == Escaped(s) + [0]
  {
    ghost var was := result[..];
    ghost var done: seq<Byte> := [];
    var p: nat, q: nat := 0, 0;
    assert [] + EscapedFrom(s, 0) == EscapedFrom(s, 0);
    while p < |s|
      invariant q == |done| && Filling(result[..], was, s, p, done)
    {
      q, done := FillOne(s, result, p, q, was, done);
      p := p + 1;
    }
    assert done + [] == done;
    Append(result, q, [0], was, 0, done);
    OverlaidWhole(result[..], was, done + [0]);
    EscapedFromIs(s, 0);
    assert s[0..] == s;
  }

  method FillOne(s: seq<Byte>, result: array<Byte>, p: nat, q: nat, ghost was: seq<Byte>, ghost done: seq<Byte>)
    returns (next: nat, ghost more: seq<Byte>)
    requires p < |s| && q == |done| && Filling(result[..], was, s, p, done) && result.Length == |EscapedFrom(s, 0)| + 1
    modifies result
    ensures next == |more| && Filling(result[..], was, s, p + 1, more)
  {
    var a := s[p];
    more := done + EscapeOne(a);
    Associate(done, EscapeOne(a), EscapedFrom(s, p + 1));
    if !Acceptable(a) {
      Append(result, q, [PERCENT, HexDigit(a / 16), HexDigit(a % 16)], was, 0, done);
      next := q + 3;
    } else {
      Append(result, q, [a], was, 0, done);
      next := q + 1;
    }
  }

  /** The loop of `httpdUrlEncode` on any text. */
  function Spaced(s: seq<Byte>): seq<Byte> {
    if s == [] then [] else [if s[0] == SPACE then PLUS else s[0]] + Spaced(s[1..])
  }

  lemma {:induction false} SpacedAt(s: seq<Byte>, i: nat)
    requires i < |s|
    ensures |Spaced(s)| == |s| && Spaced(s)[i] == if s[i] == SPACE then PLUS else s[i]
  {
    SpacedLength(s);
    if i > 0 { SpacedAt(s[1..], i - 1); }
  }

  lemma {:induction false} SpacedLength(s: seq<Byte>)
    ensures |Spaced(s)| == |s|
  {
    if s != [] { SpacedLength(s[1..]); }
  }

  /** `httpdUrlEncode`: escapes, then turns every space that is left into a plus. */
  method UrlEncode(s: seq<Byte>) returns (result: array<Byte>)
    requires NulFree(s)
    ensures fresh(result) && result[..] == Escaped(s) + [0]
  {
    result := EscapeText(s);
    ghost var text := Escaped(s);
    var i: nat := 0;
    while result[i] != 0
      invariant i <= |text| && result.Length == |text| + 1
      invariant forall j | 0 <= j < i :: result[j] == if text[j] == SPACE then PLUS else text[j]
      invariant forall j | i <= j < |text| :: result[j] == text[j]
      invariant result[|text|] == 0
      decreases |text| - i
    {
      if result[i] == SPACE {
        result[i] := PLUS;
      }
      i := i + 1;
    }
    forall j | 0 <= j < |text|
      ensures result[j] == text[j]
    {
      EscapedSafe(s);
      assert Safe(text[j]);
    }
    assert result[..] == text + [0];
  }

  // ----- What escaping produces -----

  /** Nothing that separates, ends or blanks a query. */
  predicate Safe(c: Byte) {
    c != 0 && c != AMPERSAND && c != EQUALS && c != SLASH && c != QUESTION && c != SPACE
  }

  ghost predicate AllSafe(s: seq<Byte>) {
    forall i | 0 <= i < |s| :: Safe(s[i])
  }

  lemma {:induction false} OneSafe(a: Byte)
    ensures AllSafe(EscapeOne(a))
    ensures Acceptable(a) ==> a != PERCENT
  {
    if !Acceptable(a) { HexSafe(a / 16); HexSafe(a % 16); }
  }

  lemma {:induction false} HexSafe(i: nat)
    requires i < 16
    ensures Safe(HexDigit(i))
  {
  }

  lemma {:induction false} EscapedSafe(s: seq<Byte>)
    ensures AllSafe(Escaped(s))
  {
    if s != [] {
      OneSafe(s[0]);
      EscapedSafe(s[1..]);
    }
  }

  /** The space-to-plus loop is the identity on escaped text. */
  lemma {:induction false} EscapedSpaced(s: seq<Byte>)
    ensures Spaced(Escaped(s)) == Escaped(s)
  {
    EscapedSafe(s);
    var e := Escaped(s);
    SpacedLength(e);
    forall i | 0 <= i < |e|
      ensures Spaced(e)[i] == e[i]
    {
      SpacedAt(e, i);
      assert Safe(e[i]);
    }
  }

  // ----- _httpd_unescape -----

  /** Decoding from `p` on, with `out` written so far. A `%` with one digit left
      decodes that digit; one with none leaves the octet that stands where the
      result goes. */
  function Unescaped(s: seq<Byte>, p: nat, out: seq<Byte>): seq<Byte>
    requires |out| <= p <= |s|
    decreases |s| - p
  {
    if p == |s| then out
    else if s[p] == PERCENT then
      if p + 1 == |s| then Unescaped(s, p + 1, out + [s[|out|]])
      else if p + 2 == |s| then Unescaped(s, p + 2, out + [High(s[p + 1])])
      else Unescaped(s, p + 3, out + [(High(s[p + 1]) as int + FromHex(s[p + 2])) % 256])
    else Unescaped(s, p + 1, out + [if s[p] == PLUS then SPACE else s[p]])
  }

  function High(c: Byte): Byte {
    FromHex(c) as int * 16 % 256
  }

  ghost predicate Unescaping(d: seq<Byte>, was: seq<Byte>, base: nat, s: seq<Byte>, p: nat, q: nat, out: seq<Byte>) {
    CString(was, base, s) && |out| <= p <= |s| && Rewritten(d, was, base, base + p, base + q, out) && q == |out| &&
    (forall i | base + q <= i < base + p :: d[i] == was[i]) && Unescaped(s, 0, []) == Unescaped(s, p, out)
  }

  /** `_httpd_unescape` of the C string `s` at `base`. */
  method UnescapeText(a: array<Byte>, base: nat, ghost s: seq<Byte>)
    requires CString(a[..], base, s)
    modifies a
    ensures Stored(a[..], base, Unescaped(s, 0, []))
    ensures |Unescaped(s, 0, [])| <= |s|
    ensures forall i | 0 <= i < base || base + |s| < i < a.Length :: a[i] == old(a[i])
  {
    ghost var was := a[..];
    ghost var out: seq<Byte> := [];
    var p: nat, q: nat := 0, 0;
    while a[base + p] != 0
      invariant Unescaping(a[..], was, base, s, p, q, out)
      decreases |s| - p
    {
      if a[base + p] == PERCENT {
        p, out := UnescapeHex(a, base, p, q, was, s, out);
      } else {
        var c := a[base + p];
        out := UnescapePlain(a, base, p, q, if c == PLUS then SPACE else c, was, s, out);
        p := p + 1;
      }
      q := q + 1;
    }
    Finish(a, base, base + p, base + q, was, out);
  }

  method UnescapePlain(a: array<Byte>, base: nat, p: nat, q: nat, c: Byte, ghost was: seq<Byte>, ghost s: seq<Byte>,
      ghost out: seq<Byte>)
    returns (ghost more: seq<Byte>)
    requires Unescaping(a[..], was, base, s, p, q, out) && p < |s| && s[p] != PERCENT
    requires c == if s[p] == PLUS then SPACE else s[p]
    modifies a
    ensures Unescaping(a[..], was, base, s, p + 1, q + 1, more)
  {
    a[base + q] := c;
    more := out + [c];
  }

  /** The branch behind a `%`. */
  method UnescapeHex(a: array<Byte>, base: nat, p: nat, q: nat, ghost was: seq<Byte>, ghost s: seq<Byte>,
      ghost out: seq<Byte>)
    returns (next: nat, ghost more: seq<Byte>)
    requires Unescaping(a[..], was, base, s, p, q, out) && p < |s| && s[p] == PERCENT
    modifies a
    ensures p < next && Unescaping(a[..], was, base, s, next, q + 1, more)
  {
    next := p + 1;
    assert a[base + q] == s[q];
    assert a[base + next] == (if next < |s| then s[next] else 0);
    assert next < |s| ==> a[base + next + 1] == (if next + 1 < |s| then s[next + 1] else 0);
    if a[base + next] != 0 {
      a[base + q] := High(a[base + next]);
      next := next + 1;
    }
    if a[base + next] != 0 {
      a[base + q] := (a[base + q] as int + FromHex(a[base + next])) % 256;
      next := next + 1;
    }
    more := out + [a[base + q]];
  }

  /** The text with every plus turned into a space. */
  function Plussed(s: seq<Byte>): (r: seq<Byte>)
    ensures |r| == |s|
  {
    if s == [] then [] else [if s[0] == PLUS then SPACE else s[0]] + Plussed(s[1..])
  }

  lemma {:induction false} FromHexDigit(i: nat)
    requires i < 16
    ensures FromHex(HexDigit(i)) == i
  {
  }

  lemma {:induction false} HexRoundTrip(a: Byte)
    ensures (High(HexDigit(a / 16)) as int + FromHex(HexDigit(a % 16))) % 256 == a
  {
    var high, low := a / 16, a % 16;
    FromHexDigit(high);
    FromHexDigit(low);
    assert a == high * 16 + low;
  }

  lemma {:induction false} UnescapeOne(pre: seq<Byte>, a: Byte, rest: seq<Byte>, out: seq<Byte>)
    requires |out| <= |pre|
    ensures var s := pre + EscapeOne(a) + rest;
      Unescaped(s, |pre|, out) == Unescaped(s, |pre| + |EscapeOne(a)|, out + [if a == PLUS then SPACE else a])
  {
    var s := pre + EscapeOne(a) + rest;
    OneSafe(a);
    assert s[|pre|] == EscapeOne(a)[0];
    if !Acceptable(a) {
      assert s[|pre| + 1] == EscapeOne(a)[1] && s[|pre| + 2] == EscapeOne(a)[2];
      HexRoundTrip(a);
    }
  }

  lemma {:induction false} UnescapeRest(pre: seq<Byte>, s: seq<Byte>, out: seq<Byte>)
    requires |out| <= |pre|
    ensures Unescaped(pre + Escaped(s), |pre|, out) == out + Plussed(s)
    decreases |s|
  {
    if s == [] {
      assert pre + [] == pre && out + [] == out;
    } else {
      var e, c := EscapeOne(s[0]), if s[0] == PLUS then SPACE else s[0];
      UnescapeOne(pre, s[0], Escaped(s[1..]), out);
      Associate(pre, e, Escaped(s[1..]));
      UnescapeRest(pre + e, s[1..], out + [c]);
      Associate(out, [c], Plussed(s[1..]));
    }
  }

  /** Unescaping an escaped text gives the text with each plus turned into a space. */
  lemma {:induction false} EscapeRoundTrip(s: seq<Byte>)
    ensures Unescaped(Escaped(s), 0, []) == Plussed(s)
    ensures Unescaped(Escaped(s), 0, []) == s <==> PLUS !in s
  {
    UnescapeRest([], s, []);
    assert [] + Escaped(s) == Escaped(s) && [] + Plussed(s) == Plussed(s);
    PlussedSame(s);
  }

  lemma {:induction false} PlussedSame(s: seq<Byte>)
    ensures Plussed(s) == s <==> PLUS !in s
  {
    if s != [] {
      PlussedSame(s[1..]);
      assert s == [s[0]] + s[1..];
      assert Plussed(s)[1..] == Plussed(s[1..]);
    }
  }

  lemma {:induction false} PlussedNulFree(s: seq<Byte>)
    requires NulFree(s)
    ensures NulFree(Plussed(s))
  {
    if s != [] { PlussedNulFree(s[1..]); }
  }

  // ----- Digits of either case -----

  /** The hexadecimal digits of section 2.1 of RFC 3986, in either case. */
  ghost predicate DigitOf(c: Byte, v: nat) {
    v < 16 && (c == "0123456789ABCDEF"[v] as int || c == "0123456789abcdef"[v] as int)
  }

  lemma {:induction false} FromHexOf(c: Byte, v: nat)
    requires DigitOf(c, v)
    ensures FromHex(c) == v
  {
  }

  /** One octet of a coded text: `%` and the two digits of the octet, or the octet itself
      where it is no `%`, with `+` for a space. */
  ghost predicate Codes(code: seq<Byte>, a: Byte) {
    if |code| == 1 then code[0] != '%' as int && a == if code[0] == '+' as int then ' ' as int else code[0]
    else |code| == 3 && code[0] == '%' as int && DigitOf(code[1], a / 16) && DigitOf(code[2], a % 16)
  }

  /** Any way of coding a text, octet by octet. */
  ghost predicate Spells(codes: seq<seq<Byte>>, s: seq<Byte>)
    decreases |codes|
  {
    |codes| == |s| && (codes != [] ==> Codes(codes[0], s[0]) && Spells(codes[1..], s[1..]))
  }

  function Concat(codes: seq<seq<Byte>>): seq<Byte> {
    if codes == [] then [] else codes[0] + Concat(codes[1..])
  }

  lemma {:induction false} UnescapeCode(pre: seq<Byte>, code: seq<Byte>, a: Byte, rest: seq<Byte>, out: seq<Byte>)
    requires |out| <= |pre| && Codes(code, a)
    ensures Unescaped(pre + code + rest, |pre|, out) == Unescaped(pre + code + rest, |pre| + |code|, out + [a])
  {
    var s := pre + code + rest;
    assert s[|pre|] == code[0];
    if |code| == 3 {
      assert s[|pre| + 1] == code[1] && s[|pre| + 2] == code[2];
      FromHexOf(code[1], a / 16);
      FromHexOf(code[2], a % 16);
      HexOctet(a);
    }
  }

  lemma {:induction false} HexOctet(a: Byte)
    ensures ((a / 16) as int * 16 % 256 + a % 16) % 256 == a
  {
    var high: nat, low: nat := a / 16, a % 16;
    assert high * 16 < 256 && high * 16 + low == a;
  }

  lemma {:induction false} UnescapeCodes(pre: seq<Byte>, codes: seq<seq<Byte>>, s: seq<Byte>, out: seq<Byte>)
    requires |out| <= |pre| && Spells(codes, s)
    ensures Unescaped(pre + Concat(codes), |pre|, out) == out + s
    decreases |codes|
  {
    if codes == [] {
      assert pre + [] == pre && out + s == out;
    } else {
      var code, rest := codes[0], Concat(codes[1..]);
      UnescapeCode(pre, code, s[0], rest, out);
      Associate(pre, code, rest);
      UnescapeCodes(pre + code, codes[1..], s[1..], out + [s[0]]);
      Associate(out, [s[0]], s[1..]);
      assert s == [s[0]] + s[1..];
    }
  }

  /** Unescaping reads every coding of a text: whichever octets are coded, in whichever case. */
  lemma {:induction false} UnescapeReads(codes: seq<seq<Byte>>, s: seq<Byte>)
    requires Spells(codes, s)
    ensures Unescaped(Concat(codes), 0, []) == s
  {
    UnescapeCodes([], codes, s, []);
    assert [] + Concat(codes) == Concat(codes) && [] + s == s;
  }

  /** A code that escaping could have written but for the case of its digits. */
  ghost predicate Recoded(codes: seq<seq<Byte>>, s: seq<Byte>)
    decreases |codes|
  {
    |codes| == |s| &&
    (codes != [] ==>
      (if Acceptable(s[0]) then codes[0] == [s[0]] else |codes[0]| == 3 && Codes(codes[0], s[0])) &&
      Recoded(codes[1..], s[1..]))
  }

  /** With any mix of cases an escaped text gives the text with its pluses as spaces. */
  lemma {:induction false} AnyCaseRoundTrip(codes: seq<seq<Byte>>, s: seq<Byte>)
    requires Recoded(codes, s)
    ensures Spells(codes, Plussed(s)) && Unescaped(Concat(codes), 0, []) == Plussed(s)
  {
    RecodedSpells(codes, s);
    UnescapeReads(codes, Plussed(s));
  }

  lemma {:induction false} RecodedSpells(codes: seq<seq<Byte>>, s: seq<Byte>)
    requires Recoded(codes, s)
    ensures Spells(codes, Plussed(s))
    decreases |codes|
  {
    if codes != [] {
      RecodedSpells(codes[1..], s[1..]);
      assert Plussed(s)[1..] == Plussed(s[1..]);
      OneSafe(s[0]);
    }
  }

  // ----- The octets that pass -----

  /** Letters, digits and thirteen signs pass unescaped; the others become `%` and two
      capital digits. */
  lemma {:induction false} EscapedOctet(a: Byte)
    ensures EscapeOne(a) ==
      if 'a' as int <= a <= 'z' as int || 'A' as int <= a <= 'Z' as int || '0' as int <= a <= '9' as int ||
        a as char in "!\"$'()*+,-.@_" then [a]
      else ['%' as int, "0123456789ABCDEF"[a / 16] as int, "0123456789ABCDEF"[a % 16] as int]
  {
    PassingOctet(a);
    CapitalDigit(a / 16);
    CapitalDigit(a % 16);
  }

  lemma {:induction false} PassingOctet(a: Byte)
    ensures Acceptable(a) <==>
      'a' as int <= a <= 'z' as int || 'A' as int <= a <= 'Z' as int || '0' as int <= a <= '9' as int ||
      a as char in "!\"$'()*+,-.@_"
  {
  }

  lemma {:induction false} CapitalDigit(i: nat)
    requires i < 16
    ensures HexDigit(i) == "0123456789ABCDEF"[i] as int
  {
  }

  /** A `%` with one digit behind it is that digit and 0; one at the end stays where it is first. */
  lemma {:induction false} CutCodes()
    ensures Unescaped(Ascii("%2"), 0, []) == Ascii(" ") && Unescaped(Ascii("a%"), 0, []) == Ascii("a%")
  {
  }
}
