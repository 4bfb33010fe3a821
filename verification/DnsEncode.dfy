/** `CDNSLookup::EncodeDotStr` (src/DNSLookup.cpp) and `DnsServer::encode_domain`
    (src/dnsserver.cpp): dotted text to the form of section 3.1 of RFC 1035. */
module DnsEncode {
  import opened Bytes
  import opened Tokens
  import opened DnsName
  import opened DnsDecode

  /** A label behind its length octet. */
  function Piece(head: Label): (b: seq<Byte>)
    ensures |b| == |head| + 1
  {
    var n: Byte := |head| % 256;
    [n] + head
  }

  function Encoded(labels: seq<Label>): seq<Byte> {
    if labels == [] then [] else Piece(labels[0]) + Encoded(labels[1..])
  }

  lemma {:induction false} EncodedCons(head: Label, rest: seq<Label>)
    ensures Encoded([head] + rest) == Piece(head) + Encoded(rest)
  {
    assert ([head] + rest)[1..] == rest;
  }

  /** A label of up to 255 octets stands behind its length; of a longer one the length is cut
      to an octet. */
  lemma {:induction false} LabelOctets(head: Label, rest: seq<Label>)
    ensures Encoded([head] + rest) == [|head| % 256] + head + Encoded(rest)
  {
    EncodedCons(head, rest);
  }

  predicate WellFormed(labels: seq<Label>) {
    forall i | 0 <= i < |labels| :: 1 <= |labels[i]| <= 63
  }

  /** The pieces before `start` have been written as `done`. */
  ghost predicate Placed(d: seq<Byte>, was: seq<Byte>, offset: nat, name: seq<Byte>, start: nat, done: seq<Byte>) {
    start <= |name| && |done| == start && Overlaid(d, was, offset, done) &&
    Encoded(Split(name, DOT)) == done + Encoded(SplitFrom(name, DOT, start))
  }

  lemma {:induction false} PlacedStart(d: seq<Byte>, offset: nat, name: seq<Byte>)
    requires offset <= |d|
    ensures Placed(d, d, offset, name, 0, [])
  {
    SplitFromIs(name, DOT, 0);
    assert name[0..] == name;
    var all := Encoded(Split(name, DOT));
    assert [] + all == all;
  }

  /** `encode_domain`: every piece between dots becomes a label, empty ones too. */
  method EncodeDomain(buffer: array<Byte>, offset: nat, name: seq<Byte>) returns (n: nat)
    requires offset + |name| + 2 <= buffer.Length
    modifies buffer
    ensures n == |name| + 2 == |Encoded(Split(name, DOT))| + 1
    ensures Overlaid(buffer[..], old(buffer[..]), offset, Encoded(Split(name, DOT)) + [0])
  {
    ghost var was := buffer[..];
    ghost var done: seq<Byte> := [];
    var start: nat := 0;
    var end: nat := Find(name, DOT, start);
    PlacedStart(was, offset, name);
    while end < |name|
      invariant Placed(buffer[..], was, offset, name, start, done) && end == FindFrom(name, DOT, start)
      decreases |name| - start
    {
      done := PutPiece(buffer, offset, name, start, end, was, done);
      start := end + 1;
      end := Find(name, DOT, start);
    }
    n := PutLast(buffer, offset, name, start, end, was, done);
    EncodedSplitLength(name);
  }

  method PutPiece(buffer: array<Byte>, offset: nat, name: seq<Byte>, start: nat, end: nat,
                  ghost was: seq<Byte>, ghost done: seq<Byte>) returns (ghost more: seq<Byte>)
    requires Placed(buffer[..], was, offset, name, start, done)
    requires end == FindFrom(name, DOT, start) < |name| && offset + |name| + 2 <= buffer.Length
    modifies buffer
    ensures Placed(buffer[..], was, offset, name, end + 1, more)
  {
    EncodedSplitStep(name, start, end, done);
    PutLabel(buffer, offset, start, name[start..end], was, done);
    more := done + Piece(name[start..end]);
  }

  /** The last label and the root behind it. */
  method PutLast(buffer: array<Byte>, offset: nat, name: seq<Byte>, start: nat, end: nat,
                 ghost was: seq<Byte>, ghost done: seq<Byte>) returns (n: nat)
    requires Placed(buffer[..], was, offset, name, start, done)
    requires end == FindFrom(name, DOT, start) == |name| && offset + |name| + 2 <= buffer.Length
    modifies buffer
    ensures n == |name| + 2
    ensures Overlaid(buffer[..], was, offset, Encoded(Split(name, DOT)) + [0])
  {
    EncodedSplitStep(name, start, end, done);
    PutLabel(buffer, offset, start, name[start..end], was, done);
    Append(buffer, offset + |name| + 1, [0], was, offset, done + Piece(name[start..end]));
    n := |name| + 2;
  }

  /** One length octet and its label, octet by octet. */
  method PutLabel(buffer: array<Byte>, offset: nat, at: nat, piece: Label, ghost was: seq<Byte>, ghost done: seq<Byte>)
    requires Overlaid(buffer[..], was, offset, done) && at == |done|
    requires offset + at + 1 + |piece| <= buffer.Length
    modifies buffer
    ensures Overlaid(buffer[..], was, offset, done + Piece(piece))
  {
    Append(buffer, offset + at, [|piece| % 256], was, offset, done);
    Append(buffer, offset + at + 1, piece, was, offset, done + [|piece| % 256]);
    assert done + [|piece| % 256] + piece == done + Piece(piece);
  }

  lemma {:induction false} EncodedSplitLength(name: seq<Byte>)
    ensures |Encoded(Split(name, DOT))| == |name| + 1
  {
    var k := IndexOf(name, DOT);
    if k == |name| {
      assert Split(name, DOT)[1..] == [];
    } else {
      EncodedSplitLength(name[k + 1..]);
      assert Split(name, DOT)[1..] == Split(name[k + 1..], DOT);
    }
  }

  lemma {:induction false} EncodedSplitStep(name: seq<Byte>, start: nat, end: nat, done: seq<Byte>)
    requires start <= |name| && end == FindFrom(name, DOT, start)
    ensures done + Encoded(SplitFrom(name, DOT, start)) ==
      if end < |name| then done + Piece(name[start..end]) + Encoded(SplitFrom(name, DOT, end + 1))
      else done + Piece(name[start..end])
  {
    var piece := name[start..end];
    if end < |name| {
      EncodedCons(piece, SplitFrom(name, DOT, end + 1));
      Associate(done, Piece(piece), Encoded(SplitFrom(name, DOT, end + 1)));
    } else {
      EncodedCons(piece, []);
      assert [piece] + [] == SplitFrom(name, DOT, start);
      assert Piece(piece) + [] == Piece(piece);
    }
  }

  lemma {:induction false} EncodedTokensLength(s: seq<Byte>)
    ensures |Encoded(Tokenize(s, DOT))| <= |s| + 1
    decreases |s|
  {
    if s == [] {
    } else if s[0] == DOT {
      EncodedTokensLength(s[1..]);
    } else {
      var k := IndexOf(s, DOT);
      assert Tokenize(s, DOT)[1..] == Tokenize(s[k..], DOT);
      if k < |s| {
        assert s[k..][1..] == s[k + 1..];
        EncodedTokensLength(s[k + 1..]);
      } else {
        assert s[k..] == [];
      }
    }
  }

  /** `EncodeDotStr`: every `strtok` token becomes a label. Each `sprintf` ends
      its label with a NUL that the next one overwrites; with no token at all
      nothing is written. */
  method EncodeDotStr(name: seq<Byte>, dest: array<Byte>, size: nat) returns (ok: bool)
    requires |name| < 0x10000 && size <= dest.Length
    modifies dest
    ensures ok <==> |name| + 2 <= size
    ensures !ok || Tokenize(name, DOT) == [] ==> dest[..] == old(dest[..])
    ensures ok && Tokenize(name, DOT) != [] ==>
      |Encoded(Tokenize(name, DOT)) + [0]| <= |name| + 2 &&
      Overlaid(dest[..], old(dest[..]), 0, Encoded(Tokenize(name, DOT)) + [0])
  {
    if size < |name| + 2 {
      return false;
    }
    ghost var was := dest[..];
    ghost var rest := Tokenize(name, DOT);
    ghost var all := Encoded(rest);
    ghost var done: seq<Byte> := [];
    var n: nat := 0;
    var found, start, end := NextToken(name, DOT, 0);
    TokenizeFromIs(name, DOT, 0);
    assert name[0..] == name;
    EncodedTokensLength(name);
    while found
      invariant n == |done| && start <= end <= |name| && (found <==> start < end)
      invariant rest == if found then [name[start..end]] + TokenizeFrom(name, DOT, end) else []
      invariant all == done + Encoded(rest) && |all| <= |name| + 1
      invariant done == [] ==> dest[..] == was && rest == Tokenize(name, DOT)
      invariant done != [] ==> Overlaid(dest[..], was, 0, done + [0])
      decreases |name| - start
    {
      ghost var piece := Piece(name[start..end]);
      EncodedCons(name[start..end], TokenizeFrom(name, DOT, end));
      Associate(done, piece, Encoded(TokenizeFrom(name, DOT, end)));
      PutTerminated(dest, n, name[start..end], was, done);
      n := n + (end - start) + 1;
      done := done + piece;
      rest := TokenizeFrom(name, DOT, end);
      found, start, end := NextToken(name, DOT, end);
    }
    assert all == done;
    ok := true;
  }

  /** `sprintf(dest + at, "%c%s", |piece|, piece)`, over the NUL left by the last one. */
  method PutTerminated(dest: array<Byte>, at: nat, piece: Label, ghost was: seq<Byte>, ghost done: seq<Byte>)
    requires at == |done| && at + |piece| + 2 <= dest.Length
    requires if done == [] then dest[..] == was else Overlaid(dest[..], was, 0, done + [0])
    modifies dest
    ensures Overlaid(dest[..], was, 0, done + Piece(piece) + [0])
  {
    ghost var before := dest[..];
    Memcpy(dest, at, Piece(piece) + [0]);
    ghost var more := Piece(piece) + [0];
    if done != [] {
      OverlaidOver(dest[..], before, was, 0, done, [0], more);
    } else {
      assert done + more == more;
    }
    assert done + Piece(piece) + [0] == done + more;
  }

  // ----- Round trips -----

  /** Well-formed labels in wire form, anywhere in a packet, denote themselves. */
  lemma {:induction false} EncodedResolves(p: seq<Byte>, pos: nat, labels: seq<Label>)
    requires WellFormed(labels)
    requires Holds(p, pos, Encoded(labels) + [0])
    ensures Resolves(p, pos, labels, 0)
    ensures WireLen(p, pos) == |Encoded(labels)| + 1
    decreases |labels|
  {
    if labels == [] {
      HoldsSplit(p, pos, [], [0]);
    } else {
      var head := labels[0];
      var rest := Encoded(labels[1..]) + [0];
      assert Encoded(labels) + [0] == Piece(head) + rest;
      HoldsSplit(p, pos, Piece(head), rest);
      PieceAt(p, pos, head);
      EncodedResolves(p, pos + 1 + |head|, labels[1..]);
    }
  }

  lemma {:induction false} PieceAt(p: seq<Byte>, pos: nat, head: Label)
    requires |head| < 256 && Holds(p, pos, Piece(head))
    ensures pos + 1 + |head| <= |p| && p[pos] == |head| && p[pos + 1..pos + 1 + |head|] == head
    ensures Holds(p, pos + 1, head)
  {
    HoldsAt(p, pos, Piece(head), 0);
    HoldsSplit(p, pos, [|head|], head);
    HoldsSlice(p, pos + 1, head);
  }

  /** On a name without an empty label both encoders see the same labels. */
  lemma {:induction false} EncodersAgree(name: seq<Byte>)
    requires [] !in Split(name, DOT)
    ensures Tokenize(name, DOT) == Split(name, DOT)
    ensures |Encoded(Tokenize(name, DOT)) + [0]| == |name| + 2
  {
    TokenizeIsNonEmpty(name, DOT);
    NonEmptyAll(Split(name, DOT));
    EncodedSplitLength(name);
  }

  /** Decoding what `encode_domain` wrote gives the name back, with room for it
      and its terminator. */
  lemma {:induction false} DomainRoundTrip(name: seq<Byte>, before: seq<Byte>, after: seq<Byte>, size: nat)
    requires WellFormed(Split(name, DOT)) && |name| + 1 <= size
    ensures var p := before + Encoded(Split(name, DOT)) + [0] + after;
      Denotes(p, |before|, Split(name, DOT)) &&
      WireLen(p, |before|) == |name| + 2 &&
      Runs(p, |before|, size, true, |Split(name, DOT)| + 1) &&
      (forall fuel: nat | Runs(p, |before|, size, true, fuel) ::
         Decode(p, |before|, size, true, fuel) == Done(Split(name, DOT))) &&
      Join(Split(name, DOT), DOT) == name
  {
    var labels := Split(name, DOT);
    EncodedSplitLength(name);
    JoinSplit(name, DOT);
    DottedIsJoined(labels);
    SizeIsLength(labels);
    EncodedDecodes(labels, before, after, size);
  }

  /** Decoding what `EncodeDotStr` wrote gives the name without its redundant dots. */
  lemma {:induction false} DotStrRoundTrip(name: seq<Byte>, before: seq<Byte>, after: seq<Byte>, size: nat)
    requires WellFormed(Tokenize(name, DOT)) && |name| + 1 <= size
    ensures var p := before + Encoded(Tokenize(name, DOT)) + [0] + after;
      Denotes(p, |before|, Tokenize(name, DOT)) &&
      Runs(p, |before|, size, true, |Tokenize(name, DOT)| + 1) &&
      (forall fuel: nat | Runs(p, |before|, size, true, fuel) ::
         Decode(p, |before|, size, true, fuel) == Done(Tokenize(name, DOT))) &&
      Join(Tokenize(name, DOT), DOT) == Undotted(name, false)
  {
    var labels := Tokenize(name, DOT);
    JoinedTokens(name, false);
    EncodedTokensLength(name);
    EncodedSize(labels);
    EncodedDecodes(labels, before, after, size);
  }

  lemma {:induction false} EncodedDecodes(labels: seq<Label>, before: seq<Byte>, after: seq<Byte>, size: nat)
    requires WellFormed(labels) && Size(labels) <= size
    ensures var p := before + Encoded(labels) + [0] + after;
      Denotes(p, |before|, labels) && WireLen(p, |before|) == |Encoded(labels)| + 1 &&
      Runs(p, |before|, size, true, |labels| + 1) &&
      forall fuel: nat | Runs(p, |before|, size, true, fuel) :: Decode(p, |before|, size, true, fuel) == Done(labels)
  {
    var p := before + Encoded(labels) + [0] + after;
    assert p[|before|..|before| + |Encoded(labels) + [0]|] == Encoded(labels) + [0];
    HoldsSlice(p, |before|, Encoded(labels) + [0]);
    EncodedResolves(p, |before|, labels);
    DecodeExact(p, |before|, labels, 0, size);
    forall fuel: nat | Runs(p, |before|, size, true, fuel)
      ensures Decode(p, |before|, size, true, fuel) == Done(labels)
    {
      FuelIrrelevant(p, |before|, size, true, fuel, |labels| + 0 + 1);
    }
  }

  lemma {:induction false} EncodedSize(labels: seq<Label>)
    ensures Size(labels) == |Encoded(labels)|
  {
    if labels != [] { EncodedSize(labels[1..]); }
  }

  /** The name without leading, trailing and repeated dots: a dot stays only
      between something already kept and an octet that is not a dot. */
  function Undotted(name: seq<Byte>, begun: bool): seq<Byte> {
    if name == [] then []
    else if name[0] != DOT then [name[0]] + Undotted(name[1..], true)
    else if begun && |name| > 1 && name[1] != DOT then [DOT] + Undotted(name[1..], begun)
    else Undotted(name[1..], begun)
  }

  lemma {:induction false} UndottedToken(name: seq<Byte>, begun: bool, k: nat)
    requires 0 < k <= |name| && forall i | 0 <= i < k :: name[i] != DOT
    ensures Undotted(name, begun) == name[..k] + Undotted(name[k..], true)
    decreases k
  {
    if k > 1 {
      UndottedToken(name[1..], true, k - 1);
      assert name[1..][k - 1..] == name[k..];
      assert name[..k] == [name[0]] + name[1..][..k - 1];
    } else {
      assert name[..1] == [name[0]];
    }
  }

  lemma {:induction false} JoinedCons(head: Label, rest: seq<Label>)
    ensures Join([head] + rest, DOT) == head + (if rest == [] then [] else [DOT] + Join(rest, DOT))
  {
    assert ([head] + rest)[1..] == rest;
  }

  lemma {:induction false} JoinedTokens(name: seq<Byte>, begun: bool)
    requires begun ==> name == [] || name[0] == DOT
    ensures Undotted(name, begun) ==
      (if begun && Tokenize(name, DOT) != [] then [DOT] else []) + Join(Tokenize(name, DOT), DOT)
    decreases |name|
  {
    if name == [] {
    } else if name[0] != DOT {
      var k := IndexOf(name, DOT);
      UndottedToken(name, begun, k);
      JoinedTokens(name[k..], true);
      JoinedCons(name[..k], Tokenize(name[k..], DOT));
    } else if begun && |name| > 1 && name[1] != DOT {
      JoinedTokensAfterDot(name);
    } else {
      JoinedTokens(name[1..], begun);
    }
  }

  lemma {:induction false} JoinedTokensAfterDot(name: seq<Byte>)
    requires |name| > 1 && name[0] == DOT && name[1] != DOT
    ensures Undotted(name, true) == [DOT] + Join(Tokenize(name, DOT), DOT) && Tokenize(name, DOT) != []
    decreases |name|, 0
  {
    var rest := name[1..];
    var k := IndexOf(rest, DOT);
    UndottedToken(rest, true, k);
    JoinedTokens(rest[k..], true);
    JoinedCons(rest[..k], Tokenize(rest[k..], DOT));
  }
}
