/** `CDNSLookup::DecodeDotStr` (src/DNSLookup.cpp): the recursive name decompressor. */
module DnsDecode {
  import opened Bytes
  import opened DnsName

  datatype Outcome = Fail | Done(labels: seq<Label>)

  /** The decoder finishes from `pos` within `fuel` length octets, reading only
      inside the packet, when the output has room for `size` more octets. */
  ghost predicate Runs(p: seq<Byte>, pos: nat, size: nat, compressed: bool, fuel: nat)
    decreases fuel
  {
    fuel > 0 && pos < |p| &&
    if p[pos] == 0 then true
    else if IsPointer(p[pos]) then
      compressed ==> pos + 1 < |p| && Runs(p, Target(p, pos), size, compressed, fuel - 1)
    else
      p[pos] + 1 <= size ==>
        pos + 1 + p[pos] <= |p| && Runs(p, pos + 1 + p[pos], size - p[pos] - 1, compressed, fuel - 1)
  }

  /** The labels the decoder collects. */
  ghost function Decode(p: seq<Byte>, pos: nat, size: nat, compressed: bool, fuel: nat): Outcome
    requires Runs(p, pos, size, compressed, fuel)
    decreases fuel
  {
    if p[pos] == 0 then Done([])
    else if IsPointer(p[pos]) then
      if compressed then Decode(p, Target(p, pos), size, compressed, fuel - 1) else Fail
    else if p[pos] + 1 > size then Fail
    else Prepend([p[pos + 1..pos + 1 + p[pos]]],
                 Decode(p, pos + 1 + p[pos], size - p[pos] - 1, compressed, fuel - 1))
  }

  ghost function Prepend(front: seq<Label>, o: Outcome): Outcome {
    match o
    case Fail => Fail
    case Done(labels) => Done(front + labels)
  }

  lemma {:induction false} DecodeFits(p: seq<Byte>, pos: nat, size: nat, compressed: bool, fuel: nat)
    requires Runs(p, pos, size, compressed, fuel)
    ensures var o := Decode(p, pos, size, compressed, fuel); o.Done? ==> Size(o.labels) <= size
    decreases fuel
  {
    if p[pos] == 0 {
    } else if IsPointer(p[pos]) {
      if compressed { DecodeFits(p, Target(p, pos), size, compressed, fuel - 1); }
    } else if p[pos] + 1 <= size {
      var next, room := pos + 1 + p[pos], size - p[pos] - 1;
      DecodeFits(p, next, room, compressed, fuel - 1);
      var o := Decode(p, next, room, compressed, fuel - 1);
      if o.Done? { assert ([p[pos + 1..next]] + o.labels)[1..] == o.labels; }
    }
  }

  lemma {:induction false} PrependTwice(a: seq<Label>, b: seq<Label>, o: Outcome)
    ensures Prepend(a, Prepend(b, o)) == Prepend(a + b, o)
  {
    if o.Done? { assert a + (b + o.labels) == a + b + o.labels; }
  }

  /** `text` was laid over `was` from `base` on, and then its last octet, or the
      one before `base` when there is none, became the terminator. */
  ghost predicate Ended(d: seq<Byte>, was: seq<Byte>, base: nat, text: seq<Byte>) {
    0 < base + |text| <= |d| == |was| && d[base + |text| - 1] == 0 &&
    Overlaid(d[base + |text| - 1 := LastOf(was, base, text)], was, base, text)
  }

  function LastOf(was: seq<Byte>, base: nat, text: seq<Byte>): Byte
    requires 0 < base + |text| && base <= |was|
  {
    if text == [] then was[base - 1] else text[|text| - 1]
  }

  /** The output buffer once decoding to `base` with room for `size` has ended as `o`. */
  ghost predicate After(d: seq<Byte>, was: seq<Byte>, base: nat, size: nat, o: Outcome) {
    if o.Done? then |Dotted(o.labels)| <= size && Ended(d, was, base, Dotted(o.labels))
    else SameOutside(d, was, base, size)
  }

  lemma {:induction false} LastIs(before: seq<Byte>, was: seq<Byte>, base: nat, text: seq<Byte>)
    requires Overlaid(before, was, base, text) && 0 < base + |text|
    ensures base + |text| <= |before| && before[base + |text| - 1] == LastOf(was, base, text)
  {
    HoldsSlice(before, base, text);
    if text != [] { HoldsAt(before, base, text, |text| - 1); }
  }

  lemma {:induction false} EndedRoot(before: seq<Byte>, was: seq<Byte>, base: nat, text: seq<Byte>)
    requires Overlaid(before, was, base, text) && 0 < base + |text| <= |before|
    ensures Ended(before[base + |text| - 1 := 0], was, base, text)
  {
    LastIs(before, was, base, text);
    var k := base + |text| - 1;
    assert before[k := 0][k := before[k]] == before;
  }

  lemma {:induction false} EndedTwice(e: seq<Byte>, d: seq<Byte>, was: seq<Byte>, base: nat, text: seq<Byte>,
      more: seq<Byte>)
    requires Overlaid(d, was, base, text) && Ended(e, d, base + |text|, more)
    ensures Ended(e, was, base, text + more)
  {
    if 0 < base + |text| { LastIs(d, was, base, text); }
    HoldsSlice(d, base, text);
    var k := base + |text| + |more| - 1;
    assert LastOf(d, base + |text|, more) == LastOf(was, base, text + more);
    OverlaidTwice(e[k := LastOf(d, base + |text|, more)], d, was, base, text, more);
  }

  lemma {:induction false} AfterJump(d: seq<Byte>, before: seq<Byte>, was: seq<Byte>, base: nat, size: nat,
      labels: seq<Label>, plain: nat, o: Outcome)
    requires Overlaid(before, was, base, Dotted(labels)) && plain == |Dotted(labels)| <= size
    requires After(d, before, base + plain, size - plain, o)
    ensures After(d, was, base, size, Prepend(labels, o))
  {
    if o.Done? {
      DottedAppend(labels, o.labels);
      EndedTwice(d, before, was, base, Dotted(labels), Dotted(o.labels));
    }
  }

  /** One label further: what is collected and how it is spelled. */
  lemma {:induction false} LabelStep(labels: seq<Label>, next: Label, o: Outcome)
    ensures Prepend(labels, Prepend([next], o)) == Prepend(labels + [next], o)
    ensures Dotted(labels + [next]) == Dotted(labels) + (next + [DOT])
    ensures |Dotted(labels + [next])| == |Dotted(labels)| + |next| + 1
  {
    PrependTwice(labels, [next], o);
    DottedAppend(labels, [next]);
    assert Dotted([next]) == next + [DOT];
  }

  lemma {:induction false} AppendNothing(labels: seq<Label>)
    ensures Prepend(labels, Done([])) == Done(labels)
  {
    assert labels + [] == labels;
  }

  /** The decoder is at `at` with `labels` behind it. */
  ghost predicate Reached(p: seq<Byte>, pos: nat, at: nat, room: nat, compressed: bool, left: nat,
                          labels: seq<Label>, o: Outcome) {
    at < |p| && Runs(p, at, room, compressed, left) && o == Prepend(labels, Decode(p, at, room, compressed, left)) &&
    WireLen(p, pos) == |Dotted(labels)| + WireLen(p, at)
  }

  lemma {:induction false} ReachedStart(p: seq<Byte>, pos: nat, size: nat, compressed: bool, fuel: nat)
    requires Runs(p, pos, size, compressed, fuel)
    ensures Reached(p, pos, pos, size, compressed, fuel, [], Decode(p, pos, size, compressed, fuel))
  {
    var o := Decode(p, pos, size, compressed, fuel);
    if o.Done? { assert [] + o.labels == o.labels; }
  }

  lemma {:induction false} ReachedStep(p: seq<Byte>, pos: nat, at: nat, n: nat, room: nat, compressed: bool,
      left: nat, labels: seq<Label>, o: Outcome)
    requires Reached(p, pos, at, room, compressed, left, labels, o)
    requires p[at] == n && 0 < n < 64 && n + 1 <= room
    ensures left > 0 && at + n + 1 <= |p|
    ensures var next := p[at + 1..at + 1 + n];
      Reached(p, pos, at + n + 1, room - n - 1, compressed, left - 1, labels + [next], o) &&
      Dotted(labels + [next]) == Dotted(labels) + (next + [DOT])
  {
    var next := p[at + 1..at + 1 + n];
    LabelStep(labels, next, Decode(p, at + 1 + n, room - n - 1, compressed, left - 1));
  }

  /** The state of the loop of `DecodeDotStr`. */
  ghost predicate Copying(d: seq<Byte>, was: seq<Byte>, p: seq<Byte>, pos: nat, at: nat, base: nat, plain: nat,
      size: nat,
                          compressed: bool, left: nat, labels: seq<Label>, o: Outcome) {
    plain == |Dotted(labels)| <= size && Overlaid(d, was, base, Dotted(labels)) &&
    Reached(p, pos, at, size - plain, compressed, left, labels, o)
  }

  /** A label that fits: it and its dot are copied behind what is there. */
  method CopyLabel(dest: array<Byte>, p: seq<Byte>, at: nat, base: nat, plain: nat, size: nat, ghost was: seq<Byte>,
                   ghost pos: nat, ghost compressed: bool, ghost left: nat, ghost labels: seq<Label>, ghost o: Outcome)
    returns (ghost more: seq<Label>)
    requires Copying(dest[..], was, p, pos, at, base, plain, size, compressed, left, labels, o)
    requires 0 < p[at] < 64 && plain + p[at] + 1 <= size && base + size <= dest.Length
    modifies dest
    ensures left > 0
    ensures Copying(dest[..], was, p, pos, at + p[at] + 1, base, plain + p[at] + 1, size, compressed, left - 1, more, o)
  {
    var n: nat := p[at];
    ReachedStep(p, pos, at, n, size - plain, compressed, left, labels, o);
    var next := p[at + 1..at + 1 + n];
    more := labels + [next];
    Append(dest, base + plain, next, was, base, Dotted(labels));
    Append(dest, base + plain + n, [DOT], was, base, Dotted(labels) + next);
    assert Dotted(labels) + next + [DOT] == Dotted(more);
  }

  /** What stopped the loop decides the outcome. */
  ghost predicate Stopped(p: seq<Byte>, pos: nat, at: nat, plain: nat, room: nat, compressed: bool, left: nat,
                          labels: seq<Label>, rest: Outcome, o: Outcome) {
    at < |p| &&
    if p[at] == 0 then o == Done(labels) && WireLen(p, pos) == plain + 1
    else if IsPointer(p[at]) && compressed then
      at + 1 < |p| && Runs(p, Target(p, at), room, true, left) && rest == Decode(p, Target(p, at), room, true, left) &&
      o == Prepend(labels, rest) && WireLen(p, pos) == plain + 2
    else o == Fail
  }

  lemma {:induction false} ReachedStops(p: seq<Byte>, pos: nat, at: nat, room: nat, compressed: bool, left: nat,
      labels: seq<Label>, o: Outcome)
    returns (rest: Outcome)
    requires Reached(p, pos, at, room, compressed, left, labels, o)
    requires p[at] == 0 || IsPointer(p[at]) || p[at] + 1 > room
    ensures left > 0 && Stopped(p, pos, at, |Dotted(labels)|, room, compressed, left - 1, labels, rest, o)
  {
    AppendNothing(labels);
    rest := Decode(p, at, room, compressed, left);
  }

  /** The loop of `DecodeDotStr`: plain labels up to a terminator, a pointer or
      a label that does not fit. */
  method CopyLabels(p: seq<Byte>, pos: nat, compressed: bool, dest: array<Byte>, base: nat, size: nat,
                    ghost fuel: nat, ghost o: Outcome)
    returns (at: nat, plain: nat, ghost labels: seq<Label>, ghost left: nat, ghost rest: Outcome)
    requires base + size <= dest.Length
    requires Runs(p, pos, size, compressed, fuel) && o == Decode(p, pos, size, compressed, fuel)
    modifies dest
    ensures plain == |Dotted(labels)| <= size && left < fuel
    ensures Stopped(p, pos, at, plain, size - plain, compressed, left, labels, rest, o)
    ensures Overlaid(dest[..], old(dest[..]), base, Dotted(labels))
  {
    ghost var was := dest[..];
    left, labels := fuel, [];
    at, plain := pos, 0;
    ReachedStart(p, pos, size, compressed, fuel);
    while 0 < p[at] < 64 && plain + p[at] + 1 <= size
      invariant left <= fuel && Copying(dest[..], was, p, pos, at, base, plain, size, compressed, left, labels, o)
      decreases left
    {
      labels := CopyLabel(dest, p, at, base, plain, size, was, pos, compressed, left, labels, o);
      left := left - 1;
      plain := plain + p[at] + 1;
      at := at + p[at] + 1;
    }
    rest := ReachedStops(p, pos, at, size - plain, compressed, left, labels, o);
    left := left - 1;
  }

  method Terminate(dest: array<Byte>, end: nat, ghost was: seq<Byte>, ghost base: nat, ghost text: seq<Byte>)
    requires Overlaid(dest[..], was, base, text) && end + 1 == base + |text| <= dest.Length
    modifies dest
    ensures Ended(dest[..], was, base, text)
  {
    ghost var before := dest[..];
    EndedRoot(before, was, base, text);
    dest[end] := 0;
    assert dest[..] == before[end := 0];
  }

  /** `DecodeDotStr` with `dest + base` for szDotStr and `compressed` for a
      non-null szPacketStartPos. A root name overwrites the octet before
      szDotStr, so one label must already be there. */
  method DecodeDotStr(p: seq<Byte>, pos: nat, compressed: bool, dest: array<Byte>, base: nat, size: nat,
                      ghost fuel: nat, ghost o: Outcome)
    returns (ok: bool, used: nat)
    requires size < 0x10000 && base + size <= dest.Length
    requires Runs(p, pos, size, compressed, fuel)
    requires o == Decode(p, pos, size, compressed, fuel) && (o == Done([]) ==> base > 0)
    modifies dest
    ensures ok == o.Done?
    ensures ok ==> used == WireLen(p, pos) % 0x10000
    ensures After(dest[..], old(dest[..]), base, size, o)
    decreases fuel
  {
    ghost var was := dest[..];
    var at, plain;
    ghost var labels, left, rest;
    at, plain, labels, left, rest := CopyLabels(p, pos, compressed, dest, base, size, fuel, o);
    ghost var before := dest[..];
    if p[at] == 0 {
      Terminate(dest, base + plain - 1, was, base, Dotted(labels));
      return true, (plain + 1) % 0x10000;
    }
    if p[at] < 64 || !compressed {
      return false, plain;
    }
    var jump := Octets16(p, at) % 0x4000;
    assert jump == Target(p, at);
    ok, used := DecodeDotStr(p, jump, compressed, dest, base + plain, size - plain, left, rest);
    AfterJump(dest[..], before, was, base, size, labels, plain, rest);
    used := (plain + 2) % 0x10000;
  }

  /** The decoder at a pointer to `o` does what it does at `o`. */
  lemma {:induction false} PointerDecodes(p: seq<Byte>, pos: nat, o: nat, size: nat, fuel: nat)
    requires o < 0x4000 && Holds(p, pos, BigEndian16(0xc000 + o))
    ensures Runs(p, pos, size, true, fuel + 1) <==> Runs(p, o, size, true, fuel)
    ensures Runs(p, o, size, true, fuel) ==> Decode(p, pos, size, true, fuel + 1) == Decode(p, o, size, true, fuel)
  {
    PointerTo(p, pos, o);
  }

  /** `DecodeDotStr` at a pointer to `o` leaves what the name at `o` decodes to. */
  method DecodePointer(p: seq<Byte>, pos: nat, o: nat, dest: array<Byte>, base: nat, size: nat, ghost fuel: nat)
    returns (ok: bool, used: nat)
    requires o < 0x4000 && Holds(p, pos, BigEndian16(0xc000 + o))
    requires size < 0x10000 && base + size <= dest.Length && Runs(p, o, size, true, fuel)
    requires Decode(p, o, size, true, fuel) == Done([]) ==> base > 0
    modifies dest
    ensures ok == Decode(p, o, size, true, fuel).Done? && (ok ==> used == 2)
    ensures After(dest[..], old(dest[..]), base, size, Decode(p, o, size, true, fuel))
  {
    PointerDecodes(p, pos, o, size, fuel);
    PointerTo(p, pos, o);
    ok, used := DecodeDotStr(p, pos, true, dest, base, size, fuel + 1, Decode(p, o, size, true, fuel));
  }

  // ----- The decoder against the meaning of names -----

  /** A name that expands to `labels` decodes to exactly them if they fit, each
      with its dot, and is refused otherwise. */
  lemma {:induction false} DecodeExact(p: seq<Byte>, pos: nat, labels: seq<Label>, hops: nat, size: nat)
    requires Resolves(p, pos, labels, hops)
    ensures Runs(p, pos, size, true, |labels| + hops + 1)
    ensures Decode(p, pos, size, true, |labels| + hops + 1) == if Size(labels) <= size then Done(labels) else Fail
    decreases |labels| + hops
  {
    if p[pos] == 0 {
    } else if IsPointer(p[pos]) {
      DecodeExact(p, Target(p, pos), labels, hops - 1, size);
    } else if p[pos] + 1 <= size {
      DecodeExact(p, pos + 1 + p[pos], labels[1..], hops, size - p[pos] - 1);
      assert labels == [labels[0]] + labels[1..];
    }
  }

  /** Without the packet start, a name decodes only if it has no pointer. */
  lemma {:induction false} DecodeUncompressed(p: seq<Byte>, pos: nat, labels: seq<Label>, hops: nat, size: nat)
    requires Resolves(p, pos, labels, hops)
    ensures Runs(p, pos, size, false, |labels| + hops + 1)
    ensures Decode(p, pos, size, false, |labels| + hops + 1)
         == if hops == 0 && Size(labels) <= size then Done(labels) else Fail
    decreases |labels| + hops
  {
    if p[pos] == 0 {
    } else if IsPointer(p[pos]) {
    } else if p[pos] + 1 <= size {
      DecodeUncompressed(p, pos + 1 + p[pos], labels[1..], hops, size - p[pos] - 1);
      assert labels == [labels[0]] + labels[1..];
    }
  }

  /** Success means the name has a finite expansion: a cycle through a label is refused. */
  lemma {:induction false} DecodeSound(p: seq<Byte>, pos: nat, size: nat, fuel: nat)
    requires Runs(p, pos, size, true, fuel)
    ensures var o := Decode(p, pos, size, true, fuel);
      o.Done? <==> exists labels :: Denotes(p, pos, labels) && Size(labels) <= size
    ensures var o := Decode(p, pos, size, true, fuel);
      o.Done? ==> Denotes(p, pos, o.labels) && Size(o.labels) <= size
  {
    var o := Decode(p, pos, size, true, fuel);
    if o.Done? {
      DecodeDenotes(p, pos, size, fuel);
    }
    if exists labels :: Denotes(p, pos, labels) && Size(labels) <= size {
      var labels :| Denotes(p, pos, labels) && Size(labels) <= size;
      var hops: nat :| Resolves(p, pos, labels, hops);
      DecodeExact(p, pos, labels, hops, size);
      FuelIrrelevant(p, pos, size, true, fuel, |labels| + hops + 1);
    }
  }

  lemma {:induction false} DecodeDenotes(p: seq<Byte>, pos: nat, size: nat, fuel: nat)
    requires Runs(p, pos, size, true, fuel)
    requires Decode(p, pos, size, true, fuel).Done?
    ensures var labels := Decode(p, pos, size, true, fuel).labels;
      Denotes(p, pos, labels) && Size(labels) <= size
    decreases fuel
  {
    DecodeFits(p, pos, size, true, fuel);
    if p[pos] == 0 {
      assert Resolves(p, pos, [], 0);
    } else if IsPointer(p[pos]) {
      DecodeDenotes(p, Target(p, pos), size, fuel - 1);
      DenotesPointer(p, pos, Decode(p, pos, size, true, fuel).labels);
    } else {
      var n := p[pos];
      DecodeDenotes(p, pos + 1 + n, size - n - 1, fuel - 1);
      var rest := Decode(p, pos + 1 + n, size - n - 1, true, fuel - 1).labels;
      DenotesCons(p, pos, p[pos + 1..pos + 1 + n], rest);
    }
  }

  lemma {:induction false} FuelIrrelevant(p: seq<Byte>, pos: nat, size: nat, compressed: bool, m: nat, n: nat)
    requires Runs(p, pos, size, compressed, m) && Runs(p, pos, size, compressed, n)
    ensures Decode(p, pos, size, compressed, m) == Decode(p, pos, size, compressed, n)
    decreases m
  {
    if p[pos] == 0 {
    } else if IsPointer(p[pos]) {
      if compressed { FuelIrrelevant(p, Target(p, pos), size, compressed, m - 1, n - 1); }
    } else if p[pos] + 1 <= size {
      FuelIrrelevant(p, pos + 1 + p[pos], size - p[pos] - 1, compressed, m - 1, n - 1);
    }
  }

  // ----- Termination -----

  /** `s` holds every position the decoder can reach from within it, all inside the packet. */
  ghost predicate Closed(p: seq<Byte>, s: set<nat>) {
    forall q | q in s :: StaysIn(p, s, q)
  }

  ghost predicate StaysIn(p: seq<Byte>, s: set<nat>, q: nat) {
    q < |p| &&
    if p[q] == 0 then true
    else if IsPointer(p[q]) then q + 1 < |p| && Target(p, q) in s
    else q + 1 + p[q] in s
  }

  ghost predicate PointersGoBack(p: seq<Byte>, s: set<nat>)
    requires Closed(p, s)
  {
    forall q | q in s :: assert StaysIn(p, s, q); IsPointer(p[q]) ==> Target(p, q) < q
  }

  /** `n` pointers in a row from `pos` end at something that is not a pointer. */
  ghost predicate Settles(p: seq<Byte>, pos: nat, n: nat)
    decreases n
  {
    pos < |p| &&
    (IsPointer(p[pos]) ==> n > 0 && pos + 1 < |p| && Settles(p, Target(p, pos), n - 1))
  }

  ghost predicate Settling(p: seq<Byte>, pos: nat) {
    exists n: nat :: Settles(p, pos, n)
  }

  ghost predicate Terminates(p: seq<Byte>, pos: nat, size: nat) {
    exists fuel: nat :: Runs(p, pos, size, true, fuel)
  }

  /** The decoder terminates everywhere, at every size, exactly when no run of
      pointers goes on for ever. Labels never matter: each one uses up room. */
  lemma {:induction false} TerminatesIffSettles(p: seq<Byte>, s: set<nat>)
    requires Closed(p, s)
    ensures (forall q | q in s :: Settling(p, q))
       <==> (forall q, size: nat | q in s :: Terminates(p, q, size))
  {
    if forall q | q in s :: Settling(p, q) {
      forall q, size: nat | q in s
        ensures Terminates(p, q, size)
      {
        var n: nat :| Settles(p, q, n);
        SettledTerminates(p, s, q, size, n);
      }
    }
    if forall q, size: nat | q in s :: Terminates(p, q, size) {
      forall q | q in s
        ensures Settling(p, q)
      {
        assert Terminates(p, q, 0);
        var fuel: nat :| Runs(p, q, 0, true, fuel);
        RunsSettles(p, q, fuel);
      }
    }
  }

  lemma {:induction false} SettledTerminates(p: seq<Byte>, s: set<nat>, pos: nat, size: nat, n: nat)
    requires Closed(p, s) && pos in s && Settles(p, pos, n)
    requires forall q | q in s :: Settling(p, q)
    ensures Terminates(p, pos, size)
    decreases size, n
  {
    assert StaysIn(p, s, pos);
    if p[pos] == 0 {
      assert Runs(p, pos, size, true, 1);
    } else if IsPointer(p[pos]) {
      SettledTerminates(p, s, Target(p, pos), size, n - 1);
      var f: nat :| Runs(p, Target(p, pos), size, true, f);
      assert Runs(p, pos, size, true, f + 1);
    } else if p[pos] + 1 <= size {
      var next := pos + 1 + p[pos];
      var m: nat :| Settles(p, next, m);
      SettledTerminates(p, s, next, size - p[pos] - 1, m);
      var f: nat :| Runs(p, next, size - p[pos] - 1, true, f);
      assert Runs(p, pos, size, true, f + 1);
    } else {
      assert Runs(p, pos, size, true, 1);
    }
  }

  lemma {:induction false} RunsSettles(p: seq<Byte>, pos: nat, fuel: nat)
    requires Runs(p, pos, 0, true, fuel)
    ensures Settles(p, pos, fuel)
    decreases fuel
  {
    if IsPointer(p[pos]) { RunsSettles(p, Target(p, pos), fuel - 1); }
  }

  /** Pointers that only go back always settle, so the decoder terminates. */
  lemma {:induction false} BackwardTerminates(p: seq<Byte>, s: set<nat>, pos: nat, size: nat)
    requires Closed(p, s) && pos in s
    requires PointersGoBack(p, s)
    ensures Terminates(p, pos, size)
  {
    forall q | q in s
      ensures Settling(p, q)
    {
      BackwardSettles(p, s, q);
    }
    TerminatesIffSettles(p, s);
  }

  lemma {:induction false} BackwardSettles(p: seq<Byte>, s: set<nat>, pos: nat)
    requires Closed(p, s) && pos in s
    requires PointersGoBack(p, s)
    ensures Settles(p, pos, pos)
    decreases pos
  {
    assert StaysIn(p, s, pos);
    if IsPointer(p[pos]) {
      BackwardSettles(p, s, Target(p, pos));
      SettlesMore(p, Target(p, pos), Target(p, pos), pos - 1);
    }
  }

  lemma {:induction false} SettlesMore(p: seq<Byte>, pos: nat, m: nat, n: nat)
    requires Settles(p, pos, m) && m <= n
    ensures Settles(p, pos, n)
    decreases m
  {
    if IsPointer(p[pos]) { SettlesMore(p, Target(p, pos), m - 1, n - 1); }
  }

  /** A pointer at itself never terminates, at any size. */
  lemma {:induction false} SelfPointerDiverges(p: seq<Byte>, pos: nat, size: nat, fuel: nat)
    requires pos + 1 < |p| && IsPointer(p[pos]) && Target(p, pos) == pos
    ensures !Runs(p, pos, size, true, fuel)
    decreases fuel
  {
    if fuel > 0 { SelfPointerDiverges(p, pos, size, fuel - 1); }
  }

  /** Twelve octets of header and the pointer c0 0c: the decoder is lost at its first step. */
  lemma {:induction false} SelfPointerExample(header: seq<Byte>, tail: seq<Byte>, size: nat)
    requires |header| == 12
    ensures !Terminates(header + [0xc0, 0x0c] + tail, 12, size)
  {
    var p := header + [0xc0, 0x0c] + tail;
    assert p[12] == 0xc0 && p[13] == 0x0c;
    forall fuel: nat
      ensures !Runs(p, 12, size, true, fuel)
    {
      SelfPointerDiverges(p, 12, size, fuel);
    }
  }

  /** A label that points back at itself terminates and is refused. */
  lemma {:induction false} LabelCycleRefused(size: nat, fuel: nat)
    ensures Terminates([1, 97, 0xc0, 0x00], 0, size)
    ensures Runs([1, 97, 0xc0, 0x00], 0, size, true, fuel) ==> Decode([1, 97, 0xc0, 0x00], 0, size, true, fuel) == Fail
  {
    var p: seq<Byte> := [1, 97, 0xc0, 0x00];
    BackwardTerminates(p, {0, 2}, 0, size);
    if Runs(p, 0, size, true, fuel) && Decode(p, 0, size, true, fuel) != Fail {
      DecodeDenotes(p, 0, size, fuel);
      var labels := Decode(p, 0, size, true, fuel).labels;
      var hops: nat :| Resolves(p, 0, labels, hops);
      NoFiniteExpansion(labels, hops);
    }
  }

  lemma {:induction false} NoFiniteExpansion(labels: seq<Label>, hops: nat)
    ensures !Resolves([1, 97, 0xc0, 0x00], 0, labels, hops)
    decreases hops
  {
    if labels != [] && hops > 0 { NoFiniteExpansion(labels[1..], hops - 1); }
  }
}
