/** C strings rewritten in place by a write cursor that follows a read cursor. */
module InPlace {
  import opened Bytes

  /** `text` and its terminator stand in the buffer at `base`. */
  ghost predicate Stored(d: seq<Byte>, base: nat, text: seq<Byte>) {
    base + |text| < |d| && d[base + |text|] == 0 && forall i | base <= i < base + |text| :: d[i] == text[i - base]
  }

  /** The buffer holds the C string `s` at `base`. */
  ghost predicate CString(d: seq<Byte>, base: nat, s: seq<Byte>) {
    Stored(d, base, s) && NulFree(s)
  }

  lemma {:induction false} StoredText(d: seq<Byte>, base: nat, s: seq<Byte>)
    requires Stored(d, base, s)
    ensures Text(d[base..]) == Text(s + [0])
  {
    var t := s + [0];
    var n := StrLen(t);
    assert t[|s|] == 0;
    forall i | 0 <= i < n
      ensures d[base..][..n][i] != 0
    {
      assert d[base..][i] == d[base + i] == t[i];
    }
    StrLenOf(d[base..], n);
    assert d[base..][..n] == t[..n];
  }

  lemma {:induction false} TextCString(d: seq<Byte>)
    requires 0 in d
    ensures CString(d, 0, Text(d))
  {
    var i :| 0 <= i < |d| && d[i] == 0;
    assert StrLen(d) <= i;
  }

  /** `done` has been written from `base` up to `to`; before `base` and from `from`
      on nothing has changed. */
  ghost predicate Rewritten(d: seq<Byte>, was: seq<Byte>, base: nat, from: nat, to: nat, done: seq<Byte>) {
    base + |done| == to <= from <= |d| == |was| &&
    (forall i | base <= i < to :: d[i] == done[i - base]) &&
    (forall i | 0 <= i < base :: d[i] == was[i]) &&
    (forall i | from <= i < |d| :: d[i] == was[i])
  }

  /** `*to++ = c` with the read cursor at `from`. */
  method Put(a: array<Byte>, base: nat, from: nat, to: nat, c: Byte, ghost was: seq<Byte>, ghost done: seq<Byte>)
    requires Rewritten(a[..], was, base, from, to, done) && from < a.Length
    modifies a
    ensures Rewritten(a[..], was, base, from + 1, to + 1, done + [c])
  {
    a[to] := c;
  }

  /** `*to = 0` at the end of the text. */
  method Finish(a: array<Byte>, base: nat, from: nat, to: nat, ghost was: seq<Byte>, ghost done: seq<Byte>)
    requires Rewritten(a[..], was, base, from, to, done) && from < a.Length
    modifies a
    ensures Stored(a[..], base, done)
    ensures forall i | 0 <= i < base || from < i < a.Length :: a[i] == was[i]
  {
    a[to] := 0;
  }
}
