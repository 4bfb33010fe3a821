/** `_httpd_readChar` and `_httpd_readLine` (src/httpd.cpp): lines from a buffered stream. */
module Reader {
  import opened Bytes

  const HTTP_READ_BUF_LEN := 4096
  const LF: Byte := 10
  const CR: Byte := 13

  // ----- Lines of a flat stream -----

  /** A line feed, or what `isascii` rejects. */
  predicate Ends(c: Byte) {
    c == LF || c >= 128
  }

  /** One result of `_httpd_readLine`: a line and what is left of the stream, or the end. */
  datatype Result = Line(text: seq<Byte>, rest: seq<Byte>) | NoLine

  /** The line that `done` begins, of at most `len` characters. */
  function LineFrom(s: seq<Byte>, done: seq<Byte>, len: nat): Result
    decreases |s|
  {
    if |done| >= len then Line(done, s)
    else if s == [] then NoLine
    else if Ends(s[0]) then Line(done, s[1..])
    else if s[0] == CR then LineFrom(s[1..], done, len)
    else LineFrom(s[1..], done + [s[0]], len)
  }

  /** All lines, as repeated calls return them. */
  function Lines(s: seq<Byte>, len: nat): seq<seq<Byte>>
    requires len > 0
    decreases |s|
  {
    match LineFrom(s, [], len)
    case NoLine => []
    case Line(text, rest) => LineTakes(s, [], len); [text] + Lines(rest, len)
  }

  lemma {:induction false} LineTakes(s: seq<Byte>, done: seq<Byte>, len: nat)
    requires |done| < len
    ensures var result := LineFrom(s, done, len); result.Line? ==> |result.rest| < |s| && |result.text| <= len
    decreases |s|
  {
    if s != [] && !Ends(s[0]) {
      var more := if s[0] == CR then done else done + [s[0]];
      if |more| < len { LineTakes(s[1..], more, len); }
    }
  }

  /** The lines without any limit: drop every CR, end at a line feed or a non-ASCII
      octet, discard an unterminated tail. */
  function FlatLines(s: seq<Byte>, done: seq<Byte>): seq<seq<Byte>>
    decreases |s|
  {
    if s == [] then []
    else if Ends(s[0]) then [done] + FlatLines(s[1..], [])
    else FlatLines(s[1..], if s[0] == CR then done else done + [s[0]])
  }

  /** Every line, and the tail, is shorter than `len`; the first has `n` characters already. */
  predicate Within(s: seq<Byte>, n: nat, len: nat)
    decreases |s|
  {
    n < len &&
    (s != [] ==> Within(s[1..], if Ends(s[0]) then 0 else if s[0] == CR then n else n + 1, len))
  }

  /** `Lines`, with the first line begun. */
  function LinesFrom(s: seq<Byte>, done: seq<Byte>, len: nat): seq<seq<Byte>>
    requires len > 0
    decreases |s|, |done|
  {
    if |done| >= len then [done] + LinesFrom(s, [], len)
    else if s == [] then []
    else if Ends(s[0]) then [done] + LinesFrom(s[1..], [], len)
    else LinesFrom(s[1..], if s[0] == CR then done else done + [s[0]], len)
  }

  lemma {:induction false} LinesFromIs(s: seq<Byte>, done: seq<Byte>, len: nat)
    requires len > 0
    ensures LinesFrom(s, done, len) ==
      match LineFrom(s, done, len)
      case NoLine => []
      case Line(text, rest) => [text] + Lines(rest, len)
    decreases |s|, |done|
  {
    if |done| >= len {
      LinesFromIs(s, [], len);
    } else if s == [] {
    } else if Ends(s[0]) {
      LinesFromIs(s[1..], [], len);
    } else {
      LinesFromIs(s[1..], if s[0] == CR then done else done + [s[0]], len);
    }
  }

  lemma {:induction false} NoFewerLines(s: seq<Byte>, done: seq<Byte>, len: nat, flat: seq<Byte>)
    requires len > 0
    ensures |LinesFrom(s, done, len)| >= |FlatLines(s, flat)|
    decreases |s|, |done|
  {
    if |done| >= len {
      NoFewerLines(s, [], len, flat);
    } else if s == [] {
    } else if Ends(s[0]) {
      NoFewerLines(s[1..], [], len, []);
    } else {
      NoFewerLines(s[1..], if s[0] == CR then done else done + [s[0]], len, if s[0] == CR then flat else flat + [s[0]]);
    }
  }

  lemma {:induction false} LongLineSplits(s: seq<Byte>, done: seq<Byte>, len: nat)
    requires 0 < len && |done| <= len && !Within(s, |done|, len)
    ensures |LinesFrom(s, done, len)| > |FlatLines(s, done)|
    decreases |s|
  {
    if |done| == len {
      NoFewerLines(s, [], len, done);
    } else if s == [] {
      assert false;
    } else if Ends(s[0]) {
      LongLineSplits(s[1..], [], len);
    } else {
      LongLineSplits(s[1..], if s[0] == CR then done else done + [s[0]], len);
    }
  }

  lemma {:induction false} ShortLinesWhole(s: seq<Byte>, done: seq<Byte>, len: nat)
    requires 0 < len && Within(s, |done|, len)
    ensures LinesFrom(s, done, len) == FlatLines(s, done)
    decreases |s|
  {
    if s == [] {
    } else if Ends(s[0]) {
      ShortLinesWhole(s[1..], [], len);
    } else {
      ShortLinesWhole(s[1..], if s[0] == CR then done else done + [s[0]], len);
    }
  }

  /** The limit does not show exactly when every line is shorter than it. */
  lemma {:induction false} LinesAreFlatIff(s: seq<Byte>, len: nat)
    requires len > 0
    ensures Lines(s, len) == FlatLines(s, []) <==> Within(s, 0, len)
  {
    LinesFromIs(s, [], len);
    if Within(s, 0, len) {
      ShortLinesWhole(s, [], len);
    } else {
      LongLineSplits(s, [], len);
    }
  }

  /** One line of a stream within the limit, and the rest of it. */
  lemma {:induction false} WithinLine(s: seq<Byte>, done: seq<Byte>, len: nat)
    requires |done| <= len
    ensures var result := LineFrom(s, done, len);
      Within(s, |done|, len) ==> result.Line? ==> |result.text| < len && Within(result.rest, 0, len)
    decreases |s|
  {
    if s != [] && |done| < len && !Ends(s[0]) { WithinLine(s[1..], if s[0] == CR then done else done + [s[0]], len); }
  }

  ghost predicate AllShorter(lines: seq<seq<Byte>>, len: nat) {
    forall i | 0 <= i < |lines| :: |lines[i]| < len
  }

  lemma {:induction false} LinesFromShort(s: seq<Byte>, done: seq<Byte>, len: nat)
    requires 0 < len && |done| <= len
    ensures AllShorter(LinesFrom(s, done, len), len) <==> Within(s, |done|, len)
    decreases |s|
  {
    var lines := LinesFrom(s, done, len);
    if |done| == len {
      assert lines[0] == done;
    } else if s == [] {
    } else if Ends(s[0]) {
      LinesFromShort(s[1..], [], len);
      assert lines[1..] == LinesFrom(s[1..], [], len);
      assert forall i | 0 < i < |lines| :: lines[i] == lines[1..][i - 1];
      assert forall i | 0 <= i < |lines[1..]| :: lines[1..][i] == lines[i + 1];
    } else {
      LinesFromShort(s[1..], if s[0] == CR then done else done + [s[0]], len);
    }
  }

  /** A buffer of `len` octets holds every line and its terminator exactly when the
      stream is within the limit. */
  lemma {:induction false} LinesShortIff(s: seq<Byte>, len: nat)
    requires len > 0
    ensures AllShorter(Lines(s, len), len) <==> Within(s, 0, len)
  {
    LinesFromIs(s, [], len);
    LinesFromShort(s, [], len);
  }

  // ----- Streams as they are written -----

  /** Octets below 128 without CR and LF. */
  ghost predicate Characters(line: seq<Byte>) {
    forall i | 0 <= i < |line| :: line[i] < 128 && line[i] != 10 && line[i] != 13
  }

  /** LF, CR LF, or a single octet from 128 on. */
  predicate Ending(end: seq<Byte>) {
    end == [10] || end == [13, 10] || (|end| == 1 && end[0] >= 128)
  }

  function Written(lines: seq<seq<Byte>>, ends: seq<seq<Byte>>): seq<Byte>
    requires |lines| == |ends|
  {
    if lines == [] then [] else lines[0] + ends[0] + Written(lines[1..], ends[1..])
  }

  ghost predicate Writable(lines: seq<seq<Byte>>, ends: seq<seq<Byte>>, len: nat) {
    |lines| == |ends| && forall i | 0 <= i < |lines| :: Characters(lines[i]) && |lines[i]| < len && Ending(ends[i])
  }

  lemma {:induction false} LineFromCharacters(line: seq<Byte>, rest: seq<Byte>, done: seq<Byte>, len: nat)
    requires Characters(line) && |done| + |line| < len
    ensures LineFrom(line + rest, done, len) == LineFrom(rest, done + line, len)
    decreases |line|
  {
    if line == [] {
      assert line + rest == rest && done + line == done;
    } else {
      assert (line + rest)[0] == line[0] && (line + rest)[1..] == line[1..] + rest;
      LineFromCharacters(line[1..], rest, done + [line[0]], len);
      assert done + [line[0]] + line[1..] == done + line;
    }
  }

  lemma {:induction false} LineFromEnding(end: seq<Byte>, rest: seq<Byte>, done: seq<Byte>, len: nat)
    requires Ending(end) && |done| < len
    ensures LineFrom(end + rest, done, len) == Line(done, rest)
  {
    if end == [13, 10] {
      assert (end + rest)[0] == 13 && (end + rest)[1..] == [10] + rest;
      assert ([10] + rest)[1..] == rest;
    } else {
      assert (end + rest)[1..] == rest;
    }
  }

  /** Lines shorter than the limit, each behind it an LF, a CR LF or an octet that is not
      ASCII, and an unterminated tail: they are read one by one, without their ends. */
  lemma {:induction false} WrittenLines(lines: seq<seq<Byte>>, ends: seq<seq<Byte>>, tail: seq<Byte>, len: nat)
    requires Writable(lines, ends, len) && Characters(tail) && |tail| < len
    ensures Lines(Written(lines, ends) + tail, len) == lines
    decreases |lines|
  {
    if lines == [] {
      assert Written(lines, ends) + tail == tail + [];
      LineFromCharacters(tail, [], [], len);
    } else {
      var more := Written(lines[1..], ends[1..]) + tail;
      WrittenFirst(lines, ends, tail);
      LineFromCharacters(lines[0], ends[0] + more, [], len);
      assert [] + lines[0] == lines[0];
      LineFromEnding(ends[0], more, lines[0], len);
      WrittenLines(lines[1..], ends[1..], tail, len);
      assert lines == [lines[0]] + lines[1..];
    }
  }

  lemma {:induction false} WrittenFirst(lines: seq<seq<Byte>>, ends: seq<seq<Byte>>, tail: seq<Byte>)
    requires |lines| == |ends| > 0
    ensures Written(lines, ends) + tail == lines[0] + (ends[0] + (Written(lines[1..], ends[1..]) + tail))
  {
    var rest := Written(lines[1..], ends[1..]);
    Associate(lines[0], ends[0], rest);
    Associate(lines[0], ends[0] + rest, tail);
    Associate(ends[0], rest, tail);
  }

  // ----- The buffered reader -----

  function Flatten(chunks: seq<seq<Byte>>): seq<Byte> {
    if chunks == [] then [] else chunks[0] + Flatten(chunks[1..])
  }

  ghost predicate Readable(chunks: seq<seq<Byte>>) {
    forall i | 0 <= i < |chunks| :: 0 < |chunks[i]| <= HTTP_READ_BUF_LEN
  }

  /** The part of a request that reads from its socket; `incoming` is what the next
      reads deliver before the end of input. */
  class Connection {
    var readBuf: array<Byte>
    var readBufPtr: nat
    var readBufRemain: nat
    var incoming: seq<seq<Byte>>

    constructor (chunks: seq<seq<Byte>>)
      requires Readable(chunks)
      ensures Valid() && Pending() == Flatten(chunks) && fresh(readBuf)
    {
      readBuf := new Byte[HTTP_READ_BUF_LEN + 1](_ => 0);
      readBufPtr, readBufRemain := 0, 0;
      incoming := chunks;
    }

    ghost predicate Valid()
      reads this, readBuf
    {
      readBuf.Length == HTTP_READ_BUF_LEN + 1 && readBufPtr + readBufRemain <= HTTP_READ_BUF_LEN && Readable(incoming)
    }

    /** What has not been read, wherever it is. */
    ghost function Pending(): seq<Byte>
      requires Valid()
      reads this, readBuf
    {
      readBuf[readBufPtr..readBufPtr + readBufRemain] + Flatten(incoming)
    }

    /** Reads the next chunk into the empty buffer. */
    method Fill() returns (ok: bool)
      requires Valid() && readBufRemain == 0
      modifies this, readBuf
      ensures Valid() && readBuf == old(readBuf) && Pending() == old(Pending())
      ensures ok == (old(Pending()) != []) && ok == (readBufRemain > 0)
    {
      assert Pending() == Flatten(incoming);
      forall i | 0 <= i < readBuf.Length {
        readBuf[i] := 0;
      }
      if incoming == [] {
        return false;
      }
      var chunk := incoming[0];
      ghost var was := readBuf[..];
      Memcpy(readBuf, 0, chunk);
      OverlaidWhole(readBuf[..], was, chunk);
      readBufPtr, readBufRemain, incoming := 0, |chunk|, incoming[1..];
      ghost var filled := readBuf[..];
      readBuf[readBufRemain] := 0;
      assert readBuf[0..|chunk|] == filled[..|chunk|];
      ok := true;
    }

    /** `_httpd_readChar`. */
    method ReadChar() returns (ok: bool, c: Byte)
      requires Valid()
      modifies this, readBuf
      ensures Valid() && readBuf == old(readBuf)
      ensures ok == (old(Pending()) != [])
      ensures ok ==> old(Pending()) == [c] + Pending()
      ensures !ok ==> Pending() == []
    {
      c := 0;
      ok := true;
      if readBufRemain == 0 {
        ok := Fill();
      }
      if ok {
        c := TakeChar();
      }
    }

    /** `*cp = *r->readBufPtr++; r->readBufRemain--;` */
    method TakeChar() returns (c: Byte)
      requires Valid() && readBufRemain > 0
      modifies this`readBufPtr, this`readBufRemain
      ensures Valid() && old(Pending()) == [c] + Pending()
    {
      c := readBuf[readBufPtr];
      ghost var text := readBuf[readBufPtr..readBufPtr + readBufRemain];
      assert text == [c] + text[1..] && text[1..] == readBuf[readBufPtr + 1..readBufPtr + readBufRemain];
      Associate([c], text[1..], Flatten(incoming));
      readBufPtr := readBufPtr + 1;
      readBufRemain := readBufRemain - 1;
    }

    /** `_httpd_readLine`: depends on what is pending only, however it was delivered. The
        buffer must hold the line and a terminator. */
    method ReadLine(destBuf: array<Byte>, len: nat) returns (ok: bool, count: nat)
      requires Valid() && destBuf != readBuf && len <= destBuf.Length
      requires var result := LineFrom(Pending(), [], len); result.Line? ==> |result.text| < destBuf.Length
      modifies this, readBuf, destBuf
      ensures Valid() && readBuf == old(readBuf)
      ensures ok ==> count < destBuf.Length && destBuf[count] == 0
      ensures LineFrom(old(Pending()), [], len) == if ok then Line(destBuf[..count], Pending()) else NoLine
      ensures !ok ==> Pending() == []
    {
      ghost var goal, line: seq<Byte> := LineFrom(Pending(), [], len), [];
      count := 0;
      while count < len
        invariant Valid() && readBuf == old(readBuf) && count == |line| <= len
        invariant goal == LineFrom(Pending(), line, len)
        invariant destBuf[..count] == line
        decreases |Pending()|
      {
        var found, curChar := ReadChar();
        if !found {
          return false, count;
        }
        if Ends(curChar) {
          destBuf[count] := 0;
          return true, count;
        }
        if curChar != CR {
          destBuf[count] := curChar;
          count := count + 1;
          line := line + [curChar];
        }
      }
      destBuf[count] := 0;
      ok := true;
    }

    /** One `_httpd_readLine` call, and the line it leaves in the buffer. */
    method NextLine(buf: array<Byte>, len: nat) returns (more: bool, text: seq<Byte>)
      requires Valid() && buf != readBuf && 0 < len <= buf.Length && (len == buf.Length ==> Within(Pending(), 0, len))
      modifies this, readBuf, buf
      ensures Valid() && readBuf == old(readBuf)
      ensures Lines(old(Pending()), len) == if more then [text] + Lines(Pending(), len) else []
      ensures more ==> |Pending()| < |old(Pending())| && (len == buf.Length ==> Within(Pending(), 0, len))
    {
      LineTakes(Pending(), [], len);
      WithinLine(Pending(), [], len);
      var count;
      more, count := ReadLine(buf, len);
      text := if more then buf[..count] else [];
    }

    /** Repeated `_httpd_readLine` calls up to the end of input. A buffer of just `len`
        octets, as the source has, is enough for a stream within the limit. */
    method ReadLines(len: nat, size: nat) returns (lines: seq<seq<Byte>>)
      requires Valid() && 0 < len <= size && (len == size ==> Within(Pending(), 0, len))
      modifies this, readBuf
      ensures Valid() && lines == Lines(old(Pending()), len)
    {
      var buf := new Byte[size](_ => 0);
      lines := [];
      ghost var all := Lines(Pending(), len);
      var more := true;
      while more
        invariant Valid() && readBuf == old(readBuf)
        invariant all == lines + if more then Lines(Pending(), len) else []
        invariant more && len == size ==> Within(Pending(), 0, len)
        decreases more, |Pending()|
      {
        var text;
        more, text := NextLine(buf, len);
        if more {
          lines := lines + [text];
        }
      }
    }
  }

  /** A connection read to its end: the lines depend on the stream only, not on how it
      was cut into reads. */
  method ReadStream(chunks: seq<seq<Byte>>, len: nat) returns (lines: seq<seq<Byte>>)
    requires Readable(chunks) && len > 0
    ensures lines == Lines(Flatten(chunks), len)
    ensures Within(Flatten(chunks), 0, len) ==> lines == FlatLines(Flatten(chunks), [])
  {
    var connection := new Connection(chunks);
    lines := connection.ReadLines(len, len + 1);
    LinesAreFlatIff(Flatten(chunks), len);
  }

  /** The same with a buffer of `len` octets. */
  method ReadStreamWithin(chunks: seq<seq<Byte>>, len: nat) returns (lines: seq<seq<Byte>>)
    requires Readable(chunks) && len > 0 && Within(Flatten(chunks), 0, len)
    ensures lines == FlatLines(Flatten(chunks), [])
  {
    var connection := new Connection(chunks);
    lines := connection.ReadLines(len, len);
    LinesAreFlatIff(Flatten(chunks), len);
  }
}
