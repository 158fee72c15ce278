/** Mail text as lines: SendText and Load of ml_pop.cpp over sendln and recvln of io_inet.cpp, with
    the dot-stuffing of RFC 5321 section 4.5.2 and RFC 1939 section 3. */
module MailLines {
  import opened Bytes
  import opened Streams

  const DOT: byte := '.' as int
  const CR: byte := '\r' as int
  const LF: byte := '\n' as int
  const CRLF: seq<byte> := [CR, LF]

  // ----- Text as lines

  predicate Plain(line: seq<byte>) {
    0 !in line && CR !in line && LF !in line
  }

  predicate AllPlain(lines: seq<seq<byte>>) {
    lines == [] || (Plain(lines[0]) && AllPlain(lines[1..]))
  }

  /** strcspn(text, "\r\n") */
  function LineLength(text: seq<byte>): (n: nat)
    ensures n <= |text|
  {
    if text == [] || text[0] == CR || text[0] == LF then 0 else 1 + LineLength(text[1..])
  }

  function AfterReturns(text: seq<byte>): (r: seq<byte>)
    ensures |r| <= |text|
  {
    if text != [] && text[0] == CR then AfterReturns(text[1..]) else text
  }

  /** Any number of CRs and then at most one LF end a line. */
  function AfterBreak(text: seq<byte>): (r: seq<byte>)
    ensures |r| <= |text|
    ensures text != [] && (text[0] == CR || text[0] == LF) ==> |r| < |text|
  {
    var t := AfterReturns(text);
    if t != [] && t[0] == LF then t[1..] else t
  }

  lemma {:induction false} LineStops(text: seq<byte>)
    ensures var n := LineLength(text);
      && CR !in text[..n] && LF !in text[..n]
      && (n < |text| ==> text[n] == CR || text[n] == LF)
  {
    if text != [] && text[0] != CR && text[0] != LF {
      LineStops(text[1..]);
      var n := LineLength(text[1..]);
      assert text[..1 + n] == [text[0]] + text[1..][..n];
    }
  }

  function Lines(text: seq<byte>): seq<seq<byte>>
    decreases |text|
  {
    if text == [] then []
    else
      var n := LineLength(text);
      assert n == 0 ==> text[n..] == text;
      [text[..n]] + Lines(AfterBreak(text[n..]))
  }

  function Joined(lines: seq<seq<byte>>): seq<byte> {
    if lines == [] then [] else lines[0] + CRLF + Joined(lines[1..])
  }

  lemma {:induction false} BreakAddsNothing(text: seq<byte>)
    requires 0 !in text
    ensures 0 !in AfterReturns(text) && 0 !in AfterBreak(text)
  {
    if text != [] && text[0] == CR {
      BreakAddsNothing(text[1..]);
    }
  }

  lemma {:induction false} LinesArePlain(text: seq<byte>)
    requires 0 !in text
    ensures AllPlain(Lines(text))
    decreases |text|
  {
    if text != [] {
      LineStops(text);
      BreakAddsNothing(text[LineLength(text)..]);
      LinesArePlain(AfterBreak(text[LineLength(text)..]));
    }
  }

  lemma {:induction false} LineLengthOfPlain(line: seq<byte>, rest: seq<byte>)
    requires Plain(line) && rest != [] && (rest[0] == CR || rest[0] == LF)
    ensures LineLength(line + rest) == |line|
  {
    if line == [] {
      assert line + rest == rest;
    } else {
      assert (line + rest)[1..] == line[1..] + rest;
      LineLengthOfPlain(line[1..], rest);
    }
  }

  lemma BreakIsTaken(rest: seq<byte>)
    ensures AfterBreak(CRLF + rest) == rest
  {
    var t := [LF] + rest;
    assert (CRLF + rest)[1..] == t;
    assert AfterReturns(t) == t && t[1..] == rest;
  }

  lemma LinesOfLine(line: seq<byte>, rest: seq<byte>)
    requires Plain(line)
    ensures Lines(line + (CRLF + rest)) == [line] + Lines(rest)
  {
    var tail := CRLF + rest;
    LineLengthOfPlain(line, tail);
    assert (line + tail)[|line|..] == tail && (line + tail)[..|line|] == line;
    BreakIsTaken(rest);
  }

  /** Text that already has CRLF line ends is kept as it is. */
  lemma {:induction false} LinesOfJoined(lines: seq<seq<byte>>)
    requires AllPlain(lines)
    ensures Lines(Joined(lines)) == lines
  {
    if lines != [] {
      Assoc(lines[0], CRLF, Joined(lines[1..]));
      LinesOfLine(lines[0], Joined(lines[1..]));
      LinesOfJoined(lines[1..]);
      assert lines == [lines[0]] + lines[1..];
    }
  }

  // ----- Text with any line breaks

  /** A line and what ends it: some CRs and then an LF or not. */
  datatype Piece = Piece(line: seq<byte>, returns_: nat, feed: bool)

  function Ended(p: Piece): seq<byte> {
    p.line + (Repeat(0x0D, p.returns_) + if p.feed then [0x0A] else [])
  }

  function TextOf(pieces: seq<Piece>, last: seq<byte>): seq<byte> {
    if pieces == [] then last else Ended(pieces[0]) + TextOf(pieces[1..], last)
  }

  /** The lines of the pieces, and what stands behind the last break. */
  function LinesGiven(pieces: seq<Piece>, last: seq<byte>): seq<seq<byte>> {
    if pieces == [] then if last == [] then [] else [last]
    else [pieces[0].line] + LinesGiven(pieces[1..], last)
  }

  predicate NoBreak(t: seq<byte>) {
    0x0D !in t && 0x0A !in t
  }

  /** Every line ends in a CR or an LF, and no break runs on into the next one: CRs without an LF are
      followed by text or by nothing. */
  predicate WellBroken(pieces: seq<Piece>, last: seq<byte>) {
    if pieces == [] then NoBreak(last)
    else
      && NoBreak(pieces[0].line) && (pieces[0].returns_ > 0 || pieces[0].feed)
      && (pieces[0].feed || |pieces| == 1 || pieces[1].line != [])
      && WellBroken(pieces[1..], last)
  }

  lemma {:induction false} ReturnsAreSkipped(n: nat, rest: seq<byte>)
    requires rest == [] || rest[0] != 0x0D
    ensures AfterReturns(Repeat(0x0D, n) + rest) == rest
  {
    if n == 0 {
      assert Repeat(0x0D, n) + rest == rest;
    } else {
      assert (Repeat(0x0D, n) + rest)[1..] == Repeat(0x0D, n - 1) + rest;
      ReturnsAreSkipped(n - 1, rest);
    }
  }

  /** A break ends behind its LF, or behind its last CR if text or nothing follows. */
  lemma BreakEnds(n: nat, feed: bool, rest: seq<byte>)
    requires feed || rest == [] || NoBreak([rest[0]])
    ensures AfterBreak(Repeat(0x0D, n) + (if feed then [0x0A] else []) + rest) == rest
  {
    var behind := (if feed then [0x0A] else []) + rest;
    assert Repeat(0x0D, n) + (if feed then [0x0A] else []) + rest == Repeat(0x0D, n) + behind;
    ReturnsAreSkipped(n, behind);
    assert feed ==> behind[1..] == rest;
    assert !feed ==> behind == rest;
  }

  lemma {:induction false} LineUpToBreak(line: seq<byte>, rest: seq<byte>)
    requires NoBreak(line) && (rest == [] || !NoBreak([rest[0]]))
    ensures LineLength(line + rest) == |line|
  {
    if line == [] {
      assert line + rest == rest;
    } else {
      assert (line + rest)[1..] == line[1..] + rest;
      LineUpToBreak(line[1..], rest);
    }
  }

  lemma LinesOfPiece(p: Piece, rest: seq<byte>)
    requires NoBreak(p.line) && (p.returns_ > 0 || p.feed) && (p.feed || rest == [] || NoBreak([rest[0]]))
    ensures Lines(Ended(p) + rest) == [p.line] + Lines(rest)
  {
    var end := Repeat(0x0D, p.returns_) + if p.feed then [0x0A] else [];
    var text := p.line + (end + rest);
    Assoc(p.line, end, rest);
    LineUpToBreak(p.line, end + rest);
    assert text[|p.line|..] == end + rest && text[..|p.line|] == p.line;
    BreakEnds(p.returns_, p.feed, rest);
  }

  /** A text has exactly the lines it is made of, whatever mix of CR and LF ends them. */
  lemma {:induction false} LinesOfText(pieces: seq<Piece>, last: seq<byte>)
    requires WellBroken(pieces, last)
    ensures Lines(TextOf(pieces, last)) == LinesGiven(pieces, last)
  {
    if pieces == [] {
      LineUpToBreak(last, []);
      assert last + [] == last && last[|last|..] == [];
    } else {
      NextStarts(pieces, last);
      LinesOfPiece(pieces[0], TextOf(pieces[1..], last));
      LinesOfText(pieces[1..], last);
    }
  }

  lemma NextStarts(pieces: seq<Piece>, last: seq<byte>)
    requires pieces != [] && WellBroken(pieces, last)
    ensures var rest := TextOf(pieces[1..], last); pieces[0].feed || rest == [] || NoBreak([rest[0]])
  {
    var more := pieces[1..];
    if more == [] {
      assert last != [] ==> last[0] in last;
    } else {
      assert more[0] == pieces[1];
      assert more[0].line != [] ==> more[0].line[0] in more[0].line;
    }
  }

  /** Every text is made of such pieces. */
  lemma {:induction false} EveryTextIsPieces(text: seq<byte>) returns (pieces: seq<Piece>, last: seq<byte>)
    ensures WellBroken(pieces, last) && TextOf(pieces, last) == text
    decreases |text|
  {
    var n := LineLength(text);
    LineStops(text);
    if n == |text| {
      assert text[..n] == text;
      return [], text;
    }
    var crs := text[n..];
    var after := AfterReturns(crs);
    var k := ReturnsBefore(crs);
    var feed := after != [] && after[0] == 0x0A;
    var rest := if feed then after[1..] else after;
    pieces, last := EveryTextIsPieces(rest);
    var p := Piece(text[..n], k, feed);
    FirstPiece(text, n, crs, after, rest, p);
    assert ([p] + pieces)[1..] == pieces;
    if !feed && pieces != [] && pieces[0].line == [] {
      FirstOfText(pieces, last);
    }
    pieces := [p] + pieces;
  }

  lemma FirstPiece(text: seq<byte>, n: nat, crs: seq<byte>, after: seq<byte>, rest: seq<byte>, p: Piece)
    requires n < |text| && crs == text[n..] && crs == Repeat(0x0D, p.returns_) + after
    requires p.line == text[..n] && p.feed == (after != [] && after[0] == 0x0A)
    requires rest == if p.feed then after[1..] else after
    ensures text == Ended(p) + rest
  {
    assert p.feed ==> after == [0x0A] + rest;
    assert crs == (Repeat(0x0D, p.returns_) + if p.feed then [0x0A] else []) + rest;
    assert text == text[..n] + crs;
  }

  /** A text that starts with an empty line starts with its break. */
  lemma FirstOfText(pieces: seq<Piece>, last: seq<byte>)
    requires pieces != [] && WellBroken(pieces, last) && pieces[0].line == []
    ensures var t := TextOf(pieces, last); t != [] && (t[0] == 0x0D || t[0] == 0x0A)
  {
  }

  lemma {:induction false} ReturnsBefore(text: seq<byte>) returns (k: nat)
    ensures text == Repeat(0x0D, k) + AfterReturns(text)
    ensures AfterReturns(text) == [] || AfterReturns(text)[0] != 0x0D
    ensures text != [] && text[0] == 0x0D ==> k > 0
  {
    k := 0;
    if text != [] && text[0] == CR {
      k := ReturnsBefore(text[1..]);
      k := k + 1;
      assert Repeat(0x0D, k) == [0x0D] + Repeat(0x0D, k - 1);
      assert text == [0x0D] + text[1..];
      assert text == [0x0D] + (Repeat(0x0D, k - 1) + AfterReturns(text));
      Assoc([0x0D], Repeat(0x0D, k - 1), AfterReturns(text));
    } else {
      assert Repeat(0x0D, 0) + text == text;
    }
  }

  // ----- Sending

  function Stuffed(line: seq<byte>): seq<byte> {
    if line != [] && line[0] == DOT then [DOT] + line else line
  }

  function Sent(lines: seq<seq<byte>>): seq<byte> {
    if lines == [] then [] else Stuffed(lines[0]) + CRLF + Sent(lines[1..])
  }

  function Chopped(line: seq<byte>): seq<byte> {
    if line != [] && line[|line| - 1] == LF then line[..|line| - 1] else line
  }

  /** A string goes out without the newline at its end, if it has one. */
  lemma ChoppedInBytes(t: seq<byte>)
    ensures Chopped(t + [0x0A]) == t && Chopped([]) == []
    ensures t != [] && t[|t| - 1] != 0x0A ==> Chopped(t) == t
  {
  }

  method SendLn(ss: OutStream, s: array<byte>)
    requires s.Length > 0 && s[s.Length - 1] == 0
    modifies ss
    ensures ss.bytes == old(ss.bytes) + Chopped(CString(s[..])) + CRLF
  {
    var l := 0;
    while s[l] != 0
      invariant 0 <= l < s.Length && 0 !in s[..l]
      decreases s.Length - l
    {
      l := l + 1;
    }
    CStringOf(s[..l], s[l..]);
    assert s[..] == s[..l] + s[l..];
    if l > 0 && s[l - 1] == LF { l := l - 1; }
    ss.Write(s, 0, l);
    assert s[0..l] == Chopped(CString(s[..]));
    ss.WriteBytes(CRLF);
  }

  /** memmove(line + 1, line, count), and what that does to a line that starts with a dot. */
  method DoubleFirst(line: array<byte>, count: nat)
    requires 0 < count < line.Length
    modifies line
    ensures line[..] == [old(line[0])] + old(line[..])[..count] + old(line[..])[count + 1..]
  {
    ghost var was := line[..];
    var k := count;
    while k > 0
      invariant 0 <= k <= count
      invariant forall j | 0 <= j <= k :: line[j] == was[j]
      invariant forall j | k < j <= count :: line[j] == was[j - 1]
      invariant forall j | count < j < line.Length :: line[j] == was[j]
    {
      line[k] := line[k - 1];
      k := k - 1;
    }
    assert line[1..count + 1] == was[..count];
    assert line[count + 1..] == was[count + 1..];
    assert line[..] == [line[0]] + line[1..count + 1] + line[count + 1..];
  }

  /** One line of the text, copied to a string of its own with room for another byte. */
  method SendLine(ss: OutStream, text: seq<byte>)
    requires Plain(text)
    modifies ss
    ensures ss.bytes == old(ss.bytes) + (Stuffed(text) + CRLF)
  {
    var line := new byte[|text| + 4](_ => 0);
    StoreBytes(line, text);
    assert line[..] == text + [0, 0, 0, 0];
    LineInMemory(text);
    if line[0] == DOT { DoubleFirst(line, |text| + 1); }
    assert line[line.Length - 1] == line[..][|line[..]| - 1];
    SendLn(ss, line);
    assert Chopped(Stuffed(text)) == Stuffed(text);
    Assoc(old(ss.bytes), Stuffed(text), CRLF);
  }

  /** The four NULs that end a string leave room for a line to be lengthened by one. */
  lemma LineInMemory(text: seq<byte>)
    requires Plain(text)
    ensures var mem := text + [0, 0, 0, 0];
      if mem[0] == DOT then
        var moved := [mem[0]] + mem[..|text| + 1] + mem[|text| + 2..];
        CString(moved) == Stuffed(text) && |moved| == |mem| && moved[|mem| - 1] == 0
      else CString(mem) == Stuffed(text) && mem[|mem| - 1] == 0
  {
    var mem := text + [0, 0, 0, 0];
    CStringOf(text, [0, 0, 0, 0]);
    if mem[0] == DOT {
      var moved := [mem[0]] + mem[..|text| + 1] + mem[|text| + 2..];
      assert moved == ([DOT] + text) + [0, 0, 0];
      CStringOf([DOT] + text, [0, 0, 0]);
    }
  }

  lemma AfterOneReturn(text: seq<byte>, j: nat)
    requires j < |text| && text[j] == CR
    ensures AfterReturns(text[j..]) == AfterReturns(text[j + 1..])
  {
  }

  method SkipReturns(text: seq<byte>, i: nat) returns (j: nat)
    requires i <= |text|
    ensures i <= j <= |text| && text[j..] == AfterReturns(text[i..])
  {
    j := i;
    while j < |text| && text[j] == CR
      invariant i <= j <= |text| && AfterReturns(text[j..]) == AfterReturns(text[i..])
    {
      AfterOneReturn(text, j);
      j := j + 1;
    }
  }

  method SkipBreak(text: seq<byte>, i: nat) returns (j: nat)
    requires i <= |text|
    ensures i <= j <= |text| && text[j..] == AfterBreak(text[i..])
  {
    j := SkipReturns(text, i);
    if j < |text| && text[j] == LF {
      assert text[j..][1..] == text[j + 1..];
      j := j + 1;
    }
  }

  method SendText(ss: OutStream, text: seq<byte>)
    requires 0 !in text
    modifies ss
    ensures ss.bytes == old(ss.bytes) + Sent(Lines(text))
  {
    var i := 0;
    ghost var begun, all := [], Sent(Lines(text));
    assert text[0..] == text;
    EmptyFront(all);
    while i < |text|
      invariant 0 <= i <= |text| && ss.bytes == old(ss.bytes) + begun
      invariant all == begun + Sent(Lines(text[i..]))
    {
      i, begun := SendNext(ss, text, i, begun, old(ss.bytes));
    }
  }

  method SendNext(ss: OutStream, text: seq<byte>, i: nat, ghost begun: seq<byte>, ghost start: seq<byte>)
    returns (j: nat, ghost begun': seq<byte>)
    requires 0 !in text && i < |text| && ss.bytes == start + begun
    modifies ss
    ensures i < j <= |text| && ss.bytes == start + begun'
    ensures begun + Sent(Lines(text[i..])) == begun' + Sent(Lines(text[j..]))
  {
    var len := LineLength(text[i..]);
    ghost var line := text[i..][..len];
    LineStops(text[i..]);
    SliceOfRest(text, i, len);
    SendLine(ss, text[i..i + len]);
    begun' := begun + (Stuffed(line) + CRLF);
    Assoc(start, begun, Stuffed(line) + CRLF);
    j := SkipBreak(text, i + len);
    ShorterAfterBreak(text, i, len, j);
    SentStep(text[i..]);
    Assoc(begun, Stuffed(line) + CRLF, Sent(Lines(text[j..])));
  }

  lemma ShorterAfterBreak(text: seq<byte>, i: nat, len: nat, j: nat)
    requires i < |text| && len == LineLength(text[i..])
    requires i + len <= j <= |text| && text[j..] == AfterBreak(text[i + len..])
    ensures i < j
  {
  }

  lemma SliceOfRest(text: seq<byte>, i: nat, len: nat)
    requires i + len <= |text|
    ensures text[i..i + len] == text[i..][..len] && text[i..][len..] == text[i + len..]
  {
  }

  lemma SentStep(text: seq<byte>)
    requires text != []
    ensures var n := LineLength(text);
      Sent(Lines(text)) == Stuffed(text[..n]) + CRLF + Sent(Lines(AfterBreak(text[n..])))
  {
  }

  // ----- Receiving

  const REPLY := 256

  /** recvln from its i-th character on: the buffer, whether the line ended, what is left to read.
      At the end of the stream the buffer keeps whatever stood behind the last character. */
  datatype Received = Received(buf: seq<byte>, eol: bool, rest: seq<byte>)

  function Recv(buf: seq<byte>, i: nat, s: seq<byte>): (r: Received)
    requires |buf| == REPLY && i < REPLY
    ensures |r.buf| == REPLY && |r.rest| <= |s|
    decreases |s|
  {
    if i >= REPLY - 1 then Received(buf[i := 0], false, s)
    else if s == [] then Received(buf, false, [])
    else if s[0] == LF then Received(buf[i := 0], true, s[1..])
    else if s[0] == CR then Received(buf[i := 0], true, if |s| == 1 then [] else s[2..])
    else Recv(buf[i := s[0]], i + 1, s[1..])
  }

  method RecvLn(conn: InStream, s: array<byte>) returns (eol: bool)
    requires conn.Valid() && s.Length == REPLY
    modifies conn, s
    ensures conn.Valid()
    ensures Received(s[..], eol, conn.Rest()) == Recv(old(s[..])[0 := 0], 0, old(conn.Rest()))
  {
    var i := 0;
    s[0] := 0;
    ghost var goal := Recv(s[..], 0, conn.Rest());
    while i < REPLY - 1
      invariant conn.Valid() && 0 <= i < REPLY
      invariant Recv(s[..], i, conn.Rest()) == goal
    {
      if conn.pos == |conn.bytes| { return false; }
      var ch := conn.bytes[conn.pos];
      conn.pos := conn.pos + 1;
      if ch == LF { s[i] := 0; return true; }
      if ch == CR {
        if conn.pos < |conn.bytes| { conn.pos := conn.pos + 1; }
        s[i] := 0;
        return true;
      }
      s[i] := ch;
      i := i + 1;
    }
    s[i] := 0;
    return false;
  }
}
