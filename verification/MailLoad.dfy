/** POPMailLibrary::Load of ml_pop.cpp: reading a dot-stuffed message through a 256-byte buffer. */
module MailLoad {
  import opened Bytes
  import opened Streams
  import opened MailLines

  const CHUNK := REPLY - 1

  /** What Load writes for one buffer, or nothing at all when it takes it for the end. */
  predicate IsEnd(buf: seq<byte>, eol: bool)
    requires |buf| == REPLY
  {
    (!eol && buf[0] == 0) || (buf[0] == DOT && buf[1] == 0)
  }

  function Unstuffed(piece: seq<byte>): seq<byte> {
    if |piece| >= 2 && piece[0] == DOT && piece[1] == DOT then piece[1..] else piece
  }

  /** The loop of Load: what it writes for the stream s, given what the buffer holds. */
  function Loaded(buf: seq<byte>, s: seq<byte>): seq<byte>
    requires |buf| == REPLY
    decreases |s|
  {
    var r := Recv(buf[0 := 0], 0, s);
    if IsEnd(r.buf, r.eol) then []
    else
      EveryPieceConsumes(buf[0 := 0], s, r);
      Unstuffed(CString(r.buf)) + (if r.eol then CRLF else []) + Loaded(r.buf, r.rest)
  }

  /** What Load has not read when it stops. */
  function Unread(buf: seq<byte>, s: seq<byte>): seq<byte>
    requires |buf| == REPLY
    decreases |s|
  {
    var r := Recv(buf[0 := 0], 0, s);
    if IsEnd(r.buf, r.eol) then r.rest
    else
      EveryPieceConsumes(buf[0 := 0], s, r);
      Unread(r.buf, r.rest)
  }

  /** writestr; the model ends a string that has no NUL where its buffer ends. */
  method WriteStr(out: OutStream, s: array<byte>, from: nat)
    requires from < s.Length
    modifies out
    ensures out.bytes == old(out.bytes) + CString(s[from..])
  {
    var l := from;
    while l < s.Length && s[l] != 0
      invariant from <= l <= s.Length && 0 !in s[from..l]
    {
      l := l + 1;
    }
    CStringOf(s[from..l], s[l..]);
    assert s[from..] == s[from..l] + s[l..];
    out.Write(s, from, l - from);
  }

  method WritePiece(out: OutStream, reply: array<byte>, eol: bool)
    requires reply.Length == REPLY
    modifies out
    ensures out.bytes == old(out.bytes) + (Unstuffed(CString(reply[..])) + if eol then CRLF else [])
  {
    UnstuffedInPlace(reply[..]);
    assert reply[0..] == reply[..];
    if reply[0] == DOT && reply[1] == DOT {
      WriteStr(out, reply, 1);
    } else {
      WriteStr(out, reply, 0);
    }
    if eol { out.WriteBytes(CRLF); }
    Assoc(old(out.bytes), Unstuffed(CString(reply[..])), if eol then CRLF else []);
  }

  lemma UnstuffedInPlace(buf: seq<byte>)
    requires |buf| == REPLY
    ensures Unstuffed(CString(buf)) == if buf[0] == DOT && buf[1] == DOT then CString(buf[1..]) else CString(buf)
  {
  }

  method Load(cmd: array<byte>, ss: OutStream, conn: InStream, out: OutStream) returns (ghost garbage: seq<byte>)
    requires cmd.Length > 0 && cmd[cmd.Length - 1] == 0 && conn.Valid() && ss != out
    modifies ss, conn, out
    ensures conn.Valid() && |garbage| == REPLY
    ensures ss.bytes == old(ss.bytes) + Chopped(CString(old(cmd[..]))) + CRLF
    ensures var first := Recv(garbage[0 := 0], 0, old(conn.Rest()));
      && out.bytes == old(out.bytes) + (if first.eol then Loaded(first.buf, first.rest) else [])
      && conn.Rest() == if first.eol then Unread(first.buf, first.rest) else first.rest
  {
    var reply := new byte[REPLY];
    garbage := reply[..];
    SendLn(ss, cmd);
    var ok := RecvLn(conn, reply);
    if ok { LoadBody(conn, reply, out); }
  }

  method LoadBody(conn: InStream, reply: array<byte>, out: OutStream)
    requires conn.Valid() && reply.Length == REPLY
    modifies conn, reply, out
    ensures conn.Valid()
    ensures out.bytes == old(out.bytes) + Loaded(old(reply[..]), old(conn.Rest()))
    ensures conn.Rest() == Unread(old(reply[..]), old(conn.Rest()))
  {
    ghost var all, left, begun := Loaded(reply[..], conn.Rest()), Unread(reply[..], conn.Rest()), [];
    EmptyFront(all);
    while true
      invariant conn.Valid() && out.bytes == old(out.bytes) + begun
      invariant all == begun + Loaded(reply[..], conn.Rest()) && left == Unread(reply[..], conn.Rest())
      decreases |conn.Rest()|
    {
      ghost var buf, s := reply[..], conn.Rest();
      reply[0] := 0;
      var eol := RecvLn(conn, reply);
      assert buf[0 := 0][0 := 0] == buf[0 := 0];
      LoadedStep(buf, s, reply[..], eol, conn.Rest());
      UnreadStep(buf, s, reply[..], eol, conn.Rest());
      if !eol && reply[0] == 0 { break; }
      if reply[0] == DOT && reply[1] == 0 { break; }
      EveryPieceConsumes(buf[0 := 0], s, Received(reply[..], eol, conn.Rest()));
      ghost var piece := Unstuffed(CString(reply[..])) + if eol then CRLF else [];
      WritePiece(out, reply, eol);
      Assoc(begun, piece, Loaded(reply[..], conn.Rest()));
      Assoc(old(out.bytes), begun, piece);
      begun := begun + piece;
    }
  }

  lemma LoadedStep(buf: seq<byte>, s: seq<byte>, buf': seq<byte>, eol: bool, s': seq<byte>)
    requires |buf| == REPLY && Received(buf', eol, s') == Recv(buf[0 := 0], 0, s)
    ensures |buf'| == REPLY
    ensures Loaded(buf, s) == if IsEnd(buf', eol) then []
      else Unstuffed(CString(buf')) + (if eol then CRLF else []) + Loaded(buf', s')
  {
  }

  lemma UnreadStep(buf: seq<byte>, s: seq<byte>, buf': seq<byte>, eol: bool, s': seq<byte>)
    requires |buf| == REPLY && Received(buf', eol, s') == Recv(buf[0 := 0], 0, s)
    ensures |buf'| == REPLY
    ensures Unread(buf, s) == if IsEnd(buf', eol) then s' else Unread(buf', s')
  {
  }

  lemma EveryPieceConsumes(buf: seq<byte>, s: seq<byte>, r: Received)
    requires |buf| == REPLY && buf[0] == 0 && r == Recv(buf, 0, s) && !IsEnd(r.buf, r.eol)
    ensures |r.rest| < |s|
  {
  }

  // ----- What arrives of a complete message

  lemma {:induction false} RecvLine(buf: seq<byte>, i: nat, u: seq<byte>, rest: seq<byte>)
    requires |buf| == REPLY && Plain(u) && i + |u| < CHUNK
    ensures Recv(buf, i, u + (CRLF + rest)) ==
      Received(buf[..i] + u + [0] + buf[i + |u| + 1..], true, rest)
    decreases |u|
  {
    if u == [] {
      assert u + (CRLF + rest) == CRLF + rest && (CRLF + rest)[2..] == rest;
      assert buf[i := 0] == buf[..i] + u + [0] + buf[i + 1..];
    } else {
      assert (u + (CRLF + rest))[1..] == u[1..] + (CRLF + rest);
      var buf' := buf[i := u[0]];
      RecvLine(buf', i + 1, u[1..], rest);
      assert buf'[..i + 1] + u[1..] == buf[..i] + u;
      assert buf'[i + |u| + 1..] == buf[i + |u| + 1..];
    }
  }

  lemma {:induction false} RecvChunk(buf: seq<byte>, i: nat, u: seq<byte>, rest: seq<byte>)
    requires |buf| == REPLY && Plain(u) && i + |u| == CHUNK
    ensures Recv(buf, i, u + rest) == Received(buf[..i] + u + [0], false, rest)
    decreases |u|
  {
    if u == [] {
      assert u + rest == rest;
      assert buf[i := 0] == buf[..i] + u + [0];
    } else {
      assert (u + rest)[1..] == u[1..] + rest;
      var buf' := buf[i := u[0]];
      RecvChunk(buf', i + 1, u[1..], rest);
      assert buf'[..i + 1] + u[1..] == buf[..i] + u;
    }
  }

  /** What Load writes for the rest u of a line that starts in a fresh buffer. */
  function Kept(u: seq<byte>): seq<byte>
    decreases |u|
  {
    if |u| >= CHUNK then Unstuffed(u[..CHUNK]) + Kept(u[CHUNK..])
    else if u == [DOT] then []
    else Unstuffed(u) + CRLF
  }

  /** Load takes a piece of that line for the end of the message. */
  predicate Cut(u: seq<byte>)
    decreases |u|
  {
    if |u| >= CHUNK then Cut(u[CHUNK..]) else u == [DOT]
  }

  lemma LoadedShort(buf: seq<byte>, u: seq<byte>, rest: seq<byte>) returns (buf': seq<byte>)
    requires |buf| == REPLY && Plain(u) && |u| < CHUNK
    ensures |buf'| == REPLY
    ensures Loaded(buf, u + (CRLF + rest)) == if u == [DOT] then [] else Kept(u) + Loaded(buf', rest)
    ensures Unread(buf, u + (CRLF + rest)) == if u == [DOT] then rest else Unread(buf', rest)
  {
    var b := buf[0 := 0];
    RecvLine(b, 0, u, rest);
    buf' := u + [0] + b[|u| + 1..];
    assert b[..0] + u + [0] + b[|u| + 1..] == buf';
    assert buf' == u + ([0] + b[|u| + 1..]);
    CStringOf(u, [0] + b[|u| + 1..]);
    LoadedStep(buf, u + (CRLF + rest), buf', true, rest);
    UnreadStep(buf, u + (CRLF + rest), buf', true, rest);
    assert u != [] ==> buf'[0] == u[0];
    assert |u| >= 2 ==> buf'[1] == u[1];
    assert |u| == 1 ==> buf'[1] == 0;
  }

  lemma LoadedChunk(buf: seq<byte>, u: seq<byte>, rest: seq<byte>) returns (buf': seq<byte>)
    requires |buf| == REPLY && Plain(u) && |u| == CHUNK
    ensures |buf'| == REPLY
    ensures Loaded(buf, u + rest) == Unstuffed(u) + Loaded(buf', rest)
    ensures Unread(buf, u + rest) == Unread(buf', rest)
  {
    var b := buf[0 := 0];
    RecvChunk(b, 0, u, rest);
    buf' := u + [0];
    assert b[..0] + u + [0] == buf';
    CStringOf(u, [0]);
    LoadedStep(buf, u + rest, buf', false, rest);
    UnreadStep(buf, u + rest, buf', false, rest);
    assert buf'[0] == u[0] && buf'[1] == u[1];
    assert Unstuffed(u) + [] == Unstuffed(u);
  }

  lemma {:induction false} LoadedLine(buf: seq<byte>, u: seq<byte>, rest: seq<byte>) returns (buf': seq<byte>)
    requires |buf| == REPLY && Plain(u)
    ensures |buf'| == REPLY
    ensures Loaded(buf, u + (CRLF + rest)) == if Cut(u) then Kept(u) else Kept(u) + Loaded(buf', rest)
    ensures !Cut(u) ==> Unread(buf, u + (CRLF + rest)) == Unread(buf', rest)
    decreases |u|
  {
    if |u| < CHUNK {
      buf' := LoadedShort(buf, u, rest);
    } else {
      var v := u[CHUNK..];
      var b := LoadedChunk(buf, u[..CHUNK], v + (CRLF + rest));
      assert u + (CRLF + rest) == u[..CHUNK] + (v + (CRLF + rest));
      buf' := LoadedLine(b, v, rest);
      Assoc(Unstuffed(u[..CHUNK]), Kept(v), Loaded(buf', rest));
    }
  }

  function Expected(lines: seq<seq<byte>>): seq<byte> {
    if lines == [] then []
    else if Cut(Stuffed(lines[0])) then Kept(Stuffed(lines[0]))
    else Kept(Stuffed(lines[0])) + Expected(lines[1..])
  }

  predicate Uncut(lines: seq<seq<byte>>) {
    lines == [] || (!Cut(Stuffed(lines[0])) && Uncut(lines[1..]))
  }

  /** The line that ends a message. */
  const END_MARK: seq<byte> := [DOT] + CRLF

  lemma {:induction false} LoadedMessage(buf: seq<byte>, lines: seq<seq<byte>>, more: seq<byte>)
    requires |buf| == REPLY && AllPlain(lines)
    ensures Loaded(buf, Sent(lines) + (END_MARK + more)) == Expected(lines)
    ensures Uncut(lines) ==> Unread(buf, Sent(lines) + (END_MARK + more)) == more
    decreases |lines|
  {
    var tail := END_MARK + more;
    if lines == [] {
      assert Sent(lines) + tail == [DOT] + (CRLF + more);
      var b := LoadedShort(buf, [DOT], more);
    } else {
      var u := Stuffed(lines[0]);
      var rest := Sent(lines[1..]) + tail;
      assert Plain(u);
      Assoc(u, CRLF, Sent(lines[1..]));
      assert Sent(lines) + tail == u + (CRLF + rest);
      var b := LoadedLine(buf, u, rest);
      LoadedMessage(b, lines[1..], more);
    }
  }

  // ----- When it is the text that was sent

  /** No piece of the rest of a line, cut every 255 bytes, looks stuffed or like the end. */
  predicate Smooth(u: seq<byte>)
    decreases |u|
  {
    && u != [DOT] && !(|u| >= 2 && u[0] == DOT && u[1] == DOT)
    && (|u| >= CHUNK ==> Smooth(u[CHUNK..]))
  }

  /** Only the pieces behind the first one can go wrong. */
  predicate Faithful(line: seq<byte>) {
    |Stuffed(line)| >= CHUNK ==> Smooth(Stuffed(line)[CHUNK..])
  }

  predicate AllFaithful(lines: seq<seq<byte>>) {
    lines == [] || (Faithful(lines[0]) && AllFaithful(lines[1..]))
  }

  lemma {:induction false} KeptRest(u: seq<byte>)
    ensures |Kept(u)| <= |u| + 2 && (Cut(u) ==> !Smooth(u))
    ensures Smooth(u) ==> Kept(u) == u + CRLF
    ensures !Smooth(u) ==> |Kept(u)| < |u| + 2
    decreases |u|
  {
    if |u| >= CHUNK {
      var v := u[CHUNK..];
      KeptRest(v);
      assert u == u[..CHUNK] + v;
      Assoc(u[..CHUNK], v, CRLF);
    }
  }

  lemma KeptLine(line: seq<byte>)
    ensures var u := Stuffed(line);
      && |Kept(u)| <= |line| + 2 && (Cut(u) ==> !Faithful(line))
      && (Faithful(line) ==> Kept(u) == line + CRLF)
      && (!Faithful(line) ==> |Kept(u)| < |line| + 2)
  {
    var u := Stuffed(line);
    if |u| >= CHUNK {
      var first, v := u[..CHUNK], u[CHUNK..];
      KeptRest(v);
      assert first[0] == u[0] && first[1] == u[1];
      assert first + v == u;
      assert first[1..] + v == u[1..];
      assert line[0] == DOT ==> u[1..] == line && u[1] == DOT && Unstuffed(first) == first[1..];
      assert Unstuffed(first) + v == line;
      Assoc(Unstuffed(first), v, CRLF);
    } else {
      assert Unstuffed(u) == line;
    }
  }

  lemma {:induction false} ExpectedIsJoined(lines: seq<seq<byte>>)
    ensures |Expected(lines)| <= |Joined(lines)|
    ensures AllFaithful(lines) ==> Expected(lines) == Joined(lines) && Uncut(lines)
    ensures !AllFaithful(lines) ==> |Expected(lines)| < |Joined(lines)|
  {
    if lines != [] {
      KeptLine(lines[0]);
      ExpectedIsJoined(lines[1..]);
    }
  }

  /** Sending a text of given lines, however they are ended, and a lone dot and loading that again gives
      those lines, each ended by CRLF, if and only if no long line is cut where it looks stuffed or like
      the end. */
  lemma SendThenLoad(pieces: seq<Piece>, last: seq<byte>, more: seq<byte>, buf: seq<byte>)
    requires WellBroken(pieces, last) && 0 !in TextOf(pieces, last) && |buf| == REPLY
    ensures var lines, stream := LinesGiven(pieces, last), Sent(Lines(TextOf(pieces, last))) + (END_MARK + more);
      && stream == Sent(lines) + ([0x2E, 0x0D, 0x0A] + more)
      && (Loaded(buf, stream) == Joined(lines) <==> AllFaithful(lines))
      && (AllFaithful(lines) ==> Unread(buf, stream) == more)
  {
    LinesOfText(pieces, last);
    LinesArePlain(TextOf(pieces, last));
    EndMarkInBytes();
    SentThenLoaded(LinesGiven(pieces, last), more, buf, END_MARK + more);
  }

  lemma EndMarkInBytes()
    ensures END_MARK == [0x2E, 0x0D, 0x0A]
  {
  }

  lemma SentThenLoaded(lines: seq<seq<byte>>, more: seq<byte>, buf: seq<byte>, end: seq<byte>)
    requires AllPlain(lines) && |buf| == REPLY && end == END_MARK + more
    ensures Loaded(buf, Sent(lines) + end) == Joined(lines) <==> AllFaithful(lines)
    ensures AllFaithful(lines) ==> Unread(buf, Sent(lines) + end) == more
  {
    LoadedMessage(buf, lines, more);
    ExpectedIsJoined(lines);
  }

  /** Each line of the stream ends in CR and LF, and one that starts with a dot has another in front. */
  lemma SentInBytes(line: seq<byte>, rest: seq<seq<byte>>)
    ensures Sent([]) == []
    ensures Sent([line] + rest) ==
      (if line != [] && line[0] == 0x2E then [0x2E] else []) + line + [0x0D, 0x0A] + Sent(rest)
  {
    assert ([line] + rest)[1..] == rest;
    EmptyFront(line);
  }

  /** How a received line ends: at its LF, at its CR together with the byte behind it, when the buffer is
      full, or at the end of the stream, which leaves the buffer as it was behind the line. */
  lemma {:induction false} ReceivedLine(buf: seq<byte>, i: nat, u: seq<byte>, rest: seq<byte>, any: byte)
    requires |buf| == 256 && NoBreak(u) && i + |u| < 255
    ensures var at := buf[..i] + u;
      && Recv(buf, i, u + ([0x0A] + rest)) == Received(at + [0] + buf[i + |u| + 1..], true, rest)
      && Recv(buf, i, u + ([0x0D, any] + rest)) == Received(at + [0] + buf[i + |u| + 1..], true, rest)
      && Recv(buf, i, u + [0x0D]) == Received(at + [0] + buf[i + |u| + 1..], true, [])
      && Recv(buf, i, u) == Received(at + buf[i + |u|..], false, [])
    decreases |u|
  {
    if u == [] {
      var b := buf[i := 0];
      assert b == buf[..i] + [] + [0] + buf[i + 1..] && buf == buf[..i] + [] + buf[i..];
      assert u + ([0x0A] + rest) == [0x0A] + rest && u + ([0x0D, any] + rest) == [0x0D, any] + rest;
      assert u + [0x0D] == [0x0D] && ([0x0D, any] + rest)[2..] == rest && ([0x0A] + rest)[1..] == rest;
    } else {
      var b, v := buf[i := u[0]], u[1..];
      assert (u + ([0x0A] + rest))[1..] == v + ([0x0A] + rest);
      assert (u + ([0x0D, any] + rest))[1..] == v + ([0x0D, any] + rest);
      assert (u + [0x0D])[1..] == v + [0x0D];
      ReceivedLine(b, i + 1, v, rest, any);
      assert b[..i + 1] + v == buf[..i] + u && b[i + 1 + |v|..] == buf[i + |u|..];
      assert b[i + 1 + |v| + 1..] == buf[i + |u| + 1..];
    }
  }

  predicate AllShort(lines: seq<seq<byte>>) {
    lines == [] || (|Stuffed(lines[0])| <= CHUNK && AllShort(lines[1..]))
  }

  /** In particular a text in CRLF form with lines that fit in the buffer comes back unchanged. */
  lemma CanonicalTextSurvives(lines: seq<seq<byte>>, more: seq<byte>, buf: seq<byte>)
    requires AllPlain(lines) && AllShort(lines) && |buf| == REPLY
    ensures Loaded(buf, Sent(Lines(Joined(lines))) + (END_MARK + more)) == Joined(lines)
  {
    LinesOfJoined(lines);
    ShortLinesAreFaithful(lines);
    SentThenLoaded(lines, more, buf, END_MARK + more);
  }

  lemma {:induction false} ShortLinesAreFaithful(lines: seq<seq<byte>>)
    requires AllShort(lines)
    ensures AllFaithful(lines)
  {
    if lines != [] {
      ShortLinesAreFaithful(lines[1..]);
    }
  }
}
