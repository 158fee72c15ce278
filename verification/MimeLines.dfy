/** The lines of a message as readline of io_stream.cpp delivers them: pieces of at most 8192 bytes,
    cut at their first CR. */
module MimeLines {
  import opened Bytes
  import opened Streams
  import opened MailLines

  const LINE := 8192

  // ----- One line

  /** How many bytes readline takes. */
  function Taken(s: seq<byte>, max: nat): (n: nat)
    ensures n <= |s| && n <= max
    ensures s != [] && max > 0 ==> n > 0
  {
    if s == [] || max == 0 then 0
    else if s[0] == LF then 1
    else 1 + Taken(s[1..], max - 1)
  }

  function WithoutFeed(t: seq<byte>): seq<byte> {
    if t != [] && t[|t| - 1] == LF then t[..|t| - 1] else t
  }

  /** Replace(line, '\r', 0): the string ends at its first CR. */
  function UpToReturn(t: seq<byte>): (r: seq<byte>)
    ensures |r| <= |t|
  {
    if t == [] || t[0] == CR then [] else [t[0]] + UpToReturn(t[1..])
  }

  function LineOf(raw: seq<byte>): seq<byte> {
    UpToReturn(CString(WithoutFeed(raw)))
  }

  function LinesOf(s: seq<byte>): seq<seq<byte>>
    decreases |s|
  {
    if s == [] then [] else [LineOf(s[..Taken(s, LINE)])] + LinesOf(s[Taken(s, LINE)..])
  }

  lemma TakenStep(s: seq<byte>, n: nat, max: nat)
    requires n < |s| && max > 0
    ensures Taken(s[n..], max) == if s[n] == LF then 1 else 1 + Taken(s[n + 1..], max - 1)
  {
  }

  /** readline(dest, 8192, '\n') before it closes the string. */
  method FillLine(input: InStream, dest: array<byte>) returns (n: nat)
    requires input.Valid() && dest.Length == LINE + 1
    modifies input, dest
    ensures input.Valid()
    ensures var s := old(input.Rest());
      n == Taken(s, LINE) && dest[..n] == s[..n] && input.Rest() == s[n..]
  {
    n := 0;
    ghost var s := input.Rest();
    while n < LINE && input.pos < |input.bytes|
      invariant 0 <= n <= |s| && n <= LINE && input.pos == old(input.pos) + n
      invariant n + Taken(s[n..], LINE - n) == Taken(s, LINE)
      invariant dest[..n] == s[..n]
      decreases LINE - n
    {
      TakenStep(s, n, LINE - n);
      var ch := CopyOne(input, dest, n, s);
      n := n + 1;
      if ch == LF { break; }
    }
  }

  method CopyOne(input: InStream, dest: array<byte>, n: nat, ghost s: seq<byte>) returns (ch: byte)
    requires input.Valid() && n < dest.Length && n < |s| && dest[..n] == s[..n]
    requires input.pos < |input.bytes| && input.bytes[input.pos] == s[n]
    modifies input, dest
    ensures input.Valid() && input.pos == old(input.pos) + 1
    ensures ch == s[n] && dest[..n + 1] == s[..n + 1]
  {
    ch := input.bytes[input.pos];
    input.pos := input.pos + 1;
    dest[n] := ch;
    assert dest[..n + 1] == dest[..n] + [ch];
    assert s[..n + 1] == s[..n] + [ch];
  }

  /** readline and the Replace behind it; n is 0 at the end of the stream. */
  method ReadLine(input: InStream) returns (line: seq<byte>, n: nat)
    requires input.Valid()
    modifies input
    ensures input.Valid()
    ensures var s := old(input.Rest());
      n == Taken(s, LINE) && line == LineOf(s[..n]) && input.Rest() == s[n..]
  {
    var dest := new byte[LINE + 1](_ => 0);
    n := FillLine(input, dest);
    ghost var raw := dest[..n];
    var end := if n > 0 && dest[n - 1] == LF then n - 1 else n;
    dest[end] := 0;
    FirstLineOf(dest[..], raw, end);
    line := UpToReturn(CString(dest[..]));
  }

  lemma FirstLineOf(dest: seq<byte>, raw: seq<byte>, end: nat)
    requires end < |dest| && dest[end] == 0 && end == |WithoutFeed(raw)| && dest[..end] == raw[..end]
    ensures CString(dest) == CString(WithoutFeed(raw))
  {
    assert dest == raw[..end] + dest[end..];
    assert WithoutFeed(raw) == raw[..end];
    CStringIgnores(raw[..end], dest[end..]);
  }

  // ----- Any line, byte by byte

  lemma {:induction false} TakenOfRaw(raw: seq<byte>, tail: seq<byte>, max: nat)
    requires 0x0A !in raw && |raw| <= max && (|raw| == max || tail == [] || tail[0] == 0x0A)
    ensures Taken(raw + tail, max) == if |raw| < max && tail != [] then |raw| + 1 else |raw|
  {
    if raw == [] {
      assert raw + tail == tail;
    } else {
      assert (raw + tail)[1..] == raw[1..] + tail;
      TakenOfRaw(raw[1..], tail, max - 1);
    }
  }

  lemma {:induction false} UpToReturnInBytes(t: seq<byte>)
    ensures var r := UpToReturn(t);
      r == t[..|r|] && 0x0D !in r && (|r| < |t| ==> t[|r|] == 0x0D)
  {
    if t != [] && t[0] != CR {
      UpToReturnInBytes(t[1..]);
      var r := UpToReturn(t[1..]);
      assert t[..1 + |r|] == [t[0]] + t[1..][..|r|];
    }
  }

  /** A line is what stands before the next LF, before the end of the stream, or in the next 8192 bytes. It
      is cut at its first CR or NUL, and the LF goes with it. */
  lemma AnyLine(raw: seq<byte>, tail: seq<byte>)
    requires 0x0A !in raw && |raw| <= 8192 && (|raw| == 8192 || tail == [] || tail[0] == 0x0A)
    ensures var s := raw + tail;
      var n, line := Taken(s, LINE), LineOf(s[..Taken(s, LINE)]);
      && n == (if |raw| < 8192 && tail != [] then |raw| + 1 else |raw|)
      && |line| <= |raw| && line == raw[..|line|] && 0x0D !in line && 0 !in line
      && (|line| < |raw| ==> raw[|line|] == 0x0D || raw[|line|] == 0)
  {
    var s := raw + tail;
    TakenOfRaw(raw, tail, LINE);
    var t := s[..Taken(s, LINE)];
    assert |raw| < 8192 && tail != [] ==> t == raw + [0x0A] && t[..|t| - 1] == raw;
    assert !(|raw| < 8192 && tail != []) ==> t == raw;
    assert raw != [] ==> raw[|raw| - 1] in raw;
    assert WithoutFeed(t) == raw;
    UpToReturnInBytes(CString(raw));
  }

  // ----- How much text there is: every byte but CR and LF

  function Weight(s: seq<byte>): nat {
    if s == [] then 0 else (if s[0] == CR || s[0] == LF then 0 else 1) + Weight(s[1..])
  }

  function LinesWeight(lines: seq<seq<byte>>): nat {
    if lines == [] then 0 else |lines[0]| + LinesWeight(lines[1..])
  }

  lemma {:induction false} WeightOfConcat(a: seq<byte>, b: seq<byte>)
    ensures Weight(a + b) == Weight(a) + Weight(b)
  {
    if a == [] {
      assert a + b == b;
    } else {
      assert (a + b)[1..] == a[1..] + b;
      WeightOfConcat(a[1..], b);
    }
  }

  lemma {:induction false} LineWeighs(t: seq<byte>)
    requires LF !in t
    ensures |UpToReturn(CString(t))| <= Weight(t)
  {
    if t != [] && t[0] != 0 {
      LineWeighs(t[1..]);
    }
  }

  lemma {:induction false} FeedIsLast(s: seq<byte>, max: nat)
    ensures LF !in WithoutFeed(s[..Taken(s, max)])
  {
    if s != [] && max > 0 && s[0] != LF {
      FeedIsLast(s[1..], max - 1);
      var t := s[1..][..Taken(s[1..], max - 1)];
      assert s[..Taken(s, max)] == [s[0]] + t;
      assert t != [] ==> WithoutFeed([s[0]] + t) == [s[0]] + WithoutFeed(t);
    }
  }

  /** The lines hold no more text than the stream. */
  lemma {:induction false} LinesWeigh(s: seq<byte>)
    ensures LinesWeight(LinesOf(s)) <= Weight(s)
    decreases |s|
  {
    if s != [] {
      var n := Taken(s, LINE);
      LinesWeigh(s[n..]);
      assert s == s[..n] + s[n..];
      WeightOfConcat(s[..n], s[n..]);
      FirstLineWeighs(s, n);
    }
  }

  lemma FirstLineWeighs(s: seq<byte>, n: nat)
    requires n == Taken(s, LINE)
    ensures |LineOf(s[..n])| <= Weight(s[..n])
  {
    var raw := s[..n];
    FeedIsLast(s, LINE);
    LineWeighs(WithoutFeed(raw));
    assert raw == WithoutFeed(raw) + raw[|WithoutFeed(raw)|..];
    WeightOfConcat(WithoutFeed(raw), raw[|WithoutFeed(raw)|..]);
  }

  // ----- Writing lines and reading them again

  predicate AllShort(lines: seq<seq<byte>>) {
    lines == [] || (|lines[0]| <= LINE - 2 && AllShort(lines[1..]))
  }

  lemma {:induction false} JoinedWeighs(lines: seq<seq<byte>>)
    ensures Weight(Joined(lines)) <= LinesWeight(lines)
  {
    if lines != [] {
      JoinedWeighs(lines[1..]);
      WeightOfConcat(lines[0] + CRLF, Joined(lines[1..]));
      WeightOfConcat(lines[0], CRLF);
      CrlfWeighsNothing();
      WeightAtMost(lines[0]);
    }
  }

  lemma CrlfWeighsNothing()
    ensures Weight(CRLF) == 0
  {
    assert CRLF[1..] == [LF] && [LF][1..] == [];
    assert Weight([LF]) == 0;
  }

  lemma {:induction false} WeightAtMost(t: seq<byte>)
    ensures Weight(t) <= |t|
  {
    if t != [] {
      WeightAtMost(t[1..]);
    }
  }

  lemma {:induction false} UpToReturnOf(t: seq<byte>, rest: seq<byte>)
    requires CR !in t && (rest == [] || rest[0] == CR)
    ensures UpToReturn(t + rest) == t
  {
    if t == [] {
      assert t + rest == rest;
    } else {
      assert (t + rest)[1..] == t[1..] + rest;
      UpToReturnOf(t[1..], rest);
    }
  }

  lemma {:induction false} TakenOfPlain(t: seq<byte>, rest: seq<byte>, max: nat)
    requires LF !in t
    ensures Taken(t + rest, max) == if |t| <= max then |t| + Taken(rest, max - |t|) else max
  {
    if t == [] {
      assert t + rest == rest;
    } else if max > 0 {
      assert (t + rest)[1..] == t[1..] + rest;
      TakenOfPlain(t[1..], rest, max - 1);
    }
  }

  /** A written line that fits is read as it was. */
  lemma ReadShort(line: seq<byte>, rest: seq<byte>)
    requires Plain(line) && |line| <= LINE - 2
    ensures var s := line + (CRLF + rest);
      s != [] && Taken(s, LINE) == |line| + 2 && LineOf(s[..|line| + 2]) == line && s[|line| + 2..] == rest
  {
    var s := line + (CRLF + rest);
    TakenOfPlain(line, CRLF + rest, LINE);
    assert (CRLF + rest)[1..] == [LF] + rest;
    assert Taken(CRLF + rest, LINE - |line|) == 2;
    var raw := s[..|line| + 2];
    assert raw == line + CRLF && s[|line| + 2..] == rest;
    assert WithoutFeed(raw) == line + [CR];
    CStringOf(line + [CR], []);
    assert line + [CR] + [] == line + [CR];
    UpToReturnOf(line, [CR]);
  }

  lemma ShortLine(line: seq<byte>, rest: seq<byte>)
    requires Plain(line) && |line| <= LINE - 2
    ensures LinesOf(line + (CRLF + rest)) == [line] + LinesOf(rest)
  {
    ReadShort(line, rest);
  }

  /** A written line that does not fit is read as several. */
  lemma {:induction false} LongLine(line: seq<byte>, rest: seq<byte>)
    requires Plain(line)
    ensures |LinesOf(line + (CRLF + rest))| >= 1 + |LinesOf(rest)|
    ensures |line| > LINE - 2 ==> |LinesOf(line + (CRLF + rest))| > 1 + |LinesOf(rest)|
    decreases |line|
  {
    var s := line + (CRLF + rest);
    if |line| <= LINE - 2 {
      ShortLine(line, rest);
    } else if |line| == LINE - 1 {
      OneTooMany(line, rest);
    } else {
      TakenOfPlain(line, CRLF + rest, LINE);
      LinesStep(s, LINE);
      assert s[LINE..] == line[LINE..] + (CRLF + rest);
      LongLine(line[LINE..], rest);
    }
  }

  lemma LinesStep(s: seq<byte>, n: nat)
    requires s != [] && n == Taken(s, LINE)
    ensures |LinesOf(s)| == 1 + |LinesOf(s[n..])|
  {
  }

  /** The LF alone is read as a line of its own. */
  lemma OneTooMany(line: seq<byte>, rest: seq<byte>)
    requires Plain(line) && |line| == LINE - 1
    ensures |LinesOf(line + (CRLF + rest))| == 2 + |LinesOf(rest)|
  {
    var s, feed := line + (CRLF + rest), [LF] + rest;
    TakenOfPlain(line, CRLF + rest, LINE);
    assert Taken(CRLF + rest, 1) == 1;
    LinesStep(s, LINE);
    assert s[LINE..] == feed;
    LinesStep(feed, 1);
    assert feed[1..] == rest;
  }

  lemma {:induction false} JoinedLinesAreCounted(lines: seq<seq<byte>>)
    requires AllPlain(lines)
    ensures |LinesOf(Joined(lines))| >= |lines|
    ensures !AllShort(lines) ==> |LinesOf(Joined(lines))| > |lines|
  {
    if lines != [] {
      JoinedStep(lines);
      LongLine(lines[0], Joined(lines[1..]));
      JoinedLinesAreCounted(lines[1..]);
    }
  }

  lemma {:induction false} ShortLinesAreRead(lines: seq<seq<byte>>)
    requires AllPlain(lines) && AllShort(lines)
    ensures LinesOf(Joined(lines)) == lines
  {
    if lines != [] {
      JoinedStep(lines);
      ShortLine(lines[0], Joined(lines[1..]));
      ShortLinesAreRead(lines[1..]);
      assert lines == [lines[0]] + lines[1..];
    }
  }

  lemma JoinedStep(lines: seq<seq<byte>>)
    requires lines != []
    ensures Joined(lines) == lines[0] + (CRLF + Joined(lines[1..]))
  {
  }

  /** Written lines are read as they were if and only if each has at most 8190 bytes. */
  lemma JoinedLinesAreRead(lines: seq<seq<byte>>)
    requires AllPlain(lines)
    ensures LinesOf(Joined(lines)) == lines <==> AllShort(lines)
  {
    JoinedLinesAreCounted(lines);
    if AllShort(lines) {
      ShortLinesAreRead(lines);
    }
  }
}
