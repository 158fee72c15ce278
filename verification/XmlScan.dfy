/** The small readers of io_stream.cpp and io_xml.cpp that a tag is read with. */
module XmlScans {
  import opened Bytes
  import opened Streams

  const SPACE: byte := ' ' as int
  const EOTAG: byte := '>' as int

  /** IsSpace of char.h. */
  predicate IsSpace(x: int) {
    x == ' ' as int || x == '\t' as int || x == '\n' as int || x == '\r' as int
  }

  // ----- ReadUntilChar

  /** What was read, the delimiter that ended it or EOF, and what follows. */
  datatype Scan = Scan(text: seq<byte>, c: int, rest: seq<byte>)

  /** A NUL counts as a delimiter, since strchr finds the one that ends its string. */
  function ScanTo(s: seq<byte>, check: seq<byte>): (r: Scan)
    ensures |r.rest| <= |s| && (s != [] ==> |r.rest| < |s|)
    ensures s == [] ==> r.c == EOF && r.text == []
  {
    if s == [] then Scan([], EOF, [])
    else if s[0] == 0 || s[0] in check then Scan([], s[0], s[1..])
    else
      var r := ScanTo(s[1..], check);
      Scan([s[0]] + r.text, r.c, r.rest)
  }

  predicate Free(t: seq<byte>, check: seq<byte>) {
    forall k | 0 <= k < |t| :: t[k] != 0 && t[k] !in check
  }

  /** The text up to the first delimiter or NUL. */
  lemma {:induction false} ScanOf(t: seq<byte>, check: seq<byte>, c: byte, rest: seq<byte>)
    requires Free(t, check) && (c in check || c == 0)
    ensures ScanTo(t + ([c] + rest), check) == Scan(t, c, rest)
  {
    if t == [] {
      assert t + ([c] + rest) == [c] + rest;
    } else {
      assert (t + ([c] + rest))[1..] == t[1..] + ([c] + rest);
      ScanOf(t[1..], check, c, rest);
    }
  }

  method ReadUntilChar(input: InStream, check: seq<byte>, out: OutStream?) returns (c: int)
    requires input.Valid()
    modifies input, out
    ensures input.Valid()
    ensures var r := ScanTo(old(input.Rest()), check);
      && c == r.c && input.Rest() == r.rest
      && (out != null ==> out.bytes == old(out.bytes) + r.text)
  {
    ghost var all, begun := ScanTo(input.Rest(), check), [];
    ghost var start := if out == null then [] else out.bytes;
    EmptyFront(all.text);
    while input.pos < |input.bytes|
      invariant input.Valid() && (out != null ==> out.bytes == start + begun)
      invariant var r := ScanTo(input.Rest(), check);
        all.text == begun + r.text && all.c == r.c && all.rest == r.rest
      decreases |input.bytes| - input.pos
    {
      var ch := input.bytes[input.pos];
      ghost var rest := input.Rest();
      assert rest[1..] == input.bytes[input.pos + 1..];
      input.pos := input.pos + 1;
      if ch == 0 || ch in check { return ch; }
      Assoc(begun, [ch], ScanTo(input.Rest(), check).text);
      Assoc(start, begun, [ch]);
      begun := begun + [ch];
      if out != null { out.Put(ch); }
    }
    return EOF;
  }

  // ----- eatwhite and single characters

  /** A character as a C int and what follows it. */
  datatype Next = Next(c: int, rest: seq<byte>)

  function SkipWhite(s: seq<byte>): (r: Next)
    ensures |r.rest| <= |s|
  {
    if s == [] then Next(EOF, [])
    else if !IsSpace(Signed(s[0])) then Next(Signed(s[0]), s[1..])
    else SkipWhite(s[1..])
  }

  function EatWhite(last: int, s: seq<byte>): (r: Next)
    ensures |r.rest| <= |s|
  {
    if IsSpace(last) then SkipWhite(s) else Next(last, s)
  }

  method Eatwhite(input: InStream, last: int) returns (c: int)
    requires input.Valid()
    modifies input
    ensures input.Valid()
    ensures Next(c, input.Rest()) == EatWhite(last, old(input.Rest()))
  {
    if !IsSpace(last) { return last; }
    while input.pos < |input.bytes|
      invariant input.Valid() && SkipWhite(input.Rest()) == SkipWhite(old(input.Rest()))
      decreases |input.bytes| - input.pos
    {
      var ch := input.bytes[input.pos];
      assert input.Rest()[1..] == input.bytes[input.pos + 1..];
      input.pos := input.pos + 1;
      if !IsSpace(Signed(ch)) { return Signed(ch); }
    }
    return EOF;
  }

  /** read(&ch, 1), which leaves ch alone at the end of the stream. */
  function OneChar(ch: int, s: seq<byte>): (r: Next)
    ensures |r.rest| <= |s|
  {
    if s == [] then Next(ch, []) else Next(Signed(s[0]), s[1..])
  }

  method ReadChar(input: InStream, ch: int) returns (c: int)
    requires input.Valid()
    modifies input
    ensures input.Valid() && Next(c, input.Rest()) == OneChar(ch, old(input.Rest()))
  {
    if input.pos == |input.bytes| { return ch; }
    c := Signed(input.bytes[input.pos]);
    assert input.Rest()[1..] == input.bytes[input.pos + 1..];
    input.pos := input.pos + 1;
  }

  // ----- StripCharsFB(c, " \t\r\n")

  function StripFront(t: seq<byte>): (r: seq<byte>) {
    if t != [] && IsSpace(t[0]) then StripFront(t[1..]) else t
  }

  function StripBack(t: seq<byte>): (r: seq<byte>) {
    if t != [] && IsSpace(t[|t| - 1]) then StripBack(t[..|t| - 1]) else t
  }

  function Stripped(t: seq<byte>): seq<byte> {
    StripBack(StripFront(t))
  }
}
