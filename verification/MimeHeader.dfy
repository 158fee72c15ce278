/** ReadMIME and Split of io_list.cpp: the header of a message. */
module MimeHeaders {
  import opened Bytes
  import opened Streams
  import opened Params
  import opened MailLines
  import opened MimeLines

  const COLON: byte := ':' as int
  const SPACE: byte := ' ' as int
  const TAB: byte := '\t' as int

  /** Split(s, c, ':'): the name, and the value if there is a colon. */
  datatype Named = Named(name: seq<byte>, value: Option<seq<byte>>)

  function WithoutSpaces(t: seq<byte>): seq<byte> {
    if t != [] && t[0] == SPACE then WithoutSpaces(t[1..]) else t
  }

  function SplitAtColon(line: seq<byte>): Named {
    if line == [] then Named([], None)
    else if line[0] == COLON then Named([], Some(WithoutSpaces(line[1..])))
    else var r := SplitAtColon(line[1..]); Named([line[0]] + r.name, r.value)
  }

  predicate IsBlank(b: byte) {
    b == SPACE || b == TAB
  }

  /** A continuation line without its blanks but the last one. */
  function Continuation(line: seq<byte>): seq<byte>
    requires line != [] && IsBlank(line[0])
  {
    if |line| > 1 && IsBlank(line[1]) then Continuation(line[1..]) else line
  }

  /** The parameters once the header has been read, and what follows it. */
  datatype Headed = Headed(items: seq<Pair>, rest: seq<byte>)

  function Header(s: seq<byte>, items: seq<Pair>, lastName: seq<byte>, lastValue: seq<byte>): (r: Headed)
    decreases |s|
  {
    if s == [] then Headed(items, [])
    else
      var n := Taken(s, LINE);
      var line, rest := LineOf(s[..n]), s[n..];
      if line == [] then Headed(items, rest)
      else if IsBlank(line[0]) then
        var value := lastValue + Continuation(line);
        Header(rest, Put(items, lastName, value), lastName, value)
      else
        var named := SplitAtColon(line);
        if named.value.Some? then
          Header(rest, Put(items, named.name, named.value.value), named.name, named.value.value)
        else Header(rest, items, named.name, [])
  }

  /** How many lines of a header are not continuations. */
  function NamedLines(s: seq<byte>): nat
    decreases |s|
  {
    if s == [] then 0
    else
      var n := Taken(s, LINE);
      var line := LineOf(s[..n]);
      if line == [] then 0
      else (if IsBlank(line[0]) then 0 else 1) + NamedLines(s[n..])
  }

  method ReadMIME(input: InStream, out: ParameterList) returns (count: nat)
    requires input.Valid()
    modifies input, out
    ensures input.Valid()
    ensures Headed(out.items, input.Rest()) == Header(old(input.Rest()), old(out.items), [], [])
    ensures count == NamedLines(old(input.Rest()))
  {
    var lastName, lastValue := [], [];
    ghost var all := Header(input.Rest(), out.items, [], []);
    count := 0;
    while true
      invariant input.Valid() && all == Header(input.Rest(), out.items, lastName, lastValue)
      invariant count + NamedLines(input.Rest()) == NamedLines(old(input.Rest()))
      decreases |input.Rest()|
    {
      var line, n := ReadLine(input);
      if n == 0 { break; }
      if line == [] { break; }
      if IsBlank(line[0]) {
        lastValue := lastValue + Continuation(line);
        out.Set(lastName, lastValue);
      } else {
        var named := SplitAtColon(line);
        lastName := named.name;
        lastValue := if named.value.Some? then named.value.value else [];
        if named.value.Some? { out.Set(named.name, named.value.value); }
        count := count + 1;
      }
    }
  }

  /** Reading the header drops bytes but adds none. */
  lemma {:induction false} HeaderWeighs(s: seq<byte>, items: seq<Pair>, lastName: seq<byte>, lastValue: seq<byte>)
    ensures Weight(Header(s, items, lastName, lastValue).rest) <= Weight(s)
    decreases |s|
  {
    if s != [] {
      var n := Taken(s, LINE);
      var line, rest := LineOf(s[..n]), s[n..];
      assert s == s[..n] + rest;
      WeightOfConcat(s[..n], rest);
      if line == [] {
      } else if IsBlank(line[0]) {
        var value := lastValue + Continuation(line);
        HeaderWeighs(rest, Put(items, lastName, value), lastName, value);
      } else {
        var named := SplitAtColon(line);
        if named.value.Some? {
          HeaderWeighs(rest, Put(items, named.name, named.value.value), named.name, named.value.value);
        } else {
          HeaderWeighs(rest, items, named.name, []);
        }
      }
    }
  }

  // ----- Reading a written header

  function HeaderLine(p: Pair): seq<byte> {
    p.name + ([COLON, SPACE] + p.value)
  }

  /** The header of a message, its empty line, and what follows. */
  function HeaderText(items: seq<Pair>, more: seq<byte>): seq<byte> {
    if items == [] then CRLF + more else HeaderLine(items[0]) + (CRLF + HeaderText(items[1..], more))
  }

  /** A parameter that fits on one line of its own. */
  predicate ProperPair(p: Pair) {
    && p.name != [] && COLON !in p.name && EQUALS !in p.name && !IsBlank(p.name[0])
    && (p.value == [] || p.value[0] != SPACE)
    && Plain(HeaderLine(p)) && |HeaderLine(p)| <= LINE - 2
  }

  predicate ProperPairs(items: seq<Pair>) {
    items == [] || (ProperPair(items[0]) && ProperPairs(items[1..]))
  }

  lemma {:induction false} SplitWritten(name: seq<byte>, value: seq<byte>)
    requires COLON !in name && (value == [] || value[0] != SPACE)
    ensures SplitAtColon(name + ([COLON, SPACE] + value)) == Named(name, Some(value))
  {
    var tail := [COLON, SPACE] + value;
    if name == [] {
      assert name + tail == tail;
      assert tail[1..] == [SPACE] + value && ([SPACE] + value)[1..] == value;
      assert WithoutSpaces(value) == value;
      assert WithoutSpaces([SPACE] + value) == value;
    } else {
      assert (name + tail)[1..] == name[1..] + tail;
      SplitWritten(name[1..], value);
    }
  }

  lemma HeaderStep(p: Pair, more: seq<byte>, items: seq<Pair>, lastName: seq<byte>, lastValue: seq<byte>)
    requires ProperPair(p) && Unused(items, p.name)
    ensures Header(HeaderLine(p) + (CRLF + more), items, lastName, lastValue) ==
      Header(more, items + [p], p.name, p.value)
  {
    ReadShort(HeaderLine(p), more);
    SplitWritten(p.name, p.value);
    PutNew(items, p.name, p.value);
  }

  /** Blanks behind the colon do not belong to the value; tabs do. */
  lemma {:induction false} SplitInBytes(name: seq<byte>, blanks: nat, value: seq<byte>)
    requires 0x3A !in name && (value == [] || value[0] != 0x20)
    ensures SplitAtColon(name + ([0x3A] + (Repeat(0x20, blanks) + value))) == Named(name, Some(value))
    ensures SplitAtColon(name) == Named(name, None)
  {
    var tail := [0x3A] + (Repeat(0x20, blanks) + value);
    if name == [] {
      assert name + tail == tail && tail[1..] == Repeat(0x20, blanks) + value;
      BlanksAreSkipped(blanks, value);
    } else {
      assert (name + tail)[1..] == name[1..] + tail;
      SplitInBytes(name[1..], blanks, value);
    }
  }

  lemma {:induction false} BlanksAreSkipped(n: nat, value: seq<byte>)
    requires value == [] || value[0] != 0x20
    ensures WithoutSpaces(Repeat(0x20, n) + value) == value
  {
    if n == 0 {
      assert Repeat(0x20, n) + value == value;
    } else {
      assert (Repeat(0x20, n) + value)[1..] == Repeat(0x20, n - 1) + value;
      BlanksAreSkipped(n - 1, value);
    }
  }

  predicate Blanks(w: seq<byte>) {
    forall k :: 0 <= k < |w| ==> w[k] == 0x20 || w[k] == 0x09
  }

  /** All but the last of the blanks in front of a continuation are dropped. */
  lemma {:induction false} ContinuationInBytes(w: seq<byte>, text: seq<byte>)
    requires w != [] && Blanks(w) && (text == [] || (text[0] != 0x20 && text[0] != 0x09))
    ensures Continuation(w + text) == [w[|w| - 1]] + text
  {
    if |w| > 1 {
      assert (w + text)[1..] == w[1..] + text;
      ContinuationInBytes(w[1..], text);
    } else {
      assert w + text == [w[0]] + text;
      assert text != [] ==> (w + text)[1] == text[0];
    }
  }

  /** A line that starts with a blank or a tab goes on with the value of the line before. */
  lemma FoldedHeader(p: Pair, w: seq<byte>, text: seq<byte>, more: seq<byte>, items: seq<Pair>, lastName: seq<byte>,
                     lastValue: seq<byte>)
    requires ProperPair(p) && Unused(items, p.name) && w != [] && Blanks(w) && Plain(w + text)
    requires (text == [] || (text[0] != 0x20 && text[0] != 0x09)) && |w + text| <= LINE - 2
    ensures var value := p.value + [w[|w| - 1]] + text;
      Header(HeaderLine(p) + (CRLF + (w + text + (CRLF + more))), items, lastName, lastValue) ==
        Header(more, items + [Pair(p.name, value)], p.name, value)
  {
    var rest := w + text + (CRLF + more);
    HeaderStep(p, rest, items, lastName, lastValue);
    ReadShort(w + text, more);
    ContinuationInBytes(w, text);
    Assoc(p.value, [w[|w| - 1]], text);
    LastIsFound(items, p);
  }

  lemma {:induction false} LastIsFound(items: seq<Pair>, p: Pair)
    requires Unused(items, p.name)
    ensures IndexOf(items + [p], p.name) == |items|
    ensures forall v :: Put(items + [p], p.name, v) == items + [Pair(p.name, v)]
  {
    if items != [] {
      assert (items + [p])[1..] == items[1..] + [p];
      LastIsFound(items[1..], p);
    } else {
      assert items + [p] == [p];
    }
  }

  /** A line without a colon names a parameter but sets none. */
  lemma NameWithoutValue(name: seq<byte>, more: seq<byte>, items: seq<Pair>, lastName: seq<byte>, lastValue: seq<byte>)
    requires name != [] && Plain(name) && 0x3A !in name && name[0] != 0x20 && name[0] != 0x09 && |name| <= LINE - 2
    ensures Header(name + (CRLF + more), items, lastName, lastValue) == Header(more, items, name, [])
  {
    ReadShort(name, more);
    SplitInBytes(name, 0, []);
  }

  /** The result of ReadMIME counts the lines of a written header. */
  lemma {:induction false} NamedLinesOfWritten(items: seq<Pair>, more: seq<byte>)
    requires ProperPairs(items)
    ensures NamedLines(HeaderText(items, more)) == |items|
    decreases |items|
  {
    if items == [] {
      EmptyFront(CRLF + more);
      ReadShort([], more);
    } else {
      var line, rest := HeaderLine(items[0]), HeaderText(items[1..], more);
      NamedLinesStep(line, rest);
      NamedLinesOfWritten(items[1..], more);
      assert line[0] == items[0].name[0];
    }
  }

  lemma NamedLinesStep(line: seq<byte>, rest: seq<byte>)
    requires line != [] && Plain(line) && |line| <= LINE - 2
    ensures NamedLines(line + (CRLF + rest)) == NamedLines(rest) + if IsBlank(line[0]) then 0 else 1
  {
    ReadShort(line, rest);
  }

  lemma HeaderEnd(more: seq<byte>, items: seq<Pair>, lastName: seq<byte>, lastValue: seq<byte>)
    ensures Header(CRLF + more, items, lastName, lastValue) == Headed(items, more)
  {
    EmptyFront(CRLF + more);
    ReadShort([], more);
  }

  /** A written header is read back, and what follows its empty line is left. */
  lemma {:induction false} HeaderIsRead(items: seq<Pair>, more: seq<byte>, done: seq<Pair>, lastName: seq<byte>,
                                        lastValue: seq<byte>)
    requires ProperPairs(items) && Distinct(items) && AllUnused(done, items)
    ensures Header(HeaderText(items, more), done, lastName, lastValue) == Headed(done + items, more)
    decreases |items|
  {
    Appended(done, items);
    if items == [] {
      HeaderEnd(more, done, lastName, lastValue);
    } else {
      var p := items[0];
      HeaderStep(p, HeaderText(items[1..], more), done, lastName, lastValue);
      StillUnused(done, p, items[1..]);
      HeaderIsRead(items[1..], more, done + [p], p.name, p.value);
    }
  }

  lemma Appended(done: seq<Pair>, items: seq<Pair>)
    ensures items == [] ==> done + items == done
    ensures items != [] ==> done + [items[0]] + items[1..] == done + items
  {
  }

  lemma {:induction false} ProperPairsCopy(items: seq<Pair>)
    requires ProperPairs(items)
    ensures NoEquals(items) && AllNamed(items)
  {
    if items != [] {
      ProperPairsCopy(items[1..]);
    }
  }
}
