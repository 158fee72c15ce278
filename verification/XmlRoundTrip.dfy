/** What StartTag and FinishTag make of what WriteTag wrote. */
module XmlRoundTrips {
  import opened Bytes
  import opened Streams
  import opened Params
  import opened XmlScans
  import opened XmlTags
  import HtmlText

  // ----- What can be written and read back

  /** Names without delimiters, and C strings for values. */
  predicate Proper(items: seq<Pair>) {
    items == [] || (Free(items[0].name, AFTER_NAME) && 0 !in items[0].value && Proper(items[1..]))
  }

  function Named(items: seq<Pair>): seq<Pair> {
    if items == [] then []
    else if items[0].name == [] then Named(items[1..])
    else [items[0]] + Named(items[1..])
  }

  /** A name that starts with 0xFF passes for the end of the file unless it comes first, and a last
      name of just a slash for the end mark of the tag. */
  predicate Legible(n: seq<byte>, first: bool, last: bool) {
    n != [] && (first || n[0] != 255) && (last ==> n != [SLASH])
  }

  predicate AllLegible(items: seq<Pair>, first: bool, endTag: bool) {
    if items == [] then true
    else if items[0].name == [] then AllLegible(items[1..], first, endTag)
    else
      && Legible(items[0].name, first, Named(items[1..]) == [] && !endTag)
      && AllLegible(items[1..], false, endTag)
  }

  // ----- Reading one attribute

  lemma EatWhiteStops(c: int, s: seq<byte>)
    ensures !IsSpace(EatWhite(c, s).c)
  {
    if IsSpace(c) {
      SkipWhiteStops(s);
    }
  }

  lemma {:induction false} SkipWhiteStops(s: seq<byte>)
    ensures !IsSpace(SkipWhite(s).c)
  {
    if s != [] && IsSpace(Signed(s[0])) {
      SkipWhiteStops(s[1..]);
    }
  }

  /** The character FinishTag goes on with when it comes to the text x between two attributes. */
  function Entry(x: seq<byte>): Next
    requires x != []
  {
    EatWhite(Signed(x[0]), x[1..])
  }

  lemma {:induction false} NothingStripped(t: seq<byte>)
    requires Free(t, AFTER_NAME)
    ensures Stripped(CString(t)) == t
  {
  }

  function ValuePart(esc: seq<byte>, tail: seq<byte>): seq<byte> {
    [QUOTE] + (esc + ([QUOTE] + tail))
  }

  lemma ReadQuoted(esc: seq<byte>, tail: seq<byte>, junk: int)
    requires 0 !in esc && QUOTE !in esc && tail != []
    ensures ReadValue(ValuePart(esc, tail), junk) == Read([], Some(esc), Entry(tail).c, Entry(tail).rest)
  {
    var s := ValuePart(esc, tail);
    assert s[1..] == esc + ([QUOTE] + tail);
    assert Free(esc, [QUOTE]);
    ScanOf(esc, [QUOTE], QUOTE, tail);
  }

  lemma ReadOne(c: int, n: seq<byte>, n': seq<byte>, esc: seq<byte>, tail: seq<byte>, junk: int)
    requires FirstOf(c) + n' == n && Free(n, AFTER_NAME) && Free(n', AFTER_NAME)
    requires 0 !in esc && QUOTE !in esc && tail != []
    ensures ReadAttribute(c, n' + ([EQUALS] + ValuePart(esc, tail)), junk) ==
      Read(n, Some(esc), Entry(tail).c, Entry(tail).rest)
  {
    assert AFTER_NAME[0] == EQUALS;
    ScanOf(n', AFTER_NAME, EQUALS, ValuePart(esc, tail));
    NothingStripped(n);
    ReadQuoted(esc, tail, junk);
  }

  // ----- Reading all of them

  function Tail(items: seq<Pair>, endTag: bool, more: seq<byte>): seq<byte> {
    Body(items) + (Closing(endTag) + more)
  }

  lemma {:induction false} TailStarts(items: seq<Pair>, endTag: bool, more: seq<byte>)
    ensures var x := Tail(items, endTag, more);
      |x| > 0 && x[0] == if Named(items) == [] && !endTag then EOTAG else SPACE
  {
    if items != [] && items[0].name == [] {
      TailStarts(items[1..], endTag, more);
    }
  }

  lemma TailOfNamed(items: seq<Pair>, endTag: bool, more: seq<byte>)
    requires items != [] && items[0].name != []
    ensures var p := items[0];
      Tail(items, endTag, more) ==
        [SPACE] + (p.name + ([EQUALS] + ValuePart(HtmlText.Escaped(p.value), Tail(items[1..], endTag, more))))
  {
    var p := items[0];
    var esc, rest := HtmlText.Escaped(p.value), Tail(items[1..], endTag, more);
    Assoc(Attribute(p), Body(items[1..]), Closing(endTag) + more);
    assert Tail(items, endTag, more) == Attribute(p) + rest;
    Assoc([SPACE], p.name + ([EQUALS] + ([QUOTE] + (esc + [QUOTE]))), rest);
    Assoc(p.name, [EQUALS] + ([QUOTE] + (esc + [QUOTE])), rest);
    Assoc([EQUALS], [QUOTE] + (esc + [QUOTE]), rest);
    Assoc([QUOTE], esc + [QUOTE], rest);
    Assoc(esc, [QUOTE], rest);
  }

  /** Where FinishTag starts with x: behind its first character, or, between two attributes, behind
      the white space as well. */
  function Enter(x: seq<byte>, first: bool): Next
    requires x != []
  {
    if first then Next(x[0], x[1..]) else Entry(x)
  }

  function FinishFrom(x: seq<byte>, first: bool, items: seq<Pair>, junk: int): Finished
    requires x != []
  {
    Finish(Enter(x, first).c, Enter(x, first).rest, items, false, true, junk)
  }

  lemma FinishEnd(first: bool, endTag: bool, more: seq<byte>, done: seq<Pair>, junk: int)
    ensures FinishFrom(Closing(endTag) + more, first, done, junk) == Finished(done, endTag, EOTAG, more)
  {
    var x := Closing(endTag) + more;
    if endTag {
      var y := [EOTAG] + more;
      assert x[1..] == [SLASH] + y && ([SLASH] + y)[1..] == y;
      if first {
        ReadEndMark(SPACE, [SLASH], more, junk);
      } else {
        EmptyFront(y);
        ReadEndMark(SLASH, [], more, junk);
      }
    } else {
      assert x[1..] == more;
    }
  }

  lemma ReadEndMark(c: byte, n: seq<byte>, more: seq<byte>, junk: int)
    requires FirstOf(c) + n == [SLASH] && Free(n, AFTER_NAME)
    ensures ReadAttribute(c, n + ([EOTAG] + more), junk) == Read([SLASH], None, EOTAG, more)
  {
    assert AFTER_NAME[5] == EOTAG;
    ScanOf(n, AFTER_NAME, EOTAG, more);
    NothingStripped([SLASH]);
  }

  lemma NameEntry(n: seq<byte>, y: seq<byte>)
    requires n != [] && Free(n, AFTER_NAME)
    ensures Entry([SPACE] + (n + y)) == Next(Signed(n[0]), n[1..] + y)
    ensures FirstOf(Signed(n[0])) + n[1..] == n && Free(n[1..], AFTER_NAME)
  {
  }

  /** An attribute reads the same whether or not the first character of its name has been read. */
  lemma ReadNamed(p: Pair, tail: seq<byte>, first: bool, junk: int)
    requires Free(p.name, AFTER_NAME) && p.name != [] && 0 !in p.value && tail != []
    ensures var e := Enter([SPACE] + (p.name + ([EQUALS] + ValuePart(HtmlText.Escaped(p.value), tail))), first);
      && e.c != EOTAG && e.rest != [] && (e.c == EOF <==> !first && p.name[0] == 255)
      && ReadAttribute(e.c, e.rest, junk)
        == Read(p.name, Some(HtmlText.Escaped(p.value)), Entry(tail).c, Entry(tail).rest)
  {
    var n, esc := p.name, HtmlText.Escaped(p.value);
    var y := [EQUALS] + ValuePart(esc, tail);
    HtmlText.EscapedIsSafe(p.value);
    assert AFTER_NAME[5] == EOTAG && n[0] !in AFTER_NAME;
    assert ([SPACE] + (n + y))[1..] == n + y;
    NameEntry(n, y);
    if first {
      assert FirstOf(SPACE) + n == n;
      ReadOne(SPACE, n, n, esc, tail, junk);
    } else {
      ReadOne(Signed(n[0]), n, n[1..], esc, tail, junk);
    }
  }

  lemma FinishOne(p: Pair, tail: seq<byte>, first: bool, done: seq<Pair>, junk: int)
    requires Free(p.name, AFTER_NAME) && p.name != [] && 0 !in p.value && Unused(done, p.name) && tail != []
    ensures var x := [SPACE] + (p.name + ([EQUALS] + ValuePart(HtmlText.Escaped(p.value), tail)));
      var f := FinishFrom(x, first, done, junk);
      if !first && p.name[0] == 255 then f.c == EOF
      else if Entry(tail).c == EOTAG && p.name == [SLASH] then f.endTag
      else f == FinishFrom(tail, false, done + [p], junk)
  {
    ReadNamed(p, tail, first, junk);
    EatWhiteStops(Signed(tail[0]), tail[1..]);
    AssignedValue(p, done);
  }

  lemma AssignedValue(p: Pair, done: seq<Pair>)
    requires Free(p.name, AFTER_NAME) && 0 !in p.value && Unused(done, p.name)
    ensures HtmlText.Unescaped(CString(HtmlText.Escaped(p.value))) == p.value
    ensures Put(done, p.name, p.value) == done + [p]
  {
    var esc := HtmlText.Escaped(p.value);
    HtmlText.EscapedIsSafe(p.value);
    CStringOf(esc, []);
    assert esc + [] == esc;
    HtmlText.UnescapeUndoesEscape(p.value);
    assert AFTER_NAME[0] == EQUALS;
    PutNew(done, p.name, p.value);
  }

  /** Only the end of the tag makes FinishTag stop between two attributes. */
  lemma EntryOfTail(items: seq<Pair>, endTag: bool, more: seq<byte>)
    requires Proper(items)
    ensures var x := Tail(items, endTag, more);
      x != [] && (Entry(x).c == EOTAG <==> Named(items) == [] && !endTag)
    decreases |items|
  {
    TailStarts(items, endTag, more);
    if items == [] {
      EmptyFront(Closing(endTag) + more);
      var x := Closing(endTag) + more;
      assert endTag ==> x[1..][0] == SLASH;
    } else if items[0].name == [] {
      EntryOfTail(items[1..], endTag, more);
    } else {
      var n := items[0].name;
      TailOfNamed(items, endTag, more);
      NameEntry(n, [EQUALS] + ValuePart(HtmlText.Escaped(items[0].value), Tail(items[1..], endTag, more)));
      assert AFTER_NAME[5] == EOTAG && n[0] !in AFTER_NAME;
    }
  }

  /** Written attributes are read back, and nothing else, if and only if all names are legible. */
  lemma {:induction false} FinishAll(items: seq<Pair>, first: bool, endTag: bool, more: seq<byte>, done: seq<Pair>,
                                     junk: int)
    requires Proper(items) && Distinct(items) && AllUnused(done, items)
    ensures Tail(items, endTag, more) != []
    ensures FinishFrom(Tail(items, endTag, more), first, done, junk)
      == Finished(done + Named(items), endTag, EOTAG, more)
      <==> AllLegible(items, first, endTag)
    decreases |items|
  {
    TailStarts(items, endTag, more);
    if items == [] {
      EmptyFront(Closing(endTag) + more);
      FinishEnd(first, endTag, more, done, junk);
      assert done + [] == done;
    } else if items[0].name == [] {
      FinishAll(items[1..], first, endTag, more, done, junk);
    } else {
      var p, tail := items[0], Tail(items[1..], endTag, more);
      TailOfNamed(items, endTag, more);
      EntryOfTail(items[1..], endTag, more);
      StillUnused(done, p, items[1..]);
      FinishAll(items[1..], false, endTag, more, done + [p], junk);
      assert done + [p] + Named(items[1..]) == done + Named(items);
      FinishNamed(p, tail, first, Named(items[1..]) == [] && !endTag, done,
                  Finished(done + Named(items), endTag, EOTAG, more), AllLegible(items[1..], false, endTag), junk);
    }
  }

  /** One more attribute in front: goal is reached if and only if its name is legible and the rest,
      which rests says, gets there too. */
  lemma FinishNamed(p: Pair, tail: seq<byte>, first: bool, last: bool, done: seq<Pair>, goal: Finished, rests: bool,
                    junk: int)
    requires Free(p.name, AFTER_NAME) && p.name != [] && 0 !in p.value && Unused(done, p.name) && tail != []
    requires (Entry(tail).c == EOTAG <==> last) && (last ==> !goal.endTag) && goal.c == EOTAG
    requires FinishFrom(tail, false, done + [p], junk) == goal <==> rests
    ensures FinishFrom([SPACE] + (p.name + ([EQUALS] + ValuePart(HtmlText.Escaped(p.value), tail))), first, done, junk)
      == goal
      <==> Legible(p.name, first, last) && rests
  {
    FinishOne(p, tail, first, done, junk);
  }

  // ----- The whole tag

  predicate ProperType(t: seq<byte>) {
    Free(t, AFTER_TYPE)
  }

  lemma StartWritten(typ: seq<byte>, x: seq<byte>)
    requires ProperType(typ) && x != [] && (x[0] == SPACE || x[0] == EOTAG)
    ensures Start([LESS] + (typ + x)) ==
      if x[0] == EOTAG && Slashed(typ) then Started(typ[..|typ| - 1], true, x[0], x[1..])
      else Started(typ, false, x[0], x[1..])
  {
    assert AFTER_TYPE[0] == SPACE && AFTER_TYPE[4] == EOTAG;
    assert ([LESS] + (typ + x))[1..] == typ + x;
    assert x == [x[0]] + x[1..];
    ScanOf(typ, AFTER_TYPE, x[0], x[1..]);
  }

  /** What reading a written tag into an empty list gives. */
  function ReadBack(s: seq<byte>, junk: int): (seq<byte>, Finished) {
    var started := Start(s);
    (started.typ, Finish(started.c, started.rest, [], started.endTag, true, junk))
  }

  /** Reading gives exactly what was written and stops right behind it if and only if all names are
      legible and the tag is not just a type that ends in a slash. */
  lemma ReadWhatWasWritten(typ: seq<byte>, items: seq<Pair>, endTag: bool, more: seq<byte>, junk: int)
    requires ProperType(typ) && Proper(items) && Distinct(items)
    ensures ReadBack(Written(typ, items, endTag) + more, junk) == (typ, Finished(Named(items), endTag, EOTAG, more))
      <==> AllLegible(items, true, endTag) && !(Slashed(typ) && Named(items) == [] && !endTag)
  {
    var x := Tail(items, endTag, more);
    TailStarts(items, endTag, more);
    TagOfTail(typ, items, endTag, more);
    StartWritten(typ, x);
    NothingUsed(items);
    FinishAll(items, true, endTag, more, [], junk);
    assert [] + Named(items) == Named(items);
  }

  lemma TagOfTail(typ: seq<byte>, items: seq<Pair>, endTag: bool, more: seq<byte>)
    ensures Written(typ, items, endTag) + more == [LESS] + (typ + Tail(items, endTag, more))
  {
    Assoc([LESS] + typ, Body(items), Closing(endTag));
    Assoc([LESS] + typ, Body(items) + Closing(endTag), more);
    Assoc(Body(items), Closing(endTag), more);
    Assoc([LESS], typ, Tail(items, endTag, more));
  }
}
