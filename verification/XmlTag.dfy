/** WriteTag, StartTag and FinishTag of io_xml.cpp. */
module XmlTags {
  import opened Bytes
  import opened Streams
  import opened Params
  import opened XmlScans
  import HtmlText

  const SLASH: byte := '/' as int
  const LESS: byte := '<' as int
  const QUOTE: byte := '"' as int
  const APOSTROPHE: byte := '\'' as int

  const AFTER_TYPE: seq<byte> := [SPACE, '\t' as int, '\r' as int, '\n' as int, EOTAG, LESS]
  const AFTER_NAME: seq<byte> := [EQUALS, SPACE, '\t' as int, '\r' as int, '\n' as int, EOTAG]
  const AFTER_VALUE: seq<byte> := [SPACE, '\t' as int, '\r' as int, '\n' as int, EOTAG]

  // ----- WriteTag

  function Attribute(p: Pair): seq<byte> {
    [SPACE] + (p.name + ([EQUALS] + ([QUOTE] + (HtmlText.Escaped(p.value) + [QUOTE]))))
  }

  /** Parameters without a name are left out. */
  function Body(items: seq<Pair>): seq<byte> {
    if items == [] then []
    else if items[0].name == [] then Body(items[1..])
    else Attribute(items[0]) + Body(items[1..])
  }

  function Closing(endTag: bool): seq<byte> {
    if endTag then [SPACE, SLASH, EOTAG] else [EOTAG]
  }

  function Written(typ: seq<byte>, items: seq<Pair>, endTag: bool): seq<byte> {
    [LESS] + typ + Body(items) + Closing(endTag)
  }

  method WriteAttribute(out: OutStream, p: Pair)
    modifies out
    ensures out.bytes == old(out.bytes) + Attribute(p)
  {
    ghost var start := out.bytes;
    out.Put(SPACE);
    out.WriteBytes(p.name);
    if p.value != [] {
      out.WriteBytes([EQUALS, QUOTE]);
      HtmlText.HTMLEscape(out, p.value);
      out.WriteBytes([QUOTE]);
    } else {
      out.WriteBytes([EQUALS, QUOTE, QUOTE]);
      assert HtmlText.Escaped(p.value) == [];
    }
    assert out.bytes == start + Attribute(p);
  }

  method WriteTag(out: OutStream, typ: seq<byte>, options: ParameterList, endTag: bool)
    modifies out
    ensures out.bytes == old(out.bytes) + Written(typ, options.items, endTag)
  {
    out.WriteBytes([LESS]);
    out.WriteBytes(typ);
    ghost var start := out.bytes;
    WriteBody(out, options);
    Assoc3(old(out.bytes), [LESS], typ, Body(options.items));
    assert out.bytes == old(out.bytes) + ([LESS] + typ + Body(options.items));
    Assoc(old(out.bytes), [LESS] + typ + Body(options.items), Closing(endTag));
    if endTag { out.WriteBytes([SPACE, SLASH]); }
    out.WriteBytes([EOTAG]);
    ClosingParts(old(out.bytes) + ([LESS] + typ + Body(options.items)), endTag);
  }

  lemma ClosingParts(a: seq<byte>, endTag: bool)
    ensures (if endTag then a + [SPACE, SLASH] else a) + [EOTAG] == a + Closing(endTag)
  {
  }

  method WriteBody(out: OutStream, options: ParameterList)
    modifies out
    ensures out.bytes == old(out.bytes) + Body(options.items)
  {
    var items := options.items;
    ghost var begun := [];
    assert items[0..] == items;
    EmptyFront(Body(items));
    for i := 0 to |items|
      invariant out.bytes == old(out.bytes) + begun
      invariant Body(items) == begun + Body(items[i..])
    {
      assert items[i..][1..] == items[i + 1..];
      EmptyFront(Body(items[i + 1..]));
      ghost var one := if items[i].name == [] then [] else Attribute(items[i]);
      Assoc(old(out.bytes), begun, one);
      Assoc(begun, one, Body(items[i + 1..]));
      if items[i].name != [] { WriteAttribute(out, items[i]); }
      begun := begun + one;
    }
  }

  // ----- StartTag

  /** The name of the next tag, whether it ended in a slash, the character that ended it or EOF, and
      what follows. */
  datatype Started = Started(typ: seq<byte>, endTag: bool, c: int, rest: seq<byte>)

  function Start(s: seq<byte>): Started {
    var open := ScanTo(s, [LESS]);
    if open.c != LESS then Started([], false, EOF, open.rest) else StartName(open.rest)
  }

  function StartName(s: seq<byte>): Started {
    var name := ScanTo(s, AFTER_TYPE);
    if name.c == EOF then Started([], false, EOF, name.rest)
    else if name.c == EOTAG && Slashed(name.text) then
      Started(name.text[..|name.text| - 1], true, name.c, name.rest)
    else Started(name.text, false, name.c, name.rest)
  }

  predicate Slashed(t: seq<byte>) {
    t != [] && t[|t| - 1] == SLASH
  }

  method GetName(input: InStream) returns (typ: seq<byte>, endTag: bool, c: int)
    requires input.Valid()
    modifies input
    ensures input.Valid() && Started(typ, endTag, c, input.Rest()) == StartName(old(input.Rest()))
  {
    var name := new OutStream();
    c := ReadUntilChar(input, AFTER_TYPE, name);
    typ, endTag := name.bytes, false;
    EmptyFront(ScanTo(old(input.Rest()), AFTER_TYPE).text);
    if c == EOF { return [], false, EOF; }
    if c == EOTAG && |typ| > 0 {
      if typ[|typ| - 1] == SLASH {
        endTag := true;
        typ := typ[..|typ| - 1];
      }
    }
  }

  /** StartTag with every tag allowed; the text in front of the tag goes to skipText. */
  method StartTag(input: InStream, skipText: OutStream?) returns (typ: seq<byte>, endTag: bool, c: int)
    requires input.Valid()
    modifies input, skipText
    ensures input.Valid() && Started(typ, endTag, c, input.Rest()) == Start(old(input.Rest()))
    ensures skipText != null ==> skipText.bytes == old(skipText.bytes) + ScanTo(old(input.Rest()), [LESS]).text
  {
    c := ReadUntilChar(input, [LESS], skipText);
    if c != LESS { return [], false, EOF; }
    typ, endTag, c := GetName(input);
  }

  // ----- FinishTag

  /** One attribute: its name, its value if it has one, the character behind it and what follows. */
  datatype Read = Read(name: seq<byte>, value: Option<seq<byte>>, c: int, rest: seq<byte>)

  function ByteOf(c: int): byte { c % 256 }

  function ReadValue(s: seq<byte>, junk: int): (r: Read)
    ensures |r.rest| <= |s|
  {
    var first := OneChar(junk, s);
    var mark := EatWhite(first.c, first.rest);
    if mark.c == QUOTE || mark.c == APOSTROPHE then Quoted(mark.c, mark.rest, first.c)
    else Bare(mark.c, mark.rest)
  }

  function Quoted(mark: byte, s: seq<byte>, junk: int): (r: Read)
    ensures |r.rest| <= |s|
  {
    var text := ScanTo(s, [mark]);
    var behind := OneChar(junk, text.rest);
    var last := EatWhite(behind.c, behind.rest);
    Read([], Some(text.text), last.c, last.rest)
  }

  function Bare(c: int, s: seq<byte>): (r: Read)
    ensures |r.rest| <= |s|
  {
    var text := ScanTo(s, AFTER_VALUE);
    Read([], Some(Stripped(CString([ByteOf(c)] + text.text))), text.c, text.rest)
  }

  function FirstOf(c: int): seq<byte> {
    if IsSpace(c) then [] else [ByteOf(c)]
  }

  function ReadAttribute(c: int, s: seq<byte>, junk: int): (r: Read)
    ensures |r.rest| <= |s| && (s != [] ==> |r.rest| < |s|)
    ensures s == [] ==> r.c == EOF
  {
    var scan := ScanTo(s, AFTER_NAME);
    var name := Stripped(CString(FirstOf(c) + scan.text));
    var sign := EatWhite(scan.c, scan.rest);
    if sign.c == EQUALS then
      var v := ReadValue(sign.rest, junk);
      Read(name, v.value, v.c, v.rest)
    else Read(name, None, sign.c, sign.rest)
  }

  datatype Finished = Finished(items: seq<Pair>, endTag: bool, c: int, rest: seq<byte>)

  predicate IsEndMark(r: Read) {
    r.c == EOTAG && r.name == [SLASH]
  }

  function ValueOf(r: Read, decode: bool): seq<byte> {
    if r.value.None? then []
    else if decode then HtmlText.Unescaped(CString(r.value.value))
    else CString(r.value.value)
  }

  function Stored(items: seq<Pair>, r: Read, decode: bool): seq<Pair> {
    if r.name == [] then items else Put(items, r.name, ValueOf(r, decode))
  }

  /** The loop of FinishTag from the character c on. */
  function Finish(c: int, s: seq<byte>, items: seq<Pair>, endTag: bool, decode: bool, junk: int): Finished
    decreases |s|
  {
    if c == EOTAG || c == EOF then Finished(items, endTag, c, s)
    else
      var r := ReadAttribute(c, s, junk);
      if IsEndMark(r) then Finished(items, true, r.c, r.rest)
      else
        var next := EatWhite(r.c, r.rest);
        if s == [] then Finished(Stored(items, r, decode), endTag, EOF, next.rest)
        else Finish(next.c, next.rest, Stored(items, r, decode), endTag, decode, junk)
  }

  method GetQuoted(input: InStream, mark: byte, junk: int) returns (value: seq<byte>, c: int)
    requires input.Valid()
    modifies input
    ensures input.Valid() && Read([], Some(value), c, input.Rest()) == Quoted(mark, old(input.Rest()), junk)
  {
    var text := new OutStream();
    var found := ReadUntilChar(input, [mark], text);
    value := text.bytes;
    var ch := ReadChar(input, junk);
    c := Eatwhite(input, ch);
    EmptyFront(ScanTo(old(input.Rest()), [mark]).text);
  }

  method GetBare(input: InStream, first: int) returns (value: seq<byte>, c: int)
    requires input.Valid()
    modifies input
    ensures input.Valid() && Read([], Some(value), c, input.Rest()) == Bare(first, old(input.Rest()))
  {
    var text := new OutStream();
    text.Put(ByteOf(first));
    c := ReadUntilChar(input, AFTER_VALUE, text);
    EmptyFront([ByteOf(first)]);
    value := Stripped(CString(text.bytes));
  }

  method GetValue(input: InStream, junk: int) returns (value: seq<byte>, c: int)
    requires input.Valid()
    modifies input
    ensures input.Valid()
    ensures Read([], Some(value), c, input.Rest()) == ReadValue(old(input.Rest()), junk)
  {
    var ch := ReadChar(input, junk);
    c := Eatwhite(input, ch);
    if c == QUOTE || c == APOSTROPHE {
      value, c := GetQuoted(input, c, ch);
    } else {
      value, c := GetBare(input, c);
    }
  }

  method GetAttribute(input: InStream, start: int, junk: int) returns (r: Read)
    requires input.Valid()
    modifies input
    ensures input.Valid() && r == ReadAttribute(start, old(input.Rest()), junk)
    ensures input.Rest() == r.rest
  {
    var name := new OutStream();
    if !IsSpace(start) { name.Put(ByteOf(start)); }
    assert name.bytes == FirstOf(start);
    var c := ReadUntilChar(input, AFTER_NAME, name);
    var n := Stripped(CString(name.bytes));
    c := Eatwhite(input, c);
    if c == EQUALS {
      var v;
      v, c := GetValue(input, junk);
      r := Read(n, Some(v), c, input.Rest());
    } else {
      r := Read(n, None, c, input.Rest());
    }
  }

  /** HTMLUnEscape on a string in memory of its own. */
  method Decoded(v: seq<byte>) returns (text: seq<byte>)
    ensures text == HtmlText.Unescaped(CString(v))
  {
    var a := new byte[|v| + 4](_ => 0);
    StoreBytes(a, v);
    assert a[..] == v + a[|v|..];
    CStringIgnores(v, a[|v|..]);
    HtmlText.HTMLUnEscape(a);
    text := CString(a[..]);
  }

  method StoreAttribute(params: ParameterList?, r: Read, decode: bool)
    modifies params
    ensures params != null ==> params.items == Stored(old(params.items), r, decode)
  {
    var v := [];
    if r.value.Some? {
      if decode { v := Decoded(r.value.value); } else { v := CString(r.value.value); }
    }
    if r.name != [] && params != null { params.Set(r.name, v); }
  }

  /** FinishTag; junk is what an uninitialised character holds at the end of the stream. */
  method FinishTag(input: InStream, start: int, params: ParameterList?, endTag: bool, decode: bool, junk: int)
    returns (ok: bool, endTag': bool)
    requires input.Valid()
    modifies input, params
    ensures input.Valid()
    ensures var items := if params == null then [] else old(params.items);
      var f := Finish(start, old(input.Rest()), items, endTag, decode, junk);
      && (params != null ==> params.items == f.items)
      && endTag' == f.endTag && input.Rest() == f.rest && (ok <==> f.c != EOF)
  {
    endTag' := endTag;
    if start == EOTAG { return true, endTag; }
    if start == EOF { return false, endTag; }
    var c := start;
    ghost var items := if params == null then [] else params.items;
    ghost var all := Finish(c, input.Rest(), items, endTag, decode, junk);
    while c != EOTAG && c != EOF
      invariant input.Valid() && (params != null ==> params.items == items)
      invariant all == Finish(c, input.Rest(), items, endTag', decode, junk)
      decreases |input.Rest()|, if c == EOF then 0 else 1
    {
      ghost var s, c0 := input.Rest(), c;
      var r := GetAttribute(input, c, junk);
      c := r.c;
      if c == EOTAG && r.name == [SLASH] {
        endTag' := true;
      } else {
        StoreAttribute(params, r, decode);
        items := Stored(items, r, decode);
        c := Eatwhite(input, c);
      }
    }
    ok := c != EOF;
  }
}
