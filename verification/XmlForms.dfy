/** Tags as other programs write them: what StartTag and FinishTag make of them, byte by byte. */
module XmlForms {
  import opened Bytes
  import opened Streams
  import opened Params
  import opened XmlScans
  import opened XmlTags
  import opened XmlRoundTrips
  import HtmlText

  /** A blank, a tab, or a line break. */
  predicate White(b: byte) {
    b == 0x20 || b == 0x09 || b == 0x0A || b == 0x0D
  }

  predicate AllWhite(w: seq<byte>) {
    forall k :: 0 <= k < |w| ==> White(w[k])
  }

  /** No NUL, no white space and no greater-than sign. */
  predicate Solid(t: seq<byte>) {
    forall k :: 0 <= k < |t| ==> t[k] != 0 && t[k] != 0x3E && !White(t[k])
  }

  /** A name without an equals sign that does not start with 0xFF, which passes for the end of the file,
      and is not just a slash. */
  predicate PlainName(n: seq<byte>) {
    n != [] && Solid(n) && 0x3D !in n && n[0] != 0xFF && n != [0x2F]
  }

  lemma Delimiters(b: byte)
    ensures b in AFTER_NAME <==> White(b) || b == 0x3D || b == 0x3E
    ensures b in AFTER_VALUE <==> White(b) || b == 0x3E
    ensures b in AFTER_TYPE <==> White(b) || b == 0x3E || b == 0x3C
    ensures IsSpace(Signed(b)) <==> White(b)
    ensures IsSpace(b) <==> White(b)
  {
    assert AFTER_NAME[0] == 0x3D && AFTER_NAME[1] == 0x20 && AFTER_NAME[2] == 9 && AFTER_NAME[3] == 13;
    assert AFTER_NAME[4] == 10 && AFTER_NAME[5] == 0x3E;
    assert AFTER_VALUE[0] == 0x20 && AFTER_VALUE[1] == 9 && AFTER_VALUE[2] == 13 && AFTER_VALUE[3] == 10;
    assert AFTER_VALUE[4] == 0x3E;
    assert AFTER_TYPE[0] == 0x20 && AFTER_TYPE[1] == 9 && AFTER_TYPE[2] == 13 && AFTER_TYPE[3] == 10;
    assert AFTER_TYPE[4] == 0x3E && AFTER_TYPE[5] == 0x3C;
  }

  lemma SolidIsFree(t: seq<byte>)
    requires Solid(t)
    ensures Free(t, AFTER_VALUE) && (0x3D !in t ==> Free(t, AFTER_NAME)) && (0x3C !in t ==> Free(t, AFTER_TYPE))
  {
    forall k | 0 <= k < |t|
      ensures t[k] !in AFTER_VALUE && (0x3D !in t ==> t[k] !in AFTER_NAME) && (0x3C !in t ==> t[k] !in AFTER_TYPE)
    {
      Delimiters(t[k]);
    }
  }

  /** White space in front of any other character is skipped. */
  lemma {:induction false} WhiteIsEaten(w: seq<byte>, c: byte, rest: seq<byte>)
    requires AllWhite(w) && !White(c)
    ensures Entry(w + ([c] + rest)) == Next(Signed(c), rest)
    ensures SkipWhite(w + ([c] + rest)) == Next(Signed(c), rest)
    decreases |w|
  {
    Delimiters(c);
    if w == [] {
      EmptyFront([c] + rest);
      assert ([c] + rest)[1..] == rest;
    } else {
      Delimiters(w[0]);
      assert (w + ([c] + rest))[1..] == w[1..] + ([c] + rest);
      WhiteIsEaten(w[1..], c, rest);
    }
  }

  /** White space up to the end of the stream, or a byte of 0xFF behind it, reads as the end. */
  lemma {:induction false} NothingButWhite(w: seq<byte>, rest: seq<byte>)
    requires AllWhite(w)
    ensures SkipWhite(w) == Next(EOF, []) && SkipWhite(w + ([0xFF] + rest)) == Next(EOF, rest)
  {
    if w == [] {
      EmptyFront([0xFF] + rest);
      assert ([0xFF] + rest)[1..] == rest;
    } else {
      Delimiters(w[0]);
      assert (w + ([0xFF] + rest))[1..] == w[1..] + ([0xFF] + rest);
      NothingButWhite(w[1..], rest);
    }
  }

  lemma NothingToStrip(t: seq<byte>)
    requires Solid(t)
    ensures Stripped(CString(t)) == t && CString(t) == t
  {
    SolidIsFree(t);
    CStringOf(t, []);
    assert t + [] == t;
    if t != [] {
      Delimiters(t[0]);
      Delimiters(t[|t| - 1]);
    }
  }

  /** The name of an attribute whose first character has been read, up to the delimiter that starts y. */
  lemma NameIsRead(n: seq<byte>, y: seq<byte>)
    requires PlainName(n) && y != [] && (White(y[0]) || y[0] == 0x3D || y[0] == 0x3E)
    ensures ScanTo(n[1..] + y, AFTER_NAME) == Scan(n[1..], y[0], y[1..])
    ensures Stripped(CString(FirstOf(Signed(n[0])) + n[1..])) == n
  {
    Delimiters(y[0]);
    NameInParts(n);
    RestOfName(n, y[0], y[1..]);
    assert y == [y[0]] + y[1..];
    NothingToStrip(n);
  }

  lemma RestOfName(n: seq<byte>, c: byte, rest: seq<byte>)
    requires PlainName(n) && c in AFTER_NAME
    ensures ScanTo(n[1..] + ([c] + rest), AFTER_NAME) == Scan(n[1..], c, rest)
  {
    SolidIsFree(n);
    ScanOf(n[1..], AFTER_NAME, c, rest);
  }

  /** The equals sign, with or without white space in front. */
  lemma SignIsRead(n: seq<byte>, w: seq<byte>, z: seq<byte>, junk: int)
    requires PlainName(n) && AllWhite(w)
    ensures var v := ReadValue(z, junk);
      ReadAttribute(Signed(n[0]), n[1..] + (w + ([0x3D] + z)), junk) == Read(n, v.value, v.c, v.rest)
  {
    var y := w + ([0x3D] + z);
    assert w == [] ==> y == [0x3D] + z;
    NameIsRead(n, y);
    WhiteIsEaten(w, 0x3D, z);
    Delimiters(y[0]);
    if w == [] {
      assert y[1..] == z;
    }
  }

  /** After an attribute the loop goes on with what follows it. */
  lemma AttributeIsStored(n: seq<byte>, s: seq<byte>, value: Option<seq<byte>>, v: seq<byte>, next: Next,
                          items: seq<Pair>, endTag: bool, decode: bool, junk: int)
    requires PlainName(n) && s != [] && !IsSpace(next.c) && |next.rest| < |s|
    requires value.Some? ==> CString(value.value) == value.value
    requires v == if value.None? then [] else if decode then HtmlText.Unescaped(value.value) else value.value
    requires var r := ReadAttribute(Signed(n[0]), s, junk);
      r.name == n && r.value == value && EatWhite(r.c, r.rest) == next
    ensures Finish(Signed(n[0]), s, items, endTag, decode, junk) ==
      Finish(next.c, next.rest, Put(items, n, v), endTag, decode, junk)
  {
  }

  predicate EndsValue(tail: seq<byte>) {
    tail != [] && (White(tail[0]) || tail[0] == 0x3E)
  }

  lemma BareValue(w: seq<byte>, v: seq<byte>, tail: seq<byte>, junk: int)
    requires AllWhite(w) && v != [] && Solid(v) && v[0] != 0x22 && v[0] != 0x27 && EndsValue(tail)
    ensures ReadValue(w + (v + tail), junk) == Read([], Some(v), tail[0], tail[1..])
  {
    var c, rest := v[0], v[1..] + tail;
    assert v + tail == [c] + rest;
    WhiteIsEaten(w, c, rest);
    Delimiters(tail[0]);
    SolidIsFree(v);
    assert tail == [tail[0]] + tail[1..];
    ScanOf(v[1..], AFTER_VALUE, tail[0], tail[1..]);
    assert [ByteOf(Signed(c))] + v[1..] == v;
    NothingToStrip(v);
  }

  /** A value without quotes is taken up to white space or the end of the tag. */
  lemma BareIsRead(n: seq<byte>, w: seq<byte>, w': seq<byte>, v: seq<byte>, tail: seq<byte>, items: seq<Pair>,
                   endTag: bool, decode: bool, junk: int)
    requires PlainName(n) && AllWhite(w) && AllWhite(w') && v != [] && Solid(v) && v[0] != 0x22 && v[0] != 0x27
    requires EndsValue(tail)
    ensures Finish(Signed(n[0]), n[1..] + (w + ([0x3D] + (w' + (v + tail)))), items, endTag, decode, junk) ==
      Finish(Entry(tail).c, Entry(tail).rest, Put(items, n, if decode then HtmlText.Unescaped(v) else v),
             endTag, decode, junk)
  {
    var z := w' + (v + tail);
    BareValue(w', v, tail, junk);
    SignIsRead(n, w, z, junk);
    NothingToStrip(v);
    Delimiters(tail[0]);
    EatWhiteStops(Signed(tail[0]), tail[1..]);
    AttributeIsStored(n, n[1..] + (w + ([0x3D] + z)), Some(v), if decode then HtmlText.Unescaped(v) else v,
                      Entry(tail), items, endTag, decode, junk);
  }

  lemma QuotedValue(w: seq<byte>, q: byte, v: seq<byte>, tail: seq<byte>, junk: int)
    requires AllWhite(w) && (q == 0x22 || q == 0x27) && 0 !in v && q !in v && tail != []
    ensures ReadValue(w + ([q] + (v + ([q] + tail))), junk) == Read([], Some(v), Entry(tail).c, Entry(tail).rest)
  {
    var rest := v + ([q] + tail);
    WhiteIsEaten(w, q, rest);
    assert Free(v, [q]);
    ScanOf(v, [q], q, tail);
  }

  /** A value between quotes, or between apostrophes, is taken up to the next one of the kind. */
  lemma QuotedIsRead(n: seq<byte>, w: seq<byte>, w': seq<byte>, q: byte, v: seq<byte>, tail: seq<byte>,
                     items: seq<Pair>, endTag: bool, decode: bool, junk: int)
    requires PlainName(n) && AllWhite(w) && AllWhite(w') && (q == 0x22 || q == 0x27) && 0 !in v && q !in v
    requires tail != []
    ensures Finish(Signed(n[0]), n[1..] + (w + ([0x3D] + (w' + ([q] + (v + ([q] + tail)))))), items, endTag, decode,
                   junk) ==
      Finish(Entry(tail).c, Entry(tail).rest, Put(items, n, if decode then HtmlText.Unescaped(v) else v),
             endTag, decode, junk)
  {
    var z := w' + ([q] + (v + ([q] + tail)));
    QuotedValue(w', q, v, tail, junk);
    SignIsRead(n, w, z, junk);
    CStringOf(v, []);
    assert v + [] == v;
    EatWhiteStops(Signed(tail[0]), tail[1..]);
    AttributeIsStored(n, n[1..] + (w + ([0x3D] + z)), Some(v), if decode then HtmlText.Unescaped(v) else v,
                      Entry(tail), items, endTag, decode, junk);
  }

  /** A name without an equals sign has the empty value. */
  lemma NameAloneIsRead(n: seq<byte>, tail: seq<byte>, items: seq<Pair>, endTag: bool, decode: bool, junk: int)
    requires PlainName(n) && EndsValue(tail) && Entry(tail).c != 0x3D
    ensures Finish(Signed(n[0]), n[1..] + tail, items, endTag, decode, junk) ==
      Finish(Entry(tail).c, Entry(tail).rest, Put(items, n, []), endTag, decode, junk)
  {
    NameIsRead(n, tail);
    Delimiters(tail[0]);
    EatWhiteStops(Signed(tail[0]), tail[1..]);
    AttributeIsStored(n, n[1..] + tail, None, [], Entry(tail), items, endTag, decode, junk);
  }

  /** A slash in front of the end of the tag, with or without white space between them, is the end mark. */
  lemma SlashEndsTheTag(w: seq<byte>, rest: seq<byte>, items: seq<Pair>, endTag: bool, decode: bool, junk: int)
    requires AllWhite(w)
    ensures Finish(0x2F, w + ([0x3E] + rest), items, endTag, decode, junk) == Finished(items, true, 0x3E, rest)
  {
    var y := w + ([0x3E] + rest);
    assert w == [] ==> y == [0x3E] + rest;
    Delimiters(y[0]);
    WhiteIsEaten(w, 0x3E, rest);
    assert y == [] + ([y[0]] + y[1..]);
    ScanOf([], AFTER_NAME, y[0], y[1..]);
    assert w == [] ==> y[1..] == rest;
    NothingToStrip([0x2F]);
    assert FirstOf(0x2F) + [] == [0x2F];
  }

  /** A tag that is cut short by the end of the stream keeps what was complete, and fails. */
  lemma CutShort(n: seq<byte>, items: seq<Pair>, endTag: bool, decode: bool, junk: int)
    requires PlainName(n) && |n| > 1
    ensures Finish(Signed(n[0]), n[1..], items, endTag, decode, junk) == Finished(Put(items, n, []), endTag, EOF, [])
  {
    NothingToStrip(n);
    Delimiters(n[0]);
    SolidIsFree(n);
    ScanToEnd(n[1..], AFTER_NAME);
    NameInParts(n);
    AttributeAtEnd(n);
    AttributeIsStored(n, n[1..], None, [], Next(EOF, []), items, endTag, decode, junk);
  }

  lemma AttributeAtEnd(n: seq<byte>)
    requires PlainName(n) && ScanTo(n[1..], AFTER_NAME) == Scan(n[1..], EOF, [])
    ensures forall junk :: ReadAttribute(Signed(n[0]), n[1..], junk) == Read(n, None, EOF, [])
  {
    NameInParts(n);
    NothingToStrip(n);
  }

  lemma NameInParts(n: seq<byte>)
    requires PlainName(n)
    ensures FirstOf(Signed(n[0])) + n[1..] == n
  {
    Delimiters(n[0]);
  }

  lemma {:induction false} ScanToEnd(t: seq<byte>, check: seq<byte>)
    requires Free(t, check)
    ensures ScanTo(t, check) == Scan(t, EOF, [])
  {
    if t != [] {
      ScanToEnd(t[1..], check);
    }
  }

  /** A tag starts behind the next less-than sign, and its name ends at white space or at either sign; a
      slash in front of a greater-than sign belongs to the tag and not to its name. */
  lemma StartInBytes(skip: seq<byte>, typ: seq<byte>, c: byte, rest: seq<byte>)
    requires 0 !in skip && 0x3C !in skip && Solid(typ) && 0x3C !in typ && (White(c) || c == 0x3E || c == 0x3C)
    ensures Start(skip + ([0x3C] + (typ + ([c] + rest)))) ==
      if c == 0x3E && typ != [] && typ[|typ| - 1] == 0x2F then Started(typ[..|typ| - 1], true, c, rest)
      else Started(typ, false, c, rest)
  {
    assert Free(skip, [LESS]);
    ScanOf(skip, [LESS], LESS, typ + ([c] + rest));
    SolidIsFree(typ);
    Delimiters(c);
    ScanOf(typ, AFTER_TYPE, c, rest);
  }

  /** What WriteTag writes: every attribute behind a blank, its value between quotes. */
  lemma WrittenInBytes(typ: seq<byte>, p: Pair, items: seq<Pair>, endTag: bool)
    requires p.name != []
    ensures Written(typ, items, endTag)
      == [0x3C] + typ + Body(items) + if endTag then [0x20, 0x2F, 0x3E] else [0x3E]
    ensures Body([]) == []
    ensures Body([p] + items)
      == [0x20] + p.name + [0x3D, 0x22] + HtmlText.Escaped(p.value) + [0x22] + Body(items)
  {
    var esc := HtmlText.Escaped(p.value);
    assert ([p] + items)[1..] == items;
    assert Attribute(p) == [0x20] + p.name + [0x3D, 0x22] + esc + [0x22];
  }
}
