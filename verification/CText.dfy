/** CEscape and CUnEscape of io_print.cpp. */
module CText {
  import opened Bytes

  const BACKSLASH: byte := '\\' as int
  const NEWLINE: byte := '\n' as int
  const TAB: byte := '\t' as int
  const RETURN: byte := '\r' as int
  const LETTER_N: byte := 'n' as int
  const LETTER_T: byte := 't' as int
  const LETTER_R: byte := 'r' as int

  function CodeOf(c: byte, extra: seq<byte>): seq<byte> {
    if c == NEWLINE then [BACKSLASH, LETTER_N]
    else if c == TAB then [BACKSLASH, LETTER_T]
    else if c == RETURN then [BACKSLASH, LETTER_R]
    else if c == BACKSLASH then [BACKSLASH, BACKSLASH]
    else if c in extra then [BACKSLASH, c]
    else [c]
  }

  function Escaped(t: seq<byte>, extra: seq<byte>): seq<byte> {
    if t == [] then [] else CodeOf(t[0], extra) + Escaped(t[1..], extra)
  }

  /** What a character means behind a backslash. */
  function Meaning(c: byte): byte {
    if c == LETTER_N then NEWLINE else if c == LETTER_T then TAB else if c == LETTER_R then RETURN else c
  }

  /** What CUnEscape writes for the memory it is given. Behind a backslash it takes any byte, so that
      one at the very end makes it run past the NUL. */
  function Unescaped(mem: seq<byte>): seq<byte>
    decreases |mem|
  {
    if mem == [] || mem[0] == 0 then []
    else if mem[0] != BACKSLASH then [mem[0]] + Unescaped(mem[1..])
    else if |mem| == 1 then []
    else [Meaning(mem[1])] + Unescaped(mem[2..])
  }

  /** A missing list of extra characters counts as an empty one. */
  method CEscape(out: OutStream, c: seq<byte>, extra: Option<seq<byte>>)
    modifies out
    ensures out.bytes == old(out.bytes) + Escaped(c, if extra.Some? then extra.value else [])
  {
    ghost var more := if extra.Some? then extra.value else [];
    ghost var begun := [];
    assert c[0..] == c;
    EmptyFront(Escaped(c, more));
    for i := 0 to |c|
      invariant out.bytes == old(out.bytes) + begun
      invariant Escaped(c, more) == begun + Escaped(c[i..], more)
    {
      assert c[i..][1..] == c[i + 1..];
      WriteCode(out, c[i], extra);
      Assoc(old(out.bytes), begun, CodeOf(c[i], more));
      Assoc(begun, CodeOf(c[i], more), Escaped(c[i + 1..], more));
      begun := begun + CodeOf(c[i], more);
    }
  }

  method WriteCode(out: OutStream, c: byte, extra: Option<seq<byte>>)
    modifies out
    ensures out.bytes == old(out.bytes) + CodeOf(c, if extra.Some? then extra.value else [])
  {
    if c == NEWLINE { out.WriteBytes([BACKSLASH, LETTER_N]); }
    else if c == TAB { out.WriteBytes([BACKSLASH, LETTER_T]); }
    else if c == RETURN { out.WriteBytes([BACKSLASH, LETTER_R]); }
    else if c == BACKSLASH { out.WriteBytes([BACKSLASH, BACKSLASH]); }
    else {
      ghost var start := out.bytes;
      if extra.Some? && c in extra.value {
        out.Put(BACKSLASH);
        assert out.bytes + [c] == start + [BACKSLASH, c];
      }
      out.Put(c);
    }
  }

  method WriteMeaning(out: OutStream, c: byte)
    modifies out
    ensures out.bytes == old(out.bytes) + [Meaning(c)]
  {
    if c == LETTER_N { out.Put(NEWLINE); }
    else if c == LETTER_T { out.Put(TAB); }
    else if c == LETTER_R { out.Put(RETURN); }
    else { out.Put(c); }
  }

  method CUnEscape(out: OutStream, c: array<byte>)
    requires c.Length >= 2 && c[c.Length - 1] == 0 && c[c.Length - 2] == 0
    modifies out
    ensures out.bytes == old(out.bytes) + Unescaped(c[..])
  {
    var i := 0;
    ghost var begun := [];
    assert c[0..] == c[..];
    EmptyFront(Unescaped(c[..]));
    while c[i] != 0
      invariant 0 <= i < c.Length && out.bytes == old(out.bytes) + begun
      invariant Unescaped(c[..]) == begun + Unescaped(c[i..])
      decreases c.Length - i
    {
      ghost var one, j;
      one, j := Next(c[..], i);
      if c[i] == BACKSLASH {
        i := i + 1;
        WriteMeaning(out, c[i]);
      } else {
        out.Put(c[i]);
      }
      i := i + 1;
      Assoc(old(out.bytes), begun, one);
      Assoc(begun, one, Unescaped(c[i..]));
      begun := begun + one;
    }
  }

  /** The byte that the text at i stands for, and where the text goes on. */
  lemma Next(mem: seq<byte>, i: nat) returns (one: seq<byte>, j: nat)
    requires i + 1 < |mem| && mem[i] != 0
    ensures one == if mem[i] == BACKSLASH then [Meaning(mem[i + 1])] else [mem[i]]
    ensures j == (if mem[i] == BACKSLASH then i + 2 else i + 1) <= |mem|
    ensures Unescaped(mem[i..]) == one + Unescaped(mem[j..])
  {
    one := if mem[i] == BACKSLASH then [Meaning(mem[i + 1])] else [mem[i]];
    j := if mem[i] == BACKSLASH then i + 2 else i + 1;
    assert mem[i..][j - i..] == mem[j..];
    assert mem[i..][0] == mem[i] && mem[i..][1] == mem[i + 1];
  }

  /** How characters are written: line breaks, tabs and backslashes as in C, extra ones behind a
      backslash, all others as they are. */
  lemma CodesOfC(c: byte, t: seq<byte>, extra: seq<byte>)
    ensures Escaped([], extra) == [] && Escaped([0x0A] + t, extra) == Ascii("\\n") + Escaped(t, extra)
    ensures Escaped([0x09] + t, extra) == Ascii("\\t") + Escaped(t, extra)
    ensures Escaped([0x0D] + t, extra) == Ascii("\\r") + Escaped(t, extra)
    ensures Escaped([0x5C] + t, extra) == Ascii("\\\\") + Escaped(t, extra)
    ensures c != 0x0A && c != 0x09 && c != 0x0D && c != 0x5C ==>
      Escaped([c] + t, extra) == (if c in extra then [0x5C, c] else [c]) + Escaped(t, extra)
  {
    assert ([0x0A] + t)[1..] == t && ([0x09] + t)[1..] == t && ([0x0D] + t)[1..] == t && ([0x5C] + t)[1..] == t;
    assert ([c] + t)[1..] == t;
  }

  /** How they are read: any other character behind a backslash stands for itself. */
  lemma MeaningsOfC(c: byte, mem: seq<byte>)
    ensures Unescaped([0] + mem) == [] && Unescaped(Ascii("\\n") + mem) == [0x0A] + Unescaped(mem)
    ensures Unescaped(Ascii("\\t") + mem) == [0x09] + Unescaped(mem)
    ensures Unescaped(Ascii("\\r") + mem) == [0x0D] + Unescaped(mem)
    ensures c != 0x6E && c != 0x74 && c != 0x72 ==> Unescaped([0x5C, c] + mem) == [c] + Unescaped(mem)
    ensures c != 0 && c != 0x5C ==> Unescaped([c] + mem) == [c] + Unescaped(mem)
  {
    MeaningOfOne(0x6E, mem);
    MeaningOfOne(0x74, mem);
    MeaningOfOne(0x72, mem);
    MeaningOfOne(c, mem);
    assert Ascii("\\n") == [0x5C, 0x6E] && Ascii("\\t") == [0x5C, 0x74] && Ascii("\\r") == [0x5C, 0x72];
    assert ([c] + mem)[1..] == mem;
  }

  lemma MeaningOfOne(c: byte, mem: seq<byte>)
    ensures Unescaped([0x5C, c] + mem) == [Meaning(c)] + Unescaped(mem)
  {
    assert ([0x5C, c] + mem)[2..] == mem;
  }

  /** No character of the text is escaped into something that means a control character. */
  predicate Clear(t: seq<byte>, extra: seq<byte>) {
    t == [] || (Clear(t[1..], extra) && (t[0] in extra ==> Meaning(t[0]) == t[0]))
  }

  lemma UnescapeCode(c: byte, extra: seq<byte>, rest: seq<byte>)
    requires c != 0
    ensures Unescaped(CodeOf(c, extra) + rest) ==
      [if c in extra then Meaning(c) else c] + Unescaped(rest)
  {
  }

  /** Unescaping gives the text back if and only if the caller did not ask for one of its letters n,
      t and r to be escaped. */
  lemma {:induction false} UnescapeUndoesEscape(t: seq<byte>, extra: seq<byte>, junk: seq<byte>)
    requires 0 !in t && (junk == [] || junk[0] == 0)
    ensures Unescaped(Escaped(t, extra) + junk) == t <==> Clear(t, extra)
  {
    if t == [] {
      assert Escaped(t, extra) + junk == junk;
    } else {
      var rest := Escaped(t[1..], extra);
      UnescapeUndoesEscape(t[1..], extra, junk);
      Assoc(CodeOf(t[0], extra), rest, junk);
      UnescapeCode(t[0], extra, rest + junk);
      var one := if t[0] in extra then Meaning(t[0]) else t[0];
      var u := Unescaped(rest + junk);
      assert ([one] + u)[0] == one && ([one] + u)[1..] == u;
      assert t == [t[0]] + t[1..];
    }
  }
}
