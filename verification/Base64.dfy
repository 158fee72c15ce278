/** Base64 of io_b64.cpp (RFC 2045 section 6.8): the encoder with its line breaks, and the decoder
    that skips whatever is not in the alphabet. */
module Base64 {
  import opened Bytes
  import opened Streams

  const PAD: byte := '=' as int
  const NEWLINE: byte := '\n' as int

  // ----- The alphabet

  function Basis(i: nat): byte
    requires i < 64
  {
    if i < 26 then 'A' as int + i
    else if i < 52 then 'a' as int + (i - 26)
    else if i < 62 then '0' as int + (i - 52)
    else if i == 62 then '+' as int
    else '/' as int
  }

  /** b64c2idx */
  function Index(c: int): int {
    if 'A' as int <= c <= 'Z' as int then c - 'A' as int
    else if 'a' as int <= c <= 'z' as int then c - 'a' as int + 26
    else if '0' as int <= c <= '9' as int then c - '0' as int + 52
    else if c == '+' as int then 62
    else if c == '/' as int then 63
    else -1
  }

  predicate Meant(c: int) {
    c == PAD || Index(c) != -1
  }

  lemma IndexOfBasis(i: nat)
    requires i < 64
    ensures Index(Basis(i)) == i && Meant(Basis(i)) && Basis(i) != PAD && 0 < Basis(i) < 128
  {
  }

  /** The alphabet of RFC 2045, table 1. */
  function Alphabet(): (t: seq<byte>)
    ensures |t| == 64
  {
    Ascii("ABCDEFGHIJKLM") + Ascii("NOPQRSTUVWXYZ") + Ascii("abcdefghijklm") + Ascii("nopqrstuvwxyz")
    + Ascii("0123456789+/")
  }

  lemma BasisIsTheAlphabet(i: nat)
    requires i < 64
    ensures Basis(i) == Alphabet()[i]
  {
    if i < 13 {
      FirstCapitals(i);
    } else if i < 26 {
      LastCapitals(i - 13);
    } else if i < 39 {
      FirstLetters(i - 26);
    } else if i < 52 {
      LastLetters(i - 39);
    } else {
      DigitsAndSigns(i - 52);
    }
  }

  lemma FirstCapitals(i: nat)
    requires i < 13
    ensures Ascii("ABCDEFGHIJKLM")[i] == 'A' as int + i
  {
    assert i == 0 || i == 1 || i == 2 || i == 3 || i == 4 || i == 5 || i == 6 || i >= 7;
    assert i < 7 || i == 7 || i == 8 || i == 9 || i == 10 || i == 11 || i == 12;
  }

  lemma LastCapitals(i: nat)
    requires i < 13
    ensures Ascii("NOPQRSTUVWXYZ")[i] == 'N' as int + i
  {
    assert i == 0 || i == 1 || i == 2 || i == 3 || i == 4 || i == 5 || i == 6 || i >= 7;
    assert i < 7 || i == 7 || i == 8 || i == 9 || i == 10 || i == 11 || i == 12;
  }

  lemma FirstLetters(i: nat)
    requires i < 13
    ensures Ascii("abcdefghijklm")[i] == 'a' as int + i
  {
    assert i == 0 || i == 1 || i == 2 || i == 3 || i == 4 || i == 5 || i == 6 || i >= 7;
    assert i < 7 || i == 7 || i == 8 || i == 9 || i == 10 || i == 11 || i == 12;
  }

  lemma LastLetters(i: nat)
    requires i < 13
    ensures Ascii("nopqrstuvwxyz")[i] == 'n' as int + i
  {
    assert i == 0 || i == 1 || i == 2 || i == 3 || i == 4 || i == 5 || i == 6 || i >= 7;
    assert i < 7 || i == 7 || i == 8 || i == 9 || i == 10 || i == 11 || i == 12;
  }

  lemma DigitsAndSigns(i: nat)
    requires i < 12
    ensures Ascii("0123456789+/")[i] == if i < 10 then '0' as int + i else if i == 10 then '+' as int else '/' as int
  {
    assert i == 0 || i == 1 || i == 2 || i == 3 || i == 4 || i == 5 || i == 6 || i >= 7;
    assert i < 7 || i == 7 || i == 8 || i == 9 || i == 10 || i == 11;
  }

  // ----- Specification of the encoder

  function Quad(c1: byte, c2: byte, c3: byte, pads: nat): seq<byte> {
    [Basis(c1 / 4), Basis(c1 % 4 * 16 + c2 / 16)] +
    if pads == 2 then [PAD, PAD]
    else [Basis(c2 % 16 * 4 + c3 / 64), if pads == 0 then Basis(c3 % 64) else PAD]
  }

  function At(x: seq<byte>, k: nat): byte {
    if k < |x| then x[k] else 0
  }

  function Taken(x: seq<byte>): (k: nat) {
    if |x| < 3 then |x| else 3
  }

  function FirstQuad(x: seq<byte>): seq<byte>
    requires x != []
  {
    Quad(x[0], At(x, 1), At(x, 2), 3 - Taken(x))
  }

  /** The symbols of x, without line breaks. */
  function Quads(x: seq<byte>): seq<byte>
    decreases |x|
  {
    if x == [] then [] else FirstQuad(x) + Quads(x[Taken(x)..])
  }

  /** One group, with the line break behind it when it fills the line. */
  function Emitted(x: seq<byte>, ct: nat): seq<byte>
    requires x != []
  {
    FirstQuad(x) + if ct + 4 > 71 then [NEWLINE] else []
  }

  function NextCount(ct: nat): nat {
    if ct + 4 > 71 then 0 else ct + 4
  }

  /** What the encoder still writes when ct symbols stand on the current line. */
  function Encoded(x: seq<byte>, ct: nat): seq<byte>
    decreases |x|
  {
    if x == [] then (if ct > 0 then [NEWLINE] else [])
    else Emitted(x, ct) + Encoded(x[Taken(x)..], NextCount(ct))
  }

  // ----- The encoder

  method Output64Chunk(c1: byte, c2: byte, c3: byte, pads: nat, out: OutStream) returns (written: nat)
    requires pads < 3
    modifies out
    ensures written == 4 && out.bytes == old(out.bytes) + Quad(c1, c2, c3, pads)
  {
    var q := new byte[4](_ => 0);
    q[0] := Basis(c1 / 4);
    q[1] := Basis(c1 % 4 * 16 + c2 / 16);
    if pads == 2 {
      q[2] := PAD;
      q[3] := PAD;
    } else if pads != 0 {
      q[2] := Basis(c2 % 16 * 4 + c3 / 64);
      q[3] := PAD;
    } else {
      q[2] := Basis(c2 % 16 * 4 + c3 / 64);
      q[3] := Basis(c3 % 64);
    }
    assert q[0..4] == Quad(c1, c2, c3, pads);
    out.Write(q, 0, 4);
    written := 4;
  }

  /** Up to three bytes, with zeroes for the missing ones. */
  method ReadThree(input: InStream, c: array<byte>) returns (n: nat)
    requires input.Valid() && c.Length == 3
    modifies input, c
    ensures input.Valid() && n == Taken(old(input.Rest()))
    ensures input.Rest() == old(input.Rest())[n..]
    ensures c[0] == At(old(input.Rest()), 0) && c[1] == At(old(input.Rest()), 1) && c[2] == At(old(input.Rest()), 2)
  {
    c[0], c[1], c[2] := 0, 0, 0;
    n := input.Read(c, 3);
    assert forall k | 0 <= k < 3 :: c[k] == c[..][k];
  }

  method EncodeGroup(c: array<byte>, n: nat, ct: nat, out: OutStream, ghost x: seq<byte>)
    returns (written: nat, ct': nat)
    requires c.Length == 3 && x != [] && n == Taken(x)
    requires c[0] == At(x, 0) && c[1] == At(x, 1) && c[2] == At(x, 2)
    modifies out
    ensures out.bytes == old(out.bytes) + Emitted(x, ct) && written == |Emitted(x, ct)|
    ensures ct' == NextCount(ct)
  {
    written := Output64Chunk(c[0], c[1], c[2], 3 - n, out);
    ct' := ct + 4;
    if ct' > 71 {
      out.Put(NEWLINE);
      written := written + 1;
      ct' := 0;
    }
  }

  method B64Encode(input: InStream, out: OutStream) returns (written: nat)
    requires input.Valid()
    modifies input, out
    ensures input.Valid() && input.Rest() == []
    ensures out.bytes == old(out.bytes) + Encoded(old(input.Rest()), 0)
    ensures written == |Encoded(old(input.Rest()), 0)|
  {
    ghost var all := Encoded(input.Rest(), 0);
    ghost var x, begun := input.Rest(), [];
    var c := new byte[3](_ => 0);
    var ct := 0;
    written := 0;
    var n := ReadThree(input, c);
    EmptyFront(all);
    while n != 0
      invariant input.Valid() && n == Taken(x) && input.Rest() == x[n..]
      invariant c[0] == At(x, 0) && c[1] == At(x, 1) && c[2] == At(x, 2)
      invariant out.bytes == old(out.bytes) + begun && written == |begun|
      invariant all == begun + Encoded(x, ct)
      decreases |x|
    {
      var w, ct' := EncodeGroup(c, n, ct, out, x);
      Assoc(begun, Emitted(x, ct), Encoded(x[n..], ct'));
      Assoc(old(out.bytes), begun, Emitted(x, ct));
      begun := begun + Emitted(x, ct);
      written := written + w;
      ct := ct';
      x := x[n..];
      n := ReadThree(input, c);
    }
    if ct != 0 {
      out.Put(NEWLINE);
      written := written + 1;
    }
  }

  // ----- Specification of the decoder

  /** The next symbol of a stream and what follows it; a byte of 0xFF reads as the end of the file. */
  function NextSymbol(s: seq<byte>): (r: (int, seq<byte>))
    ensures r.0 == EOF || Meant(r.0)
    ensures |r.1| <= |s| && (r.0 != EOF ==> |r.1| < |s|)
  {
    if s == [] then (EOF, [])
    else if Signed(s[0]) == EOF then (EOF, s[1..])
    else if Meant(Signed(s[0])) then (Signed(s[0]), s[1..])
    else NextSymbol(s[1..])
  }

  function Byte(x: int): byte { x % 256 }

  function First(i1: int, i2: int): byte { Byte(i1 * 4 % 256 + i2 / 16) }
  function Second(i2: int, i3: int): byte { Byte(i2 * 16 % 256 + i3 / 4) }
  function Third(i3: int, i4: int): byte { Byte(i3 * 64 % 256 + i4) }

  datatype Group = Group(c1: int, c2: int, c3: int, c4: int) {
    predicate Over() { c1 == EOF || c4 == EOF }

    predicate Full() { c1 != PAD && c2 != PAD && c3 != PAD && c4 != PAD }

    predicate OnePad() { c1 != PAD && c2 != PAD && c3 != PAD && c4 == PAD }

    predicate TwoPads() { c1 != PAD && c2 != PAD && c3 == PAD && c4 == PAD }

    function Content(): seq<byte> {
      var i1, i2, i3, i4 := Index(c1), Index(c2), Index(c3), Index(c4);
      if Full() then [First(i1, i2), Second(i2, i3), Third(i3, i4)]
      else if OnePad() then [First(i1, i2), Second(i2, i3)]
      else if TwoPads() then [First(i1, i2)]
      else []
    }
  }

  function NextGroup(s: seq<byte>): (r: (Group, seq<byte>))
    ensures |r.1| <= |s| && (!r.0.Over() ==> |r.1| < |s|)
  {
    var (c1, s1) := NextSymbol(s);
    var (c2, s2) := NextSymbol(s1);
    var (c3, s3) := NextSymbol(s2);
    var (c4, s4) := NextSymbol(s3);
    (Group(c1, c2, c3, c4), s4)
  }

  /** The bytes a stream stands for. Groups that make no sense are skipped. */
  function Decoded(s: seq<byte>): seq<byte>
    decreases |s|
  {
    var (g, rest) := NextGroup(s);
    if g.Over() then []
    else if g.OnePad() || g.TwoPads() then g.Content()
    else g.Content() + Decoded(rest)
  }

  // ----- The decoder

  method B64GetNextCh(body: InStream) returns (c: int)
    requires body.Valid()
    modifies body
    ensures body.Valid() && (c, body.Rest()) == NextSymbol(old(body.Rest()))
  {
    ghost var s := body.Rest();
    while true
      invariant body.Valid() && NextSymbol(body.Rest()) == NextSymbol(s)
      decreases |body.Rest()|
    {
      ghost var now := body.Rest();
      c := body.Get();
      if c == EOF { return; }
      if c == PAD || Index(c) != -1 { return; }
    }
  }

  method GetGroup(body: InStream) returns (g: Group)
    requires body.Valid()
    modifies body
    ensures body.Valid() && (g, body.Rest()) == NextGroup(old(body.Rest()))
  {
    var c1 := B64GetNextCh(body);
    var c2 := B64GetNextCh(body);
    var c3 := B64GetNextCh(body);
    var c4 := B64GetNextCh(body);
    g := Group(c1, c2, c3, c4);
  }

  method WriteGroup(g: Group, out: OutStream) returns (written: nat, more: bool)
    modifies out
    ensures out.bytes == old(out.bytes) + g.Content() && written == |g.Content()|
    ensures more <==> !g.OnePad() && !g.TwoPads()
  {
    var i1, i2, i3, i4 := Index(g.c1), Index(g.c2), Index(g.c3), Index(g.c4);
    if g.c1 != PAD && g.c2 != PAD && g.c3 != PAD && g.c4 != PAD {
      out.WriteBytes([First(i1, i2), Second(i2, i3), Third(i3, i4)]);
      return 3, true;
    }
    if g.c1 != PAD && g.c2 != PAD && g.c3 != PAD && g.c4 == PAD {
      out.WriteBytes([First(i1, i2), Second(i2, i3)]);
      return 2, false;
    }
    if g.c1 != PAD && g.c2 != PAD && g.c3 == PAD && g.c4 == PAD {
      out.WriteBytes([First(i1, i2)]);
      return 1, false;
    }
    return 0, true;
  }

  method B64Decode(body: InStream, out: OutStream) returns (written: nat)
    requires body.Valid()
    modifies body, out
    ensures body.Valid()
    ensures out.bytes == old(out.bytes) + Decoded(old(body.Rest()))
    ensures written == |Decoded(old(body.Rest()))|
  {
    ghost var all, begun := Decoded(body.Rest()), [];
    written := 0;
    EmptyFront(all);
    while true
      invariant body.Valid() && out.bytes == old(out.bytes) + begun && written == |begun|
      invariant all == begun + Decoded(body.Rest())
      decreases |body.Rest()|
    {
      var g := GetGroup(body);
      if g.c1 == EOF || g.c4 == EOF { break; }
      var w, more := WriteGroup(g, out);
      written := written + w;
      Assoc(begun, g.Content(), Decoded(body.Rest()));
      Assoc(old(out.bytes), begun, g.Content());
      begun := begun + g.Content();
      if !more { break; }
    }
  }

  // ----- The symbols of an encoding

  /** What is left of a stream without the bytes outside the alphabet. */
  function Clean(s: seq<byte>): seq<byte> {
    if s == [] then [] else (if Meant(s[0]) then [s[0]] else []) + Clean(s[1..])
  }

  lemma {:induction false} CleanConcat(a: seq<byte>, b: seq<byte>)
    ensures Clean(a + b) == Clean(a) + Clean(b)
  {
    if a == [] {
      assert a + b == b;
    } else {
      assert (a + b)[1..] == a[1..] + b;
      CleanConcat(a[1..], b);
      Assoc(if Meant(a[0]) then [a[0]] else [], Clean(a[1..]), Clean(b));
    }
  }

  lemma {:induction false} CleanOfMeant(s: seq<byte>)
    requires forall k | 0 <= k < |s| :: Meant(s[k])
    ensures Clean(s) == s && 255 !in s
  {
    if s != [] {
      CleanOfMeant(s[1..]);
    }
  }

  lemma CleanQuad(x: seq<byte>)
    requires x != []
    ensures Clean(FirstQuad(x)) == FirstQuad(x) && 255 !in FirstQuad(x)
  {
    var c1, c2, c3 := x[0], At(x, 1), At(x, 2);
    IndexOfBasis(c1 / 4);
    IndexOfBasis(c1 % 4 * 16 + c2 / 16);
    IndexOfBasis(c2 % 16 * 4 + c3 / 64);
    IndexOfBasis(c3 % 64);
    CleanOfMeant(FirstQuad(x));
  }

  lemma CleanEmitted(x: seq<byte>, ct: nat)
    requires x != []
    ensures Clean(Emitted(x, ct)) == FirstQuad(x) && 255 !in Emitted(x, ct)
  {
    var tail := if ct + 4 > 71 then [NEWLINE] else [];
    CleanQuad(x);
    CleanConcat(FirstQuad(x), tail);
    assert Clean(tail) == [];
  }

  /** Without its line breaks the encoding is the symbols of x. */
  lemma {:induction false} CleanEncoding(x: seq<byte>, ct: nat)
    ensures Clean(Encoded(x, ct)) == Quads(x) && 255 !in Encoded(x, ct)
    decreases |x|
  {
    if x == [] {
      assert Clean([NEWLINE]) == [];
    } else {
      var rest := x[Taken(x)..];
      CleanEncoding(rest, NextCount(ct));
      CleanStep(x, rest, ct);
    }
  }

  lemma CleanStep(x: seq<byte>, rest: seq<byte>, ct: nat)
    requires x != [] && rest == x[Taken(x)..]
    requires Clean(Encoded(rest, NextCount(ct))) == Quads(rest) && 255 !in Encoded(rest, NextCount(ct))
    ensures Clean(Encoded(x, ct)) == Quads(x) && 255 !in Encoded(x, ct)
  {
    CleanEmitted(x, ct);
    CleanConcat(Emitted(x, ct), Encoded(rest, NextCount(ct)));
  }

  /** Four symbols for every started three bytes. */
  lemma {:induction false} QuadsLength(x: seq<byte>)
    ensures |Quads(x)| == 4 * ((|x| + 2) / 3)
    decreases |x|
  {
    if x != [] {
      QuadsLength(x[Taken(x)..]);
    }
  }

  // ----- Decoding undoes encoding

  lemma {:induction false} NextSymbolIsClean(s: seq<byte>)
    requires 255 !in s
    ensures Clean(s) == [] ==> NextSymbol(s) == (EOF, [])
    ensures Clean(s) != [] ==> NextSymbol(s).0 == Clean(s)[0] && Clean(NextSymbol(s).1) == Clean(s)[1..]
    ensures 255 !in NextSymbol(s).1
  {
    if s != [] {
      assert Meant(s[0]) ==> s[0] < 128;
      if Meant(s[0]) {
        assert Clean(s)[1..] == Clean(s[1..]);
      } else {
        EmptyFront(Clean(s[1..]));
        NextSymbolIsClean(s[1..]);
      }
    }
  }

  lemma NextGroupIsClean(s: seq<byte>, q: seq<byte>, rest: seq<byte>)
    requires 255 !in s && |q| == 4 && Clean(s) == q + rest
    ensures NextGroup(s).0 == Group(q[0], q[1], q[2], q[3])
    ensures Clean(NextGroup(s).1) == rest && 255 !in NextGroup(s).1
  {
    NextSymbolIsClean(s);
    var s1 := NextSymbol(s).1;
    NextSymbolIsClean(s1);
    var s2 := NextSymbol(s1).1;
    NextSymbolIsClean(s2);
    var s3 := NextSymbol(s2).1;
    NextSymbolIsClean(s3);
    assert (q + rest)[1..][1..][1..][1..] == rest;
  }

  /** The 24 bits of four digits, the first one on top. */
  function FourDigits(i1: nat, i2: nat, i3: nat, i4: nat): nat {
    ((i1 * 64 + i2) * 64 + i3) * 64 + i4
  }

  /** Three bytes as one number, the first one on top, are its four digits to the base 64; zeroes stand for
      missing bytes, and equals signs for the digits that have no bits of the others. */
  lemma QuadInBits(c1: byte, c2: byte, c3: byte) returns (i1: nat, i2: nat, i3: nat, i4: nat)
    ensures i1 < 64 && i2 < 64 && i3 < 64 && i4 < 64
    ensures FourDigits(i1, i2, i3, i4) == ((c1 as nat) * 256 + c2) * 256 + c3
    ensures Quad(c1, c2, c3, 0) == [Alphabet()[i1], Alphabet()[i2], Alphabet()[i3], Alphabet()[i4]]
    ensures Quad(c1, c2, c3, 1) == [Alphabet()[i1], Alphabet()[i2], Alphabet()[i3], 0x3D]
    ensures Quad(c1, c2, c3, 2) == [Alphabet()[i1], Alphabet()[i2], 0x3D, 0x3D]
  {
    i1, i2, i3, i4 := c1 / 4, c1 % 4 * 16 + c2 / 16, c2 % 16 * 4 + c3 / 64, c3 % 64;
    BasisIsTheAlphabet(i1);
    BasisIsTheAlphabet(i2);
    BasisIsTheAlphabet(i3);
    BasisIsTheAlphabet(i4);
  }

  /** Four digits stand for the three bytes of their number, three and one equals sign for the first two of
      them, two and two for the first one, and any other group for nothing. */
  lemma GroupInBits(i1: nat, i2: nat, i3: nat, i4: nat)
    requires i1 < 64 && i2 < 64 && i3 < 64 && i4 < 64
    ensures var n, a := FourDigits(i1, i2, i3, i4), Alphabet();
      && Group(a[i1], a[i2], a[i3], a[i4]).Content() == [n / 65536, n / 256 % 256, n % 256]
      && Group(a[i1], a[i2], a[i3], 0x3D).Content() == [n / 65536, n / 256 % 256]
      && Group(a[i1], a[i2], 0x3D, 0x3D).Content() == [n / 65536]
      && Group(a[i1], a[i2], 0x3D, a[i4]).Content() == [] && Group(a[i1], 0x3D, a[i3], a[i4]).Content() == []
      && Group(0x3D, a[i2], a[i3], a[i4]).Content() == []
  {
    BasisIsTheAlphabet(i1);
    BasisIsTheAlphabet(i2);
    BasisIsTheAlphabet(i3);
    BasisIsTheAlphabet(i4);
    IndexOfBasis(i1);
    IndexOfBasis(i2);
    IndexOfBasis(i3);
    IndexOfBasis(i4);
    BytesOfDigits(i1, i2, i3, i4);
  }

  lemma BytesOfDigits(i1: nat, i2: nat, i3: nat, i4: nat)
    requires i1 < 64 && i2 < 64 && i3 < 64 && i4 < 64
    ensures var n := FourDigits(i1, i2, i3, i4);
      && n / 65536 == First(i1, i2) && n / 256 % 256 == Second(i2, i3) && n % 256 == Third(i3, i4)
  {
    var n, top := FourDigits(i1, i2, i3, i4), i1 * 4 + i2 / 16;
    var middle, low := i2 % 16 * 16 + i3 / 4, i3 % 4 * 64 + i4;
    DigitsRegrouped(i1, i2, i3, i4, top, middle, low);
    ThreeBytes(n, top, middle, low);
    BytesOfPairs(i1, i2, i3, i4);
  }

  lemma DigitsRegrouped(i1: nat, i2: nat, i3: nat, i4: nat, top: nat, middle: nat, low: nat)
    requires i2 < 64 && i3 < 64
    requires top == i1 * 4 + i2 / 16 && middle == i2 % 16 * 16 + i3 / 4 && low == i3 % 4 * 64 + i4
    ensures FourDigits(i1, i2, i3, i4) == (top * 256 + middle) * 256 + low
  {
  }

  lemma ThreeBytes(n: nat, top: nat, middle: nat, low: nat)
    requires top < 256 && middle < 256 && low < 256 && n == (top * 256 + middle) * 256 + low
    ensures n / 65536 == top && n / 256 % 256 == middle && n % 256 == low
  {
    assert n / 256 == top * 256 + middle;
  }

  lemma BytesOfPairs(i1: nat, i2: nat, i3: nat, i4: nat)
    requires i1 < 64 && i2 < 64 && i3 < 64 && i4 < 64
    ensures First(i1, i2) == i1 * 4 + i2 / 16 && Second(i2, i3) == i2 % 16 * 16 + i3 / 4
    ensures Third(i3, i4) == i3 % 4 * 64 + i4
  {
    LowByte(0, i1 * 4, i1 * 4);
    LowByte(0, i1 * 4 + i2 / 16, i1 * 4 + i2 / 16);
    ByteOfSecond(i2, i3);
    ByteOfThird(i3, i4);
  }

  lemma ByteOfSecond(i2: nat, i3: nat)
    requires i2 < 64 && i3 < 64
    ensures Second(i2, i3) == i2 % 16 * 16 + i3 / 4
  {
    var q, r := i2 / 16, i2 % 16;
    LowByte(q, r * 16, i2 * 16);
    LowByte(0, r * 16 + i3 / 4, r * 16 + i3 / 4);
  }

  lemma LowByte(q: nat, r: nat, n: nat)
    requires r < 256 && n == q * 256 + r
    ensures n % 256 == r
  {
  }

  lemma ByteOfThird(i3: nat, i4: nat)
    requires i3 < 64 && i4 < 64
    ensures Third(i3, i4) == i3 % 4 * 64 + i4
  {
    var q, r := i3 / 4, i3 % 4;
    LowByte(q, r * 64, i3 * 64);
    LowByte(0, r * 64 + i4, r * 64 + i4);
  }

  /** A last group of fewer than four symbols is lost. */
  lemma IncompleteGroupIsLost(s: seq<byte>)
    requires |s| < 4 && AllSymbols(s)
    ensures Decoded(s) == []
  {
    var s1 := NextSymbol(s).1;
    var s2 := NextSymbol(s1).1;
    var s3 := NextSymbol(s2).1;
    OneSymbol(s);
    OneSymbol(s1);
    OneSymbol(s2);
    OneSymbol(s3);
    assert NextSymbol(s3).0 == EOF;
    assert NextGroup(s).0.c4 == EOF;
  }

  predicate AllSymbols(s: seq<byte>) {
    forall k :: 0 <= k < |s| ==> s[k] in Alphabet() || s[k] == 0x3D
  }

  lemma OneSymbol(s: seq<byte>)
    requires AllSymbols(s)
    ensures NextSymbol(s) == if s == [] then (EOF, []) else (s[0] as int, s[1..])
    ensures AllSymbols(NextSymbol(s).1)
  {
    if s != [] {
      SymbolIsMeant(s[0]);
    }
  }

  lemma SymbolIsMeant(c: byte)
    requires c in Alphabet() || c == 0x3D
    ensures c < 128 && Meant(c)
  {
    if c in Alphabet() {
      var i :| 0 <= i < 64 && Alphabet()[i] == c;
      BasisIsTheAlphabet(i);
      IndexOfBasis(i);
    }
  }

  /** The bit arithmetic of both directions fits together. */
  lemma GroupOfQuad(x: seq<byte>)
    requires x != []
    ensures var q := FirstQuad(x);
      var g := Group(q[0], q[1], q[2], q[3]);
      && !g.Over() && g.Content() == x[..Taken(x)]
      && (g.OnePad() || g.TwoPads() <==> |x| < 3)
  {
    var c1, c2, c3 := x[0], At(x, 1), At(x, 2);
    IndexOfBasis(c1 / 4);
    IndexOfBasis(c1 % 4 * 16 + c2 / 16);
    IndexOfBasis(c2 % 16 * 4 + c3 / 64);
    IndexOfBasis(c3 % 64);
    FirstOfBits(c1, c2);
    SecondOfBits(c1, c2, c3);
    ThirdOfBits(c2, c3);
  }

  lemma FirstOfBits(c1: byte, c2: byte)
    ensures First(c1 / 4, c1 % 4 * 16 + c2 / 16) == c1
  {
  }

  lemma SecondOfBits(c1: byte, c2: byte, c3: byte)
    ensures Second(c1 % 4 * 16 + c2 / 16, c2 % 16 * 4 + c3 / 64) == c2
  {
    var high, low := c2 / 16, c2 % 16;
    assert (c1 % 4 * 16 + high) * 16 == c1 % 4 * 256 + high * 16;
    assert (c1 % 4 * 256 + high * 16) % 256 == high * 16;
    assert (low * 4 + c3 / 64) / 4 == low;
  }

  lemma ThirdOfBits(c2: byte, c3: byte)
    ensures Third(c2 % 16 * 4 + c3 / 64, c3 % 64) == c3
  {
  }

  lemma {:induction false} DecodesQuads(x: seq<byte>, s: seq<byte>)
    requires 255 !in s && Clean(s) == Quads(x)
    ensures Decoded(s) == x
    decreases |x|
  {
    NextSymbolIsClean(s);
    if x != [] {
      var rest := x[Taken(x)..];
      NextGroupIsClean(s, FirstQuad(x), Quads(rest));
      GroupOfQuad(x);
      if |x| >= 3 {
        DecodesQuads(rest, NextGroup(s).1);
        assert x == x[..3] + rest;
      }
    }
  }

  /** s is the encoding of x with any bytes outside the alphabet put in or taken out anywhere; only
      0xFF, which reads as the end of the file, is not allowed among them. */
  lemma DecodeUndoesEncode(x: seq<byte>, s: seq<byte>)
    requires 255 !in s && Clean(s) == Clean(Encoded(x, 0))
    ensures Decoded(s) == x
  {
    CleanEncoding(x, 0);
    DecodesQuads(x, s);
  }

  // ----- The lines

  const LINE := 72

  /** Every 72 symbols are followed by a line break, and so is what remains. */
  function Wrapped(q: seq<byte>, ct: nat): seq<byte>
    requires ct < LINE
    decreases |q|
  {
    if ct + |q| < LINE then (if ct + |q| == 0 then [] else q + [NEWLINE])
    else q[..LINE - ct] + [NEWLINE] + Wrapped(q[LINE - ct..], 0)
  }

  lemma {:induction false} EncodingIsWrapped(x: seq<byte>, ct: nat)
    requires ct < LINE && ct % 4 == 0
    ensures Encoded(x, ct) == Wrapped(Quads(x), ct)
    decreases |x|
  {
    if x != [] {
      var rest := x[Taken(x)..];
      EncodingIsWrapped(rest, NextCount(ct));
      WrapGroup(FirstQuad(x), Quads(rest), ct);
    }
  }

  lemma WrapGroup(f: seq<byte>, q: seq<byte>, ct: nat)
    requires |f| == 4 && ct < LINE && ct % 4 == 0
    ensures Wrapped(f + q, ct) == f + (if ct + 4 > 71 then [NEWLINE] else []) + Wrapped(q, NextCount(ct))
  {
    if ct + 4 > 71 {
      assert (f + q)[..4] == f && (f + q)[4..] == q;
    } else if ct + |f + q| >= LINE {
      assert (f + q)[..LINE - ct] == f + q[..LINE - ct - 4];
      assert (f + q)[LINE - ct..] == q[LINE - ct - 4..];
    }
  }

  /** No line is longer than 72 symbols. */
  lemma {:induction false} LinesAreShort(q: seq<byte>, k: nat)
    requires k + 73 <= |Wrapped(q, 0)|
    ensures NEWLINE in Wrapped(q, 0)[k..k + 73]
    decreases |q|
  {
    var w := Wrapped(q, 0);
    if |q| < LINE {
      assert false;
    } else {
      var tail := Wrapped(q[LINE..], 0);
      assert w == q[..LINE] + [NEWLINE] + tail;
      if k <= LINE {
        assert w[k..k + 73][LINE - k] == NEWLINE;
      } else {
        LinesAreShort(q[LINE..], k - 73);
        assert w[k..k + 73] == tail[k - 73..k];
      }
    }
  }

  /** The length of an encoding: its symbols and one line break for every started 72 of them. */
  lemma {:induction false} WrappedLength(q: seq<byte>)
    ensures |Wrapped(q, 0)| == |q| + (|q| + 71) / 72
    decreases |q|
  {
    if |q| >= LINE {
      WrappedLength(q[LINE..]);
    }
  }

  lemma EncodedLines(x: seq<byte>, k: nat)
    ensures |Encoded(x, 0)| == 4 * ((|x| + 2) / 3) + (4 * ((|x| + 2) / 3) + 71) / 72
    ensures k + 73 <= |Encoded(x, 0)| ==> NEWLINE in Encoded(x, 0)[k..k + 73]
  {
    EncodingIsWrapped(x, 0);
    QuadsLength(x);
    WrappedLength(Quads(x));
    if k + 73 <= |Encoded(x, 0)| {
      LinesAreShort(Quads(x), k);
    }
  }
}
