/** The markup escapes of io_print.cpp: HTMLEscape and HTMLUnEscape. */
module HtmlText {
  import opened Bytes
  import opened Streams

  const AMP: byte := '&' as int
  const LESS: byte := '<' as int
  const GREATER: byte := '>' as int
  const QUOTE: byte := '"' as int
  const SEMICOLON: byte := ';' as int

  // ----- HTMLEscape

  const LT_ENTITY: seq<byte> := [AMP, 'l' as int, 't' as int, SEMICOLON]
  const GT_ENTITY: seq<byte> := [AMP, 'g' as int, 't' as int, SEMICOLON]
  const AMP_ENTITY: seq<byte> := [AMP, 'a' as int, 'm' as int, 'p' as int, SEMICOLON]
  const QUOT_ENTITY: seq<byte> := [AMP, 'q' as int, 'u' as int, 'o' as int, 't' as int, SEMICOLON]

  predicate Special(c: byte) {
    c == LESS || c == GREATER || c == AMP || c == QUOTE
  }

  function Entity(c: byte): seq<byte>
    requires Special(c)
  {
    if c == LESS then LT_ENTITY else if c == GREATER then GT_ENTITY else if c == AMP then AMP_ENTITY else QUOT_ENTITY
  }

  function Escaped(t: seq<byte>): seq<byte> {
    if t == [] then [] else (if Special(t[0]) then Entity(t[0]) else [t[0]]) + Escaped(t[1..])
  }

  /** strcspn(s, "<>&\"") from i on. */
  method SkipPlain(s: seq<byte>, i: nat) returns (j: nat)
    requires i <= |s|
    ensures i <= j <= |s| && (j < |s| ==> Special(s[j]))
    ensures Escaped(s[i..]) == s[i..j] + Escaped(s[j..])
  {
    j := i;
    while j < |s| && !Special(s[j])
      invariant i <= j <= |s|
      invariant Escaped(s[i..]) == s[i..j] + Escaped(s[j..])
    {
      assert s[j..][1..] == s[j + 1..] && s[i..j + 1] == s[i..j] + [s[j]];
      Assoc(s[i..j], [s[j]], Escaped(s[j + 1..]));
      j := j + 1;
    }
  }

  method WriteEntity(out: OutStream, c: byte)
    requires Special(c)
    modifies out
    ensures out.bytes == old(out.bytes) + Entity(c)
  {
    var codes := [(LESS, LT_ENTITY), (GREATER, GT_ENTITY), (AMP, AMP_ENTITY), (QUOTE, QUOT_ENTITY)];
    assert codes[0].0 == c || codes[1].0 == c || codes[2].0 == c || codes[3].0 == c;
    var x := 0;
    while x < |codes|
      invariant 0 <= x <= |codes| && out.bytes == old(out.bytes)
      invariant forall y | 0 <= y < x :: codes[y].0 != c
    {
      if codes[x].0 == c {
        out.WriteBytes(codes[x].1);
        return;
      }
      x := x + 1;
    }
  }

  method HTMLEscape(out: OutStream, s: seq<byte>)
    modifies out
    ensures out.bytes == old(out.bytes) + Escaped(s)
  {
    var i := 0;
    ghost var begun := [];
    assert s[0..] == s;
    EmptyFront(Escaped(s));
    while i < |s|
      invariant 0 <= i <= |s| && out.bytes == old(out.bytes) + begun
      invariant Escaped(s) == begun + Escaped(s[i..])
    {
      var j := SkipPlain(s, i);
      out.WriteBytes(s[i..j]);
      Assoc(old(out.bytes), begun, s[i..j]);
      Assoc(begun, s[i..j], Escaped(s[j..]));
      begun := begun + s[i..j];
      i := j;
      if i == |s| { break; }
      WriteEntity(out, s[i]);
      assert s[i..][1..] == s[i + 1..];
      Assoc(old(out.bytes), begun, Entity(s[i]));
      Assoc(begun, Entity(s[i]), Escaped(s[i + 1..]));
      begun := begun + Entity(s[i]);
      i := i + 1;
    }
  }

  /** Escaped text can stand between quotes inside a tag. */
  lemma {:induction false} EscapedIsSafe(t: seq<byte>)
    requires 0 !in t
    ensures 0 !in Escaped(t) && LESS !in Escaped(t) && GREATER !in Escaped(t) && QUOTE !in Escaped(t)
  {
    if t != [] {
      EscapedIsSafe(t[1..]);
    }
  }

  // ----- HTMLUnEscape

  /** The character of the entity that t starts with. */
  function EntityAt(t: seq<byte>): (r: Option<byte>)
    ensures r.Some? ==> Special(r.value)
  {
    if HasPrefix(t, LT_ENTITY) then Some(LESS)
    else if HasPrefix(t, GT_ENTITY) then Some(GREATER)
    else if HasPrefix(t, AMP_ENTITY) then Some(AMP)
    else if HasPrefix(t, QUOT_ENTITY) then Some(QUOTE)
    else None
  }

  function Digits(t: seq<byte>): (n: nat)
    ensures n <= |t|
  {
    if t != [] && '0' as int <= t[0] <= '9' as int then 1 + Digits(t[1..]) else 0
  }

  function Number(t: seq<byte>): nat {
    if t == [] then 0 else Number(t[..|t| - 1]) * 10 + if t[|t| - 1] < '0' as int then 0 else t[|t| - 1] - '0' as int
  }

  function Spaces(t: seq<byte>): (n: nat)
    ensures n <= |t|
  {
    if t != [] && (t[0] == ' ' as int || 9 <= t[0] <= 13) then 1 + Spaces(t[1..]) else 0
  }

  const ULONG_MAX := 0xffff_ffff_ffff_ffff

  /** strtoul(t, &e, 10): the value, and how far e moves. */
  function StrToUL(t: seq<byte>): (r: (nat, nat))
    ensures r.1 <= |t|
  {
    var w := Spaces(t);
    var signed := w < |t| && (t[w] == '+' as int || t[w] == '-' as int);
    var from := if signed then w + 1 else w;
    var n := Digits(t[from..]);
    var v := Number(t[from..from + n]);
    if n == 0 then (0, 0)
    else if v > ULONG_MAX then (ULONG_MAX, from + n)
    else if signed && t[w] == '-' as int && v > 0 then (ULONG_MAX + 1 - v, from + n)
    else (v, from + n)
  }

  /** UCS2ToUTF8C of sy_string.cpp. */
  function Utf8(c: nat): seq<byte> {
    if c < 0x80 then [c]
    else if c < 0x800 then [0xc0 + c / 0x40, 0x80 + c % 0x40]
    else if c < 0x10000 then [0xe0 + c / 0x1000, 0x80 + c / 0x40 % 0x40, 0x80 + c % 0x40]
    else [0xf0 + c / 0x40000 % 8, 0x80 + c / 0x1000 % 0x40, 0x80 + c / 0x40 % 0x40, 0x80 + c % 0x40]
  }

  /** A numeric entity at the start of t: the character's number as a C int and the length of the
      entity. */
  function NumericAt(t: seq<byte>): (r: Option<(nat, nat)>)
    ensures r.Some? ==> 4 <= r.value.1 <= |t| && r.value.0 != 0
  {
    if |t| >= 2 && t[0] == AMP && t[1] == '#' as int then
      var (v, e) := StrToUL(t[2..]);
      var cv := v % 0x1_0000_0000;
      if e > 0 && 2 + e < |t| && t[2 + e] == SEMICOLON && cv != 0 then Some((cv, e + 3)) else None
    else None
  }

  /** What stands for the beginning of t, and how much of t it stands for. */
  function Piece(t: seq<byte>): (r: (seq<byte>, nat))
    requires t != []
    ensures 0 < r.1 <= |t| && |r.0| <= r.1
    ensures 0 !in t ==> 0 !in r.0
  {
    var e := EntityAt(t);
    if e.Some? then PrefixIsShorter(t, Entity(e.value)); ([e.value], |Entity(e.value)|)
    else
      var n := NumericAt(t);
      if n.Some? then (Utf8(n.value.0), n.value.1) else ([t[0]], 1)
  }

  function Unescaped(t: seq<byte>): seq<byte>
    decreases |t|
  {
    if t == [] then [] else Piece(t).0 + Unescaped(t[Piece(t).1..])
  }

  /** The first n characters of t stand for p. */
  predicate Stands(t: seq<byte>, p: seq<byte>, n: nat) {
    0 < n <= |t| && |p| <= n && 0 !in p && Unescaped(t) == p + Unescaped(t[n..])
  }

  /** Unescaping undoes escaping. */
  lemma {:induction false} UnescapeUndoesEscape(t: seq<byte>)
    ensures Unescaped(Escaped(t)) == t
  {
    if t != [] {
      var rest := Escaped(t[1..]);
      UnescapeUndoesEscape(t[1..]);
      UnescapeOne(t[0], rest);
      assert t == [t[0]] + t[1..];
    }
  }

  lemma UnescapeOne(c: byte, rest: seq<byte>)
    ensures Unescaped((if Special(c) then Entity(c) else [c]) + rest) == [c] + Unescaped(rest)
  {
    if Special(c) {
      PieceOfEntity(c, rest);
      assert (Entity(c) + rest)[|Entity(c)|..] == rest;
    } else {
      PieceOfPlain(c, rest);
      assert ([c] + rest)[1..] == rest;
    }
  }

  lemma {:induction false} PrefixOfConcat(e: seq<byte>, rest: seq<byte>)
    ensures HasPrefix(e + rest, e)
  {
    if e != [] {
      assert (e + rest)[1..] == e[1..] + rest;
      PrefixOfConcat(e[1..], rest);
    }
  }

  lemma OtherSecondLetter(t: seq<byte>, e: seq<byte>)
    requires |t| >= 2 && |e| >= 2 && Lower(t[1]) != Lower(e[1])
    ensures !HasPrefix(t, e)
  {
  }

  lemma PieceOfEntity(c: byte, rest: seq<byte>)
    requires Special(c)
    ensures Piece(Entity(c) + rest) == ([c], |Entity(c)|)
  {
    var t := Entity(c) + rest;
    PrefixOfConcat(Entity(c), rest);
    assert t[1] == Entity(c)[1];
    if c != LESS { OtherSecondLetter(t, LT_ENTITY); }
    if c != GREATER { OtherSecondLetter(t, GT_ENTITY); }
    if c != AMP { OtherSecondLetter(t, AMP_ENTITY); }
  }

  lemma PieceOfPlain(c: byte, rest: seq<byte>)
    requires c != AMP
    ensures Piece([c] + rest) == ([c], 1)
  {
  }

  // ----- The entities, letter by letter

  predicate Spelt(t: seq<byte>, s: string) {
    t == Ascii(s)
  }

  lemma EntitiesAreSpelt()
    ensures Spelt(Entity(0x3C), "&lt;") && Spelt(Entity(0x3E), "&gt;")
    ensures Spelt(Entity(0x26), "&amp;") && Spelt(Entity(0x22), "&quot;")
    ensures forall c: byte :: Special(c) <==> c == 0x3C || c == 0x3E || c == 0x26 || c == 0x22
  {
  }

  /** The four named entities are read in any mixture of cases. */
  lemma NamedEntity(e: seq<byte>, rest: seq<byte>)
    requires 0 !in e
    ensures SameIgnoringCase(e, Ascii("&lt;")) ==> Unescaped(e + rest) == [0x3C] + Unescaped(rest)
    ensures SameIgnoringCase(e, Ascii("&gt;")) ==> Unescaped(e + rest) == [0x3E] + Unescaped(rest)
    ensures SameIgnoringCase(e, Ascii("&amp;")) ==> Unescaped(e + rest) == [0x26] + Unescaped(rest)
    ensures SameIgnoringCase(e, Ascii("&quot;")) ==> Unescaped(e + rest) == [0x22] + Unescaped(rest)
  {
    EntitiesAreSpelt();
    NamedPieces(e, 0x3C, rest);
    NamedPieces(e, 0x3E, rest);
    NamedPieces(e, 0x26, rest);
    NamedPieces(e, 0x22, rest);
  }

  lemma NamedPieces(e: seq<byte>, c: byte, rest: seq<byte>)
    requires Special(c)
    ensures SameIgnoringCase(e, Entity(c)) ==> Unescaped(e + rest) == [c] + Unescaped(rest)
  {
    if SameIgnoringCase(e, Entity(c)) {
      NamedPiece(e, c, rest);
    }
  }

  lemma NamedPiece(e: seq<byte>, c: byte, rest: seq<byte>)
    requires Special(c) && SameIgnoringCase(e, Entity(c))
    ensures Unescaped(e + rest) == [c] + Unescaped(rest)
  {
    var t := e + rest;
    SamePrefix(e, Entity(c), rest);
    assert t[1] == e[1];
    if c != LESS { OtherSecondLetter(t, LT_ENTITY); }
    if c != GREATER { OtherSecondLetter(t, GT_ENTITY); }
    if c != AMP { OtherSecondLetter(t, AMP_ENTITY); }
    assert Piece(t) == ([c], |e|) && t[|e|..] == rest;
  }

  lemma {:induction false} SamePrefix(e: seq<byte>, w: seq<byte>, rest: seq<byte>)
    requires SameIgnoringCase(e, w)
    ensures HasPrefix(e + rest, w)
  {
    if w != [] {
      assert (e + rest)[1..] == e[1..] + rest;
      SamePrefix(e[1..], w[1..], rest);
    }
  }

  /** A number in decimal digits, without leading zeros. */
  function Decimal(n: nat): (d: seq<byte>)
    ensures d != [] && forall k :: 0 <= k < |d| ==> 0x30 <= d[k] <= 0x39
  {
    if n < 10 then [0x30 + n] else Decimal(n / 10) + [0x30 + n % 10]
  }

  lemma {:induction false} NumberOfDecimal(n: nat)
    ensures Number(Decimal(n)) == n
  {
    var d := Decimal(n);
    if n < 10 {
      assert d[..0] == [];
    } else {
      NumberOfDecimal(n / 10);
      assert d[..|d| - 1] == Decimal(n / 10);
    }
  }

  lemma {:induction false} DigitsOfDigits(d: seq<byte>, rest: seq<byte>)
    requires (forall k :: 0 <= k < |d| ==> 0x30 <= d[k] <= 0x39) && rest != [] && !(0x30 <= rest[0] <= 0x39)
    ensures Digits(d + rest) == |d|
  {
    if d == [] {
      assert d + rest == rest;
    } else {
      assert (d + rest)[1..] == d[1..] + rest;
      DigitsOfDigits(d[1..], rest);
    }
  }

  lemma DecimalIsRead(n: nat, rest: seq<byte>)
    requires n <= ULONG_MAX && rest != [] && !(0x30 <= rest[0] <= 0x39)
    ensures StrToUL(Decimal(n) + rest) == (n, |Decimal(n)|)
  {
    var d := Decimal(n);
    var t := d + rest;
    assert t[0] == d[0] && t[0..] == t && t[0..0 + |d|] == d;
    DigitsOfDigits(d, rest);
    NumberOfDecimal(n);
  }

  lemma NumericIsRead(n: nat, t: seq<byte>, rest: seq<byte>)
    requires 0 < n < 0x1_0000_0000 && t == [0x26, 0x23] + (Decimal(n) + ([0x3B] + rest))
    ensures NumericAt(t) == Some((n, |Decimal(n)| + 3)) && t[|Decimal(n)| + 3..] == rest
  {
    NumberBehindSign(n, t, [0x3B] + rest);
    NumericByParts(t, n, |Decimal(n)|);
    BehindSemicolon(Decimal(n), rest, t);
  }

  lemma NumericByParts(t: seq<byte>, v: nat, e: nat)
    requires |t| > 2 + e && t[0] == 0x26 && t[1] == 0x23 && t[2 + e] == 0x3B
    requires StrToUL(t[2..]) == (v, e) && e > 0 && 0 < v < 0x1_0000_0000
    ensures NumericAt(t) == Some((v, e + 3))
  {
  }

  lemma BehindSemicolon(d: seq<byte>, rest: seq<byte>, t: seq<byte>)
    requires t == [0x26, 0x23] + (d + ([0x3B] + rest))
    ensures |t| >= |d| + 3 && t[|d| + 3..] == rest
  {
    assert t == ([0x26, 0x23] + d + [0x3B]) + rest;
  }

  lemma NumberBehindSign(n: nat, t: seq<byte>, rest: seq<byte>)
    requires n <= ULONG_MAX && rest != [] && !(0x30 <= rest[0] <= 0x39) && t == [0x26, 0x23] + (Decimal(n) + rest)
    ensures StrToUL(t[2..]) == (n, |Decimal(n)|) && 2 + |Decimal(n)| < |t| && t[2 + |Decimal(n)|] == rest[0]
  {
    DecimalIsRead(n, rest);
    assert t[2..] == Decimal(n) + rest;
  }

  lemma NothingNamed(t: seq<byte>)
    requires |t| == 1
    ensures EntityAt(t) == None
  {
    if HasPrefix(t, LT_ENTITY) { PrefixIsShorter(t, LT_ENTITY); }
    if HasPrefix(t, GT_ENTITY) { PrefixIsShorter(t, GT_ENTITY); }
    if HasPrefix(t, AMP_ENTITY) { PrefixIsShorter(t, AMP_ENTITY); }
    if HasPrefix(t, QUOT_ENTITY) { PrefixIsShorter(t, QUOT_ENTITY); }
  }

  lemma NotNamed(t: seq<byte>)
    requires |t| >= 2
    requires Lower(t[1]) != 0x6C && Lower(t[1]) != 0x67 && Lower(t[1]) != 0x61 && Lower(t[1]) != 0x71
    ensures EntityAt(t) == None
  {
    OtherSecondLetter(t, LT_ENTITY);
    OtherSecondLetter(t, GT_ENTITY);
    OtherSecondLetter(t, AMP_ENTITY);
    OtherSecondLetter(t, QUOT_ENTITY);
  }

  /** A numeric entity stands for the character of that number in UTF-8. */
  lemma NumericEntity(n: nat, rest: seq<byte>)
    requires 0 < n < 0x1_0000_0000
    ensures Unescaped([0x26, 0x23] + (Decimal(n) + ([0x3B] + rest))) == Utf8(n) + Unescaped(rest)
  {
    var t := [0x26, 0x23] + (Decimal(n) + ([0x3B] + rest));
    NotNamed(t);
    NumericIsRead(n, t, rest);
    assert Piece(t) == (Utf8(n), |Decimal(n)| + 3);
  }

  /** An ampersand that starts no entity stands for itself: in front of a character that no entity goes on
      with, in front of a number that is 0, and in front of one that no semicolon follows. */
  lemma LoneAmpersand(t: seq<byte>)
    requires t != [] && t[0] == 0x26
    requires |t| > 1 ==> forall k :: 0 <= k < 9 ==> t[1] != Ascii("lgaq#LGAQ")[k]
    ensures Unescaped(t) == [0x26] + Unescaped(t[1..])
  {
    if |t| > 1 {
      NoEntityGoesOn(t[1]);
      NotNamed(t);
    } else {
      NothingNamed(t);
    }
    PlainAmpersand(t);
  }

  lemma NoEntityGoesOn(c: byte)
    requires forall k :: 0 <= k < 9 ==> c != Ascii("lgaq#LGAQ")[k]
    ensures c != 0x23 && Lower(c) != 0x6C && Lower(c) != 0x67 && Lower(c) != 0x61 && Lower(c) != 0x71
  {
    var s := Ascii("lgaq#LGAQ");
    assert s[0] == 0x6C && s[1] == 0x67 && s[2] == 0x61 && s[3] == 0x71 && s[4] == 0x23;
    assert s[5] == 0x4C && s[6] == 0x47 && s[7] == 0x41 && s[8] == 0x51;
  }

  lemma NumberWithoutSemicolon(n: nat, rest: seq<byte>, t: seq<byte>)
    requires n <= ULONG_MAX && rest != [] && !(0x30 <= rest[0] <= 0x39) && (n % 0x1_0000_0000 == 0 || rest[0] != 0x3B)
    requires t == [0x26, 0x23] + (Decimal(n) + rest)
    ensures Unescaped(t) == [0x26] + Unescaped(t[1..])
  {
    NotNamed(t);
    NotNumeric(n, t, rest);
    PlainAmpersand(t);
  }

  lemma PlainAmpersand(t: seq<byte>)
    requires t != [] && t[0] == 0x26 && EntityAt(t) == None && NumericAt(t) == None
    ensures Unescaped(t) == [0x26] + Unescaped(t[1..])
  {
  }

  lemma NotNumeric(n: nat, t: seq<byte>, rest: seq<byte>)
    requires n <= ULONG_MAX && rest != [] && !(0x30 <= rest[0] <= 0x39) && (n % 0x1_0000_0000 == 0 || rest[0] != 0x3B)
    requires t == [0x26, 0x23] + (Decimal(n) + rest)
    ensures NumericAt(t) == None
  {
    NumberBehindSign(n, t, rest);
  }

  /** The character that UTF-8 (RFC 3629 section 3) reads from these bytes: the first one tells how many
      there are, and all others start with the bits 10. */
  function FromUtf8(u: seq<byte>): Option<nat> {
    if |u| == 1 && u[0] < 0x80 then Some(u[0])
    else if |u| == 2 && 0xC0 <= u[0] < 0xE0 && Follows(u[1]) then Some(Bits(u[0] - 0xC0, u[1] - 0x80))
    else if |u| == 3 && 0xE0 <= u[0] < 0xF0 && Follows(u[1]) && Follows(u[2]) then
      Some(Bits(Bits(u[0] - 0xE0, u[1] - 0x80), u[2] - 0x80))
    else if |u| == 4 && 0xF0 <= u[0] < 0xF8 && Follows(u[1]) && Follows(u[2]) && Follows(u[3]) then
      Some(Bits(Bits(Bits(u[0] - 0xF0, u[1] - 0x80), u[2] - 0x80), u[3] - 0x80))
    else None
  }

  predicate Follows(b: byte) {
    0x80 <= b < 0xC0
  }

  function Bits(high: nat, low: nat): nat {
    high * 0x40 + low
  }

  lemma SixBits(c: nat)
    ensures c == Bits(c / 0x40, c % 0x40)
  {
  }

  lemma TwelveBits(c: nat)
    ensures c / 0x1000 == c / 0x40 / 0x40 && c / 0x4_0000 == c / 0x40 / 0x40 / 0x40
  {
  }

  /** Every character comes back from its UTF-8. */
  lemma Utf8IsRead(c: nat)
    requires c < 0x20_0000
    ensures FromUtf8(Utf8(c)) == Some(c)
  {
    var b, d, f := c / 0x40, c / 0x40 / 0x40, c / 0x40 / 0x40 / 0x40;
    TwelveBits(c);
    SixBits(c);
    SixBits(b);
    SixBits(d);
    if c >= 0x1_0000 {
      FourBytes(f, d % 0x40, b % 0x40, c % 0x40);
    } else if c >= 0x800 {
      ThreeBytes(d, b % 0x40, c % 0x40);
    }
  }

  lemma ThreeBytes(a: nat, b: nat, c: nat)
    requires a < 0x10 && b < 0x40 && c < 0x40
    ensures FromUtf8([0xE0 + a, 0x80 + b, 0x80 + c]) == Some(Bits(Bits(a, b), c))
  {
    var u: seq<byte> := [0xE0 + a, 0x80 + b, 0x80 + c];
    assert |u| == 3 && u[0] - 0xE0 == a && u[1] - 0x80 == b && u[2] - 0x80 == c;
  }

  lemma FourBytes(a: nat, b: nat, c: nat, d: nat)
    requires a < 8 && b < 0x40 && c < 0x40 && d < 0x40
    ensures FromUtf8([0xF0 + a, 0x80 + b, 0x80 + c, 0x80 + d]) == Some(Bits(Bits(Bits(a, b), c), d))
  {
    FourAreRead(0xF0 + a, 0x80 + b, 0x80 + c, 0x80 + d);
  }

  lemma FourAreRead(p: byte, q: byte, r: byte, t: byte)
    requires 0xF0 <= p < 0xF8 && Follows(q) && Follows(r) && Follows(t)
    ensures FromUtf8([p, q, r, t]) == Some(Bits(Bits(Bits(p - 0xF0, q - 0x80), r - 0x80), t - 0x80))
  {
  }

  // ----- The rewriting in place

  /** Before the terminating NUL has been passed, what is written and what is still to be unescaped
      make up the goal; afterwards the goal stands there, closed by a NUL. */
  predicate Rewritten(mem: seq<byte>, s: nat, d: nat, goal: seq<byte>, past: bool)
    requires s <= d <= |mem|
  {
    if past then |goal| < s && mem[..|goal|] == goal && mem[|goal|] == 0 && 0 !in goal
    else goal == Promised(mem, s, d) && 0 !in mem[..s]
  }

  function Promised(mem: seq<byte>, s: nat, d: nat): seq<byte>
    requires s <= d <= |mem|
  {
    mem[..s] + Unescaped(CString(mem[d..]))
  }

  lemma RewriteStep(mem: seq<byte>, mem': seq<byte>, s: nat, s': nat, d: nat, d': nat, p: seq<byte>, n: nat,
                    goal: seq<byte>)
    requires s <= d <= d' <= |mem| && s' == s + |p| && d' == d + n && Stands(CString(mem[d..]), p, n)
    requires Rewritten(mem, s, d, goal, false)
    requires mem' == mem[..s] + p + mem[s'..]
    ensures Rewritten(mem', s', d', goal, false)
  {
    var rest := Unescaped(CString(mem[d'..]));
    CStringDrop(mem[d..], n);
    assert mem[d..][n..] == mem[d'..];
    FrontReplaced(mem, mem', s, s', d', p);
    Assoc(mem[..s], p, rest);
    assert Promised(mem', s', d') == mem[..s] + p + rest;
  }

  lemma FrontReplaced(mem: seq<byte>, mem': seq<byte>, s: nat, s': nat, d': nat, p: seq<byte>)
    requires s' == s + |p| && s' <= d' <= |mem| && mem' == mem[..s] + p + mem[s'..]
    ensures |mem'| == |mem| && mem'[d'..] == mem[d'..] && mem'[..s'] == mem[..s] + p
  {
  }

  lemma RewriteEnd(mem: seq<byte>, mem': seq<byte>, s: nat, s': nat, d: nat, d': nat, goal: seq<byte>)
    requires s <= d < |mem| && mem[d] == 0 && Rewritten(mem, s, d, goal, false)
    requires s' == s + 1 && d' == d + 1 && mem' == mem[..s] + [0] + mem[s'..]
    ensures Rewritten(mem', s', d', goal, true)
  {
  }

  lemma RewriteBehind(mem: seq<byte>, mem': seq<byte>, s: nat, s': nat, d: nat, d': nat, p: seq<byte>, goal: seq<byte>)
    requires s <= d <= |mem| && Rewritten(mem, s, d, goal, true)
    requires s' == s + |p| <= d' <= |mem| && mem' == mem[..s] + p + mem[s'..]
    ensures Rewritten(mem', s', d', goal, true)
  {
  }

  method PieceAt(t: seq<byte>) returns (p: seq<byte>, n: nat, named: bool)
    requires t != [] && 0 !in t
    ensures Stands(t, p, n)
  {
    var e := EntityAt(t);
    named := e.Some?;
    p, n := Piece(t).0, Piece(t).1;
  }

  /** One turn of the loop: the piece at d goes to s. A NUL at d, which only the jump behind a named
      entity leads to, is copied like any other character. */
  method Turn(a: array<byte>, s: nat, d: nat, ghost mem: seq<byte>) returns (p: seq<byte>, n: nat, named: bool)
    requires s <= d < a.Length - 1 && a[a.Length - 2] == 0 && mem == a[..]
    modifies a
    ensures s + |p| <= d + n < a.Length && n > 0
    ensures a[..] == mem[..s] + p + mem[s + |p|..]
    ensures if mem[d] == 0 then p == [0] && n == 1 && !named
            else Stands(CString(mem[d..]), p, n) && d + n <= a.Length - 2
  {
    if a[d] == 0 {
      p, n, named := [0], 1, false;
    } else {
      TextEndsInside(mem, d);
      assert a[d..] == mem[d..];
      p, n, named := PieceAt(CString(a[d..]));
    }
    StoreAt(a, s, p);
  }

  lemma TurnKeeps(mem: seq<byte>, mem': seq<byte>, s: nat, s': nat, d: nat, d': nat, p: seq<byte>, n: nat,
                  goal: seq<byte>, past: bool)
    returns (past': bool)
    requires s <= d < d' <= |mem| && s' == s + |p| <= d' == d + n && Rewritten(mem, s, d, goal, past)
    requires mem' == mem[..s] + p + mem[s'..]
    requires if mem[d] == 0 then p == [0] && n == 1 else Stands(CString(mem[d..]), p, n)
    ensures past' == (past || mem[d] == 0) && Rewritten(mem', s', d', goal, past')
  {
    past' := true;
    if past {
      RewriteBehind(mem, mem', s, s', d, d', p, goal);
    } else if mem[d] != 0 {
      past' := false;
      RewriteStep(mem, mem', s, s', d, d', p, n, goal);
    } else {
      RewriteEnd(mem, mem', s, s', d, d', goal);
    }
  }

  method TurnKept(a: array<byte>, s: nat, d: nat, ghost mem: seq<byte>, ghost goal: seq<byte>, ghost past: bool)
    returns (s': nat, d': nat, jumped: bool, ghost mem': seq<byte>, ghost past': bool)
    requires s <= d < a.Length - 1 && mem == a[..] && Closed(mem, d) && Rewritten(mem, s, d, goal, past)
    modifies a
    ensures s' <= d' && d < d' < a.Length && (jumped ==> d' < a.Length - 1)
    ensures mem' == a[..] && Closed(mem', d') && Rewritten(mem', s', d', goal, past')
  {
    var p, n;
    p, n, jumped := Turn(a, s, d, mem);
    s', d', mem' := s + |p|, d + n, a[..];
    past' := TurnDone(mem, mem', s, s', d, d', p, n, goal, past);
  }

  /** What is still to be read at d ends in two NULs, or in the last of them. */
  predicate Closed(mem: seq<byte>, d: nat) {
    |mem| >= 2 && mem[|mem| - 1] == 0 && (d < |mem| - 1 ==> mem[|mem| - 2] == 0)
  }

  lemma TurnDone(mem: seq<byte>, mem': seq<byte>, s: nat, s': nat, d: nat, d': nat, p: seq<byte>, n: nat,
                 goal: seq<byte>, past: bool)
    returns (past': bool)
    requires s <= d < d' < |mem| && d < |mem| - 1 && s' == s + |p| <= d' == d + n
    requires Closed(mem, d) && Rewritten(mem, s, d, goal, past) && mem' == mem[..s] + p + mem[s + |p|..]
    requires if mem[d] == 0 then p == [0] && n == 1 else Stands(CString(mem[d..]), p, n)
    ensures |mem'| == |mem| && Rewritten(mem', s', d', goal, past') && Closed(mem', d')
  {
    past' := TurnKeeps(mem, mem', s, s', d, d', p, n, goal, past);
    StaysClosed(mem, mem', s, d, d', p);
  }

  lemma StaysClosed(mem: seq<byte>, mem': seq<byte>, s: nat, d: nat, d': nat, p: seq<byte>)
    requires s + |p| <= d' < |mem| && d < d' && Closed(mem, d) && mem' == mem[..s] + p + mem[s + |p|..]
    ensures |mem'| == |mem| && Closed(mem', d')
  {
  }

  lemma TextEndsInside(mem: seq<byte>, d: nat)
    requires d < |mem| - 1 && mem[|mem| - 2] == 0 && mem[d] != 0
    ensures CString(mem[d..]) != [] && d + |CString(mem[d..])| <= |mem| - 2
  {
  }

  /** The loop of HTMLUnEscape; s is where the rewritten text ends. */
  method RewriteAll(a: array<byte>) returns (s: nat, ghost d: nat, ghost past: bool)
    requires a.Length >= 2 && a[a.Length - 1] == 0 && a[a.Length - 2] == 0
    modifies a
    ensures s <= d < a.Length && a[d] == 0
    ensures Rewritten(a[..], s, d, Unescaped(old(CString(a[..]))), past)
  {
    var at, jumped := 0, false;
    ghost var mem, goal := a[..], Unescaped(CString(a[..]));
    s, past := 0, false;
    assert mem[0..] == mem && mem[..0] == [];
    EmptyFront(goal);
    while a[at] != 0 || jumped
      invariant 0 <= s <= at < a.Length && (jumped ==> at < a.Length - 1)
      invariant mem == a[..] && Closed(mem, at) && Rewritten(mem, s, at, goal, past)
      decreases a.Length - at
    {
      s, at, jumped, mem, past := TurnKept(a, s, at, mem, goal, past);
    }
    d := at;
  }

  /** Behind a named entity the source jumps over the test for the end, so that it can run past the
      NUL into whatever follows; a second NUL stops it. The string is right all the same. */
  method HTMLUnEscape(a: array<byte>)
    requires a.Length >= 2 && a[a.Length - 1] == 0 && a[a.Length - 2] == 0
    modifies a
    ensures CString(a[..]) == Unescaped(old(CString(a[..])))
  {
    ghost var goal := Unescaped(CString(a[..]));
    ghost var d, past;
    var s;
    s, d, past := RewriteAll(a);
    FinishString(a[..], s, d, goal, past);
    ghost var mem := a[..];
    a[s] := 0;
    assert a[..] == mem[s := 0];
  }

  lemma FinishString(mem: seq<byte>, s: nat, d: nat, goal: seq<byte>, past: bool)
    requires s <= d < |mem| && mem[d] == 0 && Rewritten(mem, s, d, goal, past)
    ensures CString(mem[s := 0]) == goal
  {
    var end := mem[s := 0];
    if !past {
      assert CString(mem[d..]) == [];
      assert mem[..s] + [] == mem[..s];
      assert end[..s] == mem[..s];
    } else {
      assert end[..|goal|] == mem[..|goal|];
    }
    CStringOf(goal, end[|goal|..]);
    assert end == goal + end[|goal|..];
  }
}
