/** The text of a multiple-response field: codes separated by commas, then blanks. */
module MultTexts {
  import opened Bytes

  const COMMA: byte := ',' as int
  const BLANK: byte := ' ' as int

  /** isspace */
  predicate IsSpace(b: byte) {
    b == BLANK || 9 <= b <= 13
  }

  /** What ends a token for strmatch. */
  predicate IsEnd(b: byte) {
    b == 0 || b == COMMA || b == BLANK
  }

  predicate Inside(b: byte) {
    b != 0 && !IsSpace(b)
  }

  /** Nothing but codes and commas. */
  predicate Text(p: seq<byte>) {
    forall k | 0 <= k < |p| :: Inside(p[k])
  }

  predicate Code(code: seq<byte>) {
    code != [] && Text(code) && COMMA !in code
  }

  // ----- The codes of a text

  function Token(p: seq<byte>): (t: seq<byte>)
    ensures |t| <= |p| && t == p[..|t|]
    ensures |t| < |p| ==> p[|t|] == COMMA
    ensures COMMA !in t
  {
    if p == [] || p[0] == COMMA then [] else [p[0]] + Token(p[1..])
  }

  function Codes(p: seq<byte>): seq<seq<byte>>
    decreases |p|
  {
    if p == [] then []
    else if p[0] == COMMA then Codes(p[1..])
    else [Token(p)] + Codes(p[|Token(p)|..])
  }

  predicate Distinct(codes: seq<seq<byte>>) {
    codes == [] || (codes[0] !in codes[1..] && Distinct(codes[1..]))
  }

  function Without(codes: seq<seq<byte>>, code: seq<byte>): seq<seq<byte>> {
    if codes == [] then []
    else if codes[0] == code then codes[1..]
    else [codes[0]] + Without(codes[1..], code)
  }

  function AsSet(codes: seq<seq<byte>>): set<seq<byte>> {
    set c | c in codes
  }

  lemma {:induction false} TokenOfConcat(t: seq<byte>, rest: seq<byte>)
    requires COMMA !in t && (rest == [] || rest[0] == COMMA)
    ensures Token(t + rest) == t
  {
    if t == [] {
      assert t + rest == rest;
    } else {
      assert (t + rest)[1..] == t[1..] + rest;
      TokenOfConcat(t[1..], rest);
    }
  }

  /** A token in front of the end or of a comma is one more code. */
  lemma CodesOfToken(t: seq<byte>, rest: seq<byte>)
    requires t != [] && COMMA !in t && (rest == [] || rest[0] == COMMA)
    ensures Codes(t + rest) == [t] + Codes(rest)
  {
    TokenOfConcat(t, rest);
    assert (t + rest)[0] == t[0];
    assert (t + rest)[|t|..] == rest;
  }

  /** Splitting a text behind a comma splits its codes. */
  lemma {:induction false} CodesOfConcat(a: seq<byte>, b: seq<byte>)
    requires a == [] || a[|a| - 1] == COMMA
    ensures Codes(a + b) == Codes(a) + Codes(b)
    decreases |a|
  {
    if a == [] {
      assert a + b == b;
    } else if a[0] == COMMA {
      assert (a + b)[1..] == a[1..] + b;
      CodesOfConcat(a[1..], b);
    } else {
      var t := Token(a);
      var rest := a[|t|..];
      assert t != a by { assert COMMA in a; }
      CodesOfConcat(rest, b);
      CodesOfToken(t, rest + b);
      assert a + b == t + (rest + b);
    }
  }

  lemma {:induction false} CodesOfTrailingComma(p: seq<byte>)
    ensures Codes(p + [COMMA]) == Codes(p)
    decreases |p|
  {
    if p == [] {
      assert p + [COMMA] == [COMMA];
      assert [COMMA][1..] == [];
    } else if p[0] == COMMA {
      assert (p + [COMMA])[1..] == p[1..] + [COMMA];
      CodesOfTrailingComma(p[1..]);
    } else {
      var t := Token(p);
      var rest := p[|t|..];
      CodesOfTrailingComma(rest);
      CodesOfToken(t, rest + [COMMA]);
      assert p + [COMMA] == t + (rest + [COMMA]);
    }
  }

  // ----- Adding a code

  /** The text SetMultResp leaves in a field of n bytes that does not have the code yet. The comma
      is written before the room for the code is checked. */
  function Added(p: seq<byte>, code: seq<byte>, n: nat): seq<byte> {
    if |p| >= n then p
    else if |Opened(p)| + |code| > n then Opened(p)
    else Opened(p) + code
  }

  function Opened(p: seq<byte>): seq<byte> {
    if p == [] then [] else p + [COMMA]
  }

  lemma CodesOfOpened(p: seq<byte>)
    ensures Codes(Opened(p)) == Codes(p)
  {
    CodesOfTrailingComma(p);
  }

  predicate Fits(p: seq<byte>, code: seq<byte>, n: nat) {
    |p| + (if p == [] then 0 else 1) + |code| <= n
  }

  lemma AddedKeepsText(p: seq<byte>, code: seq<byte>, n: nat)
    requires Text(p) && Code(code) && |p| <= n
    ensures Text(Added(p, code, n)) && |Added(p, code, n)| <= n
  {
  }

  lemma CodesAfterAdding(p: seq<byte>, code: seq<byte>, n: nat)
    requires Code(code) && |p| <= n
    ensures Codes(Added(p, code, n)) == if Fits(p, code, n) then Codes(p) + [code] else Codes(p)
  {
    CodesOfOpened(p);
    CodesBehindComma(Opened(p), code);
    AddedIfItFits(p, code, n);
  }

  lemma AddedIfItFits(p: seq<byte>, code: seq<byte>, n: nat)
    requires code != []
    ensures Fits(p, code, n) ==> Added(p, code, n) == Opened(p) + code
    ensures !Fits(p, code, n) ==> Added(p, code, n) == p || Added(p, code, n) == Opened(p)
  {
  }

  lemma CodesBehindComma(q: seq<byte>, code: seq<byte>)
    requires Code(code) && (q == [] || q[|q| - 1] == COMMA)
    ensures Codes(q + code) == Codes(q) + [code]
  {
    CodesOfConcat(q, code);
    CodesOfToken(code, []);
    assert code + [] == code;
  }

  // ----- Removing a code

  /** The text ClearMultResp leaves. It takes the comma behind the code away too; stuck says that
      the field is full and the byte behind it is a comma, which makes it give up on the last code. */
  function Cleared(p: seq<byte>, code: seq<byte>, stuck: bool): (r: seq<byte>)
    ensures |r| <= |p|
    decreases |p|
  {
    if p == [] then []
    else if p[0] == COMMA then [COMMA] + Cleared(p[1..], code, stuck)
    else
      var t := Token(p);
      var rest := p[|t|..];
      if t != code then t + Cleared(rest, code, stuck)
      else if rest != [] then rest[1..]
      else if stuck then p else []
  }

  lemma {:induction false} ClearedKeepsText(p: seq<byte>, code: seq<byte>, stuck: bool)
    requires Text(p)
    ensures Text(Cleared(p, code, stuck))
    decreases |p|
  {
    if p != [] {
      var t := Token(p);
      if p[0] == COMMA {
        ClearedKeepsText(p[1..], code, stuck);
      } else {
        ClearedKeepsText(p[|t|..], code, stuck);
      }
    }
  }

  lemma ClearedStartsWithComma(p: seq<byte>, code: seq<byte>, stuck: bool)
    requires p == [] || p[0] == COMMA
    ensures Cleared(p, code, stuck) == [] || Cleared(p, code, stuck)[0] == COMMA
  {
  }

  /** Clear removes one occurrence of the code and nothing else. */
  lemma {:induction false} CodesAfterClearing(p: seq<byte>, code: seq<byte>)
    ensures Codes(Cleared(p, code, false)) == Without(Codes(p), code)
    decreases |p|
  {
    if p == [] {
    } else if p[0] == COMMA {
      CodesAfterClearing(p[1..], code);
      CodesOfConcat([COMMA], Cleared(p[1..], code, false));
      assert Codes([COMMA]) == [] by { assert [COMMA][1..] == []; }
    } else {
      var t := Token(p);
      var rest := p[|t|..];
      assert Codes(p) == [t] + Codes(rest);
      if t == code {
        assert ([t] + Codes(rest))[1..] == Codes(rest);
      } else {
        CodesAfterClearing(rest, code);
        ClearedStartsWithComma(rest, code, false);
        CodesOfToken(t, Cleared(rest, code, false));
        assert ([t] + Codes(rest))[1..] == Codes(rest);
      }
    }
  }

  predicate EndsWithCode(p: seq<byte>, code: seq<byte>) {
    |code| <= |p| && p[|p| - |code|..] == code && (|code| < |p| ==> p[|p| - |code| - 1] == COMMA)
  }

  /** A stuck Clear leaves the whole field as it was when the code is the last one. */
  lemma {:induction false} StuckClear(p: seq<byte>, code: seq<byte>)
    requires Code(code) && Distinct(Codes(p))
    ensures Cleared(p, code, true) == if EndsWithCode(p, code) then p else Cleared(p, code, false)
    decreases |p|
  {
    if p == [] {
    } else if p[0] == COMMA {
      StuckClear(p[1..], code);
      EndsBehindComma(p, 1, code);
    } else {
      var t := Token(p);
      var rest := p[|t|..];
      assert Codes(p) == [t] + Codes(rest);
      assert Codes(p)[1..] == Codes(rest);
      if rest == [] {
        TokenIsWhole(p, code);
      } else {
        StuckClear(rest, code);
        StuckBehindToken(p, code);
        StuckStep(p, t, rest, code);
      }
    }
  }

  lemma StuckStep(p: seq<byte>, t: seq<byte>, rest: seq<byte>, code: seq<byte>)
    requires p != [] && p[0] != COMMA && t == Token(p) && rest == p[|t|..] && rest != []
    requires Cleared(rest, code, true) == if EndsWithCode(rest, code) then rest else Cleared(rest, code, false)
    requires EndsWithCode(p, code) <==> EndsWithCode(rest, code)
    requires EndsWithCode(p, code) ==> t != code
    ensures Cleared(p, code, true) == if EndsWithCode(p, code) then p else Cleared(p, code, false)
  {
  }

  lemma StuckBehindToken(p: seq<byte>, code: seq<byte>)
    requires Code(code) && p != [] && p[0] != COMMA && |Token(p)| < |p|
    ensures EndsWithCode(p, code) <==> EndsWithCode(p[|Token(p)|..], code)
    ensures EndsWithCode(p, code) ==> code in Codes(p[|Token(p)|..])
  {
    var rest := p[|Token(p)|..];
    EndsBehindComma(p, |Token(p)| + 1, code);
    EndsBehindComma(rest, 1, code);
    assert rest[1..] == p[|Token(p)| + 1..];
    if EndsWithCode(rest, code) {
      LastIsListed(rest, code);
    }
  }

  lemma TokenIsWhole(p: seq<byte>, code: seq<byte>)
    requires Code(code) && p != [] && Token(p) == p
    ensures EndsWithCode(p, code) <==> p == code
  {
  }

  lemma EndsBehindComma(p: seq<byte>, k: nat, code: seq<byte>)
    requires Code(code) && 0 < k <= |p| && p[k - 1] == COMMA
    ensures EndsWithCode(p, code) <==> EndsWithCode(p[k..], code)
  {
  }

  lemma {:induction false} LastIsListed(p: seq<byte>, code: seq<byte>)
    requires Code(code) && EndsWithCode(p, code)
    ensures code in Codes(p)
  {
    var front := p[..|p| - |code|];
    assert p == front + code;
    CodesBehindComma(front, code);
  }

  // ----- The codes as a set

  lemma {:induction false} RemoveFromDistinct(codes: seq<seq<byte>>, code: seq<byte>)
    requires Distinct(codes)
    ensures Distinct(Without(codes, code))
    ensures AsSet(Without(codes, code)) == AsSet(codes) - {code}
  {
    if codes != [] {
      var rest := codes[1..];
      RemoveFromDistinct(rest, code);
      assert codes == [codes[0]] + rest;
      assert AsSet(codes) == {codes[0]} + AsSet(rest);
      if codes[0] == code {
        assert code !in AsSet(rest);
      } else {
        var w := Without(rest, code);
        assert AsSet([codes[0]] + w) == {codes[0]} + AsSet(w);
        assert codes[0] !in AsSet(w);
        assert ([codes[0]] + w)[1..] == w;
      }
    }
  }

  lemma {:induction false} AddToDistinct(codes: seq<seq<byte>>, code: seq<byte>)
    requires Distinct(codes) && code !in codes
    ensures Distinct(codes + [code]) && AsSet(codes + [code]) == AsSet(codes) + {code}
  {
    if codes != [] {
      AddToDistinct(codes[1..], code);
      assert (codes + [code])[1..] == codes[1..] + [code];
    }
  }
}
