/** HasMultResp, SetMultResp, ClearMultResp and ToggleMultResp of sy_form.cpp, editing a field in
    the middle of a buffer. */
module MultResps {
  import opened Bytes
  import opened Streams
  import opened MultTexts

  // ----- The field in memory

  /** Memory whose first n bytes are the field with text p; it goes on behind the field, and a NUL
      closes it somewhere. */
  predicate Field(mem: seq<byte>, n: nat, p: seq<byte>) {
    && n < |mem| && mem[|mem| - 1] == 0
    && |p| <= n && Text(p) && mem[..n] == p + Repeat(BLANK, n - |p|)
  }

  lemma FieldAt(mem: seq<byte>, n: nat, p: seq<byte>, k: nat)
    requires Field(mem, n, p) && k < n
    ensures mem[k] == if k < |p| then p[k] else BLANK
  {
  }

  /** The length a caller means: 0 asks for strlen. */
  function Extent(mem: seq<byte>, length: nat): nat {
    if length == 0 then |CString(mem)| else length
  }

  /** What strmatch finds out: the code stands at i, and what follows ends it unless the code is
      as long as the search was allowed to be. */
  predicate Matches(mem: seq<byte>, i: nat, code: seq<byte>, len: nat) {
    && |code| <= len && i + |code| <= |mem| && mem[i..i + |code|] == code
    && (|code| == len || (i + |code| < |mem| && IsEnd(mem[i + |code|])))
  }

  method StrMatch(c: array<byte>, i: nat, code: seq<byte>, len: nat) returns (r: bool)
    requires Code(code) && i < c.Length && c[c.Length - 1] == 0
    ensures r <==> Matches(c[..], i, code, len)
  {
    var k := 0;
    while k < len
      invariant 0 <= k <= |code| && k <= len && i + k < c.Length
      invariant c[i..i + k] == code[..k]
      invariant k == |code| ==> k < len && !IsEnd(c[i + k])
    {
      if k == |code| || c[i + k] != code[k] {
        assert k < |code| ==> c[..][i..][k] != code[k];
        return false;
      }
      assert c[i..i + k + 1] == c[i..i + k] + [c[i + k]];
      k := k + 1;
      if k == |code| && (k == len || IsEnd(c[i + k])) { return true; }
    }
    return false;
  }

  // ----- What Has answers

  /** The search of HasMultResp from offset i on: every token is offered to strmatch with the
      length of the whole field. */
  predicate Found(mem: seq<byte>, n: nat, p: seq<byte>, i: nat, code: seq<byte>)
    decreases |p| - i
  {
    i < |p| &&
    (if p[i] == COMMA then Found(mem, n, p, i + 1, code)
     else Matches(mem, i, code, n) || Found(mem, n, p, i + |Token(p[i..])|, code))
  }

  /** The byte behind the field cannot be mistaken for a part of its last code. */
  predicate Terminated(mem: seq<byte>, n: nat, p: seq<byte>)
    requires Field(mem, n, p)
  {
    |p| < n || IsEnd(mem[n]) || COMMA !in p || p[|p| - 1] == COMMA
  }

  lemma TokenInMemory(mem: seq<byte>, n: nat, p: seq<byte>, i: nat)
    requires Field(mem, n, p) && i < |p|
    ensures mem[i..i + |Token(p[i..])|] == Token(p[i..])
  {
    var j := i + |Token(p[i..])|;
    assert mem[..n][i..j] == mem[i..j];
    assert (p + Repeat(BLANK, n - |p|))[i..j] == p[i..j] == p[i..][..j - i];
  }

  lemma MatchIsToken(mem: seq<byte>, n: nat, p: seq<byte>, i: nat, code: seq<byte>, len: nat)
    requires Field(mem, n, p) && Code(code) && i < |p| && p[i] != COMMA && len >= n - i
    requires var j := i + |Token(p[i..])|; j < n || IsEnd(mem[n]) || len == n - i
    ensures Matches(mem, i, code, len) <==> Token(p[i..]) == code
  {
    var t := Token(p[i..]);
    var j := i + |t|;
    TokenInMemory(mem, n, p, i);
    if j < n {
      FieldAt(mem, n, p, j);
      assert j < |p| ==> p[j] == p[i..][|t|];
    }
    if |code| < |t| {
      assert mem[i + |code|] == mem[i..j][|code|] == t[|code|];
      assert p[i + |code|] == t[|code|];
    } else if |code| > |t| && i + |code| <= |mem| {
      assert mem[i..i + |code|][|t|] == mem[j];
    }
  }

  /** In a field whose end is safe, Has finds exactly the codes of the text. */
  lemma {:induction false} FoundIfListed(mem: seq<byte>, n: nat, p: seq<byte>, i: nat, code: seq<byte>)
    requires Field(mem, n, p) && Terminated(mem, n, p) && Code(code) && i <= |p|
    requires 0 < i < |p| ==> COMMA in p
    ensures Found(mem, n, p, i, code) <==> code in Codes(p[i..])
    decreases |p| - i
  {
    if i < |p| {
      var t := Token(p[i..]);
      var j := i + |t|;
      if p[i] == COMMA {
        assert p[i..][1..] == p[i + 1..];
        FoundIfListed(mem, n, p, i + 1, code);
      } else {
        assert p[i..][|t|..] == p[j..];
        assert j < |p| ==> p[i..][|t|] == p[j];
        assert j == |p| ==> p[|p| - 1] == t[|t| - 1];
        FoundIfListed(mem, n, p, j, code);
        MatchIsToken(mem, n, p, i, code, n);
      }
    }
  }

  /** In a field whose end is not safe, the last code is there and Has does not find it. */
  lemma {:induction false} LastCodeIsMissed(mem: seq<byte>, n: nat, p: seq<byte>, i: nat) returns (code: seq<byte>)
    requires Field(mem, n, p) && !Terminated(mem, n, p) && i < |p| && Distinct(Codes(p[i..]))
    requires i > 0 || COMMA in p
    ensures Code(code) && code in Codes(p[i..]) && !Found(mem, n, p, i, code)
    decreases |p| - i
  {
    var t := Token(p[i..]);
    var j := i + |t|;
    if p[i] == COMMA {
      assert p[i..][1..] == p[i + 1..];
      code := LastCodeIsMissed(mem, n, p, i + 1);
    } else if j == |p| {
      code := t;
      assert p[i..] == t;
      assert p[0..] == p;
    } else {
      assert p[i..][|t|..] == p[j..];
      assert Codes(p[i..]) == [t] + Codes(p[j..]);
      assert Codes(p[i..])[1..] == Codes(p[j..]);
      assert p[i..][|t|] == p[j];
      code := LastCodeIsMissed(mem, n, p, j);
      MatchIsToken(mem, n, p, i, code, n);
    }
  }

  /** Of the codes in a field whose end is not safe, Has finds all but the last. */
  lemma {:induction false} FoundUnlessLast(mem: seq<byte>, n: nat, p: seq<byte>, i: nat, code: seq<byte>)
    requires Field(mem, n, p) && !Terminated(mem, n, p) && i < |p| && (i > 0 || COMMA in p)
    requires Code(code) && code in Codes(p[i..]) && Distinct(Codes(p[i..]))
    ensures Found(mem, n, p, i, code) <==> !EndsWithCode(p[i..], code)
    decreases |p| - i
  {
    var t := Token(p[i..]);
    var j := i + |t|;
    if p[i] == COMMA {
      assert p[i..][1..] == p[i + 1..];
      EndsBehindComma(p[i..], 1, code);
      FoundUnlessLast(mem, n, p, i + 1, code);
    } else if j == |p| {
      LastToken(mem, n, p, i, code);
    } else {
      assert p[i..][|t|..] == p[j..] && p[i..][|t|] == p[j];
      assert Codes(p[i..]) == [t] + Codes(p[j..]);
      assert Codes(p[i..])[1..] == Codes(p[j..]);
      StuckBehindToken(p[i..], code);
      MatchIsToken(mem, n, p, i, code, n);
      if t != code {
        FoundUnlessLast(mem, n, p, j, code);
      }
    }
  }

  lemma LastToken(mem: seq<byte>, n: nat, p: seq<byte>, i: nat, code: seq<byte>)
    requires Field(mem, n, p) && !Terminated(mem, n, p) && i < |p| && (i > 0 || COMMA in p)
    requires p[i] != COMMA && Token(p[i..]) == p[i..] && Code(code) && code in Codes(p[i..])
    ensures code == p[i..] && EndsWithCode(p[i..], code) && !Found(mem, n, p, i, code)
  {
    var t := p[i..];
    assert t[|t|..] == [] && Codes(t) == [t];
    assert i == 0 ==> t == p;
    assert !Matches(mem, i, code, n);
  }

  /** Has answers correctly for every code if and only if the end of the field is safe. */
  lemma HasIsRightWhenTerminated(mem: seq<byte>, n: nat, p: seq<byte>)
    requires Field(mem, n, p) && Distinct(Codes(p))
    ensures Terminated(mem, n, p) <==>
      forall code | Code(code) :: Found(mem, n, p, 0, code) <==> code in Codes(p)
  {
    assert p[0..] == p;
    if Terminated(mem, n, p) {
      forall code | Code(code)
        ensures Found(mem, n, p, 0, code) <==> code in Codes(p)
      {
        FoundIfListed(mem, n, p, 0, code);
      }
    } else {
      var code := LastCodeIsMissed(mem, n, p, 0);
      assert !(Found(mem, n, p, 0, code) <==> code in Codes(p));
    }
  }

  // ----- The implementation

  method StrLen(c: array<byte>) returns (n: nat)
    requires c.Length > 0 && c[c.Length - 1] == 0
    ensures n == |CString(c[..])|
  {
    n := 0;
    while c[n] != 0
      invariant 0 <= n < c.Length && 0 !in c[..n]
      decreases c.Length - n
    {
      n := n + 1;
    }
    CStringOf(c[..n], c[n..]);
    assert c[..n] + c[n..] == c[..];
  }

  method FieldLength(c: array<byte>, length: nat) returns (n: nat)
    requires c.Length > 0 && c[c.Length - 1] == 0
    ensures n == Extent(c[..], length)
  {
    n := length;
    if length == 0 { n := StrLen(c); }
  }

  lemma NoCommaInToken(p: seq<byte>, i: nat, k: nat)
    requires i <= k < |p| && k < i + |Token(p[i..])|
    ensures p[k] != COMMA
  {
  }

  /** Skips to the next comma of the field, or to its end. */
  method SkipToken(c: array<byte>, i: nat, n: nat, ghost p: seq<byte>) returns (j: nat)
    requires i < n && Field(c[..], n, p)
    ensures i <= j <= n
    ensures i >= |p| ==> j == n
    ensures i < |p| ==> j == if i + |Token(p[i..])| < |p| then i + |Token(p[i..])| else n
  {
    j := i;
    ghost var stop := if i < |p| then i + |Token(p[i..])| else n;
    assert i < |p| ==> p[i..stop] == Token(p[i..]);
    assert i < |p| && stop < |p| ==> p[stop] == p[i..][stop - i];
    while j < n && c[j] != COMMA
      invariant i <= j <= n
      invariant stop < |p| ==> j <= stop
    {
      FieldAt(c[..], n, p, j);
      j := j + 1;
    }
    if j < n {
      FieldAt(c[..], n, p, j);
      if i < |p| && j < stop { NoCommaInToken(p, i, j); }
    }
  }

  /** Skips the commas and blanks in front of the first token. */
  method SkipFront(c: array<byte>, n: nat, ghost p: seq<byte>, ghost code: seq<byte>) returns (i: nat)
    requires Field(c[..], n, p)
    ensures i <= n && Found(c[..], n, p, 0, code) == Found(c[..], n, p, i, code)
  {
    i := 0;
    while i < n && (c[i] == COMMA || c[i] == BLANK)
      invariant 0 <= i <= n
      invariant Found(c[..], n, p, 0, code) == Found(c[..], n, p, i, code)
    {
      FieldAt(c[..], n, p, i);
      i := i + 1;
    }
  }

  lemma BlankMatchesNothing(mem: seq<byte>, n: nat, p: seq<byte>, i: nat, code: seq<byte>)
    requires Field(mem, n, p) && Code(code) && |p| <= i < n
    ensures !Matches(mem, i, code, n)
  {
    FieldAt(mem, n, p, i);
    if i + |code| <= |mem| {
      assert mem[i..i + |code|][0] == mem[i];
    }
  }

  /** HasMultResp(c, code, length, 0) */
  method HasMultResp(c: array<byte>, code: seq<byte>, length: nat, ghost p: seq<byte>) returns (has: bool)
    requires c.Length > 0 && Field(c[..], Extent(c[..], length), p) && Code(code)
    ensures has <==> Found(c[..], Extent(c[..], length), p, 0, code)
  {
    var n := FieldLength(c, length);
    ghost var mem, goal := c[..], Found(c[..], n, p, 0, code);
    var i := SkipFront(c, n, p, code);
    while i < n
      invariant i <= n
      invariant goal == Found(mem, n, p, i, code)
    {
      FieldAt(mem, n, p, i);
      if c[i] == COMMA {
        i := i + 1;
      } else {
        var match_ := StrMatch(c, i, code, n);
        if i >= |p| { BlankMatchesNothing(mem, n, p, i, code); }
        if match_ { return true; }
        var j := SkipToken(c, i, n, p);
        TokenSkipped(mem, n, p, i, j, code);
        i := j;
      }
    }
    return false;
  }

  lemma TokenSkipped(mem: seq<byte>, n: nat, p: seq<byte>, i: nat, j: nat, code: seq<byte>)
    requires Field(mem, n, p) && i < n && mem[i] != COMMA && !Matches(mem, i, code, n)
    requires if i >= |p| then j == n else j == if i + |Token(p[i..])| < |p| then i + |Token(p[i..])| else n
    ensures Found(mem, n, p, i, code) == Found(mem, n, p, j, code)
  {
    FieldAt(mem, n, p, i);
  }

  lemma CodesFromToken(p: seq<byte>, i: nat, j: nat)
    requires i < |p| && p[i] != COMMA && j == i + |Token(p[i..])|
    ensures j <= |p| && Codes(p[i..]) == [Token(p[i..])] + Codes(p[j..])
  {
    assert p[i..][j - i..] == p[j..];
  }

  method TokenEnd(c: array<byte>, i: nat, n: nat, ghost p: seq<byte>) returns (j: nat)
    requires Field(c[..], n, p) && i < |p|
    ensures j == i + |Token(p[i..])|
  {
    j := i;
    ghost var stop := i + |Token(p[i..])|;
    assert stop < |p| ==> p[stop] == p[i..][stop - i];
    while j < n && c[j] != COMMA && c[j] != BLANK && c[j] != 0
      invariant i <= j <= stop
    {
      FieldAt(c[..], n, p, j);
      j := j + 1;
    }
    if j < n { FieldAt(c[..], n, p, j); }
    if j < stop { NoCommaInToken(p, i, j); }
  }

  /** HasMultResp(data, compare, datalength, tokensize) measures each token first, so that it never
      looks behind the field and is right in any memory. */
  method HasMultRespSized(c: array<byte>, code: seq<byte>, n: nat, ghost p: seq<byte>) returns (has: bool)
    requires n < c.Length && Field(c[..], n, p) && Code(code)
    ensures has <==> code in Codes(p)
  {
    var i := 0;
    ghost var mem, goal := c[..], code in Codes(p);
    assert p[0..] == p;
    while i < n
      invariant 0 <= i <= n
      invariant goal == (i < |p| && code in Codes(p[i..]))
    {
      FieldAt(mem, n, p, i);
      if c[i] == 0 { break; }
      if c[i] == COMMA || c[i] == BLANK {
        if i < |p| { assert p[i..][1..] == p[i + 1..]; }
        i := i + 1;
      } else {
        var j := TokenEnd(c, i, n, p);
        CodesFromToken(p, i, j);
        TokenInMemory(mem, n, p, i);
        assert c[i..j] == Token(p[i..]);
        if i + |code| == j && c[i..j] == code { return true; }
        i := j;
      }
    }
    return false;
  }

  /** Where SetMultResp stops looking: the first blank, or the byte behind the field. */
  method SkipText(c: array<byte>, n: nat, ghost p: seq<byte>) returns (k: nat)
    requires Field(c[..], n, p)
    ensures k == |p|
  {
    k := 0;
    while c[k] != 0 && !IsSpace(c[k]) && k < n
      invariant 0 <= k <= |p|
      decreases n - k
    {
      FieldAt(c[..], n, p, k);
      k := k + 1;
    }
    if k < n { FieldAt(c[..], n, p, k); }
  }

  /** The memory once the text of its field is q. */
  function Edited(mem: seq<byte>, n: nat, q: seq<byte>): seq<byte>
    requires |q| <= n <= |mem|
  {
    q + Repeat(BLANK, n - |q|) + mem[n..]
  }

  lemma EditedField(mem: seq<byte>, n: nat, q: seq<byte>)
    requires n < |mem| && mem[|mem| - 1] == 0 && |q| <= n && Text(q)
    ensures Field(Edited(mem, n, q), n, q) && |Edited(mem, n, q)| == |mem|
    ensures Edited(mem, n, q)[n] == mem[n]
  {
  }

  lemma Unedited(mem: seq<byte>, n: nat, p: seq<byte>)
    requires Field(mem, n, p)
    ensures Edited(mem, n, p) == mem
  {
  }

  /** Overwriting the blanks behind the text lengthens it. */
  lemma StoredBehind(mem: seq<byte>, n: nat, p: seq<byte>, src: seq<byte>)
    requires |p| + |src| <= n <= |mem| && mem == Edited(mem, n, p)
    ensures mem[..|p|] + src + mem[|p| + |src|..] == Edited(mem, n, p + src)
  {
  }

  method SetMultResp(c: array<byte>, code: seq<byte>, length: nat, ghost p: seq<byte>)
    requires c.Length > 0 && Field(c[..], Extent(c[..], length), p) && Code(code)
    modifies c
    ensures var n := Extent(old(c[..]), length);
      c[..] == if Found(old(c[..]), n, p, 0, code) then old(c[..])
               else Edited(old(c[..]), n, Added(p, code, n))
  {
    var n := FieldLength(c, length);
    Unedited(c[..], n, p);
    var has := HasMultResp(c, code, length, p);
    if has { return; }
    var hasany := !IsSpace(c[0]);
    var k := SkipText(c, n, p);
    if k == n { return; }
    FieldAt(c[..], n, p, 0);
    AppendCode(c, n, k, hasany, code, p);
  }

  method AppendCode(c: array<byte>, n: nat, k: nat, hasany: bool, code: seq<byte>, ghost p: seq<byte>)
    requires Field(c[..], n, p) && k == |p| < n && Code(code) && hasany == (p != [])
    modifies c
    ensures c[..] == Edited(old(c[..]), n, Added(p, code, n))
  {
    ghost var mem := c[..];
    var at := k;
    Unedited(mem, n, p);
    if hasany {
      StoredBehind(mem, n, p, [COMMA]);
      StoreAt(c, k, [COMMA]);
      at := k + 1;
    }
    if |code| > n - at { return; }
    CodeStored(mem, n, Opened(p), code);
    StoreAt(c, at, code);
  }

  lemma CodeStored(mem: seq<byte>, n: nat, q: seq<byte>, code: seq<byte>)
    requires |q| + |code| <= n <= |mem|
    ensures var e := Edited(mem, n, q);
      e[..|q|] + code + e[|q| + |code|..] == Edited(mem, n, q + code)
  {
  }

  method MemMoveDown(c: array<byte>, to: nat, from: nat, count: nat)
    requires to <= from && from + count <= c.Length
    modifies c
    ensures c[..] == old(c[..])[..to] + old(c[..])[from..from + count] + old(c[..])[to + count..]
  {
    ghost var was, src := c[..], c[from..from + count];
    for j := 0 to count
      invariant forall k | 0 <= k < c.Length :: c[k] == if to <= k < to + j then src[k - to] else was[k]
    {
      assert src[j] == was[from + j];
      c[to + j] := c[from + j];
    }
  }

  /** Moves the field behind a gap down over it and blanks the end. */
  method CloseGap(c: array<byte>, n: nat, i: nat, gap: nat, ghost p: seq<byte>)
    requires Field(c[..], n, p) && i + gap <= |p|
    modifies c
    ensures c[..] == Edited(old(c[..]), n, p[..i] + p[i + gap..])
  {
    ghost var was := c[..];
    Unedited(was, n, p);
    MemMoveDown(c, i, i + gap, n - i - gap);
    ghost var moved := c[..];
    StoreAt(c, n - gap, Repeat(BLANK, gap));
    GapMoved(was, moved, n, i, gap);
    GapBlanked(was, moved, c[..], n, i, gap);
    GapClosed(was, n, p, i, gap);
  }

  lemma GapMoved(was: seq<byte>, moved: seq<byte>, n: nat, i: nat, gap: nat)
    requires i + gap <= n <= |was|
    requires moved == was[..i] + was[i + gap..i + gap + (n - i - gap)] + was[i + (n - i - gap)..]
    ensures |moved| == |was| && moved[..n - gap] == was[..i] + was[i + gap..n] && moved[n..] == was[n..]
  {
  }

  lemma GapBlanked(was: seq<byte>, moved: seq<byte>, now: seq<byte>, n: nat, i: nat, gap: nat)
    requires i + gap <= n <= |was| == |moved|
    requires moved[..n - gap] == was[..i] + was[i + gap..n] && moved[n..] == was[n..]
    requires now == moved[..n - gap] + Repeat(BLANK, gap) + moved[n - gap + gap..]
    ensures now == was[..i] + was[i + gap..n] + Repeat(BLANK, gap) + was[n..]
  {
  }

  lemma GapClosed(mem: seq<byte>, n: nat, p: seq<byte>, i: nat, gap: nat)
    requires Field(mem, n, p) && i + gap <= |p| && mem == Edited(mem, n, p)
    ensures mem[..i] + mem[i + gap..n] + Repeat(BLANK, gap) + mem[n..] == Edited(mem, n, p[..i] + p[i + gap..])
  {
  }

  /** A full field followed by a comma, where Clear gives up on the last code. */
  predicate Stuck(mem: seq<byte>, n: nat, p: seq<byte>)
    requires n < |mem|
  {
    |p| == n && mem[n] == COMMA
  }

  /** Takes the token at i away, with the comma behind it. */
  method ClearToken(c: array<byte>, n: nat, i: nat, code: seq<byte>, ghost p: seq<byte>)
    requires Field(c[..], n, p) && i < |p| && p[i] != COMMA && Token(p[i..]) == code
    modifies c
    ensures c[..] == Edited(old(c[..]), n, p[..i] + Cleared(p[i..], code, Stuck(old(c[..]), n, p)))
  {
    var cl := |code|;
    Unedited(c[..], n, p);
    if i + cl < n { FieldAt(c[..], n, p, i + cl); }
    assert i + cl < |p| ==> p[i + cl] == p[i..][cl];
    if c[i + cl] == COMMA { cl := cl + 1; }
    if n - i >= cl {
      assert p[i..][cl..] == p[i + cl..];
      assert cl > |code| ==> p[i..][|code|..][1..] == p[i + cl..];
      CloseGap(c, n, i, cl, p);
    } else {
      assert p == p[..i] + p[i..];
    }
  }

  method ClearMultResp(c: array<byte>, code: seq<byte>, length: nat, ghost p: seq<byte>)
    requires c.Length > 0 && Field(c[..], Extent(c[..], length), p) && Code(code)
    modifies c
    ensures var n := Extent(old(c[..]), length);
      c[..] == Edited(old(c[..]), n, Cleared(p, code, Stuck(old(c[..]), n, p)))
  {
    var n := FieldLength(c, length);
    ghost var stuck := Stuck(c[..], n, p);
    var i := 0;
    assert p[0..] == p && p[..0] == [];
    EmptyFront(Cleared(p, code, stuck));
    while i < n
      invariant i <= n && c[..] == old(c[..])
      invariant Cleared(p, code, stuck) == if i < |p| then p[..i] + Cleared(p[i..], code, stuck) else p
    {
      FieldAt(c[..], n, p, i);
      if c[i] == COMMA {
        PassComma(p, i, code, stuck);
        i := i + 1;
      } else {
        var match_ := StrMatch(c, i, code, n - i);
        if match_ {
          TokenMatched(c[..], n, p, i, code);
          ClearToken(c, n, i, code, p);
          return;
        }
        if i < |p| {
          MatchIsToken(c[..], n, p, i, code, n - i);
          PassToken(p, i, code, stuck);
        }
        i := SkipToken(c, i, n, p);
      }
    }
    Unedited(c[..], n, p);
  }

  lemma TokenMatched(mem: seq<byte>, n: nat, p: seq<byte>, i: nat, code: seq<byte>)
    requires Field(mem, n, p) && Code(code) && i < n && mem[i] != COMMA && Matches(mem, i, code, n - i)
    ensures i < |p| && p[i] != COMMA && Token(p[i..]) == code
  {
    FieldAt(mem, n, p, i);
    assert mem[i..i + |code|][0] == mem[i];
    MatchIsToken(mem, n, p, i, code, n - i);
  }

  lemma PassComma(p: seq<byte>, i: nat, code: seq<byte>, stuck: bool)
    requires i < |p| && p[i] == COMMA
    ensures p[..i] + Cleared(p[i..], code, stuck) ==
      if i + 1 < |p| then p[..i + 1] + Cleared(p[i + 1..], code, stuck) else p
  {
  }

  lemma PassToken(p: seq<byte>, i: nat, code: seq<byte>, stuck: bool)
    requires i < |p| && p[i] != COMMA && Token(p[i..]) != code
    ensures var j := i + |Token(p[i..])|;
      p[..i] + Cleared(p[i..], code, stuck) ==
      if j < |p| then p[..j] + Cleared(p[j..], code, stuck) else p
  {
    var t := Token(p[i..]);
    SplitBehind(p, i, |t|);
    Assoc(p[..i], t, Cleared(p[i + |t|..], code, stuck));
  }

  lemma SplitBehind(p: seq<byte>, i: nat, n: nat)
    requires i + n <= |p|
    ensures p[..i + n] == p[..i] + p[i..][..n] && p[i..][n..] == p[i + n..]
  {
  }

  method ToggleMultResp(c: array<byte>, code: seq<byte>, length: nat, ghost p: seq<byte>)
    requires c.Length > 0 && Field(c[..], Extent(c[..], length), p) && Code(code)
    modifies c
    ensures var n := Extent(old(c[..]), length);
      c[..] == Edited(old(c[..]), n,
        if Found(old(c[..]), n, p, 0, code) then Cleared(p, code, Stuck(old(c[..]), n, p)) else Added(p, code, n))
  {
    var n := FieldLength(c, length);
    var has := HasMultResp(c, code, length, p);
    if has {
      ClearMultResp(c, code, length, p);
    } else {
      SetMultResp(c, code, length, p);
    }
  }
}
