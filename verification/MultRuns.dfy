/** What runs of SetMultResp, ClearMultResp and ToggleMultResp do to the set of codes in one field. */
module MultRuns {
  import opened Bytes
  import opened MultTexts
  import opened MultResps

  datatype Edit = SetCode(code: seq<byte>) | ClearCode(code: seq<byte>) | ToggleCode(code: seq<byte>)

  predicate Proper(edits: seq<Edit>) {
    forall k | 0 <= k < |edits| :: Code(edits[k].code)
  }

  /** The text an edit would leave if nothing stood behind the field; what it leaves in memory is NextIn. */
  function Next(p: seq<byte>, n: nat, edit: Edit): seq<byte> {
    var code := edit.code;
    match edit
    case SetCode(_) => if code in Codes(p) then p else Added(p, code, n)
    case ClearCode(_) => Cleared(p, code, false)
    case ToggleCode(_) => if code in Codes(p) then Cleared(p, code, false) else Added(p, code, n)
  }

  function Final(n: nat, edits: seq<Edit>): seq<byte> {
    if edits == [] then [] else Next(Final(n, edits[..|edits| - 1]), n, edits[|edits| - 1])
  }

  // ----- Specification: the same edits on a plain set, told only whether there is room

  function NextSet(s: set<seq<byte>>, room: bool, edit: Edit): set<seq<byte>> {
    var code := edit.code;
    match edit
    case SetCode(_) => if room then s + {code} else s
    case ClearCode(_) => s - {code}
    case ToggleCode(_) => if code in s then s - {code} else if room then s + {code} else s
  }

  function FinalSet(n: nat, edits: seq<Edit>): set<seq<byte>> {
    if edits == [] then {}
    else
      var before := edits[..|edits| - 1];
      var edit := edits[|edits| - 1];
      NextSet(FinalSet(n, before), Fits(Final(n, before), edit.code, n), edit)
  }

  predicate Sound(p: seq<byte>, n: nat) {
    Text(p) && |p| <= n && Distinct(Codes(p))
  }

  lemma ClearStep(p: seq<byte>, n: nat, code: seq<byte>)
    requires Sound(p, n)
    ensures Sound(Cleared(p, code, false), n)
    ensures AsSet(Codes(Cleared(p, code, false))) == AsSet(Codes(p)) - {code}
  {
    ClearedKeepsText(p, code, false);
    CodesAfterClearing(p, code);
    RemoveFromDistinct(Codes(p), code);
  }

  lemma AddStep(p: seq<byte>, n: nat, code: seq<byte>)
    requires Sound(p, n) && Code(code) && code !in Codes(p)
    ensures Sound(Added(p, code, n), n)
    ensures AsSet(Codes(Added(p, code, n))) ==
      if Fits(p, code, n) then AsSet(Codes(p)) + {code} else AsSet(Codes(p))
  {
    AddedKeepsText(p, code, n);
    CodesAfterAdding(p, code, n);
    AddToDistinct(Codes(p), code);
  }

  lemma StepOfText(p: seq<byte>, n: nat, edit: Edit)
    requires Sound(p, n) && Code(edit.code)
    ensures Sound(Next(p, n, edit), n)
    ensures AsSet(Codes(Next(p, n, edit))) == NextSet(AsSet(Codes(p)), Fits(p, edit.code, n), edit)
  {
    ClearStep(p, n, edit.code);
    if edit.code !in Codes(p) {
      AddStep(p, n, edit.code);
    }
  }

  lemma {:induction false} RunRefinesSet(n: nat, edits: seq<Edit>)
    requires Proper(edits)
    ensures Sound(Final(n, edits), n)
    ensures AsSet(Codes(Final(n, edits))) == FinalSet(n, edits)
  {
    if edits != [] {
      var before := edits[..|edits| - 1];
      RunRefinesSet(n, before);
      StepOfText(Final(n, before), n, edits[|edits| - 1]);
    }
  }

  // ----- The same edits in memory, whatever stands behind the field

  /** The text an edit leaves in a field of n bytes in this memory. */
  function NextIn(mem: seq<byte>, n: nat, p: seq<byte>, edit: Edit): seq<byte>
    requires n < |mem| && |p| <= n
  {
    var code, now := edit.code, Edited(mem, n, p);
    var has, less := Found(now, n, p, 0, code), Cleared(p, code, Stuck(now, n, p));
    match edit
    case SetCode(_) => if has then p else Added(p, code, n)
    case ClearCode(_) => less
    case ToggleCode(_) => if has then less else Added(p, code, n)
  }

  lemma NextInFits(mem: seq<byte>, n: nat, p: seq<byte>, edit: Edit)
    requires n < |mem| && |p| <= n && Text(p) && Code(edit.code)
    ensures |NextIn(mem, n, p, edit)| <= n && Text(NextIn(mem, n, p, edit))
  {
    AddedKeepsText(p, edit.code, n);
    ClearedKeepsText(p, edit.code, Stuck(Edited(mem, n, p), n, p));
  }

  // ----- What one edit does to the set, whatever stands behind the field

  /** The last code of a full field that an edit fails to take away: Clear gives up in front of a comma,
      and Toggle also takes a code that runs on behind the field for a missing one. */
  predicate Resists(mem: seq<byte>, n: nat, p: seq<byte>, edit: Edit)
    requires |p| == n < |mem|
  {
    EndsWithCode(p, edit.code) &&
    match edit
    case SetCode(_) => false
    case ClearCode(_) => mem[n] == COMMA
    case ToggleCode(code) => mem[n] == COMMA || (p != code && !IsEnd(mem[n]))
  }

  /** An edit does to the set of codes what it says, adding if and only if there is room, unless the last
      code of a full field resists. */
  lemma StepRefinesSet(mem: seq<byte>, n: nat, p: seq<byte>, edit: Edit)
    requires n < |mem| && mem[|mem| - 1] == 0 && Sound(p, n) && Code(edit.code)
    ensures Sound(NextIn(mem, n, p, edit), n)
    ensures AsSet(Codes(NextIn(mem, n, p, edit))) == NextSet(AsSet(Codes(p)), Fits(p, edit.code, n), edit)
      <==> !(|p| == n && Resists(mem, n, p, edit))
  {
    StepOfText(p, n, edit);
    StepInMemory(mem, n, p, edit);
    NextInFits(mem, n, p, edit);
    if |p| == n && Resists(mem, n, p, edit) {
      LastIsListed(p, edit.code);
      Restored(AsSet(Codes(p)), edit.code);
    }
  }

  lemma StepInMemory(mem: seq<byte>, n: nat, p: seq<byte>, edit: Edit)
    requires n < |mem| && mem[|mem| - 1] == 0 && Sound(p, n) && Code(edit.code)
    ensures var q := NextIn(mem, n, p, edit);
      if |p| == n && Resists(mem, n, p, edit) then q == p else Codes(q) == Codes(Next(p, n, edit))
  {
    match edit
    case SetCode(code) => SetStep(mem, n, p, code);
    case ClearCode(code) => ClearInMemory(mem, n, p, code);
    case ToggleCode(code) =>
      if code in Codes(p) {
        ToggleListed(mem, n, p, code);
      } else {
        ToggleMissing(mem, n, p, code);
      }
  }

  lemma SetStep(mem: seq<byte>, n: nat, p: seq<byte>, code: seq<byte>)
    requires n < |mem| && mem[|mem| - 1] == 0 && Sound(p, n) && Code(code)
    ensures NextIn(mem, n, p, SetCode(code)) == Next(p, n, SetCode(code))
  {
    if |p| < n {
      FoundWhereSafe(mem, n, p, code);
    }
  }

  lemma ClearInMemory(mem: seq<byte>, n: nat, p: seq<byte>, code: seq<byte>)
    requires n < |mem| && mem[|mem| - 1] == 0 && Sound(p, n) && Code(code)
    ensures Cleared(p, code, Stuck(Edited(mem, n, p), n, p)) ==
      if |p| == n && mem[n] == COMMA && EndsWithCode(p, code) then p else Cleared(p, code, false)
  {
    StuckIn(mem, n, p);
    if |p| == n && mem[n] == COMMA {
      StuckClear(p, code);
    }
  }

  lemma StuckIn(mem: seq<byte>, n: nat, p: seq<byte>)
    requires n < |mem| && mem[|mem| - 1] == 0 && |p| <= n && Text(p)
    ensures |Edited(mem, n, p)| == |mem|
    ensures Stuck(Edited(mem, n, p), n, p) <==> |p| == n && mem[n] == COMMA
  {
    EditedField(mem, n, p);
  }

  lemma FoundWhereSafe(mem: seq<byte>, n: nat, p: seq<byte>, code: seq<byte>)
    requires n < |mem| && mem[|mem| - 1] == 0 && Sound(p, n) && Code(code)
    requires |p| < n || IsEnd(mem[n]) || COMMA !in p || p[|p| - 1] == COMMA
    ensures Found(Edited(mem, n, p), n, p, 0, code) <==> code in Codes(p)
  {
    EditedField(mem, n, p);
    assert p[0..] == p;
    FoundIfListed(Edited(mem, n, p), n, p, 0, code);
  }

  lemma ToggleListed(mem: seq<byte>, n: nat, p: seq<byte>, code: seq<byte>)
    requires n < |mem| && mem[|mem| - 1] == 0 && Sound(p, n) && Code(code) && code in Codes(p)
    ensures NextIn(mem, n, p, ToggleCode(code)) ==
      if |p| == n && Resists(mem, n, p, ToggleCode(code)) then p else Cleared(p, code, false)
  {
    ClearInMemory(mem, n, p, code);
    if |p| < n || IsEnd(mem[n]) || COMMA !in p || p[|p| - 1] == COMMA {
      FoundWhereSafe(mem, n, p, code);
      OneCodeOnly(p, code);
    } else {
      EditedField(mem, n, p);
      assert p[0..] == p;
      FoundUnlessLast(Edited(mem, n, p), n, p, 0, code);
    }
  }

  /** A text without a comma is its one code, and one that ends in a comma ends with none. */
  lemma OneCodeOnly(p: seq<byte>, code: seq<byte>)
    requires Code(code) && code in Codes(p)
    ensures p != [] && (COMMA !in p ==> p == code) && (p[|p| - 1] == COMMA ==> !EndsWithCode(p, code))
  {
    if COMMA !in p {
      CodesOfToken(p, []);
      assert p + [] == p;
    }
    assert |code| <= |p| ==> p[|p| - |code|..][|code| - 1] == p[|p| - 1];
  }

  lemma ToggleMissing(mem: seq<byte>, n: nat, p: seq<byte>, code: seq<byte>)
    requires n < |mem| && mem[|mem| - 1] == 0 && Sound(p, n) && Code(code) && code !in Codes(p)
    ensures |p| < n ==> NextIn(mem, n, p, ToggleCode(code)) == Added(p, code, n)
    ensures |p| == n ==> Codes(NextIn(mem, n, p, ToggleCode(code))) == Codes(p) && !EndsWithCode(p, code)
  {
    if |p| < n {
      FoundWhereSafe(mem, n, p, code);
    } else {
      ClearInMemory(mem, n, p, code);
      CodesAfterClearing(p, code);
      WithoutMissing(Codes(p), code);
      if EndsWithCode(p, code) {
        LastIsListed(p, code);
      }
    }
  }

  lemma {:induction false} WithoutMissing(codes: seq<seq<byte>>, code: seq<byte>)
    requires code !in codes
    ensures Without(codes, code) == codes
  {
    if codes != [] {
      WithoutMissing(codes[1..], code);
    }
  }

  function FinalIn(mem: seq<byte>, n: nat, edits: seq<Edit>): (p: seq<byte>)
    requires n < |mem| && Proper(edits)
    ensures |p| <= n && Text(p)
  {
    if edits == [] then []
    else
      var before := edits[..|edits| - 1];
      NextInFits(mem, n, FinalIn(mem, n, before), edits[|edits| - 1]);
      NextIn(mem, n, FinalIn(mem, n, before), edits[|edits| - 1])
  }

  lemma ExtentKept(mem: seq<byte>, mem': seq<byte>, length: nat, n: nat, q: seq<byte>)
    requires |mem| > 0 && mem[|mem| - 1] == 0 && n == Extent(mem, length)
    requires Field(mem', n, q) && |mem'| == |mem| && mem'[n] == mem[n]
    ensures Extent(mem', length) == n
  {
    if length == 0 {
      assert mem[n] == 0 by { assert 0 in mem; }
      assert 0 !in mem'[..n];
      assert mem' == mem'[..n] + mem'[n..];
      CStringOf(mem'[..n], mem'[n..]);
    }
  }

  method PerformOne(c: array<byte>, length: nat, ghost mem: seq<byte>, ghost n: nat, ghost p: seq<byte>, edit: Edit)
    requires c.Length > 0 && n == Extent(c[..], length) && Holds(mem, c[..], n, p) && Code(edit.code)
    modifies c
    ensures Holds(mem, c[..], n, NextIn(mem, n, p, edit)) && Extent(c[..], length) == n
  {
    ghost var before := c[..];
    Unedited(before, n, p);
    match edit {
      case SetCode(code) => SetMultResp(c, code, length, p);
      case ClearCode(code) => ClearMultResp(c, code, length, p);
      case ToggleCode(code) => ToggleMultResp(c, code, length, p);
    }
    EditDone(mem, before, c[..], length, n, p, edit);
  }

  lemma EditDone(mem: seq<byte>, before: seq<byte>, after: seq<byte>, length: nat, n: nat, p: seq<byte>, edit: Edit)
    requires |before| > 0 && n == Extent(before, length) && Holds(mem, before, n, p) && Code(edit.code)
    requires before == Edited(mem, n, p) && after == Edited(before, n, NextIn(mem, n, p, edit))
    ensures Holds(mem, after, n, NextIn(mem, n, p, edit)) && Extent(after, length) == n
  {
    var q := NextIn(mem, n, p, edit);
    NextInFits(mem, n, p, edit);
    EditedTwice(mem, n, p, q);
    EditedField(mem, n, q);
    ExtentKept(before, after, length, n, q);
  }

  /** Nothing but the field of n bytes has changed, and its text is q. */
  predicate Holds(mem: seq<byte>, mem': seq<byte>, n: nat, q: seq<byte>) {
    |q| <= n < |mem| && mem' == Edited(mem, n, q) && Field(mem', n, q) && mem[|mem| - 1] == 0
  }

  lemma EditedTwice(mem: seq<byte>, n: nat, p: seq<byte>, q: seq<byte>)
    requires n <= |mem| && |p| <= n && |q| <= n
    ensures Edited(Edited(mem, n, p), n, q) == Edited(mem, n, q)
  {
  }

  /** A run of edits from a blank field changes nothing but the field, and keeps its length. */
  method Replay(c: array<byte>, length: nat, edits: seq<Edit>)
    requires c.Length > 0 && c[c.Length - 1] == 0 && Proper(edits)
    requires Field(c[..], Extent(c[..], length), [])
    modifies c
    ensures var n := Extent(old(c[..]), length);
      Holds(old(c[..]), c[..], n, FinalIn(old(c[..]), n, edits)) && Extent(c[..], length) == n
  {
    ghost var mem := c[..];
    ghost var n := Extent(mem, length);
    Unedited(mem, n, []);
    for k := 0 to |edits|
      invariant Extent(c[..], length) == n && Holds(mem, c[..], n, FinalIn(mem, n, edits[..k]))
    {
      assert edits[..k + 1][..k] == edits[..k];
      PerformOne(c, length, mem, n, FinalIn(mem, n, edits[..k]), edits[k]);
    }
    assert edits[..|edits|] == edits;
  }

  /** The field byte by byte: two codes set one after the other stand there with a comma between them, and
      blanks fill the rest. */
  lemma TwoCodesInBytes(mem: seq<byte>, n: nat, a: seq<byte>, b: seq<byte>)
    requires n < |mem| && mem[|mem| - 1] == 0 && Code(a) && Code(b) && a != b && |a| + 1 + |b| <= n
    ensures var edits := [SetCode(a), SetCode(b)];
      Edited(mem, n, FinalIn(mem, n, edits))
        == a + [0x2C] + b + Repeat(0x20, n - |a| - 1 - |b|) + mem[n..]
  {
    TwoCodesSet(mem, n, a, b);
  }

  lemma TwoCodesSet(mem: seq<byte>, n: nat, a: seq<byte>, b: seq<byte>)
    requires n < |mem| && mem[|mem| - 1] == 0 && Code(a) && Code(b) && a != b && |a| + 1 + |b| <= n
    ensures FinalIn(mem, n, [SetCode(a), SetCode(b)]) == a + [0x2C] + b
  {
    var edits := [SetCode(a), SetCode(b)];
    assert edits[..1] == [SetCode(a)];
    OneSet(mem, n, a);
    CodesOfToken(a, []);
    assert a + [] == a;
    FoundWhereSafe(mem, n, a, b);
    assert Added(a, b, n) == a + [0x2C] + b;
  }

  // ----- When that is the set

  /** After a run, Has answers the code as the abstract set does. */
  predicate Answers(mem: seq<byte>, n: nat, edits: seq<Edit>, code: seq<byte>)
    requires n < |mem| && Proper(edits)
  {
    var p := FinalIn(mem, n, edits);
    Found(Edited(mem, n, p), n, p, 0, code) <==> code in FinalSet(n, edits)
  }

  /** The byte behind the field does no harm: it is a NUL or a blank, or the field is too short for
      two codes and the byte is not a comma. */
  predicate Safe(mem: seq<byte>, n: nat)
    requires n < |mem|
  {
    mem[n] == 0 || mem[n] == BLANK || (n <= 2 && mem[n] != COMMA)
  }

  /** In a field of at most two bytes a text holds one code at most, and no comma in front of it. */
  predicate Simple(p: seq<byte>, n: nat) {
    n <= 2 ==> COMMA !in p || p[|p| - 1] == COMMA
  }

  lemma StepIsSafe(mem: seq<byte>, n: nat, p: seq<byte>, edit: Edit)
    requires n < |mem| && mem[|mem| - 1] == 0 && Safe(mem, n)
    requires Sound(p, n) && Simple(p, n) && Code(edit.code)
    ensures NextIn(mem, n, p, edit) == Next(p, n, edit)
    ensures Found(Edited(mem, n, p), n, p, 0, edit.code) <==> edit.code in Codes(p)
    ensures Simple(Next(p, n, edit), n)
  {
    var now := Edited(mem, n, p);
    EditedField(mem, n, p);
    assert p[0..] == p;
    FoundIfListed(now, n, p, 0, edit.code);
    if n <= 2 {
      SimpleStep(p, n, edit);
    }
  }

  lemma SimpleStep(p: seq<byte>, n: nat, edit: Edit)
    requires Text(p) && |p| <= n <= 2 && Simple(p, n) && Code(edit.code)
    ensures Simple(Next(p, n, edit), n)
  {
    var code := edit.code;
    assert Added(p, code, n) == p || Added(p, code, n) == Opened(p) || (p == [] && Added(p, code, n) == code);
    SimpleClear(p, code);
  }

  lemma SimpleClear(p: seq<byte>, code: seq<byte>)
    requires |p| <= 2 && Code(code) && (COMMA !in p || p[|p| - 1] == COMMA)
    ensures var q := Cleared(p, code, false); COMMA !in q || q[|q| - 1] == COMMA
  {
    if p != [] {
      var t := Token(p);
      if p[0] == COMMA {
        assert |p| == 2 ==> p[1..] == [COMMA] && p[1..][1..] == [];
        assert Cleared(p, code, false) == p;
      } else if t == p {
        assert p[|t|..] == [];
      } else {
        assert p[1] == COMMA && |t| == 1 && p[|t|..] == [COMMA] && [COMMA][1..] == [];
        assert t + [COMMA] == p;
      }
    }
  }

  lemma {:induction false} RunIsSafe(mem: seq<byte>, n: nat, edits: seq<Edit>)
    requires n < |mem| && mem[|mem| - 1] == 0 && Safe(mem, n) && Proper(edits)
    ensures FinalIn(mem, n, edits) == Final(n, edits) && Simple(Final(n, edits), n)
  {
    if edits != [] {
      var before := edits[..|edits| - 1];
      RunIsSafe(mem, n, before);
      RunRefinesSet(n, before);
      StepIsSafe(mem, n, Final(n, before), edits[|edits| - 1]);
    }
  }

  lemma SafeRunAnswers(mem: seq<byte>, n: nat, edits: seq<Edit>, code: seq<byte>)
    requires n < |mem| && mem[|mem| - 1] == 0 && Safe(mem, n) && Proper(edits) && Code(code)
    ensures Answers(mem, n, edits, code)
  {
    RunIsSafe(mem, n, edits);
    RunRefinesSet(n, edits);
    StepIsSafe(mem, n, Final(n, edits), SetCode(code));
    assert code in Codes(Final(n, edits)) <==> code in AsSet(Codes(Final(n, edits)));
  }

  /** The byte of the codes in the runs that go wrong. */
  const LETTER: byte := 'a' as int

  lemma LetterCode(k: nat)
    requires k > 0
    ensures Code(Repeat(LETTER, k))
  {
  }

  /** A comma behind the field: the only code of a full field cannot be cleared. */
  lemma CommaBehind(mem: seq<byte>, n: nat)
    requires 0 < n < |mem| && mem[|mem| - 1] == 0 && mem[n] == COMMA
    ensures var code := Repeat(LETTER, n);
      Code(code) && !Answers(mem, n, [SetCode(code), ClearCode(code)], code)
  {
    var code := Repeat(LETTER, n);
    LetterCode(n);
    OneSet(mem, n, code);
    var edits := [SetCode(code), ClearCode(code)];
    assert edits[..1] == [SetCode(code)];
    TokenOfConcat(code, []);
    assert code + [] == code && code[|code|..] == [];
    var now := Edited(mem, n, code);
    EditedField(mem, n, code);
    assert Cleared(code, code, true) == code;
    assert code[0..] == code;
    FoundIfListed(now, n, code, 0, code);
    CodesOfToken(code, []);
    assert FinalSet(n, edits) == FinalSet(n, [SetCode(code)]) - {code};
  }

  /** From a blank field a code that fits is simply written. */
  lemma OneSet(mem: seq<byte>, n: nat, code: seq<byte>)
    requires n < |mem| && mem[|mem| - 1] == 0 && Code(code) && |code| <= n
    ensures FinalIn(mem, n, [SetCode(code)]) == code && Final(n, [SetCode(code)]) == code
    ensures FinalSet(n, [SetCode(code)]) == {code}
  {
    var one := [SetCode(code)];
    assert one[..0] == [];
    assert Opened([]) + code == code;
    assert Added([], code, n) == code;
  }

  /** Another byte behind the field: of two codes that fill it the second one is not found. */
  lemma TextBehind(mem: seq<byte>, n: nat)
    requires 3 <= n < |mem| && mem[|mem| - 1] == 0 && !IsEnd(mem[n])
    ensures var code, last := Repeat(LETTER, n - 2), ['b' as int];
      Code(code) && Code(last) && !Answers(mem, n, [SetCode(code), SetCode(last)], last)
  {
    var code, last := Repeat(LETTER, n - 2), ['b' as int];
    LetterCode(n - 2);
    OneSet(mem, n, code);
    var edits := [SetCode(code), SetCode(last)];
    assert edits[..1] == [SetCode(code)];
    NotFoundYet(mem, n, code, last);
    var p := code + [COMMA] + last;
    assert Added(code, last, n) == p;
    assert FinalSet(n, edits) == {code} + {last};
    LastNotFound(mem, n, code, last);
  }

  lemma NotFoundYet(mem: seq<byte>, n: nat, code: seq<byte>, last: seq<byte>)
    requires n < |mem| && mem[|mem| - 1] == 0 && Code(code) && Code(last) && code[0] != last[0] && |code| < n
    ensures !Found(Edited(mem, n, code), n, code, 0, last)
  {
    EditedField(mem, n, code);
    assert code[0..] == code && code + [] == code;
    CodesOfToken(code, []);
    FoundIfListed(Edited(mem, n, code), n, code, 0, last);
  }

  lemma LastNotFound(mem: seq<byte>, n: nat, code: seq<byte>, last: seq<byte>)
    requires Code(code) && Code(last) && code[0] != last[0]
    requires |code| + 1 + |last| == n < |mem| && mem[|mem| - 1] == 0 && !IsEnd(mem[n])
    ensures !Found(Edited(mem, n, code + [COMMA] + last), n, code + [COMMA] + last, 0, last)
  {
    var p := code + [COMMA] + last;
    EditedField(mem, n, p);
    PairTokens(code, last);
    SecondNotFound(Edited(mem, n, p), n, p, code, last);
  }

  lemma SecondNotFound(mem: seq<byte>, n: nat, p: seq<byte>, code: seq<byte>, last: seq<byte>)
    requires Field(mem, n, p) && |p| == n && !IsEnd(mem[n]) && Code(last) && |code| + 1 + |last| == n
    requires p[0] != COMMA && p[|code|] == COMMA && p[|code| + 1] != COMMA
    requires Token(p[0..]) == code != last && Token(p[|code| + 1..]) == last
    ensures !Found(mem, n, p, 0, last)
  {
    var k := |code|;
    MatchIsToken(mem, n, p, 0, last, n);
    FoundPast(mem, n, p, 0, k, last);
    FoundPastComma(mem, n, p, k, last);
    Unended(mem, n, k + 1, last);
    FoundPast(mem, n, p, k + 1, n, last);
  }

  lemma Unended(mem: seq<byte>, n: nat, i: nat, code: seq<byte>)
    requires i + |code| == n < |mem| && i > 0 && !IsEnd(mem[n])
    ensures !Matches(mem, i, code, n)
  {
  }

  lemma FoundPastComma(mem: seq<byte>, n: nat, p: seq<byte>, i: nat, code: seq<byte>)
    requires i < |p| && p[i] == COMMA
    ensures Found(mem, n, p, i, code) == Found(mem, n, p, i + 1, code)
  {
  }

  lemma FoundPast(mem: seq<byte>, n: nat, p: seq<byte>, i: nat, j: nat, code: seq<byte>)
    requires i < |p| && p[i] != COMMA && j == i + |Token(p[i..])| && !Matches(mem, i, code, n)
    ensures Found(mem, n, p, i, code) == Found(mem, n, p, j, code)
  {
  }

  lemma PairTokens(code: seq<byte>, last: seq<byte>)
    requires Code(code) && Code(last) && code[0] != last[0]
    ensures var p, k := code + [COMMA] + last, |code|;
      && Text(p) && p[0] != COMMA && p[k] == COMMA && p[k + 1] != COMMA
      && Token(p[0..]) == code != last && Token(p[k + 1..]) == last
  {
    var p, k := code + [COMMA] + last, |code|;
    assert p[0..] == code + ([COMMA] + last) && p[k + 1..] == last + [];
    TokenOfConcat(code, [COMMA] + last);
    TokenOfConcat(last, []);
    PairText(code, last);
    assert p[0] == code[0] && p[k + 1] == last[0];
    assert last + [] == last;
  }

  lemma PairText(code: seq<byte>, last: seq<byte>)
    requires Code(code) && Code(last)
    ensures Text(code + [COMMA] + last)
  {
  }

  /** After every run Has is true exactly of the members of the set if and only if the byte behind
      the field does no harm. */
  lemma RunsAreRightIfSafe(mem: seq<byte>, n: nat)
    requires n < |mem| && mem[|mem| - 1] == 0 && (n == 0 ==> mem[0] == 0)
    ensures Safe(mem, n) <==>
      forall edits, code | Proper(edits) && Code(code) :: Answers(mem, n, edits, code)
  {
    if Safe(mem, n) {
      forall edits, code | Proper(edits) && Code(code)
        ensures Answers(mem, n, edits, code)
      {
        SafeRunAnswers(mem, n, edits, code);
      }
    } else if mem[n] == COMMA {
      CommaBehind(mem, n);
      var code := Repeat(LETTER, n);
      assert Proper([SetCode(code), ClearCode(code)]);
    } else {
      TextBehind(mem, n);
      var code, last := Repeat(LETTER, n - 2), ['b' as int];
      assert Proper([SetCode(code), SetCode(last)]);
    }
  }

  /** Has behind a run, in any memory; where the byte behind the field does no harm it is true exactly
      of the members of the set. */
  method HasAfterReplay(c: array<byte>, length: nat, edits: seq<Edit>, code: seq<byte>) returns (has: bool)
    requires c.Length > 0 && c[c.Length - 1] == 0 && Proper(edits) && Code(code)
    requires Field(c[..], Extent(c[..], length), [])
    modifies c
    ensures var mem, n := old(c[..]), Extent(old(c[..]), length);
      && Holds(mem, c[..], n, FinalIn(mem, n, edits))
      && has == Found(c[..], n, FinalIn(mem, n, edits), 0, code)
      && (Safe(mem, n) ==> (has <==> code in FinalSet(n, edits)))
  {
    ghost var mem, n := c[..], Extent(c[..], length);
    Replay(c, length, edits);
    has := HasMultResp(c, code, length, FinalIn(mem, n, edits));
    if Safe(mem, n) {
      SafeRunAnswers(mem, n, edits, code);
    }
  }

  // ----- Toggling twice

  lemma {:induction false} ClearedLength(p: seq<byte>, code: seq<byte>)
    requires Code(code) && Distinct(Codes(p)) && code in Codes(p)
    ensures |Cleared(p, code, false)| == |p| - |code| - if EndsWithCode(p, code) then 0 else 1
    decreases |p|
  {
    if p[0] == COMMA {
      ClearedLength(p[1..], code);
      EndsBehindComma(p, 1, code);
    } else {
      var t := Token(p);
      var rest := p[|t|..];
      assert Codes(p) == [t] + Codes(rest);
      assert Codes(p)[1..] == Codes(rest);
      if rest == [] {
        assert Codes(rest) == [];
        TokenIsWhole(p, code);
      } else {
        StuckBehindToken(p, code);
        if t != code {
          ClearedLength(rest, code);
        }
      }
    }
  }

  /** Toggling a code off and on again brings it back, unless it stands last in a full field behind other
      text and a NUL or a blank follows the field: the comma it left behind now takes the room. With
      anything else behind the field such a code is not taken away in the first place. */
  lemma ToggleTwice(mem: seq<byte>, n: nat, p: seq<byte>, code: seq<byte>)
    requires n < |mem| && mem[|mem| - 1] == 0 && Sound(p, n) && Code(code) && code in Codes(p)
    ensures var toggle := ToggleCode(code);
      var once := NextIn(mem, n, p, toggle);
      && |once| <= n
      && (AsSet(Codes(NextIn(mem, n, once, toggle))) == AsSet(Codes(p)) <==>
            |p| < n || !EndsWithCode(p, code) || p == code || (mem[n] != 0 && mem[n] != BLANK))
  {
    ToggleListed(mem, n, p, code);
    if !(|p| == n && Resists(mem, n, p, ToggleCode(code))) {
      var q := Cleared(p, code, false);
      ClearStep(p, n, code);
      ClearedLength(p, code);
      assert code in AsSet(Codes(p)) && code !in AsSet(Codes(q));
      ToggleMissing(mem, n, q, code);
      AddStep(q, n, code);
      RoomAfterClear(p, n, code);
      Restored(AsSet(Codes(p)), code);
    }
  }

  lemma RoomAfterClear(p: seq<byte>, n: nat, code: seq<byte>)
    requires Sound(p, n) && Code(code) && code in Codes(p)
    ensures Fits(Cleared(p, code, false), code, n) <==> (|p| < n || !EndsWithCode(p, code) || p == code)
  {
    ClearedLength(p, code);
    assert EndsWithCode(p, code) && |p| == |code| ==> p == code;
  }

  lemma Restored(s: set<seq<byte>>, code: seq<byte>)
    requires code in s
    ensures (s - {code}) + {code} == s && s - {code} != s
  {
  }
}
