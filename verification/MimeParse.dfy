/** ParseMIMEMessage and strumail::parse of ml_mime.cpp: a message as a tree of parts. */
module MimeParses {
  import opened Bytes
  import opened Streams
  import opened Params
  import opened MailLines
  import opened MimeLines
  import opened MimeHeaders
  import opened MimeSplits

  /** mmatom and mmcomp. */
  datatype Mail =
    | Atom(header: seq<Pair>, body: seq<byte>)
    | Compound(header: seq<Pair>, parts: seq<Mail>)

  // ----- The content type

  const CONTENT_TYPE: seq<byte> := Ascii("Content-Type")
  const MULTIPART: seq<byte> := Ascii("multipart")
  const BOUNDARY_IS: seq<byte> := Ascii("boundary=")
  const QUOTE: byte := '"' as int
  const SEMICOLON: byte := ';' as int

  /** stristr: what t holds from the first occurrence of w on. */
  function From(t: seq<byte>, w: seq<byte>): (r: Option<seq<byte>>)
    ensures r.Some? ==> |w| <= |r.value|
  {
    if t == [] then None
    else if HasPrefix(t, w) then PrefixIsShorter(t, w); Some(t)
    else From(t[1..], w)
  }

  function UpTo(t: seq<byte>, stop: seq<byte>): seq<byte> {
    if t == [] || t[0] in stop then [] else [t[0]] + UpTo(t[1..], stop)
  }

  /** The boundary that a content type names. */
  function BoundaryOf(t: seq<byte>): Option<seq<byte>> {
    var at := From(t, BOUNDARY_IS);
    if at.None? then None
    else
      var c := at.value[|BOUNDARY_IS|..];
      Some(UpTo(if c != [] && c[0] == QUOTE then UpTo(c[1..], [QUOTE]) else c, [SEMICOLON, SPACE, TAB]))
  }

  predicate IsMultipart(t: seq<byte>) {
    From(t, MULTIPART).Some?
  }

  predicate Lacks(t: seq<byte>, stop: seq<byte>) {
    t == [] || (t[0] !in stop && Lacks(t[1..], stop))
  }

  lemma {:induction false} UpToStop(t: seq<byte>, c: byte, rest: seq<byte>)
    requires c !in t
    ensures UpTo(t + ([c] + rest), [c]) == t
  {
    if t == [] {
      assert t + ([c] + rest) == [c] + rest;
    } else {
      assert (t + ([c] + rest))[1..] == t[1..] + ([c] + rest);
      UpToStop(t[1..], c, rest);
    }
  }

  lemma {:induction false} UpToIsAll(t: seq<byte>, stop: seq<byte>)
    ensures UpTo(t, stop) == t <==> Lacks(t, stop)
  {
    if t != [] && t[0] !in stop {
      UpToIsAll(t[1..], stop);
      assert UpTo(t, stop)[1..] == UpTo(t[1..], stop);
      assert t == [t[0]] + t[1..];
    }
  }

  /** A quoted boundary is taken whole if and only if it has no semicolon, blank or tab, although
      the quotes would allow them. */
  lemma QuotedBoundary(t: seq<byte>, b: seq<byte>, rest: seq<byte>)
    requires From(t, BOUNDARY_IS).Some? && QUOTE !in b
    requires From(t, BOUNDARY_IS).value[|BOUNDARY_IS|..] == [QUOTE] + (b + ([QUOTE] + rest))
    ensures BoundaryOf(t) == Some(b) <==> Lacks(b, [SEMICOLON, SPACE, TAB])
  {
    var quoted := [QUOTE] + (b + ([QUOTE] + rest));
    assert quoted[1..] == b + ([QUOTE] + rest);
    UpToStop(b, QUOTE, rest);
    UpToIsAll(b, [SEMICOLON, SPACE, TAB]);
  }

  // ----- What is found in a content type

  lemma {:induction false} PrefixIsSame(t: seq<byte>, w: seq<byte>)
    ensures HasPrefix(t, w) <==> |w| <= |t| && SameIgnoringCase(t[..|w|], w)
  {
    if w != [] && t != [] {
      PrefixIsSame(t[1..], w[1..]);
      if |w| <= |t| {
        assert t[..|w|] == [t[0]] + t[1..][..|w| - 1] && w == [w[0]] + w[1..];
        SameBehindFirst(t[..|w|], w);
      }
    }
  }

  lemma SameBehindFirst(a: seq<byte>, b: seq<byte>)
    requires |a| == |b| > 0
    ensures SameIgnoringCase(a, b) <==> Lower(a[0]) == Lower(b[0]) && SameIgnoringCase(a[1..], b[1..])
  {
    if Lower(a[0]) == Lower(b[0]) && SameIgnoringCase(a[1..], b[1..]) {
      forall k | 0 <= k < |a|
        ensures Lower(a[k]) == Lower(b[k])
      {
        assert k > 0 ==> a[1..][k - 1] == a[k] && b[1..][k - 1] == b[k];
      }
    }
    if SameIgnoringCase(a, b) {
      forall k | 0 <= k < |a| - 1
        ensures Lower(a[1..][k]) == Lower(b[1..][k])
      {
        assert a[1..][k] == a[k + 1] && b[1..][k] == b[k + 1];
      }
    }
  }

  /** The word stands at place k of t, whatever the case of its letters. */
  predicate StandsAt(t: seq<byte>, w: seq<byte>, k: nat) {
    k + |w| <= |t| && SameIgnoringCase(t[k..k + |w|], w)
  }

  predicate Nowhere(t: seq<byte>, w: seq<byte>) {
    forall k: nat | k <= |t| :: !StandsAt(t, w, k)
  }

  /** The search finds the earliest place of the word, and fails only if there is none. */
  lemma {:induction false} FromIsEarliest(t: seq<byte>, w: seq<byte>) returns (k: nat)
    requires w != []
    ensures From(t, w).Some? <==> !Nowhere(t, w)
    ensures From(t, w).Some? ==> StandsAt(t, w, k) && From(t, w).value == t[k..]
    ensures From(t, w).Some? ==> forall j: nat | j < k :: !StandsAt(t, w, j)
    decreases |t|
  {
    k := 0;
    PrefixIsSame(t, w);
    assert |w| <= |t| ==> t[0..0 + |w|] == t[..|w|];
    assert StandsAt(t, w, 0) <==> HasPrefix(t, w);
    if t != [] && !HasPrefix(t, w) {
      k := FromIsEarliest(t[1..], w);
      forall j: nat | 0 < j <= |t|
        ensures StandsAt(t, w, j) <==> StandsAt(t[1..], w, j - 1)
      {
        assert j + |w| <= |t| ==> t[1..][j - 1..j - 1 + |w|] == t[j..j + |w|];
      }
      assert From(t, w).Some? ==> StandsAt(t, w, k + 1) && t[1..][k..] == t[k + 1..];
      k := k + 1;
    }
  }

  /** A semicolon, a blank or a tab. */
  predicate Stops(c: byte) {
    c == 0x3B || c == 0x20 || c == 0x09
  }

  predicate NoStop(b: seq<byte>) {
    forall k :: 0 <= k < |b| ==> !Stops(b[k])
  }

  lemma {:induction false} UpToStops(b: seq<byte>, rest: seq<byte>)
    requires NoStop(b) && (rest == [] || Stops(rest[0]))
    ensures UpTo(b + rest, [SEMICOLON, SPACE, TAB]) == b
  {
    if b == [] {
      assert b + rest == rest;
    } else {
      assert (b + rest)[1..] == b[1..] + rest;
      UpToStops(b[1..], rest);
    }
  }

  /** A boundary without quotes ends where the content type does, or at a semicolon, a blank or a tab. */
  lemma PlainBoundary(t: seq<byte>, b: seq<byte>, rest: seq<byte>)
    requires From(t, BOUNDARY_IS).Some? && From(t, BOUNDARY_IS).value[9..] == b + rest
    requires NoStop(b) && (b == [] || b[0] != 0x22) && (rest == [] || Stops(rest[0]))
    ensures BoundaryOf(t) == Some(b)
  {
    UpToStops(b, rest);
  }

  /** A boundary whose quotes are never closed ends the same way. */
  lemma UnclosedBoundary(t: seq<byte>, b: seq<byte>, rest: seq<byte>)
    requires From(t, BOUNDARY_IS).Some? && From(t, BOUNDARY_IS).value[9..] == [0x22] + (b + rest)
    requires NoStop(b) && 0x22 !in b + rest && (rest == [] || Stops(rest[0]))
    ensures BoundaryOf(t) == Some(b)
  {
    var c := [0x22] + (b + rest);
    assert c[1..] == b + rest;
    UpToNothing(b + rest, QUOTE);
    UpToStops(b, rest);
  }

  lemma {:induction false} UpToNothing(t: seq<byte>, c: byte)
    requires c !in t
    ensures UpTo(t, [c]) == t
  {
    if t != [] {
      UpToNothing(t[1..], c);
    }
  }

  /** A content type with a boundary, as it is written: plain, or between quotes. */
  function ContentType(kind: seq<byte>, b: seq<byte>, quoted: bool, more: seq<byte>): seq<byte> {
    Ascii("multipart/") + kind + (Ascii("; boundary=") + ((if quoted then [0x22] + b + [0x22] else b) + more))
  }

  /** What can be written so: no equals sign in front of the boundary, and none of its stops in it. */
  predicate ProperType(kind: seq<byte>, b: seq<byte>, quoted: bool, more: seq<byte>) {
    && 0x3D !in kind && NoStop(b)
    && if quoted then 0x22 !in b else (b == [] || b[0] != 0x22) && (more == [] || Stops(more[0]))
  }

  lemma LowerOfSign(c: byte)
    ensures Lower(c) == 0x3D <==> c == 0x3D
  {
  }

  lemma TypeIsMultipart(kind: seq<byte>, b: seq<byte>, quoted: bool, more: seq<byte>)
    ensures IsMultipart(ContentType(kind, b, quoted, more))
  {
    var t := ContentType(kind, b, quoted, more);
    var k := FromIsEarliest(t, MULTIPART);
    assert t[0..0 + 9] == MULTIPART;
    assert StandsAt(t, MULTIPART, 0);
  }

  /** The first equals sign of the content type is that of the boundary, which is therefore found. */
  lemma TypeNamesBoundary(kind: seq<byte>, b: seq<byte>, quoted: bool, more: seq<byte>)
    requires 0x3D !in kind
    ensures var t := ContentType(kind, b, quoted, more);
      && From(t, BOUNDARY_IS).Some?
      && From(t, BOUNDARY_IS).value[9..] == (if quoted then [0x22] + b + [0x22] else b) + more
  {
    var t, value := ContentType(kind, b, quoted, more), (if quoted then [0x22] + b + [0x22] else b) + more;
    var front := Ascii("multipart/") + kind + Ascii("; ");
    assert Ascii("; boundary=") == Ascii("; ") + BOUNDARY_IS;
    assert t == front + (BOUNDARY_IS + value);
    BoundaryBehind(front, value, t);
  }

  lemma BoundaryBehind(front: seq<byte>, value: seq<byte>, t: seq<byte>)
    requires t == front + (BOUNDARY_IS + value) && 0x3D !in front
    ensures From(t, BOUNDARY_IS).Some? && From(t, BOUNDARY_IS).value[9..] == value
  {
    var p := |front|;
    var k := FromIsEarliest(t, BOUNDARY_IS);
    assert t[p..p + 9] == BOUNDARY_IS;
    assert StandsAt(t, BOUNDARY_IS, p);
    SignInside(t, k);
    NoSignBefore(t, front, value, k + 8);
    assert t[p..][9..] == value;
  }

  lemma SignInside(t: seq<byte>, k: nat)
    requires StandsAt(t, BOUNDARY_IS, k)
    ensures k + 8 < |t| && t[k + 8] == 0x3D
  {
    assert t[k..k + 9][8] == t[k + 8] && BOUNDARY_IS[8] == 0x3D;
    LowerOfSign(t[k + 8]);
  }

  lemma NoSignBefore(t: seq<byte>, front: seq<byte>, value: seq<byte>, j: nat)
    requires t == front + (BOUNDARY_IS + value) && 0x3D !in front && j < |t| && t[j] == 0x3D
    ensures j >= |front| + 8
  {
  }

  lemma TypeGivesBoundary(kind: seq<byte>, b: seq<byte>, quoted: bool, more: seq<byte>)
    requires ProperType(kind, b, quoted, more)
    ensures IsMultipart(ContentType(kind, b, quoted, more)) && ContentType(kind, b, quoted, more) != []
    ensures BoundaryOf(ContentType(kind, b, quoted, more)) == Some(b)
  {
    var t := ContentType(kind, b, quoted, more);
    TypeIsMultipart(kind, b, quoted, more);
    TypeNamesBoundary(kind, b, quoted, more);
    if quoted {
      assert [0x22] + b + [0x22] + more == [QUOTE] + (b + ([QUOTE] + more));
      NoStopLacks(b);
      QuotedBoundary(t, b, more);
    } else {
      PlainBoundary(t, b, more);
    }
  }

  lemma {:induction false} NoStopLacks(b: seq<byte>)
    ensures Lacks(b, [SEMICOLON, SPACE, TAB]) <==> NoStop(b)
  {
    if b != [] {
      NoStopLacks(b[1..]);
      assert b == [b[0]] + b[1..];
    }
  }

  // ----- Specification of the parser

  /** The parameters and the body of a text: strumail::parse. */
  function Opened(text: seq<byte>): Headed {
    Header(text, [], [], [])
  }

  function Parsed(header: seq<Pair>, body: seq<byte>): Option<Mail>
    decreases Weight(body), 1, 0
  {
    var t := Lookup(header, CONTENT_TYPE);
    if t == [] || !IsMultipart(t) then Some(Atom(PutAll([], header), body))
    else if BoundaryOf(t).None? then None
    else
      var split := SplitFrom(LinesOf(body), None, BoundaryOf(t).value);
      LinesWeigh(body);
      PartsAreLighter(LinesOf(body), None, BoundaryOf(t).value, Weight(body));
      Some(Compound(PutAll([], header), PartsOf(split.closed, Weight(body)) + OpenPart(split.open)))
  }

  /** The mails that the closed parts hold; a part that is multipart without a boundary is dropped. */
  function PartsOf(parts: seq<seq<Line>>, limit: nat): seq<Mail>
    requires AllLighter(parts, limit)
    decreases limit, 0, |parts|
  {
    if parts == [] then []
    else
      var text := Joined(parts[0]);
      var mail := Opened(text);
      JoinedWeighs(parts[0]);
      HeaderWeighs(text, [], [], []);
      AsPart(Parsed(mail.items, mail.rest)) + PartsOf(parts[1..], limit)
  }

  function AsPart(w: Option<Mail>): seq<Mail> {
    if w.Some? then [w.value] else []
  }

  /** A part that was not closed is kept as it is, header and all. */
  function OpenPart(open: Option<seq<Line>>): seq<Mail> {
    if open.Some? then [Atom([], Joined(open.value))] else []
  }

  lemma PartsOfStep(parts: seq<seq<Line>>, limit: nat)
    requires parts != [] && AllLighter(parts, limit)
    ensures var mail := Opened(Joined(parts[0]));
      && Weight(mail.rest) < limit
      && PartsOf(parts, limit) == AsPart(Parsed(mail.items, mail.rest)) + PartsOf(parts[1..], limit)
  {
    JoinedWeighs(parts[0]);
    HeaderWeighs(Joined(parts[0]), [], [], []);
  }

  /** What closing the part q adds. */
  function ClosedPart(q: Option<seq<Line>>): seq<Mail> {
    if q.Some? then
      var mail := Opened(Joined(q.value));
      AsPart(Parsed(mail.items, mail.rest))
    else []
  }

  /** The loop can go on from s with the part q. */
  predicate Ready(s: seq<byte>, q: Option<seq<Line>>, b: seq<byte>, limit: nat) {
    AllLighter(SplitFrom(LinesOf(s), q, b).closed, limit)
  }

  /** What the loop still has to add. */
  function Remaining(s: seq<byte>, q: Option<seq<Line>>, b: seq<byte>, limit: nat): seq<Mail>
    requires Ready(s, q, b, limit)
  {
    var r := SplitFrom(LinesOf(s), q, b);
    PartsOf(r.closed, limit) + OpenPart(r.open)
  }

  function FirstLine(s: seq<byte>): Line {
    LineOf(s[..Taken(s, LINE)])
  }

  lemma StepAtStart(s: seq<byte>, rest: seq<byte>, q: Option<seq<Line>>, b: seq<byte>, limit: nat)
    requires s != [] && rest == s[Taken(s, LINE)..] && IsStart(b, FirstLine(s)) && Ready(s, q, b, limit)
    ensures Ready(rest, Some([]), b, limit)
    ensures q.Some? ==> Weight(Opened(Joined(q.value)).rest) < limit
    ensures Remaining(s, q, b, limit) == ClosedPart(q) + Remaining(rest, Some([]), b, limit)
  {
    var r := SplitFrom(LinesOf(rest), Some([]), b);
    SplitAtStart(s, rest, q, b);
    if q.Some? {
      OneMoreClosed(q.value, r.closed, limit);
      AssocMails(ClosedPart(q), PartsOf(r.closed, limit), OpenPart(r.open));
    } else {
      assert [] + Remaining(rest, Some([]), b, limit) == Remaining(rest, Some([]), b, limit);
    }
  }

  lemma SplitAtStart(s: seq<byte>, rest: seq<byte>, q: Option<seq<Line>>, b: seq<byte>)
    requires s != [] && rest == s[Taken(s, LINE)..] && IsStart(b, FirstLine(s))
    ensures var r := SplitFrom(LinesOf(rest), Some([]), b);
      SplitFrom(LinesOf(s), q, b) == Split(if q.Some? then [q.value] + r.closed else r.closed, r.open)
  {
    assert LinesOf(s) == [FirstLine(s)] + LinesOf(rest);
    assert LinesOf(s)[1..] == LinesOf(rest);
  }

  lemma OneMoreClosed(lines: seq<Line>, closed: seq<seq<Line>>, limit: nat)
    requires AllLighter([lines] + closed, limit)
    ensures AllLighter(closed, limit) && Weight(Opened(Joined(lines)).rest) < limit
    ensures PartsOf([lines] + closed, limit) == ClosedPart(Some(lines)) + PartsOf(closed, limit)
  {
    assert ([lines] + closed)[1..] == closed;
    PartsOfStep([lines] + closed, limit);
  }

  lemma StepAtEnd(s: seq<byte>, q: Option<seq<Line>>, b: seq<byte>, limit: nat)
    requires s != [] && !IsStart(b, FirstLine(s)) && IsEnd(b, FirstLine(s)) && Ready(s, q, b, limit)
    ensures q.Some? ==> Weight(Opened(Joined(q.value)).rest) < limit
    ensures Remaining(s, q, b, limit) == ClosedPart(q)
  {
    assert LinesOf(s)[0] == FirstLine(s);
    if q.Some? {
      assert [q.value][1..] == [];
      PartsOfStep([q.value], limit);
      assert ClosedPart(q) + [] + [] == ClosedPart(q);
    }
  }

  function Longer(q: Option<seq<Line>>, line: Line): Option<seq<Line>> {
    if q.Some? then Some(q.value + [line]) else None
  }

  lemma StepInside(s: seq<byte>, rest: seq<byte>, q: Option<seq<Line>>, b: seq<byte>, limit: nat)
    requires s != [] && rest == s[Taken(s, LINE)..] && Ready(s, q, b, limit)
    requires !IsStart(b, FirstLine(s)) && !IsEnd(b, FirstLine(s))
    ensures Ready(rest, Longer(q, FirstLine(s)), b, limit)
    ensures Remaining(s, q, b, limit) == Remaining(rest, Longer(q, FirstLine(s)), b, limit)
  {
  }

  lemma StepAtEof(q: Option<seq<Line>>, b: seq<byte>, limit: nat)
    ensures Ready([], q, b, limit) && Remaining([], q, b, limit) == OpenPart(q)
  {
  }

  lemma {:induction false} JoinedMore(lines: seq<Line>, line: Line)
    ensures Joined(lines + [line]) == Joined(lines) + line + CRLF
  {
    if lines == [] {
      assert lines + [line] == [line];
      assert [line][1..] == [];
      assert line + CRLF + [] == [] + line + CRLF;
    } else {
      assert (lines + [line])[1..] == lines[1..] + [line];
      JoinedMore(lines[1..], line);
      assert lines[0] + CRLF + (Joined(lines[1..]) + line + CRLF) == lines[0] + CRLF + Joined(lines[1..]) + line + CRLF;
    }
  }

  // ----- The parser

  method ClosePart(text: seq<byte>, ghost limit: nat) returns (added: seq<Mail>)
    requires Weight(Opened(text).rest) < limit
    ensures added == AsPart(Parsed(Opened(text).items, Opened(text).rest))
    decreases limit, 0
  {
    var q := new InStream(text);
    var header := new ParameterList();
    var count := ReadMIME(q, header);
    var w := ParseMIMEMessage(header.items, q);
    added := if w.Some? then [w.value] else [];
  }

  method ParseMIMEMessage(header: seq<Pair>, body: InStream) returns (w: Option<Mail>)
    requires body.Valid()
    modifies body
    ensures body.Valid() && w == Parsed(header, old(body.Rest()))
    decreases Weight(body.Rest()), 5
  {
    var t := Lookup(header, CONTENT_TYPE);
    if t == [] || !IsMultipart(t) { return Some(Atom(PutAll([], header), body.Rest())); }
    var b := BoundaryOf(t);
    if b.None? { return None; }
    ghost var s := body.Rest();
    LinesWeigh(s);
    PartsAreLighter(LinesOf(s), None, b.value, Weight(s));
    var parts := SplitParts(body, b.value);
    w := Some(Compound(PutAll([], header), parts));
  }

  predicate Collects(q: OutStream?, lines: Option<seq<Line>>)
    reads q
  {
    (q == null <==> lines.None?) && (q != null && lines.Some? ==> q.bytes == Joined(lines.value))
  }

  /** The loop has added parts and collects the lines; all is what it has to add altogether. */
  ghost predicate Underway(all: seq<Mail>, parts: seq<Mail>, s: seq<byte>, lines: Option<seq<Line>>, b: seq<byte>,
                           limit: nat) {
    Ready(s, lines, b, limit) && all == parts + Remaining(s, lines, b, limit)
  }

  method CloseIfAny(q: OutStream?, ghost lines: Option<seq<Line>>, ghost limit: nat) returns (added: seq<Mail>)
    requires Collects(q, lines) && (lines.Some? ==> Weight(Opened(Joined(lines.value)).rest) < limit)
    ensures added == ClosedPart(lines)
    decreases limit, 1
  {
    added := [];
    if q != null { added := ClosePart(q.bytes, limit); }
  }

  /** A boundary line: the part is closed, and another one begins unless it was the end line. */
  method TurnAtBoundary(q: OutStream?, isnew: bool, parts: seq<Mail>, ghost all: seq<Mail>, ghost s: seq<byte>,
                        ghost rest: seq<byte>, ghost lines: Option<seq<Line>>, b: seq<byte>, ghost limit: nat)
    returns (q': OutStream?, parts': seq<Mail>)
    requires s != [] && rest == s[Taken(s, LINE)..] && isnew == IsStart(b, FirstLine(s))
    requires isnew || IsEnd(b, FirstLine(s))
    requires Collects(q, lines) && Underway(all, parts, s, lines, b, limit)
    ensures if isnew then Underway(all, parts', rest, Some([]), b, limit) else all == parts' + OpenPart(None)
    ensures if isnew then Collects(q', Some([])) && fresh(q') else q' == null
    decreases limit, 2
  {
    UnderwayAtBoundary(all, parts, s, rest, lines, b, limit);
    var added := CloseIfAny(q, lines, limit);
    parts' := parts + added;
    q' := null;
    if isnew { q' := new OutStream(); }
  }

  lemma AssocMails(a: seq<Mail>, b: seq<Mail>, c: seq<Mail>)
    ensures a + (b + c) == a + b + c
  {
  }

  lemma UnderwayAtBoundary(all: seq<Mail>, parts: seq<Mail>, s: seq<byte>, rest: seq<byte>, lines: Option<seq<Line>>,
                           b: seq<byte>, limit: nat)
    requires s != [] && rest == s[Taken(s, LINE)..] && (IsStart(b, FirstLine(s)) || IsEnd(b, FirstLine(s)))
    requires Underway(all, parts, s, lines, b, limit)
    ensures lines.Some? ==> Weight(Opened(Joined(lines.value)).rest) < limit
    ensures if IsStart(b, FirstLine(s)) then Underway(all, parts + ClosedPart(lines), rest, Some([]), b, limit)
            else all == parts + ClosedPart(lines) + OpenPart(None)
  {
    if IsStart(b, FirstLine(s)) {
      StepAtStart(s, rest, lines, b, limit);
      AssocMails(parts, ClosedPart(lines), Remaining(rest, Some([]), b, limit));
    } else {
      StepAtEnd(s, lines, b, limit);
    }
  }

  /** Any other line goes to the part that is being collected, if there is one. */
  method TurnInside(q: OutStream?, line: Line, ghost parts: seq<Mail>, ghost all: seq<Mail>, ghost s: seq<byte>,
                    ghost rest: seq<byte>, ghost lines: Option<seq<Line>>, ghost b: seq<byte>, ghost limit: nat)
    requires s != [] && rest == s[Taken(s, LINE)..] && line == FirstLine(s)
    requires !IsStart(b, line) && !IsEnd(b, line)
    requires Collects(q, lines) && Underway(all, parts, s, lines, b, limit)
    modifies q
    ensures Collects(q, Longer(lines, line)) && Underway(all, parts, rest, Longer(lines, line), b, limit)
  {
    StepInside(s, rest, lines, b, limit);
    if q != null {
      JoinedMore(lines.value, line);
      q.WriteBytes(line);
      q.WriteBytes(CRLF);
    }
  }

  method Turn(q: OutStream?, line: Line, parts: seq<Mail>, ghost all: seq<Mail>, ghost s: seq<byte>,
              ghost rest: seq<byte>, ghost lines: Option<seq<Line>>, b: seq<byte>, ghost limit: nat)
    returns (q': OutStream?, parts': seq<Mail>, ghost lines': Option<seq<Line>>, over: bool)
    requires s != [] && rest == s[Taken(s, LINE)..] && line == FirstLine(s)
    requires Collects(q, lines) && Underway(all, parts, s, lines, b, limit)
    modifies q
    ensures Collects(q', lines') && (q' != null ==> q' == q || fresh(q'))
    ensures if over then all == parts' + OpenPart(lines') else Underway(all, parts', rest, lines', b, limit)
    decreases limit, 3
  {
    var isnew := IsStart(b, line);
    over := false;
    if isnew || IsEnd(b, line) {
      q', parts' := TurnAtBoundary(q, isnew, parts, all, s, rest, lines, b, limit);
      lines', over := if isnew then Some([]) else None, !isnew;
    } else {
      TurnInside(q, line, parts, all, s, rest, lines, b, limit);
      q', parts', lines' := q, parts, Longer(lines, line);
    }
  }

  method SplitParts(body: InStream, b: seq<byte>) returns (parts: seq<Mail>)
    requires body.Valid() && Ready(body.Rest(), None, b, Weight(body.Rest()))
    modifies body
    ensures body.Valid()
    ensures parts == Remaining(old(body.Rest()), None, b, Weight(old(body.Rest())))
    decreases Weight(body.Rest()), 4
  {
    ghost var limit, lines: Option<seq<Line>> := Weight(body.Rest()), None;
    ghost var all := Remaining(body.Rest(), None, b, limit);
    var q: OutStream? := null;
    parts := [];
    assert [] + all == all;
    while true
      invariant body.Valid() && Collects(q, lines) && (q != null ==> fresh(q))
      invariant Underway(all, parts, body.Rest(), lines, b, limit)
      decreases |body.Rest()|
    {
      ghost var s := body.Rest();
      var line, n := ReadLine(body);
      if n == 0 {
        StepAtEof(lines, b, limit);
        break;
      }
      var over;
      q, parts, lines, over := Turn(q, line, parts, all, s, body.Rest(), lines, b, limit);
      if over { break; }
    }
    assert all == parts + OpenPart(lines);
    if q != null { parts := parts + [Atom([], q.bytes)]; }
  }
}
