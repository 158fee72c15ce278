/** Parsing a composed message gives back the tree it was composed from. */
module MimeRoundTrips {
  import opened Bytes
  import opened Params
  import opened MailLines
  import opened MimeLines
  import opened MimeHeaders
  import opened MimeSplits
  import opened MimeParses

  // ----- Composing

  /** A message before it is written: a compound one names its boundary and how its content type is spelt. */
  datatype Tree =
    | Leaf(header: seq<Pair>, body: seq<byte>)
    | Node(header: seq<Pair>, kind: seq<byte>, b: seq<byte>, quoted: bool, more: seq<byte>, parts: seq<Tree>)

  /** The message that it should be read as. */
  function MailOf(t: Tree): Mail
    decreases t, 0
  {
    match t
    case Leaf(header, body) => Atom(header, body)
    case Node(header, _, _, _, _, parts) => Compound(header, MailsOf(parts))
  }

  function MailsOf(parts: seq<Tree>): seq<Mail>
    decreases parts, 1
  {
    if parts == [] then [] else [MailOf(parts[0])] + MailsOf(parts[1..])
  }

  function StartLine(b: seq<byte>): Line { [0x2D, 0x2D] + b }
  function EndLine(b: seq<byte>): Line { [0x2D, 0x2D] + b + [0x2D, 0x2D] }

  function MailText(t: Tree): seq<byte>
    decreases t, 1
  {
    HeaderText(t.header, BodyText(t))
  }

  function BodyText(t: Tree): seq<byte>
    decreases t, 0
  {
    match t
    case Leaf(_, body) => body
    case Node(_, _, b, _, _, parts) => Joined(BodyLines(parts, b))
  }

  function BodyLines(parts: seq<Tree>, b: seq<byte>): seq<Line>
    decreases parts, 3
  {
    Composed(Sections(parts, b)) + [EndLine(b)]
  }

  function Sections(parts: seq<Tree>, b: seq<byte>): seq<Section>
    decreases parts, 2
  {
    if parts == [] then []
    else [Section(StartLine(b), LinesOf(MailText(parts[0])))] + Sections(parts[1..], b)
  }

  // ----- What can be composed

  /** The text consists of lines that end in CRLF and none of which is a boundary. */
  predicate Enclosable(text: seq<byte>, b: seq<byte>) {
    Joined(LinesOf(text)) == text && Quiet(LinesOf(text), b)
  }

  predicate ProperHeader(header: seq<Pair>) {
    ProperPairs(header) && Distinct(header)
  }

  /** The content type of a leaf does not say multipart anywhere; that of a node is written as such and names
      the boundary. */
  predicate WellFormed(t: Tree)
    decreases t, 0
  {
    var typ := Lookup(t.header, Ascii("Content-Type"));
    && ProperHeader(t.header)
    && match t
       case Leaf(_, _) => Nowhere(typ, Ascii("multipart"))
       case Node(_, kind, b, quoted, more, parts) =>
         && typ == ContentType(kind, b, quoted, more) && ProperType(kind, b, quoted, more)
         && AllPlain(BodyLines(parts, b)) && AllShort(BodyLines(parts, b)) && AllWellFormed(parts, b)
  }

  predicate AllWellFormed(parts: seq<Tree>, b: seq<byte>)
    decreases parts, 1
  {
    parts == [] ||
    (WellFormed(parts[0]) && Enclosable(MailText(parts[0]), b) && AllWellFormed(parts[1..], b))
  }

  // ----- Parsing what was composed

  lemma HeaderComesBack(header: seq<Pair>, more: seq<byte>)
    requires ProperHeader(header)
    ensures Opened(HeaderText(header, more)) == Headed(header, more)
    ensures PutAll([], header) == header
  {
    NothingUsed(header);
    HeaderIsRead(header, more, [], [], []);
    ProperPairsCopy(header);
    PutAllNew([], header);
    assert [] + header == header;
  }

  lemma {:induction false} SectionsAreSound(parts: seq<Tree>, b: seq<byte>)
    requires AllWellFormed(parts, b)
    ensures Sound(Sections(parts, b), b)
    decreases |parts|
  {
    if parts != [] {
      SectionsAreSound(parts[1..], b);
      assert Sections(parts, b)[1..] == Sections(parts[1..], b);
    }
  }

  lemma SplitComposed(parts: seq<Tree>, b: seq<byte>)
    requires AllWellFormed(parts, b) && AllPlain(BodyLines(parts, b)) && AllShort(BodyLines(parts, b))
    ensures SplitFrom(LinesOf(Joined(BodyLines(parts, b))), None, b) == Split(Bodies(Sections(parts, b)), None)
  {
    JoinedLinesAreRead(BodyLines(parts, b));
    SectionsAreSound(parts, b);
    PartsAreTheSections([], Sections(parts, b), [EndLine(b)], b);
    assert [] + BodyLines(parts, b) == BodyLines(parts, b);
  }

  lemma {:induction false} PartsComeBack(parts: seq<Tree>, b: seq<byte>, limit: nat)
    requires AllWellFormed(parts, b) && AllLighter(Bodies(Sections(parts, b)), limit)
    ensures PartsOf(Bodies(Sections(parts, b)), limit) == MailsOf(parts)
    decreases parts, 0
  {
    if parts != [] {
      var bodies := Bodies(Sections(parts, b));
      assert Sections(parts, b)[1..] == Sections(parts[1..], b);
      assert bodies[1..] == Bodies(Sections(parts[1..], b));
      PartsOfStep(bodies, limit);
      ParseUndoesCompose(parts[0]);
      PartsComeBack(parts[1..], b, limit);
    }
  }

  /** The whole tree comes back, however deeply its parts are nested and whether or not its boundaries are
      quoted. */
  lemma {:induction false} ParseUndoesCompose(t: Tree)
    requires WellFormed(t)
    ensures var text := Opened(MailText(t));
      text == Headed(t.header, BodyText(t)) && Parsed(text.items, text.rest) == Some(MailOf(t))
    decreases t, 1
  {
    HeaderComesBack(t.header, BodyText(t));
    match t
    case Leaf(header, body) => LeafComesBack(header, body);
    case Node(_, _, _, _, _, _) => NodeComesBack(t);
  }

  lemma LeafComesBack(header: seq<Pair>, body: seq<byte>)
    requires ProperHeader(header) && Nowhere(Lookup(header, Ascii("Content-Type")), Ascii("multipart"))
    ensures Parsed(header, body) == Some(Atom(header, body))
  {
    HeaderComesBack(header, body);
    var k := FromIsEarliest(Lookup(header, Ascii("Content-Type")), Ascii("multipart"));
  }

  lemma {:induction false} NodeComesBack(t: Tree)
    requires WellFormed(t) && t.Node?
    ensures Parsed(t.header, BodyText(t)) == Some(MailOf(t))
    decreases t, 0
  {
    var b, body := t.b, BodyText(t);
    var bodies := Bodies(Sections(t.parts, b));
    TypeGivesBoundary(t.kind, b, t.quoted, t.more);
    HeaderComesBack(t.header, body);
    SplitComposed(t.parts, b);
    LinesWeigh(body);
    PartsAreLighter(LinesOf(body), None, b, Weight(body));
    PartsComeBack(t.parts, b, Weight(body));
    assert MailsOf(t.parts) + OpenPart(None) == MailsOf(t.parts);
  }

  // ----- Messages that are not whole

  /** A multipart message that names no boundary is not read at all, and as a part it is dropped. */
  lemma MissingBoundaryIsDropped(header: seq<Pair>, body: seq<byte>, k: nat)
    requires StandsAt(Lookup(header, Ascii("Content-Type")), Ascii("multipart"), k)
    requires Nowhere(Lookup(header, Ascii("Content-Type")), Ascii("boundary="))
    ensures Parsed(header, body) == None && AsPart(Parsed(header, body)) == []
  {
    var t := Lookup(header, Ascii("Content-Type"));
    var j := FromIsEarliest(t, Ascii("multipart"));
    var i := FromIsEarliest(t, Ascii("boundary="));
    assert k <= |t|;
  }

  /** A part whose end is missing is kept as it came, header and all. */
  lemma UnclosedPartIsKept(preamble: seq<Line>, part: seq<Line>, b: seq<byte>, limit: nat)
    requires Quiet(preamble, b) && Quiet(part, b)
    ensures var r := SplitFrom(preamble + ([StartLine(b)] + part), None, b);
      r == Split([], Some(part)) && PartsOf(r.closed, limit) + OpenPart(r.open) == [Atom([], Joined(part))]
  {
    var section := Section(StartLine(b), part);
    SplitQuiet(preamble, [StartLine(b)] + part, None, b);
    assert ([StartLine(b)] + part)[1..] == part;
    assert part + [] == part && [] + part == part;
    SplitQuiet(part, [], Some([]), b);
  }

  /** Which lines are boundary lines, byte by byte. */
  lemma BoundaryLinesInBytes(b: seq<byte>, line: Line)
    ensures IsStart(b, line) <==>
      |line| == |b| + 2 && line[0] == 0x2D && line[1] == 0x2D && SameIgnoringCase(b, line[2..])
    ensures IsEnd(b, line) <==>
      && |line| == |b| + 4 && line[0] == 0x2D && line[1] == 0x2D && SameIgnoringCase(b, line[2..|b| + 2])
      && line[|b| + 2] == 0x2D && line[|b| + 3] == 0x2D
  {
    DashIsItself();
    if |line| >= |b| + 2 {
      SameBehindDashes(b, line[..|b| + 2]);
    }
    if |line| == |b| + 2 {
      assert line[..|b| + 2] == line;
    }
    if |line| == |b| + 4 {
      SameBeforeDashes(b, line);
      assert line[..|b| + 2][2..] == line[2..|b| + 2];
    }
  }

  lemma DashIsItself()
    ensures forall c: byte :: Lower(c) == Lower(0x2D) <==> c == 0x2D
  {
  }

  lemma SameBehindDashes(b: seq<byte>, line: Line)
    requires |line| == |b| + 2 && forall c: byte :: Lower(c) == Lower(0x2D) <==> c == 0x2D
    ensures SameIgnoringCase([0x2D, 0x2D] + b, line) <==>
      line[0] == 0x2D && line[1] == 0x2D && SameIgnoringCase(b, line[2..])
  {
    var d := [0x2D, 0x2D] + b;
    assert d[1..] == [0x2D] + b && d[1..][1..] == b && line[1..][1..] == line[2..];
    SameBehindFirst(d, line);
    SameBehindFirst(d[1..], line[1..]);
  }

  lemma SameBeforeDashes(b: seq<byte>, line: Line)
    requires |line| == |b| + 4 && forall c: byte :: Lower(c) == Lower(0x2D) <==> c == 0x2D
    ensures SameIgnoringCase([0x2D, 0x2D] + b + [0x2D, 0x2D], line) <==>
      SameIgnoringCase([0x2D, 0x2D] + b, line[..|b| + 2]) && line[|b| + 2] == 0x2D && line[|b| + 3] == 0x2D
  {
    var d := [0x2D, 0x2D] + b;
    var all := d + [0x2D, 0x2D];
    assert forall k :: 0 <= k < |d| ==> all[k] == d[k] && line[..|d|][k] == line[k];
    assert all[|d|] == 0x2D && all[|d| + 1] == 0x2D;
  }
}
