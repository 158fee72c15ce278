/** How the lines of a multipart body fall into parts (RFC 2046 section 5.1.1), as the loop of
    ParseMIMEMessage in ml_mime.cpp sees it. */
module MimeSplits {
  import opened Bytes
  import opened MailLines
  import opened MimeLines

  type Line = seq<byte>

  const DASH: byte := '-' as int

  /** TStr compares without regard to case. */
  predicate IsStart(b: seq<byte>, line: Line) {
    SameIgnoringCase([DASH, DASH] + b, line)
  }

  predicate IsEnd(b: seq<byte>, line: Line) {
    SameIgnoringCase([DASH, DASH] + b + [DASH, DASH], line)
  }

  lemma StartIsNotEnd(b: seq<byte>, line: Line)
    ensures IsStart(b, line) ==> !IsEnd(b, line) && |line| >= 2
  {
  }

  /** The parts a boundary line has closed, and the one still open at the end of the body. */
  datatype Split = Split(closed: seq<seq<Line>>, open: Option<seq<Line>>)

  /** The loop from here on, with q the part being collected. */
  function SplitFrom(lines: seq<Line>, q: Option<seq<Line>>, b: seq<byte>): Split {
    if lines == [] then Split([], q)
    else if IsStart(b, lines[0]) then
      var r := SplitFrom(lines[1..], Some([]), b);
      if q.Some? then Split([q.value] + r.closed, r.open) else r
    else if IsEnd(b, lines[0]) then
      Split(if q.Some? then [q.value] else [], None)
    else SplitFrom(lines[1..], if q.Some? then Some(q.value + [lines[0]]) else None, b)
  }

  // ----- Parts are lighter than the body they come from

  predicate AllLighter(parts: seq<seq<Line>>, limit: nat) {
    parts == [] || (LinesWeight(parts[0]) < limit && AllLighter(parts[1..], limit))
  }

  lemma {:induction false} WeightOfMoreLines(a: seq<Line>, line: Line)
    ensures LinesWeight(a + [line]) == LinesWeight(a) + |line|
  {
    if a == [] {
      assert a + [line] == [line];
      assert [line][1..] == [];
    } else {
      assert (a + [line])[1..] == a[1..] + [line];
      WeightOfMoreLines(a[1..], line);
    }
  }

  lemma {:induction false} PartsAreLighter(lines: seq<Line>, q: Option<seq<Line>>, b: seq<byte>, limit: nat)
    requires if q.Some? then LinesWeight(q.value) + LinesWeight(lines) < limit else LinesWeight(lines) <= limit
    ensures AllLighter(SplitFrom(lines, q, b).closed, limit)
    decreases |lines|
  {
    if lines != [] {
      StartIsNotEnd(b, lines[0]);
      if IsStart(b, lines[0]) {
        PartsAreLighter(lines[1..], Some([]), b, limit);
        var r := SplitFrom(lines[1..], Some([]), b).closed;
        assert q.Some? ==> ([q.value] + r)[1..] == r;
      } else if IsEnd(b, lines[0]) {
        assert q.Some? ==> [q.value][1..] == [];
      } else {
        if q.Some? { WeightOfMoreLines(q.value, lines[0]); }
        PartsAreLighter(lines[1..], if q.Some? then Some(q.value + [lines[0]]) else None, b, limit);
      }
    }
  }

  // ----- What a multipart body is made of

  /** No line is a boundary. */
  predicate Quiet(lines: seq<Line>, b: seq<byte>) {
    lines == [] || (!IsStart(b, lines[0]) && !IsEnd(b, lines[0]) && Quiet(lines[1..], b))
  }

  /** A start line and the lines behind it. */
  datatype Section = Section(start: Line, lines: seq<Line>)

  predicate Sound(sections: seq<Section>, b: seq<byte>) {
    sections == [] ||
    (IsStart(b, sections[0].start) && Quiet(sections[0].lines, b) && Sound(sections[1..], b))
  }

  function Composed(sections: seq<Section>): seq<Line> {
    if sections == [] then [] else [sections[0].start] + sections[0].lines + Composed(sections[1..])
  }

  function Bodies(sections: seq<Section>): seq<seq<Line>> {
    if sections == [] then [] else [sections[0].lines] + Bodies(sections[1..])
  }

  /** Either nothing, or an end line and an epilogue that may hold anything. */
  predicate Tail(tail: seq<Line>, b: seq<byte>) {
    tail == [] || IsEnd(b, tail[0])
  }

  lemma {:induction false} SplitQuiet(lines: seq<Line>, rest: seq<Line>, q: Option<seq<Line>>, b: seq<byte>)
    requires Quiet(lines, b)
    ensures SplitFrom(lines + rest, q, b) ==
      SplitFrom(rest, if q.Some? then Some(q.value + lines) else None, b)
    decreases |lines|
  {
    if lines == [] {
      assert lines + rest == rest;
      assert q.Some? ==> q.value + lines == q.value;
    } else {
      assert (lines + rest)[1..] == lines[1..] + rest;
      SplitQuiet(lines[1..], rest, if q.Some? then Some(q.value + [lines[0]]) else None, b);
      assert q.Some? ==> q.value + [lines[0]] + lines[1..] == q.value + lines;
    }
  }

  /** A part being collected counts as one more in front. */
  function Before(q: Option<seq<Line>>, parts: seq<seq<Line>>): seq<seq<Line>> {
    if q.Some? then [q.value] + parts else parts
  }

  lemma {:induction false} SplitSections(sections: seq<Section>, tail: seq<Line>, q: Option<seq<Line>>, b: seq<byte>)
    requires Sound(sections, b) && Tail(tail, b)
    ensures var r := SplitFrom(Composed(sections) + tail, q, b);
      var all := Before(q, Bodies(sections));
      if tail != [] then r == Split(all, None)
      else if all == [] then r == Split([], None)
      else r == Split(all[..|all| - 1], Some(all[|all| - 1]))
    decreases |sections|
  {
    if sections == [] {
      assert Composed(sections) + tail == tail;
      if tail != [] { StartIsNotEnd(b, tail[0]); }
    } else {
      var first, rest := sections[0], Composed(sections[1..]) + tail;
      assert Composed(sections) + tail == [first.start] + (first.lines + rest);
      SplitSection(first, rest, q, b);
      SplitSections(sections[1..], tail, Some(first.lines), b);
      var inner := Before(Some(first.lines), Bodies(sections[1..]));
      assert inner == Bodies(sections);
      assert q.Some? ==> ([q.value] + inner)[..|inner|] == [q.value] + inner[..|inner| - 1];
    }
  }

  lemma SplitSection(first: Section, rest: seq<Line>, q: Option<seq<Line>>, b: seq<byte>)
    requires IsStart(b, first.start) && Quiet(first.lines, b)
    ensures var r := SplitFrom(rest, Some(first.lines), b);
      SplitFrom([first.start] + (first.lines + rest), q, b) == Split(Before(q, r.closed), r.open)
  {
    assert ([first.start] + (first.lines + rest))[1..] == first.lines + rest;
    SplitQuiet(first.lines, rest, Some([]), b);
    assert [] + first.lines == first.lines;
  }

  /** The parts of a body are exactly the stretches between its boundary lines, in order, up to the
      end line; without an end line the last stretch stays open. */
  lemma PartsAreTheSections(preamble: seq<Line>, sections: seq<Section>, tail: seq<Line>, b: seq<byte>)
    requires Quiet(preamble, b) && Sound(sections, b) && Tail(tail, b)
    ensures var r := SplitFrom(preamble + (Composed(sections) + tail), None, b);
      var all := Bodies(sections);
      if tail != [] then r == Split(all, None)
      else if all == [] then r == Split([], None)
      else r == Split(all[..|all| - 1], Some(all[|all| - 1]))
  {
    SplitQuiet(preamble, Composed(sections) + tail, None, b);
    SplitSections(sections, tail, None, b);
  }

  lemma SectionAdded(line: Line, p: seq<Line>, s: seq<Section>, t: seq<Line>)
    ensures var sections := [Section(line, p)] + s;
      sections[1..] == s && [] + (Composed(sections) + t) == [line] + (p + (Composed(s) + t))
  {
  }

  /** Every body is of that shape. */
  lemma {:induction false} EveryBodyIsComposed(lines: seq<Line>, b: seq<byte>)
    returns (preamble: seq<Line>, sections: seq<Section>, tail: seq<Line>)
    ensures Quiet(preamble, b) && Sound(sections, b) && Tail(tail, b)
    ensures lines == preamble + (Composed(sections) + tail)
  {
    if lines == [] {
      preamble, sections, tail := [], [], [];
    } else {
      var p, s, t := EveryBodyIsComposed(lines[1..], b);
      var line := lines[0];
      assert lines == [line] + lines[1..];
      if IsStart(b, line) {
        preamble, sections, tail := [], [Section(line, p)] + s, t;
        SectionAdded(line, p, s, t);
      } else if IsEnd(b, line) {
        preamble, sections, tail := [], [], lines;
        assert [] + (Composed([]) + lines) == lines;
      } else {
        preamble, sections, tail := [line] + p, s, t;
        assert ([line] + p)[1..] == p;
        assert [line] + p + (Composed(s) + t) == [line] + (p + (Composed(s) + t));
      }
    }
  }
}
