/** What a flood fill means: connected components of zero pixels, and how four fills make one. */
module FloodFill {
  import opened Bytes
  import opened GifReader

  datatype Point = Point(x: int, y: int)

  predicate InGrid(w: nat, h: nat, p: Point) {
    0 <= p.x < w && 0 <= p.y < h
  }

  function IndexAt(w: nat, h: nat, p: Point): (k: nat)
    requires InGrid(w, h, p)
    ensures k < Times(h, w)
  {
    TimesFits(p.y, h, w);
    Times(p.y, w) + p.x
  }

  lemma IndexAtIsInjective(w: nat, h: nat, p: Point, q: Point)
    requires InGrid(w, h, p) && InGrid(w, h, q) && IndexAt(w, h, p) == IndexAt(w, h, q)
    ensures p == q
  {
    if p.y < q.y {
      TimesFits(p.y, q.y, w);
    } else if q.y < p.y {
      TimesFits(q.y, p.y, w);
    }
  }

  lemma {:induction false} EveryIndexIsAPoint(w: nat, h: nat, k: nat) returns (p: Point)
    requires k < Times(h, w)
    ensures InGrid(w, h, p) && IndexAt(w, h, p) == k
    decreases h
  {
    if k >= Times(h - 1, w) {
      p := Point(k - Times(h - 1, w), h - 1);
    } else {
      p := EveryIndexIsAPoint(w, h - 1, k);
    }
  }

  /** A pixel of the image that is still zero. */
  predicate Open(img: seq<byte>, w: nat, h: nat, p: Point)
    requires |img| == Times(h, w)
  {
    InGrid(w, h, p) && img[IndexAt(w, h, p)] == 0
  }

  predicate Adjacent(p: Point, q: Point) {
    (p.y == q.y && (q.x == p.x + 1 || q.x == p.x - 1)) || (p.x == q.x && (q.y == p.y + 1 || q.y == p.y - 1))
  }

  /** The neighbours in the order in which they are visited. */
  function Around(p: Point): seq<Point> {
    [Point(p.x + 1, p.y), Point(p.x, p.y + 1), Point(p.x - 1, p.y), Point(p.x, p.y - 1)]
  }

  /** None of the neighbours is open. */
  predicate Isolated(img: seq<byte>, w: nat, h: nat, p: Point)
    requires |img| == Times(h, w)
  {
    forall q | q in Around(p) :: !Open(img, w, h, q)
  }

  /** A 4-connected path of open pixels. */
  predicate Path(img: seq<byte>, w: nat, h: nat, s: Point, path: seq<Point>, p: Point)
    requires |img| == Times(h, w)
    decreases |path|
  {
    if path == [] then s == p && Open(img, w, h, s)
    else Open(img, w, h, s) && Adjacent(s, path[0]) && Path(img, w, h, path[0], path[1..], p)
  }

  ghost predicate Connected(img: seq<byte>, w: nat, h: nat, s: Point, p: Point)
    requires |img| == Times(h, w)
  {
    exists path: seq<Point> :: Path(img, w, h, s, path, p)
  }

  /** Nothing but open pixels changed, and those to c. */
  ghost predicate Recoloured(before: seq<byte>, after: seq<byte>, c: byte) {
    |after| == |before| && forall k :: 0 <= k < |before| ==> after[k] == before[k] || (before[k] == 0 && after[k] == c)
  }

  ghost predicate Changed(before: seq<byte>, after: seq<byte>, w: nat, h: nat, p: Point)
    requires |before| == |after| == Times(h, w)
  {
    Open(before, w, h, p) && !Open(after, w, h, p)
  }

  /** The changed pixels are connected to s, and they leave no open neighbour behind. */
  ghost predicate Filled(before: seq<byte>, after: seq<byte>, w: nat, h: nat, s: Point, c: byte) {
    && |before| == Times(h, w) && Recoloured(before, after, c)
    && (forall p :: Changed(before, after, w, h, p) ==> Connected(before, w, h, s, p))
    && (forall p, q :: Changed(before, after, w, h, p) && Adjacent(p, q) ==> !Open(after, w, h, q))
    && !Open(after, w, h, s)
  }

  /** The exact meaning: the component of s is recoloured, and everything else is as before. */
  ghost predicate ComponentFilled(before: seq<byte>, after: seq<byte>, w: nat, h: nat, s: Point, c: byte) {
    && |before| == |after| == Times(h, w)
    && forall p :: InGrid(w, h, p) ==>
         after[IndexAt(w, h, p)] == if Connected(before, w, h, s, p) then c else before[IndexAt(w, h, p)]
  }

  lemma {:induction false} PathIsChanged(before: seq<byte>, after: seq<byte>, w: nat, h: nat, s: Point, c: byte,
                                         from: Point, path: seq<Point>, p: Point)
    requires Filled(before, after, w, h, s, c) && Path(before, w, h, from, path, p)
    requires Changed(before, after, w, h, from)
    ensures Changed(before, after, w, h, p)
    decreases |path|
  {
    if path != [] {
      assert !Open(after, w, h, path[0]);
      PathIsChanged(before, after, w, h, s, c, path[0], path[1..], p);
    }
  }

  lemma FilledIsComponent(before: seq<byte>, after: seq<byte>, w: nat, h: nat, s: Point, c: byte)
    requires Filled(before, after, w, h, s, c) && (c != 0 || !Open(before, w, h, s))
    ensures ComponentFilled(before, after, w, h, s, c)
  {
    forall p | InGrid(w, h, p)
      ensures after[IndexAt(w, h, p)] == if Connected(before, w, h, s, p) then c else before[IndexAt(w, h, p)]
    {
      if Connected(before, w, h, s, p) {
        var path :| Path(before, w, h, s, path, p);
        assert Open(before, w, h, s);
        PathIsChanged(before, after, w, h, s, c, s, path, p);
      } else {
        assert !Changed(before, after, w, h, p);
      }
    }
  }

  lemma {:induction false} PathInEarlierImage(img: seq<byte>, later: seq<byte>, w: nat, h: nat, s: Point,
                                              path: seq<Point>, p: Point)
    requires |img| == |later| == Times(h, w)
    requires forall q :: Open(later, w, h, q) ==> Open(img, w, h, q)
    requires Path(later, w, h, s, path, p)
    ensures Path(img, w, h, s, path, p)
    decreases |path|
  {
    if path != [] {
      PathInEarlierImage(img, later, w, h, path[0], path[1..], p);
    }
  }

  /** Part way through filling from s: like Filled, but s itself may still have open neighbours. */
  ghost predicate Filling(before: seq<byte>, now: seq<byte>, w: nat, h: nat, s: Point, c: byte) {
    && |before| == Times(h, w) && Recoloured(before, now, c) && c != 0
    && Changed(before, now, w, h, s)
    && (forall p :: Changed(before, now, w, h, p) ==> Connected(before, w, h, s, p))
    && (forall p, q :: Changed(before, now, w, h, p) && p != s && Adjacent(p, q) ==> !Open(now, w, h, q))
  }

  lemma FirstPixel(before: seq<byte>, w: nat, h: nat, s: Point, c: byte)
    requires |before| == Times(h, w) && Open(before, w, h, s) && c != 0
    ensures Filling(before, before[IndexAt(w, h, s) := c], w, h, s, c)
  {
    var now := before[IndexAt(w, h, s) := c];
    forall p | Changed(before, now, w, h, p) ensures p == s {
      if p != s && IndexAt(w, h, p) == IndexAt(w, h, s) {
        IndexAtIsInjective(w, h, p, s);
      }
    }
    assert Path(before, w, h, s, [], s);
  }

  lemma OnlyClosing(before: seq<byte>, now: seq<byte>, w: nat, h: nat, c: byte)
    requires |before| == Times(h, w) && Recoloured(before, now, c) && c != 0
    ensures forall q :: Open(now, w, h, q) ==> Open(before, w, h, q)
  {
  }

  /** Filling from a neighbour of s continues the filling from s. */
  lemma NeighbourFilled(before: seq<byte>, now: seq<byte>, next: seq<byte>, w: nat, h: nat, s: Point, t: Point, c: byte)
    requires Filling(before, now, w, h, s, c) && Adjacent(s, t)
    requires Filled(now, next, w, h, t, c)
    ensures Filling(before, next, w, h, s, c) && !Open(next, w, h, t)
    ensures NoneOpened(now, next, w, h)
  {
    OnlyClosing(before, now, w, h, c);
    OnlyClosing(now, next, w, h, c);
    forall p | Changed(before, next, w, h, p) ensures Connected(before, w, h, s, p) {
      if Changed(now, next, w, h, p) {
        var path :| Path(now, w, h, t, path, p);
        PathInEarlierImage(before, now, w, h, t, path, p);
        assert ([t] + path)[1..] == path;
        assert Path(before, w, h, s, [t] + path, p);
      } else {
        assert Changed(before, now, w, h, p);
      }
    }
    forall p, q | Changed(before, next, w, h, p) && p != s && Adjacent(p, q) ensures !Open(next, w, h, q) {
      if !Changed(now, next, w, h, p) {
        assert Changed(before, now, w, h, p);
      }
    }
  }

  ghost predicate NoneOpened(before: seq<byte>, after: seq<byte>, w: nat, h: nat) {
    |before| == |after| == Times(h, w) && forall q :: Open(after, w, h, q) ==> Open(before, w, h, q)
  }

  lemma ClosedAllAround(now1: seq<byte>, now2: seq<byte>, now3: seq<byte>, now4: seq<byte>, w: nat, h: nat, s: Point)
    requires NoneOpened(now1, now2, w, h) && NoneOpened(now2, now3, w, h) && NoneOpened(now3, now4, w, h)
    requires !Open(now1, w, h, Around(s)[0]) && !Open(now2, w, h, Around(s)[1])
    requires !Open(now3, w, h, Around(s)[2]) && !Open(now4, w, h, Around(s)[3])
    ensures Isolated(now4, w, h, s)
  {
  }

  /** Once all four neighbours are done, so is the fill. */
  lemma FillingDone(before: seq<byte>, now: seq<byte>, w: nat, h: nat, s: Point, c: byte)
    requires Filling(before, now, w, h, s, c) && Isolated(now, w, h, s)
    ensures Filled(before, now, w, h, s, c)
  {
    assert forall q :: Adjacent(s, q) ==> q in Around(s);
  }

  /** Where a fill from s stands while it visits the neighbours. */
  ghost predicate UnderWay(before: seq<byte>, now: seq<byte>, w: nat, h: nat, s: Point, c: byte) {
    if c == 0 then |before| == Times(h, w) && now == before && Isolated(before, w, h, s)
    else Filling(before, now, w, h, s, c)
  }

  lemma {:induction false} PathEndsOpen(img: seq<byte>, w: nat, h: nat, s: Point, path: seq<Point>, p: Point)
    requires |img| == Times(h, w) && Path(img, w, h, s, path, p)
    ensures Open(img, w, h, p)
    decreases |path|
  {
    if path != [] {
      PathEndsOpen(img, w, h, path[0], path[1..], p);
    }
  }

  lemma ZeroFillIsComponent(img: seq<byte>, w: nat, h: nat, s: Point)
    requires |img| == Times(h, w)
    ensures ComponentFilled(img, img, w, h, s, 0)
  {
    forall p | Connected(img, w, h, s, p)
      ensures Open(img, w, h, p)
    {
      var path :| Path(img, w, h, s, path, p);
      PathEndsOpen(img, w, h, s, path, p);
    }
  }

  // ----- the calls themselves

  /** The image after a fill from p with at most `depth` calls open at a time, or None if it needs more. */
  function FillWithin(img: seq<byte>, w: nat, h: nat, p: Point, c: byte, depth: nat): (r: Option<seq<byte>>)
    requires |img| == Times(h, w)
    ensures r.Some? ==> |r.value| == |img|
    decreases depth, 0
  {
    if depth == 0 then None
    else if !Open(img, w, h, p) then Some(img)
    else FillEach(img[IndexAt(w, h, p) := c], w, h, Around(p), c, depth - 1)
  }

  function FillEach(img: seq<byte>, w: nat, h: nat, ps: seq<Point>, c: byte, depth: nat): (r: Option<seq<byte>>)
    requires |img| == Times(h, w)
    ensures r.Some? ==> |r.value| == |img|
    decreases depth, |ps|
  {
    if ps == [] then Some(img)
    else match FillWithin(img, w, h, ps[0], c, depth)
      case None => None
      case Some(next) => FillEach(next, w, h, ps[1..], c, depth)
  }

  lemma {:induction false} MoreDepth(img: seq<byte>, w: nat, h: nat, p: Point, c: byte, depth: nat, more: nat)
    requires |img| == Times(h, w) && depth <= more && FillWithin(img, w, h, p, c, depth).Some?
    ensures FillWithin(img, w, h, p, c, more) == FillWithin(img, w, h, p, c, depth)
    decreases depth, 0
  {
    if Open(img, w, h, p) {
      MoreDepthEach(img[IndexAt(w, h, p) := c], w, h, Around(p), c, depth - 1, more - 1);
    }
  }

  lemma {:induction false} MoreDepthEach(img: seq<byte>, w: nat, h: nat, ps: seq<Point>, c: byte, depth: nat, more: nat)
    requires |img| == Times(h, w) && depth <= more && FillEach(img, w, h, ps, c, depth).Some?
    ensures FillEach(img, w, h, ps, c, more) == FillEach(img, w, h, ps, c, depth)
    decreases depth, |ps|
  {
    if ps != [] {
      MoreDepth(img, w, h, ps[0], c, depth, more);
      MoreDepthEach(FillWithin(img, w, h, ps[0], c, depth).value, w, h, ps[1..], c, depth, more);
    }
  }

  /** A fill from p and then from each of ps fit in the greater of their depths. */
  lemma FillFirst(img: seq<byte>, next: seq<byte>, w: nat, h: nat, p: Point, ps: seq<Point>, c: byte, d: nat, e: nat)
    returns (depth: nat)
    requires |img| == |next| == Times(h, w)
    requires FillWithin(img, w, h, p, c, d) == Some(next) && FillEach(next, w, h, ps, c, e).Some?
    ensures FillEach(img, w, h, [p] + ps, c, depth) == FillEach(next, w, h, ps, c, e)
  {
    depth := if d <= e then e else d;
    MoreDepth(img, w, h, p, c, d, depth);
    MoreDepthEach(next, w, h, ps, c, e, depth);
    assert ([p] + ps)[1..] == ps;
  }

  lemma FillAllFour(now0: seq<byte>, now1: seq<byte>, now2: seq<byte>, now3: seq<byte>, now4: seq<byte>,
                    w: nat, h: nat, s: Point, c: byte, d0: nat, d1: nat, d2: nat, d3: nat)
    returns (depth: nat)
    requires |now0| == |now1| == |now2| == |now3| == |now4| == Times(h, w)
    requires FillWithin(now0, w, h, Around(s)[0], c, d0) == Some(now1)
    requires FillWithin(now1, w, h, Around(s)[1], c, d1) == Some(now2)
    requires FillWithin(now2, w, h, Around(s)[2], c, d2) == Some(now3)
    requires FillWithin(now3, w, h, Around(s)[3], c, d3) == Some(now4)
    ensures FillEach(now0, w, h, Around(s), c, depth) == Some(now4)
  {
    var ps := Around(s);
    depth := FillFirst(now3, now4, w, h, ps[3], [], c, d3, 0);
    depth := FillFirst(now2, now3, w, h, ps[2], [ps[3]], c, d2, depth);
    depth := FillFirst(now1, now2, w, h, ps[1], [ps[2], ps[3]], c, d1, depth);
    depth := FillFirst(now0, now1, w, h, ps[0], [ps[1], ps[2], ps[3]], c, d0, depth);
  }

  lemma AllFourDone(now0: seq<byte>, now1: seq<byte>, now2: seq<byte>, now3: seq<byte>, now4: seq<byte>,
                    w: nat, h: nat, s: Point, c: byte, d0: nat, d1: nat, d2: nat, d3: nat)
    returns (depth: nat)
    requires |now0| == |now1| == |now2| == |now3| == |now4| == Times(h, w)
    requires FillWithin(now0, w, h, Around(s)[0], c, d0) == Some(now1)
    requires FillWithin(now1, w, h, Around(s)[1], c, d1) == Some(now2)
    requires FillWithin(now2, w, h, Around(s)[2], c, d2) == Some(now3)
    requires FillWithin(now3, w, h, Around(s)[3], c, d3) == Some(now4)
    requires NoneOpened(now1, now2, w, h) && NoneOpened(now2, now3, w, h) && NoneOpened(now3, now4, w, h)
    requires c != 0 ==> !Open(now1, w, h, Around(s)[0]) && !Open(now2, w, h, Around(s)[1])
    requires c != 0 ==> !Open(now3, w, h, Around(s)[2]) && !Open(now4, w, h, Around(s)[3])
    ensures FillEach(now0, w, h, Around(s), c, depth) == Some(now4)
    ensures c != 0 ==> Isolated(now4, w, h, s)
  {
    depth := FillAllFour(now0, now1, now2, now3, now4, w, h, s, c, d0, d1, d2, d3);
    if c != 0 {
      ClosedAllAround(now1, now2, now3, now4, w, h, s);
    }
  }

  /** Filling with a zero byte leaves the pixel open: the call returns if and only if it finds no open
      neighbour to go back and forth with. */
  lemma ZeroFillReturns(img: seq<byte>, w: nat, h: nat, p: Point)
    requires |img| == Times(h, w)
    ensures (exists depth :: FillWithin(img, w, h, p, 0, depth).Some?) <==>
      !Open(img, w, h, p) || Isolated(img, w, h, p)
  {
    if !Open(img, w, h, p) || Isolated(img, w, h, p) {
      ZeroFillStops(img, w, h, p);
    } else {
      forall depth: nat
        ensures FillWithin(img, w, h, p, 0, depth).None?
      {
        ZeroFillNeverStops(img, w, h, p, depth);
      }
    }
  }

  lemma ZeroFillStops(img: seq<byte>, w: nat, h: nat, p: Point)
    requires |img| == Times(h, w) && (!Open(img, w, h, p) || Isolated(img, w, h, p))
    ensures FillWithin(img, w, h, p, 0, 2) == Some(img)
  {
    if Open(img, w, h, p) {
      assert img[IndexAt(w, h, p) := 0] == img;
      NothingToFill(img, w, h, Around(p), 0);
    }
  }

  lemma {:induction false} NothingToFill(img: seq<byte>, w: nat, h: nat, ps: seq<Point>, c: byte)
    requires |img| == Times(h, w) && forall q | q in ps :: !Open(img, w, h, q)
    ensures FillEach(img, w, h, ps, c, 1) == Some(img)
  {
    if ps != [] {
      NothingToFill(img, w, h, ps[1..], c);
    }
  }

  lemma {:induction false} ZeroFillNeverStops(img: seq<byte>, w: nat, h: nat, p: Point, depth: nat)
    requires |img| == Times(h, w) && Open(img, w, h, p) && !Isolated(img, w, h, p)
    ensures FillWithin(img, w, h, p, 0, depth).None?
    decreases depth, 0
  {
    if depth > 0 {
      assert img[IndexAt(w, h, p) := 0] == img;
      var q :| q in Around(p) && Open(img, w, h, q);
      assert p in Around(q);
      EachNeverStops(img, w, h, Around(p), q, depth - 1);
    }
  }

  lemma {:induction false} EachNeverStops(img: seq<byte>, w: nat, h: nat, ps: seq<Point>, q: Point, depth: nat)
    requires |img| == Times(h, w) && q in ps && Open(img, w, h, q) && !Isolated(img, w, h, q)
    ensures FillEach(img, w, h, ps, 0, depth).None?
    decreases depth, |ps|
  {
    if ps[0] == q {
      ZeroFillNeverStops(img, w, h, q, depth);
    } else if FillWithin(img, w, h, ps[0], 0, depth).Some? {
      ZeroFillKeeps(img, w, h, ps[0], depth);
      EachNeverStops(img, w, h, ps[1..], q, depth);
    }
  }

  lemma {:induction false} ZeroFillKeeps(img: seq<byte>, w: nat, h: nat, p: Point, depth: nat)
    requires |img| == Times(h, w) && FillWithin(img, w, h, p, 0, depth).Some?
    ensures FillWithin(img, w, h, p, 0, depth) == Some(img)
    decreases depth, 0
  {
    if Open(img, w, h, p) {
      assert img[IndexAt(w, h, p) := 0] == img;
      ZeroFillsKeep(img, w, h, Around(p), depth - 1);
    }
  }

  lemma {:induction false} ZeroFillsKeep(img: seq<byte>, w: nat, h: nat, ps: seq<Point>, depth: nat)
    requires |img| == Times(h, w) && FillEach(img, w, h, ps, 0, depth).Some?
    ensures FillEach(img, w, h, ps, 0, depth) == Some(img)
    decreases depth, |ps|
  {
    if ps != [] {
      ZeroFillKeeps(img, w, h, ps[0], depth);
      ZeroFillsKeep(img, w, h, ps[1..], depth);
    }
  }

  // ----- termination

  function ZeroCount(img: seq<byte>): nat {
    if img == [] then 0 else ZeroCount(img[..|img| - 1]) + (if img[|img| - 1] == 0 then 1 else 0)
  }

  lemma {:induction false} RecolouredZeroCount(before: seq<byte>, after: seq<byte>, c: byte)
    requires Recoloured(before, after, c) && c != 0
    ensures ZeroCount(after) <= ZeroCount(before)
    ensures (exists k :: 0 <= k < |before| && after[k] != before[k]) ==> ZeroCount(after) < ZeroCount(before)
    decreases |before|
  {
    if before != [] {
      var n := |before| - 1;
      RecolouredZeroCount(before[..n], after[..n], c);
      if k :| 0 <= k < |before| && after[k] != before[k] {
        if k < n {
          assert after[..n][k] != before[..n][k];
        }
      }
    }
  }

  // ----- one call, with any colour

  lemma FillStarted(before: seq<byte>, now: seq<byte>, w: nat, h: nat, s: Point, c: byte)
    requires |before| == Times(h, w) && Open(before, w, h, s) && (c != 0 || Isolated(before, w, h, s))
    requires now == before[IndexAt(w, h, s) := c]
    ensures UnderWay(before, now, w, h, s, c)
  {
    if c == 0 {
      assert now == before;
    } else {
      FirstPixel(before, w, h, s, c);
    }
  }

  lemma FillEnds(before: seq<byte>, now: seq<byte>, w: nat, h: nat, s: Point, c: byte)
    requires UnderWay(before, now, w, h, s, c)
    requires c != 0 ==> Isolated(now, w, h, s)
    ensures c != 0 ==> Filled(before, now, w, h, s, c)
    ensures ComponentFilled(before, now, w, h, s, c)
  {
    if c == 0 {
      ZeroFillIsComponent(before, w, h, s);
    } else {
      FillingDone(before, now, w, h, s, c);
      FilledIsComponent(before, now, w, h, s, c);
    }
  }

  /** A neighbour either starts with fewer open pixels or has nothing to do. */
  lemma FewerToFill(before: seq<byte>, now: seq<byte>, w: nat, h: nat, s: Point, t: Point, c: byte)
    requires UnderWay(before, now, w, h, s, c) && Adjacent(s, t)
    ensures |now| == |before| == Times(h, w)
    ensures if c == 0 then now == before && !Open(now, w, h, t) else ZeroCount(now) < ZeroCount(before)
  {
    if c == 0 {
      assert t in Around(s);
    } else {
      assert now[IndexAt(w, h, s)] != before[IndexAt(w, h, s)];
      RecolouredZeroCount(before, now, c);
    }
  }
}
