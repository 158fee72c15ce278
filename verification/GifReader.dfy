/**
 Reading a whole GIF file back into a picture: the header and image descriptor
 (GIF89a sections 17 to 20 and 23), the image data, and the four interlacing passes (Appendix E).
 */
module GifReader {
  import opened Bytes
  import opened GifLzw

  // ----- interlacing

  /** The rows start, start+step, ... below h. */
  function Pass(start: nat, step: nat, h: nat): seq<nat>
    requires step > 0
    decreases if start < h then h - start else 0
  {
    if start < h then [start] + Pass(start + step, step, h) else []
  }

  lemma {:induction false} PassRow(start: nat, step: nat, h: nat, k: nat)
    requires step > 0
    ensures k < |Pass(start, step, h)| <==> start + k * step < h
    ensures k < |Pass(start, step, h)| ==> Pass(start, step, h)[k] == start + k * step
    decreases k
  {
    if k == 0 {
      assert 0 * step == 0;
    } else {
      assert k * step == (k - 1) * step + step;
      if start < h {
        PassRow(start + step, step, h, k - 1);
      }
    }
  }

  /** The order in which Appendix E stores the rows of an image of height h. */
  function InterlaceOrder(h: nat): seq<nat> {
    Pass(0, 8, h) + Pass(4, 8, h) + Pass(2, 4, h) + Pass(1, 2, h)
  }

  /** Row r is row Index(r) of pass Group(r). */
  function Group(r: nat): (g: nat)
    ensures g < 4
  {
    var m := r % 8;
    if m == 0 then 0 else if m == 4 then 1 else if m == 2 || m == 6 then 2 else 3
  }

  function Index(r: nat): nat {
    if Group(r) < 2 then r / 8 else if Group(r) == 2 then r / 4 else r / 2
  }

  function Before(g: nat, h: nat): nat {
    (if g > 0 then |Pass(0, 8, h)| else 0)
    + (if g > 1 then |Pass(4, 8, h)| else 0)
    + (if g > 2 then |Pass(2, 4, h)| else 0)
  }

  function RowOf(g: nat, k: nat): nat {
    if g == 0 then 8 * k else if g == 1 then 4 + 8 * k else if g == 2 then 2 + 4 * k else 1 + 2 * k
  }

  /** Where row r is stored. */
  function StoredAt(r: nat, h: nat): nat {
    Before(Group(r), h) + Index(r)
  }

  lemma RowOfIndex(r: nat)
    ensures RowOf(Group(r), Index(r)) == r
  {
  }

  lemma IndexOfRow(g: nat, k: nat)
    requires g < 4
    ensures Group(RowOf(g, k)) == g && Index(RowOf(g, k)) == k
  {
  }

  lemma PassLength(start: nat, step: nat, h: nat)
    requires step > 0
    ensures start < h ==> |Pass(start, step, h)| > 0 && start + (|Pass(start, step, h)| - 1) * step < h
    ensures start + |Pass(start, step, h)| * step >= h
    ensures start >= h ==> Pass(start, step, h) == []
  {
    var n := |Pass(start, step, h)|;
    PassRow(start, step, h, n);
    if start < h {
      PassRow(start, step, h, n - 1);
    }
  }

  lemma PassLengthsAddUp(h: nat, a: nat, b: nat, c: nat, d: nat)
    requires 8 * a >= h && (h > 0 ==> 8 * (a - 1) < h) && (h == 0 ==> a == 0)
    requires 4 + 8 * b >= h && (h > 4 ==> 4 + 8 * (b - 1) < h) && (h <= 4 ==> b == 0)
    requires 2 + 4 * c >= h && (h > 2 ==> 2 + 4 * (c - 1) < h) && (h <= 2 ==> c == 0)
    requires 1 + 2 * d >= h && (h > 1 ==> 1 + 2 * (d - 1) < h) && (h <= 1 ==> d == 0)
    ensures a + b + c + d == h
  {
    var q, r := h / 8, h % 8;
    assert a == q + (if r > 0 then 1 else 0);
    assert b == q + (if r > 4 then 1 else 0);
    assert c == 2 * q + (if r > 6 then 2 else if r > 2 then 1 else 0);
    assert d == 4 * q + r / 2;
  }

  lemma OrderLength(h: nat)
    ensures |InterlaceOrder(h)| == h
  {
    PassLength(0, 8, h);
    PassLength(4, 8, h);
    PassLength(2, 4, h);
    PassLength(1, 2, h);
    PassLengthsAddUp(h, |Pass(0, 8, h)|, |Pass(4, 8, h)|, |Pass(2, 4, h)|, |Pass(1, 2, h)|);
  }

  lemma ConcatIndex(a: seq<nat>, b: seq<nat>, c: seq<nat>, d: seq<nat>, k: nat)
    ensures k < |a| ==> (a + b + c + d)[k] == a[k]
    ensures k < |b| ==> (a + b + c + d)[|a| + k] == b[k]
    ensures k < |c| ==> (a + b + c + d)[|a| + |b| + k] == c[k]
    ensures k < |d| ==> (a + b + c + d)[|a| + |b| + |c| + k] == d[k]
  {
  }

  /** Row k of each pass, as a row of the whole order. */
  lemma PassInOrder(h: nat, g: nat, k: nat)
    requires g < 4
    ensures RowOf(g, k) < h ==>
      Before(g, h) + k < |InterlaceOrder(h)| && InterlaceOrder(h)[Before(g, h) + k] == RowOf(g, k)
  {
    PassRow(0, 8, h, k);
    PassRow(4, 8, h, k);
    PassRow(2, 4, h, k);
    PassRow(1, 2, h, k);
    ConcatIndex(Pass(0, 8, h), Pass(4, 8, h), Pass(2, 4, h), Pass(1, 2, h), k);
  }

  lemma OrderInPass(h: nat, l: nat) returns (g: nat, k: nat)
    requires l < |InterlaceOrder(h)|
    ensures g < 4 && l == Before(g, h) + k && RowOf(g, k) < h
  {
    var a, b, c := |Pass(0, 8, h)|, |Pass(4, 8, h)|, |Pass(2, 4, h)|;
    if l < a {
      g, k := 0, l;
      PassRow(0, 8, h, k);
    } else if l < a + b {
      g, k := 1, l - a;
      PassRow(4, 8, h, k);
    } else if l < a + b + c {
      g, k := 2, l - a - b;
      PassRow(2, 4, h, k);
    } else {
      g, k := 3, l - a - b - c;
      PassRow(1, 2, h, k);
    }
  }

  lemma StoredRow(r: nat, h: nat)
    requires r < h
    ensures StoredAt(r, h) < |InterlaceOrder(h)| && InterlaceOrder(h)[StoredAt(r, h)] == r
  {
    RowOfIndex(r);
    PassInOrder(h, Group(r), Index(r));
  }

  lemma RowStored(l: nat, h: nat)
    requires l < |InterlaceOrder(h)|
    ensures InterlaceOrder(h)[l] < h && StoredAt(InterlaceOrder(h)[l], h) == l
  {
    var g, k := OrderInPass(h, l);
    PassInOrder(h, g, k);
    IndexOfRow(g, k);
  }

  /** The order is a permutation of the rows: right length, every row stored, and only once. */
  lemma InterlaceOrderIsPermutation(h: nat)
    ensures |InterlaceOrder(h)| == h
    ensures forall l :: 0 <= l < h ==> InterlaceOrder(h)[l] < h
    ensures forall r {:trigger StoredAt(r, h)} :: 0 <= r < h ==>
      StoredAt(r, h) < h && InterlaceOrder(h)[StoredAt(r, h)] == r
    ensures forall l :: 0 <= l < h ==> StoredAt(InterlaceOrder(h)[l], h) == l
  {
    OrderLength(h);
    forall r {:trigger StoredAt(r, h)} | 0 <= r < h
      ensures StoredAt(r, h) < h && InterlaceOrder(h)[StoredAt(r, h)] == r
    {
      StoredRow(r, h);
    }
    forall l | 0 <= l < h
      ensures InterlaceOrder(h)[l] < h && StoredAt(InterlaceOrder(h)[l], h) == l
    {
      RowStored(l, h);
    }
  }

  /** A reader fills the canvas row by row, in the order given. */
  function Scatter(canvas: seq<byte>, w: nat, h: nat, rows: seq<nat>, data: seq<byte>): (r: seq<byte>)
    requires |canvas| == Times(h, w) && |data| == Times(|rows|, w)
    requires forall l :: 0 <= l < |rows| ==> rows[l] < h
    ensures |r| == |canvas|
    decreases |rows|
  {
    if rows == [] then canvas
    else
      TimesFits(rows[0], h, w);
      var at := Times(rows[0], w);
      Scatter(canvas[..at] + data[..w] + canvas[at + w..], w, h, rows[1..], data[w..])
  }

  function Deinterlace(w: nat, h: nat, data: seq<byte>): (r: seq<byte>)
    requires |data| == Times(h, w)
    ensures |r| == Times(h, w)
  {
    InterlaceOrderIsPermutation(h);
    Scatter(Repeat(0, Times(h, w)), w, h, InterlaceOrder(h), data)
  }

  /** Row r of an image w pixels wide. */
  function Row(img: seq<byte>, w: nat, h: nat, r: nat): (row: seq<byte>)
    requires |img| == Times(h, w) && r < h
    ensures |row| == w
  {
    TimesFits(r, h, w);
    img[Times(r, w)..Times(r, w) + w]
  }

  /** The rows of an image, in a given order. */
  function Gather(img: seq<byte>, w: nat, h: nat, rows: seq<nat>): (data: seq<byte>)
    requires |img| == Times(h, w)
    requires forall l :: 0 <= l < |rows| ==> rows[l] < h
    ensures |data| == Times(|rows|, w)
  {
    if rows == [] then [] else Row(img, w, h, rows[0]) + Gather(img, w, h, rows[1..])
  }

  lemma {:induction false} GatherLast(img: seq<byte>, w: nat, h: nat, rows: seq<nat>, r: nat)
    requires |img| == Times(h, w) && r < h
    requires forall l :: 0 <= l < |rows| ==> rows[l] < h
    ensures Gather(img, w, h, rows + [r]) == Gather(img, w, h, rows) + Row(img, w, h, r)
  {
    if rows == [] {
      assert rows + [r] == [r];
    } else {
      assert (rows + [r])[1..] == rows[1..] + [r];
      GatherLast(img, w, h, rows[1..], r);
    }
  }

  lemma SpliceRow(canvas: seq<byte>, w: nat, h: nat, p: nat, row: seq<byte>, q: nat)
    requires |canvas| == Times(h, w) && p < h && q < h && |row| == w
    requires Times(p, w) + w <= Times(h, w)
    ensures var next := canvas[..Times(p, w)] + row + canvas[Times(p, w) + w..];
      Row(next, w, h, q) == if q == p then row else Row(canvas, w, h, q)
  {
    TimesFits(q, h, w);
    var at, next := Times(q, w), canvas[..Times(p, w)] + row + canvas[Times(p, w) + w..];
    if q < p {
      TimesFits(q, p, w);
      assert next[at..at + w] == canvas[at..at + w];
    } else if q > p {
      TimesFits(p, q, w);
      assert next[at..at + w] == canvas[at..at + w];
    }
  }

  lemma {:induction false} ScatterGather(canvas: seq<byte>, w: nat, h: nat, rows: seq<nat>, img: seq<byte>, q: nat)
    requires |canvas| == Times(h, w) && |img| == Times(h, w) && q < h
    requires forall l :: 0 <= l < |rows| ==> rows[l] < h
    ensures Row(Scatter(canvas, w, h, rows, Gather(img, w, h, rows)), w, h, q)
         == if q in rows then Row(img, w, h, q) else Row(canvas, w, h, q)
    decreases |rows|
  {
    if rows != [] {
      var p, data := rows[0], Gather(img, w, h, rows);
      TimesFits(p, h, w);
      assert data[..w] == Row(img, w, h, p) && data[w..] == Gather(img, w, h, rows[1..]);
      var next := canvas[..Times(p, w)] + data[..w] + canvas[Times(p, w) + w..];
      SpliceRow(canvas, w, h, p, data[..w], q);
      ScatterGather(next, w, h, rows[1..], img, q);
      assert q in rows <==> q == p || q in rows[1..];
    }
  }

  /** Two images with the same rows are the same. */
  lemma {:induction false} SameRows(a: seq<byte>, b: seq<byte>, w: nat, h: nat, n: nat)
    requires |a| == Times(h, w) && |b| == Times(h, w) && n <= h
    requires forall q :: 0 <= q < h ==> Row(a, w, h, q) == Row(b, w, h, q)
    ensures Times(n, w) <= |a| && a[..Times(n, w)] == b[..Times(n, w)]
    decreases n
  {
    if n > 0 {
      SameRows(a, b, w, h, n - 1);
      TimesFits(n - 1, h, w);
      var at := Times(n - 1, w);
      assert a[at..at + w] == Row(a, w, h, n - 1) == Row(b, w, h, n - 1) == b[at..at + w];
      assert a[..at + w] == a[..at] + a[at..at + w];
      assert b[..at + w] == b[..at] + b[at..at + w];
    }
  }

  lemma RowRestored(img: seq<byte>, w: nat, h: nat, q: nat)
    requires |img| == Times(h, w) && q < h
    ensures |InterlaceOrder(h)| == h && forall l :: 0 <= l < h ==> InterlaceOrder(h)[l] < h
    ensures Row(Deinterlace(w, h, Gather(img, w, h, InterlaceOrder(h))), w, h, q) == Row(img, w, h, q)
  {
    InterlaceOrderIsPermutation(h);
    assert InterlaceOrder(h)[StoredAt(q, h)] == q;
    ScatterGather(Repeat(0, Times(h, w)), w, h, InterlaceOrder(h), img, q);
  }

  /** Reading back rows stored in interlaced order restores the image. */
  lemma DeinterlaceGather(img: seq<byte>, w: nat, h: nat)
    requires |img| == Times(h, w)
    ensures forall l :: 0 <= l < |InterlaceOrder(h)| ==> InterlaceOrder(h)[l] < h
    ensures |Gather(img, w, h, InterlaceOrder(h))| == Times(h, w)
    ensures Deinterlace(w, h, Gather(img, w, h, InterlaceOrder(h))) == img
  {
    InterlaceOrderIsPermutation(h);
    var order := InterlaceOrder(h);
    var back := Deinterlace(w, h, Gather(img, w, h, order));
    forall q | 0 <= q < h ensures Row(back, w, h, q) == Row(img, w, h, q) {
      RowRestored(img, w, h, q);
    }
    SameRows(back, img, w, h, h);
  }

  lemma {:induction false} GatheredRow(img: seq<byte>, w: nat, h: nat, rows: seq<nat>, l: nat)
    requires |img| == Times(h, w) && l < |rows|
    requires forall k :: 0 <= k < |rows| ==> rows[k] < h
    ensures Row(Gather(img, w, h, rows), w, |rows|, l) == Row(img, w, h, rows[l])
    decreases l
  {
    var data := Gather(img, w, h, rows);
    TimesFits(l, |rows|, w);
    if l > 0 {
      GatheredRow(img, w, h, rows[1..], l - 1);
      TimesFits(l - 1, |rows| - 1, w);
      assert data[w..] == Gather(img, w, h, rows[1..]);
      var at := Times(l - 1, w);
      assert data[at + w..at + w + w] == data[w..][at..at + w];
    }
  }

  // ----- rows that were never stored in that order

  /** Where every row is stored. */
  function Places(h: nat): (places: seq<nat>)
    ensures |places| == h
    ensures forall r :: 0 <= r < h ==> places[r] == StoredAt(r, h)
  {
    seq(h, r requires 0 <= r < h => StoredAt(r, h))
  }

  /** What a reader makes of any data: row r is the one that stands where row r should be stored. */
  lemma DeinterlacedRow(data: seq<byte>, w: nat, h: nat, r: nat)
    requires |data| == Times(h, w) && r < h
    ensures StoredAt(r, h) < h
    ensures Row(Deinterlace(w, h, data), w, h, r) == Row(data, w, h, StoredAt(r, h))
  {
    InterlaceOrderIsPermutation(h);
    var places, order := Places(h), InterlaceOrder(h);
    var img := Gather(data, w, h, places);
    var stored := Gather(img, w, h, order);
    forall l | 0 <= l < h
      ensures Row(stored, w, h, l) == Row(data, w, h, l)
    {
      GatheredRow(img, w, h, order, l);
      GatheredRow(data, w, h, places, order[l]);
    }
    SameRows(stored, data, w, h, h);
    assert stored[..Times(h, w)] == stored && data[..Times(h, w)] == data;
    DeinterlaceGather(img, w, h);
    GatheredRow(data, w, h, places, r);
  }

  /** Every row equals the row that the four passes would have put in its place. */
  ghost predicate RowsStay(img: seq<byte>, w: nat, h: nat)
    requires |img| == Times(h, w)
  {
    && |InterlaceOrder(h)| == h
    && forall l :: 0 <= l < h ==>
         InterlaceOrder(h)[l] < h && Row(img, w, h, InterlaceOrder(h)[l]) == Row(img, w, h, l)
  }

  /** An image whose rows stand in plain order under the interlace flag is shown as it is if and only if
      no row differs from the one that belongs in its place. */
  lemma ShownIfRowsStay(img: seq<byte>, w: nat, h: nat)
    requires |img| == Times(h, w)
    ensures Deinterlace(w, h, img) == img <==> RowsStay(img, w, h)
  {
    InterlaceOrderIsPermutation(h);
    var back := Deinterlace(w, h, img);
    if back == img {
      forall l | 0 <= l < h
        ensures Row(img, w, h, InterlaceOrder(h)[l]) == Row(img, w, h, l)
      {
        DeinterlacedRow(img, w, h, InterlaceOrder(h)[l]);
      }
    }
    if RowsStay(img, w, h) {
      forall r | 0 <= r < h
        ensures Row(back, w, h, r) == Row(img, w, h, r)
      {
        DeinterlacedRow(img, w, h, r);
        assert InterlaceOrder(h)[StoredAt(r, h)] == r;
      }
      SameRows(back, img, w, h, h);
    }
  }

  /** The second stored row is row 1 only for images of at most two rows. */
  lemma SecondStoredRow(h: nat)
    requires h >= 2
    ensures |InterlaceOrder(h)| == h && (InterlaceOrder(h)[1] == 1 <==> h == 2)
  {
    InterlaceOrderIsPermutation(h);
    var r := InterlaceOrder(h)[1];
    StoredRow(1, h);
    PassLength(0, 8, h);
    PassLength(4, 8, h);
    PassLength(2, 4, h);
  }

  lemma FewRowsInOrder(h: nat)
    requires h <= 2
    ensures |InterlaceOrder(h)| == h && forall q :: 0 <= q < h ==> InterlaceOrder(h)[q] == q
  {
  }

  lemma {:induction false} GatherInOrder(img: seq<byte>, w: nat, h: nat, rows: seq<nat>, n: nat)
    requires |img| == Times(h, w) && n <= |rows| <= h
    requires forall q :: 0 <= q < |rows| ==> rows[q] == q
    ensures Times(n, w) <= |img| && Gather(img, w, h, rows[..n]) == img[..Times(n, w)]
    decreases n
  {
    if n > 0 {
      GatherInOrder(img, w, h, rows, n - 1);
      GatherLast(img, w, h, rows[..n - 1], n - 1);
      assert rows[..n] == rows[..n - 1] + [n - 1];
      TimesFits(n - 1, h, w);
      var at := Times(n - 1, w);
      assert Gather(img, w, h, rows[..n]) == img[..at] + img[at..at + w];
      assert img[..at + w] == img[..at] + img[at..at + w];
    }
  }

  lemma FewRowsStay(img: seq<byte>, w: nat, h: nat)
    requires |img| == Times(h, w) && h <= 2
    ensures Deinterlace(w, h, img) == img
  {
    FewRowsInOrder(h);
    var rows := InterlaceOrder(h);
    GatherInOrder(img, w, h, rows, h);
    assert rows[..h] == rows && img[..Times(h, w)] == img;
    DeinterlaceGather(img, w, h);
  }

  lemma ManyRowsMove(w: nat, h: nat) returns (img: seq<byte>)
    requires h > 2 && w > 0
    ensures |img| == Times(h, w) && Deinterlace(w, h, img) != img
  {
    InterlaceOrderIsPermutation(h);
    SecondStoredRow(h);
    var rows := InterlaceOrder(h);
    var r := rows[1];
    TimesFits(1, h, w);
    TimesFits(r, h, w);
    var plain: seq<byte> := Repeat(0, Times(h, w))[Times(1, w) := 1];
    img := Gather(plain, w, h, rows);
    GatheredRow(plain, w, h, rows, 1);
    DeinterlaceGather(plain, w, h);
    assert Row(plain, w, h, 1)[0] == 1;
    assert Times(r, w) != Times(1, w) by {
      if r > 1 {
        TimesFits(1, r, w);
      } else {
        TimesFits(0, 1, w);
      }
    }
    assert Row(img, w, h, 1)[0] == Row(plain, w, h, r)[0] == 0;
  }

  /** Leaving the interlace flag on over rows in plain order is harmless exactly when no row moves. */
  lemma PlainRowsUnderInterlaceFlag(w: nat, h: nat)
    ensures (forall img: seq<byte> :: |img| == Times(h, w) ==> Deinterlace(w, h, img) == img) <==> h <= 2 || w == 0
  {
    if w == 0 {
      TimesIsProduct(h, 0);
    } else if h <= 2 {
      forall img: seq<byte> | |img| == Times(h, w) ensures Deinterlace(w, h, img) == img {
        FewRowsStay(img, w, h);
      }
    } else {
      var img := ManyRowsMove(w, h);
    }
  }

  // ----- the file

  datatype Picture = Picture(width: nat, height: nat, pixels: seq<byte>)

  function PowerOfTwo(n: nat): nat {
    if n == 0 then 1 else 2 * PowerOfTwo(n - 1)
  }

  /** What follows any extension blocks. */
  function SkipExtensions(bytes: seq<byte>): seq<byte>
    decreases |bytes|
  {
    if |bytes| >= 2 && bytes[0] == 0x21 then
      match SubBlocks(bytes[2..])
      case None => []
      case Some((_, rest)) => SkipExtensions(rest)
    else bytes
  }

  /** A single-image GIF89a file without a local colour table, as a picture. */
  function ReadGif(file: seq<byte>): Option<Picture> {
    if |file| < 13 || file[..6] != ['G' as int, 'I' as int, 'F' as int, '8' as int, '9' as int, 'a' as int] then None
    else
      var flags := file[10];
      var tableSize := if flags >= 128 then 3 * PowerOfTwo(flags % 8 + 1) else 0;
      if |file| < 13 + tableSize then None
      else ReadImage(SkipExtensions(file[13 + tableSize..]))
  }

  datatype Descriptor = Descriptor(width: nat, height: nat, interlaced: bool)

  /** The image descriptor and the minimum code size. */
  function ReadDescriptor(bytes: seq<byte>): Option<Descriptor> {
    if |bytes| < 11 || bytes[0] != 0x2C || bytes[9] >= 128 || bytes[10] != 7 then None
    else Some(Descriptor(LittleEndian(bytes[5], bytes[6]), LittleEndian(bytes[7], bytes[8]), bytes[9] / 64 % 2 == 1))
  }

  /** The image data and the trailer. */
  function ReadPixels(d: Descriptor, bytes: seq<byte>): Option<Picture> {
    match DecodeImageData(bytes)
    case None => None
    case Some((pixels, rest)) =>
      if rest != [0x3B] || |pixels| != Times(d.height, d.width) then None
      else Some(Picture(d.width, d.height, if d.interlaced then Deinterlace(d.width, d.height, pixels) else pixels))
  }

  function ReadImage(bytes: seq<byte>): Option<Picture> {
    match ReadDescriptor(bytes)
    case None => None
    case Some(d) => ReadPixels(d, bytes[11..])
  }
}
