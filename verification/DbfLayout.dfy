/**
 The bytes of a fixed-format data file as a sequence of records: a header of hs bytes, then
 records of rl bytes, then possibly a stray end-of-file byte.
 */
module DbfLayout {
  import opened Bytes

  /** Unsigned division and remainder by a positive record length, by repeated subtraction. */
  function Quot(n: nat, rl: nat): nat
    requires rl > 0
  {
    if n < rl then 0 else 1 + Quot(n - rl, rl)
  }

  function Rem(n: nat, rl: nat): (r: nat)
    requires rl > 0
    ensures r < rl
  {
    if n < rl then n else Rem(n - rl, rl)
  }

  lemma {:induction false} QuotRem(n: nat, rl: nat)
    requires rl > 0
    ensures n == Times(Quot(n, rl), rl) + Rem(n, rl)
  {
    if n >= rl {
      QuotRem(n - rl, rl);
    }
  }

  lemma QuotRemIsDivision(n: nat, rl: nat)
    requires rl > 0
    ensures Quot(n, rl) == n / rl && Rem(n, rl) == n % rl
  {
    QuotFromParts(n, rl, n / rl, n % rl);
  }

  lemma QuotFromParts(n: nat, rl: nat, q: nat, r: nat)
    requires r < rl && n == q * rl + r
    ensures Quot(n, rl) == q && Rem(n, rl) == r
  {
    TimesIsProduct(q, rl);
    QuotOfTimes(q, r, rl);
  }

  lemma {:induction false} QuotOfTimes(k: nat, extra: nat, rl: nat)
    requires rl > 0 && extra < rl
    ensures Quot(Times(k, rl) + extra, rl) == k && Rem(Times(k, rl) + extra, rl) == extra
  {
    if k > 0 {
      QuotOfTimes(k - 1, extra, rl);
    }
  }

  lemma {:induction false} TimesSum(a: nat, b: nat, w: nat)
    ensures Times(a + b, w) == Times(a, w) + Times(b, w)
  {
    if b > 0 {
      TimesSum(a, b - 1, w);
    }
  }

  lemma TimesMonotone(a: nat, b: nat, w: nat)
    requires a <= b
    ensures Times(a, w) <= Times(b, w)
  {
  }

  lemma QuotAtLeast(n: nat, k: nat, rl: nat)
    requires rl > 0
    ensures Quot(n, rl) >= k <==> n >= Times(k, rl)
  {
  }

  // ----- records

  datatype Layout = Layout(hs: nat, rl: nat) {

    predicate Valid() {
      rl > 0
    }

    /** Where record c starts. */
    function At(c: nat): nat
      requires c > 0
    {
      hs + Times(c - 1, rl)
    }

    /** How many whole records the file holds. */
    function Count(bytes: seq<byte>): nat
      requires Valid() && |bytes| >= hs
    {
      Quot(|bytes| - hs, rl)
    }

    /** A file the append code accepts: whole records and at most one stray byte. */
    predicate WellSized(bytes: seq<byte>)
      requires Valid()
    {
      |bytes| >= hs && Rem(|bytes| - hs, rl) <= 1
    }

    predicate Has(bytes: seq<byte>, c: nat)
      requires Valid()
    {
      c > 0 && |bytes| >= hs && c <= Count(bytes)
    }

    lemma HasRoom(bytes: seq<byte>, c: nat)
      requires Valid() && c > 0 && |bytes| >= hs
      ensures Has(bytes, c) <==> At(c) + rl <= |bytes|
    {
      QuotAtLeast(|bytes| - hs, c, rl);
    }

    function Record(bytes: seq<byte>, c: nat): (r: seq<byte>)
      requires Valid() && Has(bytes, c)
      ensures |r| == rl
    {
      HasRoom(bytes, c);
      bytes[At(c)..At(c) + rl]
    }

    /** The file as a sequence of records; record c is Records[c - 1]. */
    function Records(bytes: seq<byte>): (rs: seq<seq<byte>>)
      requires Valid() && |bytes| >= hs
      ensures |rs| == Count(bytes)
      ensures forall c :: 1 <= c <= Count(bytes) ==> rs[c - 1] == Record(bytes, c)
    {
      seq(Count(bytes), k requires 0 <= k < Count(bytes) => Record(bytes, k + 1))
    }

    lemma AtStep(c: nat, d: nat)
      requires 0 < c < d
      ensures At(c) + rl <= At(d)
    {
      TimesFits(c - 1, d - 1, rl);
    }
  }

  /** Writing at an offset, as lseek and write do: a gap past the end is filled with zeros. */
  function WriteAt(bytes: seq<byte>, offset: nat, data: seq<byte>): (after: seq<byte>)
    ensures |after| == if offset + |data| > |bytes| then offset + |data| else |bytes|
    ensures after[offset..offset + |data|] == data
    ensures forall k :: 0 <= k < |bytes| && !(offset <= k < offset + |data|) ==> after[k] == bytes[k]
  {
    var padded := if offset > |bytes| then bytes + Repeat(0, offset - |bytes|) else bytes;
    padded[..offset] + data + (if offset + |data| <= |padded| then padded[offset + |data|..] else [])
  }

  /** Overwriting record c, or appending it, changes no other record. */
  lemma WriteRecord(l: Layout, bytes: seq<byte>, c: nat, data: seq<byte>)
    requires l.Valid() && l.WellSized(bytes) && c > 0 && |data| == l.rl
    ensures var after := WriteAt(bytes, l.At(c), data);
      && l.WellSized(after)
      && l.Count(after) == (if c > l.Count(bytes) then c else l.Count(bytes))
      && l.Record(after, c) == data
      && forall d :: 1 <= d <= l.Count(bytes) && d != c ==> l.Has(after, d) && l.Record(after, d) == l.Record(bytes, d)
  {
    var after := WriteAt(bytes, l.At(c), data);
    l.HasRoom(bytes, c);
    l.HasRoom(after, c);
    if c > l.Count(bytes) {
      assert |after| == l.At(c) + l.rl == l.hs + Times(c, l.rl);
      QuotOfTimes(c, 0, l.rl);
    }
    forall d | 1 <= d <= l.Count(bytes) && d != c
      ensures l.Has(after, d) && l.Record(after, d) == l.Record(bytes, d)
    {
      OtherRecord(l, bytes, after, c, d);
    }
  }

  lemma OtherRecord(l: Layout, bytes: seq<byte>, after: seq<byte>, c: nat, d: nat)
    requires l.Valid() && l.Has(bytes, d) && c > 0 && d != c
    requires |after| >= |bytes|
    requires forall k :: 0 <= k < |bytes| && !(l.At(c) <= k < l.At(c) + l.rl) ==> after[k] == bytes[k]
    ensures l.Has(after, d) && l.Record(after, d) == l.Record(bytes, d)
  {
    l.HasRoom(bytes, d);
    l.HasRoom(after, d);
    if c < d {
      l.AtStep(c, d);
    } else {
      l.AtStep(d, c);
    }
    assert after[l.At(d)..l.At(d) + l.rl] == bytes[l.At(d)..l.At(d) + l.rl];
  }

  /** The mark of a record is the byte of the file where the record starts. */
  lemma MarkInside(l: Layout, bytes: seq<byte>, c: nat)
    requires l.Valid()
    ensures l.Has(bytes, c) ==> l.At(c) < |bytes| && l.Record(bytes, c)[0] == bytes[l.At(c)]
    ensures l.Has(bytes, c) ==> forall mark: byte :: WriteAt(bytes, l.At(c), [mark]) == bytes[l.At(c) := mark]
  {
    if l.Has(bytes, c) {
      l.HasRoom(bytes, c);
    }
  }

  /** Changing the first byte of record c changes nothing else. */
  lemma WriteFlag(l: Layout, bytes: seq<byte>, c: nat, flag: byte)
    requires l.Valid() && l.WellSized(bytes) && c > 0
    ensures var after := WriteAt(bytes, l.At(c), [flag]);
      && l.WellSized(after)
      && l.Count(after) >= l.Count(bytes)
      && (l.Has(bytes, c) ==> l.Count(after) == l.Count(bytes) && l.Record(after, c) == l.Record(bytes, c)[0 := flag])
      && forall d :: 1 <= d <= l.Count(bytes) && d != c ==> l.Has(after, d) && l.Record(after, d) == l.Record(bytes, d)
  {
    var after := WriteAt(bytes, l.At(c), [flag]);
    l.HasRoom(bytes, c);
    QuotAtLeast(|after| - l.hs, l.Count(bytes), l.rl);
    QuotAtLeast(|bytes| - l.hs, l.Count(bytes), l.rl);
    if l.Has(bytes, c) {
      assert after[l.At(c)..l.At(c) + l.rl] == l.Record(bytes, c)[0 := flag];
    } else {
      FlagPastEnd(l, bytes, c, flag);
    }
    forall d | 1 <= d <= l.Count(bytes) && d != c
      ensures l.Has(after, d) && l.Record(after, d) == l.Record(bytes, d)
    {
      OtherRecord(l, bytes, after, c, d);
    }
  }

  lemma FlagPastEnd(l: Layout, bytes: seq<byte>, c: nat, flag: byte)
    requires l.Valid() && l.WellSized(bytes) && c > l.Count(bytes)
    ensures l.WellSized(WriteAt(bytes, l.At(c), [flag]))
  {
    var after := WriteAt(bytes, l.At(c), [flag]);
    QuotRem(|bytes| - l.hs, l.rl);
    TimesMonotone(l.Count(bytes), c - 1, l.rl);
    assert |after| == l.At(c) + 1;
    if l.rl == 1 {
      QuotOfTimes(c, 0, 1);
    } else {
      QuotOfTimes(c - 1, 1, l.rl);
    }
  }

  // ----- the cache

  /** Record c is in the file, and the cache window that starts at lo holds a copy of it. */
  predicate Cached(l: Layout, bytes: seq<byte>, storage: seq<byte>, lo: nat, c: nat)
    requires l.Valid() && c >= lo
  {
    l.Has(bytes, c) && Slot(storage, Times(c - lo, l.rl), l.rl, l.Record(bytes, c))
  }

  /** A buffer has a record of n bytes at some place. */
  predicate Slot(storage: seq<byte>, at: nat, n: nat, record: seq<byte>) {
    at + n <= |storage| && storage[at..at + n] == record
  }

  /** Each record from lo to hi is cached. */
  ghost predicate Coherent(l: Layout, bytes: seq<byte>, storage: seq<byte>, lo: nat, hi: nat)
    requires l.Valid()
  {
    forall c :: 1 <= c && lo <= c <= hi ==> Cached(l, bytes, storage, lo, c)
  }

  /** A window read from the file is coherent up to the last record read in full. */
  lemma WindowRead(l: Layout, bytes: seq<byte>, storage: seq<byte>, lo: nat, got: nat)
    requires l.Valid() && lo > 0
    requires got <= |storage| && l.At(lo) + got <= |bytes|
    requires storage[..got] == bytes[l.At(lo)..l.At(lo) + got]
    ensures Coherent(l, bytes, storage, lo, lo - 1 + Quot(got, l.rl))
  {
    forall c | 1 <= c && lo <= c <= lo - 1 + Quot(got, l.rl) ensures Cached(l, bytes, storage, lo, c) {
      WindowRecord(l, bytes, storage, lo, got, c);
    }
  }

  lemma WindowRecord(l: Layout, bytes: seq<byte>, storage: seq<byte>, lo: nat, got: nat, c: nat)
    requires l.Valid() && lo > 0
    requires got <= |storage| && l.At(lo) + got <= |bytes|
    requires storage[..got] == bytes[l.At(lo)..l.At(lo) + got]
    requires lo <= c <= lo - 1 + Quot(got, l.rl)
    ensures Cached(l, bytes, storage, lo, c)
  {
    var at := Times(c - lo, l.rl);
    QuotAtLeast(got, c - lo + 1, l.rl);
    assert at + l.rl <= got;
    TimesSum(lo - 1, c - lo, l.rl);
    assert l.At(c) == l.At(lo) + at;
    l.HasRoom(bytes, c);
    SubWindow(bytes, storage, l.At(lo), got, at, l.rl);
  }

  lemma SliceOfSlice(s: seq<byte>, a: nat, b: nat, c: nat, d: nat)
    requires a <= b <= |s| && c <= d <= b - a
    ensures s[a..b][c..d] == s[a + c..a + d]
  {
    var t := s[a..b];
    forall k {:trigger t[c..d][k]} | 0 <= k < d - c ensures t[c..d][k] == s[a + c..a + d][k] {
      assert t[c..d][k] == t[c + k] == s[a + (c + k)];
    }
  }

  lemma SubWindow(bytes: seq<byte>, storage: seq<byte>, from: nat, got: nat, at: nat, n: nat)
    requires got <= |storage| && from + got <= |bytes| && at + n <= got
    requires storage[..got] == bytes[from..from + got]
    ensures storage[at..at + n] == bytes[from + at..from + (at + n)]
  {
    assert storage[at..at + n] == storage[..got][at..at + n];
    SliceOfSlice(bytes, from, from + got, at, at + n);
  }

  /** Of the records lo to hi, all are still in the file and none but c has changed. */
  ghost predicate OthersKept(l: Layout, bytes: seq<byte>, after: seq<byte>, lo: nat, hi: nat, c: nat)
    requires l.Valid()
  {
    forall d {:trigger l.Has(after, d)} :: 1 <= d && lo <= d <= hi ==>
      l.Has(after, d) && (d != c ==> l.Has(bytes, d) && l.Record(after, d) == l.Record(bytes, d))
  }

  /** A change of a record outside the window keeps the cache coherent. */
  lemma StillCoherent(l: Layout, bytes: seq<byte>, after: seq<byte>, storage: seq<byte>, lo: nat, hi: nat, c: nat)
    requires l.Valid() && Coherent(l, bytes, storage, lo, hi)
    requires OthersKept(l, bytes, after, lo, hi, c) && (c == 0 || !(lo <= c <= hi))
    ensures Coherent(l, after, storage, lo, hi)
  {
    forall d | 1 <= d && lo <= d <= hi ensures Cached(l, after, storage, lo, d) {
      assert Cached(l, bytes, storage, lo, d) && l.Has(after, d);
    }
  }

  /** So does a change after which every record of the window is as it was. */
  lemma SameWindow(l: Layout, bytes: seq<byte>, after: seq<byte>, storage: seq<byte>, lo: nat, hi: nat)
    requires l.Valid() && Coherent(l, bytes, storage, lo, hi)
    requires forall d {:trigger l.Has(after, d)} :: 1 <= d && lo <= d <= hi && l.Has(bytes, d) ==>
      l.Has(after, d) && l.Record(after, d) == l.Record(bytes, d)
    ensures Coherent(l, after, storage, lo, hi)
  {
    forall d | 1 <= d && lo <= d <= hi
      ensures Cached(l, after, storage, lo, d)
    {
      assert Cached(l, bytes, storage, lo, d);
      assert l.Has(after, d);
    }
  }

  lemma SlotFilled(storage: seq<byte>, updated: seq<byte>, at: nat, record: seq<byte>, n: nat)
    requires |record| == n && at + n <= |storage|
    requires updated == storage[..at] + record + storage[at + n..]
    ensures Slot(updated, at, n, record)
  {
  }

  lemma OtherSlotKept(storage: seq<byte>, updated: seq<byte>, at: nat, record: seq<byte>, n: nat, from: nat,
                      other: seq<byte>)
    requires |record| == n && at + n <= |storage| && Slot(storage, from, n, other)
    requires updated == storage[..at] + record + storage[at + n..]
    requires from + n <= at || at + n <= from
    ensures Slot(updated, from, n, other)
  {
  }

  /** A change of record c alone, copied to its slot, keeps the cache coherent. */
  lemma SlotRefreshed(l: Layout, bytes: seq<byte>, after: seq<byte>, storage: seq<byte>, updated: seq<byte>, lo: nat,
                      hi: nat, c: nat)
    requires l.Valid() && Coherent(l, bytes, storage, lo, hi) && 1 <= c && lo <= c <= hi
    requires l.Has(after, c) && Times(c - lo, l.rl) + l.rl <= |storage|
    requires OthersKept(l, bytes, after, lo, hi, c)
    requires updated == storage[..Times(c - lo, l.rl)] + l.Record(after, c) + storage[Times(c - lo, l.rl) + l.rl..]
    ensures Coherent(l, after, updated, lo, hi)
  {
    forall d | 1 <= d && lo <= d <= hi ensures Cached(l, after, updated, lo, d) {
      if d == c {
        SlotFilled(storage, updated, Times(c - lo, l.rl), l.Record(after, c), l.rl);
      } else {
        assert Cached(l, bytes, storage, lo, d) && l.Has(after, d);
        SlotKept(l, bytes, after, storage, updated, lo, c, d);
      }
    }
  }

  lemma SlotKept(l: Layout, bytes: seq<byte>, after: seq<byte>, storage: seq<byte>, updated: seq<byte>, lo: nat,
                 c: nat, d: nat)
    requires l.Valid() && 1 <= c && lo <= c && 1 <= d && lo <= d && d != c
    requires l.Has(after, c) && Times(c - lo, l.rl) + l.rl <= |storage|
    requires Cached(l, bytes, storage, lo, d) && l.Has(after, d) && l.Record(after, d) == l.Record(bytes, d)
    requires updated == storage[..Times(c - lo, l.rl)] + l.Record(after, c) + storage[Times(c - lo, l.rl) + l.rl..]
    ensures Cached(l, after, updated, lo, d)
  {
    var at, from := Times(c - lo, l.rl), Times(d - lo, l.rl);
    if d < c {
      TimesFits(d - lo, c - lo, l.rl);
    } else {
      TimesFits(c - lo, d - lo, l.rl);
    }
    OtherSlotKept(storage, updated, at, l.Record(after, c), l.rl, from, l.Record(bytes, d));
  }

  // ----- what the file operations do to the records

  lemma {:induction false} QuotShift(k: nat, n: nat, rl: nat)
    requires rl > 0
    ensures Quot(Times(k, rl) + n, rl) == k + Quot(n, rl)
    decreases k
  {
    if k > 0 {
      QuotShift(k - 1, n, rl);
    }
  }

  /** The append position is that of the record after the last, stray byte or not. */
  lemma AppendPosition(l: Layout, bytes: seq<byte>)
    requires l.Valid() && l.WellSized(bytes)
    ensures l.At(l.Count(bytes) + 1) == |bytes| - Rem(|bytes| - l.hs, l.rl)
  {
    QuotRem(|bytes| - l.hs, l.rl);
  }

  /** The file after record data is saved as case c, where case 0 appends. */
  function Saved(l: Layout, bytes: seq<byte>, c: nat, data: seq<byte>): seq<byte>
    requires l.Valid() && l.WellSized(bytes)
  {
    WriteAt(bytes, l.At(if c == 0 then l.Count(bytes) + 1 else c), data)
  }

  /** Saving is an update of the sequence of records: append, or replace one and keep the others. */
  lemma SavedRecords(l: Layout, bytes: seq<byte>, c: nat, data: seq<byte>)
    requires l.Valid() && l.WellSized(bytes) && |data| == l.rl
    ensures l.WellSized(Saved(l, bytes, c, data))
    ensures c == 0 ==> l.Records(Saved(l, bytes, c, data)) == l.Records(bytes) + [data]
    ensures 1 <= c <= l.Count(bytes) ==> l.Records(Saved(l, bytes, c, data)) == l.Records(bytes)[c - 1 := data]
    ensures c > l.Count(bytes) ==> var rs := l.Records(Saved(l, bytes, c, data));
      |rs| == c && rs[c - 1] == data && l.Records(bytes) <= rs
  {
    WriteRecord(l, bytes, if c == 0 then l.Count(bytes) + 1 else c, data);
    var before, after := l.Records(bytes), l.Records(Saved(l, bytes, c, data));
    forall k | 0 <= k < |before| && k != c - 1 ensures k < |after| && after[k] == before[k] {
      assert l.Has(Saved(l, bytes, c, data), k + 1);
    }
  }

  function Flat(rs: seq<seq<byte>>): seq<byte> {
    if rs == [] then [] else rs[0] + Flat(rs[1..])
  }

  predicate AllOfLength(rs: seq<seq<byte>>, rl: nat) {
    rs == [] || (|rs[0]| == rl && AllOfLength(rs[1..], rl))
  }

  /** Records saved one by one from case c on. */
  function SavedEach(l: Layout, bytes: seq<byte>, c: nat, rs: seq<seq<byte>>): seq<byte>
    requires l.Valid() && c > 0
    decreases |rs|
  {
    if rs == [] then bytes else SavedEach(l, WriteAt(bytes, l.At(c), rs[0]), c + 1, rs[1..])
  }

  lemma WriteTwice(bytes: seq<byte>, offset: nat, a: seq<byte>, b: seq<byte>)
    requires a != []
    ensures WriteAt(WriteAt(bytes, offset, a), offset + |a|, b) == WriteAt(bytes, offset, a + b)
  {
  }

  /** A save of a record that has a copy in the window makes the copy stale unless nothing changes. */
  lemma SavedUnderACopy(l: Layout, bytes: seq<byte>, storage: seq<byte>, lo: nat, hi: nat, c: nat, data: seq<byte>)
    requires l.Valid() && l.WellSized(bytes) && |data| == l.rl && Coherent(l, bytes, storage, lo, hi)
    requires 1 <= c && lo <= c <= hi
    ensures l.Has(bytes, c)
    ensures Coherent(l, Saved(l, bytes, c, data), storage, lo, hi) <==> data == l.Record(bytes, c)
  {
    var after := Saved(l, bytes, c, data);
    WriteRecord(l, bytes, c, data);
    assert Cached(l, bytes, storage, lo, c);
    assert Coherent(l, after, storage, lo, hi) ==> Cached(l, after, storage, lo, c);
    if data == l.Record(bytes, c) {
      SameWindow(l, bytes, after, storage, lo, hi);
    }
  }

  /** Saving a block of records at once is saving them one by one. */
  lemma {:induction false} BlockIsSavedEach(l: Layout, bytes: seq<byte>, c: nat, rs: seq<seq<byte>>)
    requires l.Valid() && c > 0 && rs != [] && AllOfLength(rs, l.rl)
    ensures WriteAt(bytes, l.At(c), Flat(rs)) == SavedEach(l, bytes, c, rs)
    decreases |rs|
  {
    var rest := rs[1..];
    if rest == [] {
      assert rs[0] + Flat(rest) == rs[0];
    } else {
      WriteTwice(bytes, l.At(c), rs[0], Flat(rest));
      assert l.At(c + 1) == l.At(c) + l.rl;
      BlockIsSavedEach(l, WriteAt(bytes, l.At(c), rs[0]), c + 1, rest);
    }
  }

  /** Marking record c in the file touches no other cached record. */
  lemma MarkKeepsOthers(l: Layout, bytes: seq<byte>, storage: seq<byte>, lo: nat, hi: nat, c: nat, flag: byte)
    requires l.Valid() && l.WellSized(bytes) && c > 0 && Coherent(l, bytes, storage, lo, hi)
    ensures OthersKept(l, bytes, WriteAt(bytes, l.At(c), [flag]), lo, hi, c)
  {
    var after := WriteAt(bytes, l.At(c), [flag]);
    WriteFlag(l, bytes, c, flag);
    forall d {:trigger l.Has(after, d)} | 1 <= d && lo <= d <= hi
      ensures l.Has(after, d) && (d != c ==> l.Has(bytes, d) && l.Record(after, d) == l.Record(bytes, d))
    {
      assert Cached(l, bytes, storage, lo, d);
      assert l.Has(bytes, d) && d <= l.Count(bytes);
      assert d == c ==> l.Count(after) == l.Count(bytes);
    }
  }

  /** Marking a cached record in the file and in its slot keeps the cache coherent. */
  lemma MarkBoth(l: Layout, bytes: seq<byte>, storage: seq<byte>, lo: nat, hi: nat, c: nat, flag: byte)
    requires l.Valid() && l.WellSized(bytes) && 1 <= c && lo <= c <= hi && Coherent(l, bytes, storage, lo, hi)
    ensures Times(c - lo, l.rl) < |storage|
    ensures Coherent(l, WriteAt(bytes, l.At(c), [flag]), storage[Times(c - lo, l.rl) := flag], lo, hi)
  {
    var after, at := WriteAt(bytes, l.At(c), [flag]), Times(c - lo, l.rl);
    assert Cached(l, bytes, storage, lo, c);
    WriteFlag(l, bytes, c, flag);
    MarkKeepsOthers(l, bytes, storage, lo, hi, c, flag);
    assert storage[at := flag] == storage[..at] + storage[at..at + l.rl][0 := flag] + storage[at + l.rl..];
    SlotRefreshed(l, bytes, after, storage, storage[at := flag], lo, hi, c);
  }

  /** Marking only the slot keeps the cache coherent exactly when the record had that mark already. */
  lemma MarkSlotOnly(l: Layout, bytes: seq<byte>, storage: seq<byte>, lo: nat, hi: nat, c: nat, flag: byte)
    requires l.Valid() && 1 <= c && lo <= c <= hi && Coherent(l, bytes, storage, lo, hi)
    ensures l.Has(bytes, c) && Times(c - lo, l.rl) < |storage|
    ensures Coherent(l, bytes, storage[Times(c - lo, l.rl) := flag], lo, hi) <==> l.Record(bytes, c)[0] == flag
  {
    var at := Times(c - lo, l.rl);
    assert Cached(l, bytes, storage, lo, c);
    assert storage[at] == storage[at..at + l.rl][0];
    var marked := storage[at := flag];
    assert marked[at..at + l.rl][0] == flag;
    assert Coherent(l, bytes, marked, lo, hi) ==> Cached(l, bytes, marked, lo, c);
    assert storage[at] == flag ==> marked == storage;
  }
}
