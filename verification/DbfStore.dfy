/** The table: cached reads, saves, optimistic updates and delete marks over one data file. */
module DbfStores {
  import opened Bytes
  import opened DbfLayout
  import opened DbfFiles
  import opened DbfCaches

  class Table {
    const db: FixedFormatFile
    const cache: Cache?

    constructor (db: FixedFormatFile, cache: Cache?)
      ensures this.db == db && this.cache == cache
    {
      this.db, this.cache := db, cache;
    }

    /** Everything the table's operations may change. */
    ghost function Repr(): set<object?>
      reads cache
    {
      if cache == null then {db.file} else {db.file, cache, cache.storage}
    }

    ghost predicate Valid()
      reads Repr(), cache
    {
      db.Valid() && db.layout.WellSized(db.file.bytes) && (cache != null ==> cache.Valid(db))
    }

    ghost predicate Readable(c: nat)
      reads db.file
    {
      db.Valid() && db.canRead && db.file.readable && c != NO_COUNT && db.layout.Has(db.file.bytes, c)
    }

    predicate IsCached(c: nat)
      reads cache
    {
      if cache != null then cache.HasRecord(c) else false
    }

    /**
     Copies record c out. For a record of the file this always succeeds with the file's bytes, cached
     or not. Past the end it fails, except that a stray byte at the end reads as a record.
     */
    method ReadCaseRawBuf(c: nat, outbuf: array<byte>) returns (ok: bool)
      requires Valid() && outbuf.Length == db.layout.rl && outbuf !in Repr()
      modifies Repr() - {db.file}, outbuf
      ensures Valid() && Repr() == old(Repr())
      ensures Readable(c) ==> ok && outbuf[..] == db.layout.Record(db.file.bytes, c)
      ensures c == 0 || !db.canRead || !db.file.readable ==> !ok
      ensures c > 0 && !db.layout.Has(db.file.bytes, c) ==>
        (ok <==> c > 1 && db.Got(c, 1, db.layout.rl) > 0) && Partly(c, outbuf[..])
    {
      if c == 0 {
        return false;
      }
      if IsCached(c) {
        CopyCached(c, outbuf);
        return true;
      }
      ok := ReadUncached(c, outbuf);
    }

    /** Whatever there is of record c in the file stands at the front of the buffer. */
    ghost predicate Partly(c: nat, buf: seq<byte>)
      requires db.Valid()
      reads db.file
    {
      var got := db.Got(c, 1, db.layout.rl);
      got > 0 ==> got <= |buf| && buf[..got] == db.file.bytes[db.layout.At(c)..db.layout.At(c) + got]
    }

    lemma PartlyRead(c: nat, buf: seq<byte>, before: seq<byte>)
      requires db.Valid() && |before| == db.layout.rl
      requires var got := db.Got(c, 1, db.layout.rl);
        buf == before[..0]
          + (if got > 0 then db.file.bytes[db.layout.At(c)..db.layout.At(c) + got] else [])
          + before[got..]
      ensures Partly(c, buf)
    {
    }

    method CopyCached(c: nat, outbuf: array<byte>)
      requires Valid() && c > 0 && IsCached(c) && outbuf.Length == db.layout.rl && outbuf !in Repr()
      modifies Repr() - {db.file}, outbuf
      ensures Valid() && Repr() == old(Repr())
      ensures db.layout.Has(db.file.bytes, c) && outbuf[..] == db.layout.Record(db.file.bytes, c)
    {
      var at := cache.RecordData(db, c);
      CopyBytes(outbuf, 0, cache.storage, at.value, db.layout.rl);
      assert outbuf[..] == cache.storage[at.value..at.value + db.layout.rl];
    }

    method ReadUncached(c: nat, outbuf: array<byte>) returns (ok: bool)
      requires Valid() && c > 0 && outbuf.Length == db.layout.rl && outbuf !in Repr()
      modifies outbuf
      ensures Valid()
      ensures Readable(c) ==> ok && outbuf[..] == db.layout.Record(db.file.bytes, c)
      ensures !db.canRead || !db.file.readable ==> !ok
      ensures !db.layout.Has(db.file.bytes, c) ==>
        (ok <==> c > 1 && db.Got(c, 1, db.layout.rl) > 0) && Partly(c, outbuf[..])
    {
      var rl := db.layout.rl;
      assert Times(1, rl) == rl && Quot(rl, rl) == 1;
      db.layout.HasRoom(db.file.bytes, c);
      QuotAtLeast(db.Got(c, 1, rl), 1, rl);
      var l := db.ReadData(c, 1, outbuf, 0, rl);
      ok := l != 0;
      PartlyRead(c, outbuf[..], old(outbuf[..]));
    }

    /** One field of record c, out of the cache; without a cache there is nothing to return. */
    method GetDataC(c: nat, offset: nat, length: nat) returns (data: Option<seq<byte>>)
      requires Valid() && offset + length <= db.layout.rl
      modifies Repr() - {db.file}
      ensures Valid() && Repr() == old(Repr())
      ensures cache == null || !db.canRead ==> data == None
      ensures cache != null && Readable(c) ==> data == Some(db.layout.Record(db.file.bytes, c)[offset..offset + length])
      ensures cache != null && Readable(c) && c > 0 ==> IsCached(c)
      ensures c > 0 && data.Some? ==>
        && db.layout.Has(db.file.bytes, c)
        && data.value == db.layout.Record(db.file.bytes, c)[offset..offset + length]
    {
      if cache == null || !db.canRead {
        return None;
      }
      var at := cache.RecordData(db, c);
      if at.None? {
        return None;
      }
      if c > 0 {
        SliceOfSlice(cache.storage[..], at.value, at.value + db.layout.rl, offset, offset + length);
      }
      return Some(cache.storage[at.value + offset..at.value + offset + length]);
    }

    /**
     Saves past the cache, so that a cached record goes stale unless it was saved as it is. The result is
     a bool turned back into a count: 1 on success, whatever the case number.
     */
    method WriteCaseRawBuf(c: nat, inbuf: seq<byte>) returns (ok: bool)
      requires Valid() && |inbuf| == db.layout.rl
      modifies db.file
      ensures db.Valid() && db.layout.WellSized(db.file.bytes)
      ensures ok == old(db.Saves(c))
      ensures db.file.bytes ==
        if old(db.Saves(c)) then Saved(db.layout, old(db.file.bytes), c, inbuf) else old(db.file.bytes)
      ensures Valid() <==> !old(db.Saves(c)) || !old(LeftBehind(c)) || inbuf == old(db.layout.Record(db.file.bytes, c))
    {
      ghost var before := db.file.bytes;
      SavedBehindTheCache(before, c, inbuf);
      if c == 0 {
        if !db.canAppend {
          return false;
        }
        var n := db.SaveData(0, 1, inbuf);
        return n != 0;
      }
      if !db.canReplace {
        return false;
      }
      var n := db.SaveData(c, 1, inbuf);
      return n != 0;
    }

    /** Record c has a copy in the cache that a change of the file leaves behind. */
    ghost predicate LeftBehind(c: nat)
      reads cache, db.file
    {
      c > 0 && IsCached(c) && db.Valid() && db.layout.Has(db.file.bytes, c)
    }

    lemma SavedBehindTheCache(before: seq<byte>, c: nat, inbuf: seq<byte>)
      requires Valid() && before == db.file.bytes && |inbuf| == db.layout.rl
      ensures var l, after := db.layout, Saved(db.layout, before, c, inbuf);
        l.WellSized(after) && (cache != null ==>
          (Coherent(l, after, cache.storage[..], cache.lo, cache.hi) <==>
            !LeftBehind(c) || inbuf == l.Record(before, c)))
    {
      var l, after := db.layout, Saved(db.layout, before, c, inbuf);
      WriteRecord(l, before, if c == 0 then l.Count(before) + 1 else c, inbuf);
      SavedKeepsOthers(before, c, inbuf);
      if cache != null {
        ghost var storage, lo, hi := cache.storage[..], cache.lo, cache.hi;
        if c > 0 && lo <= c <= hi {
          SavedUnderACopy(l, before, storage, lo, hi, c, inbuf);
        } else {
          StillCoherent(l, before, after, storage, lo, hi, c);
        }
      }
    }

    /** Saves a record through to the file and refreshes its copy in the cache. */
    method SaveCaseData(c: nat, inbuf: seq<byte>) returns (n: nat)
      requires Valid() && |inbuf| == db.layout.rl && c != NO_COUNT
      modifies Repr()
      ensures Valid() && Repr() == old(Repr())
      ensures db.file.bytes == if old(db.Saves(c)) then Saved(db.layout, old(db.file.bytes), c, inbuf)
        else old(db.file.bytes)
      ensures n == if old(db.Saves(c)) && (c > 0 || !old(IsCached(0))) then 1 else 0
    {
      ghost var before := db.file.bytes;
      var ok := WriteCaseRawBuf(c, inbuf);
      if !ok {
        return 0;
      }
      SavedKeepsOthers(before, c, inbuf);
      if IsCached(c) {
        var refreshed := cache.ReloadRecord(db, c, before);
        if !refreshed {
          return 0;
        }
      } else if cache != null {
        StillCoherent(db.layout, before, db.file.bytes, cache.storage[..], cache.lo, cache.hi, c);
      }
      return 1;
    }

    lemma SavedKeepsOthers(before: seq<byte>, c: nat, data: seq<byte>)
      requires db.layout.Valid() && db.layout.WellSized(before) && |data| == db.layout.rl
      ensures var l := db.layout; var after := Saved(l, before, c, data);
        && l.WellSized(after)
        && (cache != null && Coherent(l, before, cache.storage[..], cache.lo, cache.hi) ==>
          OthersKept(l, before, after, cache.lo, cache.hi, c))
    {
      var l, after := db.layout, Saved(db.layout, before, c, data);
      WriteRecord(l, before, if c == 0 then l.Count(before) + 1 else c, data);
      if cache != null && Coherent(l, before, cache.storage[..], cache.lo, cache.hi) {
        forall d {:trigger l.Has(after, d)} | 1 <= d && cache.lo <= d <= cache.hi
          ensures l.Has(after, d) && (d != c ==> l.Has(before, d) && l.Record(after, d) == l.Record(before, d))
        {
          assert Cached(l, before, cache.storage[..], cache.lo, d);
        }
      }
    }

    /** Whether an update of case c with this backup goes through: compare, then swap. */
    ghost predicate Swaps(c: nat, backup: Option<seq<byte>>)
      requires db.Valid() && db.layout.Has(db.file.bytes, c)
      reads db.file
    {
      && db.Saves(c)
      && (backup.None? || (db.canRead && db.file.readable && backup.value == db.layout.Record(db.file.bytes, c)))
    }

    /** Past the last record there is nothing to compare with but the stray byte, if there is one;
        the rest of the comparison is with uninitialised memory. */
    ghost predicate MaySwapPastEnd(c: nat, backup: Option<seq<byte>>)
      requires db.Valid()
      reads db.file
    {
      db.Saves(c) && (backup.None? || (c > 1 && db.Got(c, 1, db.layout.rl) > 0 && Partly(c, backup.value)))
    }

    /** Compare-and-swap on record c: with a backup, only over exactly the bytes the caller last saw. */
    method UpdateCase(c: nat, changes: seq<byte>, backup: Option<seq<byte>>) returns (n: nat)
      requires Valid() && |changes| == db.layout.rl && (backup.Some? ==> |backup.value| == db.layout.rl)
      modifies Repr()
      ensures Valid() && Repr() == old(Repr())
      ensures c == NO_COUNT ==> n == NO_COUNT && db.file.bytes == old(db.file.bytes)
      ensures c == 0 ==>
        && n == (if old(db.Saves(0)) then old(db.layout.Count(db.file.bytes)) + 1 else 0)
        && db.file.bytes == if old(db.Saves(0)) then Saved(db.layout, old(db.file.bytes), 0, changes)
          else old(db.file.bytes)
      ensures 0 < c != NO_COUNT && old(db.layout.Has(db.file.bytes, c)) ==>
        && n == (if old(Swaps(c, backup)) then 1 else 0)
        && db.file.bytes == if old(Swaps(c, backup)) then Saved(db.layout, old(db.file.bytes), c, changes)
          else old(db.file.bytes)
      ensures 0 < c != NO_COUNT && !old(db.layout.Has(db.file.bytes, c)) ==>
        && (n == 1 ==> old(MaySwapPastEnd(c, backup))) && (backup.None? ==> n == if old(db.Saves(c)) then 1 else 0)
        && n <= 1
        && db.file.bytes == if n == 1 then Saved(db.layout, old(db.file.bytes), c, changes) else old(db.file.bytes)
    {
      if c == NO_COUNT {
        return NO_COUNT;
      }
      if c == 0 {
        if !db.canAppend {
          return 0;
        }
        ghost var before := db.file.bytes;
        n := db.SaveData(0, 1, changes);
        SavedKeepsOthers(before, 0, changes);
        if cache != null && n != 0 {
          KeptAtZero(before);
        }
        return;
      }
      if !db.canReplace {
        return 0;
      }
      if backup.None? {
        n := SaveCaseData(c, changes);
        return;
      }
      var same := StoredEquals(c, backup.value);
      if same {
        n := SaveCaseData(c, changes);
        return;
      }
      return 0;
    }

    /** The comparison half of UpdateCase: ReadCaseData and memcmp. */
    method StoredEquals(c: nat, backup: seq<byte>) returns (same: bool)
      requires Valid() && c > 0 && c != NO_COUNT && |backup| == db.layout.rl
      modifies Repr() - {db.file}
      ensures Valid() && Repr() == old(Repr())
      ensures db.layout.Has(db.file.bytes, c) ==>
        (same <==> db.canRead && db.file.readable && backup == db.layout.Record(db.file.bytes, c))
      ensures !db.layout.Has(db.file.bytes, c) && same ==>
        c > 1 && db.Got(c, 1, db.layout.rl) > 0 && Partly(c, backup)
    {
      var newData := new byte[db.layout.rl];
      if !db.canRead {
        return false;
      }
      var ok := ReadCaseRawBuf(c, newData);
      if !ok {
        return false;
      }
      same := backup == newData[..];
    }

    /** An append leaves every cached record as it is, even in a window left at case 0. */
    lemma KeptAtZero(before: seq<byte>)
      requires cache != null && db.layout.Valid() && Coherent(db.layout, before, cache.storage[..], cache.lo, cache.hi)
      requires cache.lo == 0 ==> cache.hi == 0
      requires OthersKept(db.layout, before, db.file.bytes, cache.lo, cache.hi, 0)
      ensures Coherent(db.layout, db.file.bytes, cache.storage[..], cache.lo, cache.hi)
    {
      if cache.lo > 0 {
        StillCoherent(db.layout, before, db.file.bytes, cache.storage[..], cache.lo, cache.hi, 0);
      }
    }

    ghost predicate Marked(c: nat, e: DeleteSetting)
      requires db.Valid() && FlagByte(e).Some?
      reads db.file
    {
      db.layout.Has(db.file.bytes, c) && db.layout.Record(db.file.bytes, c)[0] == FlagByte(e).value
    }

    /**
     Marks record c in the cache and in the file. The two agree afterwards unless the file refused the
     write: then a cached record keeps a mark the file never got.
     */
    method SetDeleteFlag(c: nat, e: DeleteSetting) returns (r: DeleteSetting)
      requires Valid() && c != NO_COUNT
      modifies Repr()
      ensures Repr() == old(Repr()) && db.Valid() && db.layout.WellSized(db.file.bytes)
      ensures db.file.bytes ==
        if c == 0 || !db.isDBase || FlagByte(e).None? || !db.file.writable then old(db.file.bytes)
        else WriteAt(old(db.file.bytes), db.layout.At(c), [FlagByte(e).value])
      ensures Valid() <==> (db.file.writable || !db.isDBase || FlagByte(e).None? || c == 0 || !old(IsCached(c))
        || Marked(c, e))
      ensures c == 0 || !db.isDBase ==> r == OK
      ensures c != 0 && db.isDBase && !e.CheckDelete? ==> r == e
      ensures c != 0 && db.isDBase && e.CheckDelete? && Readable(c) ==>
        r == SettingOf(db.layout.Record(db.file.bytes, c)[0])
      ensures db.isDBase && db.file.writable && old(db.layout.Has(db.file.bytes, c)) ==>
        var was, at := old(db.file.bytes), db.layout.At(c);
        && |was| > at
        && (e.Deleted? ==> db.file.bytes == was[at := 0x2A]) && (e.OK? ==> db.file.bytes == was[at := 0x20])
        && (e.Locked? ==> db.file.bytes == was[at := 0x21]) && (e.Encrypted? ==> db.file.bytes == was[at := 0x7E])
        && (e.Unknown? || e.CheckDelete? ==> db.file.bytes == was)
    {
      MarkInside(db.layout, db.file.bytes, c);
      var cached := IsCached(c);
      ghost var before, storage0 := db.file.bytes, [];
      if cached {
        storage0 := MarkCopy(c, e);
      } else if cache != null {
        storage0 := cache.storage[..];
      }
      r := db.SetDelete(c, e);
      assert cache != null ==> cache.Window(db);
      if c > 0 && db.isDBase && FlagByte(e).Some? {
        MarkDone(before, storage0, c, FlagByte(e).value, cached);
      }
    }

    method MarkCopy(c: nat, e: DeleteSetting) returns (ghost storage0: seq<byte>)
      requires Valid() && IsCached(c)
      modifies Repr() - {db.file}
      ensures Repr() == old(Repr()) && cache.Window(db)
      ensures Coherent(db.layout, db.file.bytes, storage0, cache.lo, cache.hi)
      ensures c > 0 ==> cache.HasRecord(c) && Times(c - cache.lo, db.layout.rl) < |storage0|
      ensures c > 0 ==> (cache.storage[..] ==
        if db.isDBase && FlagByte(e).Some? then storage0[Times(c - cache.lo, db.layout.rl) := FlagByte(e).value]
          else storage0)
      ensures c == 0 ==> cache.lo == 0
    {
      var at := cache.RecordData(db, c);
      storage0 := cache.storage[..];
      if at.Some? {
        var r := db.SetDeleteInBuffer(cache.storage, at.value, e);
        assert storage0[at.value := storage0[at.value]] == storage0;
      }
    }

    lemma MarkDone(before: seq<byte>, storage0: seq<byte>, c: nat, flag: byte, cached: bool)
      requires db.Valid() && db.layout.WellSized(before) && c > 0
      requires db.file.bytes == if db.file.writable then WriteAt(before, db.layout.At(c), [flag]) else before
      requires cached ==> cache != null
      requires cache != null ==>
        && Coherent(db.layout, before, storage0, cache.lo, cache.hi)
        && (cached <==> cache.HasRecord(c))
        && (cached ==> Times(c - cache.lo, db.layout.rl) < |storage0|)
        && cache.storage[..] == if cached then storage0[Times(c - cache.lo, db.layout.rl) := flag] else storage0
      ensures db.layout.WellSized(db.file.bytes)
      ensures cache != null ==>
        (Coherent(db.layout, db.file.bytes, cache.storage[..], cache.lo, cache.hi) <==>
           || db.file.writable || !cached
           || (db.layout.Has(db.file.bytes, c) && db.layout.Record(db.file.bytes, c)[0] == flag))
    {
      WriteFlag(db.layout, before, c, flag);
      if cache != null {
        if db.file.writable && cached {
          MarkBoth(db.layout, before, storage0, cache.lo, cache.hi, c, flag);
        } else if db.file.writable {
          MarkKeepsOthers(db.layout, before, storage0, cache.lo, cache.hi, c, flag);
          StillCoherent(db.layout, before, db.file.bytes, storage0, cache.lo, cache.hi, c);
        } else if cached {
          MarkSlotOnly(db.layout, before, storage0, cache.lo, cache.hi, c, flag);
        }
      }
    }

    method GetDeleteFlag(c: nat) returns (r: DeleteSetting)
      requires Valid()
      modifies Repr()
      ensures Valid() && Repr() == old(Repr()) && db.file.bytes == old(db.file.bytes)
      ensures !db.isDBase ==> r == OK
      ensures Readable(c) && db.isDBase ==> r == SettingOf(db.layout.Record(db.file.bytes, c)[0])
      ensures Readable(c) && db.isDBase ==>
        && db.layout.At(c) < |db.file.bytes| && r != CheckDelete
        && var mark := db.file.bytes[db.layout.At(c)];
        && (r == Deleted <==> mark == 0x2A) && (r == OK <==> mark == 0x20 || mark == 0)
        && (r == Locked <==> mark == 0x21) && (r == Encrypted <==> mark == 0x7E)
    {
      MarkInside(db.layout, db.file.bytes, c);
      if IsCached(c) {
        var at := cache.RecordData(db, c);
        if at.None? {
          return OK;
        }
        ghost var storage0 := cache.storage[..];
        r := db.SetDeleteInBuffer(cache.storage, at.value, CheckDelete);
        assert cache.storage[..] == storage0;
        return;
      }
      r := db.SetDelete(c, CheckDelete);
    }

    method SetCacheSize(size: CacheSize, outcome: Allocation) returns (ok: bool)
      requires Valid()
      modifies Repr()
      ensures Valid() && db.file.bytes == old(db.file.bytes)
      ensures fresh(Repr() - old(Repr()))
    {
      ok := true;
      if cache != null {
        ok := cache.SetBufferSize(db, size, outcome);
      }
    }

    method ReloadFile()
      requires Valid()
      modifies Repr()
      ensures Valid() && Repr() == old(Repr()) && db.file.bytes == old(db.file.bytes)
    {
      if cache != null {
        cache.Clear(db);
      }
    }
  }
}
