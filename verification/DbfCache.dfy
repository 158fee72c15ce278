/** The record cache: a sliding window of records held in one buffer, reloaded when it is old. */
module DbfCaches {
  import opened Bytes
  import opened DbfLayout
  import opened DbfFiles

  // DBF_DATABASE_TIMEOUT, in clock ticks.
  const TIMEOUT := 300000

  datatype CacheSize = CacheNone | CacheTiny | CacheSmall | CacheBig | CacheHuge

  /** How the two allocation attempts of a resize went. */
  datatype Allocation = Enough | OneRecordOnly | OutOfMemory

  /** The clock may read anything at all. */
  method ReadClock() returns (t: int) {
    t := *;
  }

  /** The number of bytes a cache size asks for: always room for one record. */
  function BufferSize(size: CacheSize, rl: nat): (n: nat)
    requires rl > 0
    ensures n >= rl
  {
    var wanted :=
      match size
      case CacheTiny => Times(10, rl)
      case CacheSmall => Times(100, rl)
      case CacheBig => var whole := 65536 - Rem(65536, rl); if Times(200, rl) > whole then Times(200, rl) else whole
      case CacheHuge => 1048576 - Rem(1048576, rl)
      case CacheNone => 0;
    if wanted < rl then rl else wanted
  }

  class Cache {
    var storage: array<byte>
    var lo: nat
    var hi: nat
    var maxAvail: nat
    var lastUsed: int
    var autoRefresh: bool

    constructor ()
      ensures lo == 1 && hi == 0 && maxAvail == 0 && storage.Length == 1024 && fresh(storage)
    {
      lo, hi, maxAvail, lastUsed, autoRefresh := 1, 0, 0, 0, true;
      storage := new byte[1024];
    }

    /** The bookkeeping of the window, apart from what is in it. */
    ghost predicate Window(db: FixedFormatFile)
      reads this
    {
      && db.layout.Valid()
      && storage.Length >= db.layout.rl && maxAvail > 0
      && (lo == 0 ==> hi == 0)
      && (1 <= lo <= hi ==> db.canRead && db.file.readable && hi - lo < maxAvail && lo != NO_COUNT)
    }

    /** The window is a copy of the records lo to hi of these file bytes. */
    ghost predicate ValidFor(db: FixedFormatFile, bytes: seq<byte>)
      reads this, storage
    {
      Window(db) && Coherent(db.layout, bytes, storage[..], lo, hi)
    }

    ghost predicate Valid(db: FixedFormatFile)
      reads this, storage, db.file
    {
      db.Valid() && ValidFor(db, db.file.bytes)
    }

    /** Empties the cache and gives it a new buffer; false stands for the exception. */
    method SetBufferSize(db: FixedFormatFile, size: CacheSize, outcome: Allocation) returns (ok: bool)
      requires db.Valid()
      requires outcome.OutOfMemory? ==> storage.Length >= db.layout.rl
      modifies this
      ensures ok == !outcome.OutOfMemory?
      ensures Valid(db) && hi == 0
      ensures storage == old(storage) || fresh(storage)
    {
      hi, maxAvail := 0, 0;
      var n := BufferSize(size, db.layout.rl);
      maxAvail := Quot(n, db.layout.rl);
      if outcome.Enough? {
        storage := new byte[n];
      } else if outcome.OneRecordOnly? {
        storage := new byte[db.layout.rl];
      }
      ok := !outcome.OutOfMemory?;
    }

    predicate HasRecord(c: nat)
      reads this
    {
      c <= hi && c >= lo
    }

    method NeedsReloading() returns (expired: bool)
    {
      if !autoRefresh {
        return false;
      }
      var time := ReadClock();
      return if time < lastUsed then true else time - lastUsed > TIMEOUT;
    }

    /** Refills the window from record lo on. */
    method ReloadData(db: FixedFormatFile) returns (ok: bool)
      requires db.Valid() && storage.Length >= db.layout.rl && maxAvail > 0
      modifies this, storage
      ensures Valid(db)
      ensures storage == old(storage) && lo == old(lo) && maxAvail == old(maxAvail)
      ensures ok == (hi != 0)
      ensures forall c :: InWindow(db, lo, maxAvail, storage.Length, c) ==> HasRecord(c)
    {
      ghost var got := db.Got(lo, maxAvail, storage.Length);
      ghost var tail := storage[got..];
      hi := db.ReadData(lo, maxAvail, storage, 0, storage.Length);
      if got > 0 {
        assert storage[..got] == db.file.bytes[db.layout.At(lo)..db.layout.At(lo) + got];
        WindowRead(db.layout, db.file.bytes, storage[..], lo, got);
        QuotAtMost(got, maxAvail, db.layout.rl);
      }
      forall c | InWindow(db, lo, maxAvail, storage.Length, c) ensures HasRecord(c) {
        WindowReaches(db, lo, maxAvail, storage.Length, c);
      }
      lastUsed := ReadClock();
      ok := hi != 0;
    }

    /**
     Where record c is in the buffer, if the cache has it or can load it: for every record of a
     readable file it does, and what is there is the file's record.
     */
    method RecordData(db: FixedFormatFile, c: nat) returns (at: Option<nat>)
      requires Valid(db)
      modifies this, storage
      ensures Valid(db) && storage == old(storage)
      ensures at.Some? ==> at.value + db.layout.rl <= storage.Length
      ensures at.Some? && c > 0 ==>
        && HasRecord(c) && at.value == Times(c - lo, db.layout.rl)
        && db.layout.Has(db.file.bytes, c)
        && storage[at.value..at.value + db.layout.rl] == db.layout.Record(db.file.bytes, c)
      ensures old(HasRecord(c)) ==> lo == old(lo)
      ensures old(HasRecord(c)) && c > 0 ==> at.Some?
      ensures db.canRead && db.file.readable && c != NO_COUNT && db.layout.Has(db.file.bytes, c) ==> at.Some?
    {
      var ok := Provide(db, c);
      if !ok {
        return None;
      }
      return Some(Times(c - lo, db.layout.rl));
    }

    /** Sees to it that the cache has record c, by a reload if it must. */
    method Provide(db: FixedFormatFile, c: nat) returns (ok: bool)
      requires Valid(db)
      modifies this, storage
      ensures Valid(db) && storage == old(storage)
      ensures ok && c > 0 ==> HasRecord(c) && Cached(db.layout, db.file.bytes, storage[..], lo, c)
      ensures ok ==> lo <= c && Times(c - lo, db.layout.rl) + db.layout.rl <= storage.Length
      ensures old(HasRecord(c)) ==> lo == old(lo)
      ensures old(HasRecord(c)) && c > 0 ==> ok
      ensures db.canRead && db.file.readable && c != NO_COUNT && db.layout.Has(db.file.bytes, c) ==> ok
    {
      if !HasRecord(c) {
        lo := c;
        ghost var readable := db.canRead && db.file.readable && c != NO_COUNT && db.layout.Has(db.file.bytes, c);
        ok := ReloadData(db);
        assert readable ==> InWindow(db, lo, maxAvail, storage.Length, c);
        if !ok {
          return false;
        }
        if !HasRecord(c) {
          return false;
        }
      } else {
        var stale := NeedsReloading();
        if stale {
          if c > 0 {
            assert Cached(db.layout, db.file.bytes, storage[..], lo, c);
            assert InWindow(db, lo, maxAvail, storage.Length, c);
          }
          ok := ReloadData(db);
          assert c > 0 ==> InWindow(db, lo, maxAvail, storage.Length, c);
          if !ok {
            return false;
          }
        }
      }
      if c > 0 {
        assert Cached(db.layout, db.file.bytes, storage[..], lo, c);
      }
      return true;
    }

    /**
     After record c alone changed in the file, brings its slot up to date; false only for a window
     left at case 0.
     */
    method ReloadRecord(db: FixedFormatFile, c: nat, ghost before: seq<byte>) returns (ok: bool)
      requires db.Valid() && ValidFor(db, before) && c != NO_COUNT
      requires OthersKept(db.layout, before, db.file.bytes, lo, hi, c)
      modifies this, storage
      ensures Valid(db) && storage == old(storage)
      ensures ok == (c > 0 || !old(HasRecord(c)))
    {
      if !HasRecord(c) {
        StillCoherent(db.layout, before, db.file.bytes, storage[..], lo, hi, c);
        return true;
      }
      var stale := NeedsReloading();
      if c > 0 {
        assert Cached(db.layout, before, storage[..], lo, c);
        assert db.layout.Has(db.file.bytes, c);
        assert InWindow(db, lo, maxAvail, storage.Length, c);
      }
      if stale {
        ok := ReloadData(db);
        assert c > 0 ==> InWindow(db, lo, maxAvail, storage.Length, c);
        return;
      }
      var offset := c - lo;
      if offset > maxAvail {
        return true;
      }
      ok := ReadSlot(db, c, before);
    }

    method ReadSlot(db: FixedFormatFile, c: nat, ghost before: seq<byte>) returns (ok: bool)
      requires db.Valid() && ValidFor(db, before) && c != NO_COUNT && HasRecord(c)
      requires c > 0 ==> InWindow(db, lo, maxAvail, storage.Length, c)
      requires OthersKept(db.layout, before, db.file.bytes, lo, hi, c)
      modifies storage
      ensures Valid(db)
      ensures ok == (c > 0)
    {
      var at := Times(c - lo, db.layout.rl);
      ghost var storage0 := storage[..];
      db.layout.HasRoom(db.file.bytes, if c > 0 then c else 1);
      assert Times(1, db.layout.rl) == db.layout.rl;
      var l := db.ReadData(c, 1, storage, at, db.layout.rl);
      if c > 0 {
        assert Quot(db.layout.rl, db.layout.rl) == 1;
        SlotRefreshed(db.layout, before, db.file.bytes, storage0, storage[..], lo, hi, c);
      }
      ok := l != 0;
    }

    method Clear(db: FixedFormatFile)
      requires Valid(db)
      modifies this
      ensures Valid(db) && hi == 0 && storage == old(storage)
    {
      hi := 0;
    }
  }

  /** A record that can be read, and fits a window that starts at lo. */
  ghost predicate InWindow(db: FixedFormatFile, lo: nat, count: nat, size: nat, c: nat)
    requires db.Valid()
    reads db.file
  {
    && db.canRead && db.file.readable && 1 <= lo <= c && lo != NO_COUNT
    && db.layout.Has(db.file.bytes, c)
    && c - lo < count && Times(c - lo, db.layout.rl) + db.layout.rl <= size
  }

  lemma QuotAtMost(got: nat, n: nat, rl: nat)
    requires rl > 0 && got <= Times(n, rl)
    ensures Quot(got, rl) <= n
  {
  }

  /** A readable record inside the window is read in full. */
  lemma WindowReaches(db: FixedFormatFile, lo: nat, count: nat, size: nat, c: nat)
    requires db.Valid() && InWindow(db, lo, count, size, c)
    ensures db.Got(lo, count, size) > 0
    ensures c <= lo - 1 + Quot(db.Got(lo, count, size), db.layout.rl)
  {
    var l := db.layout;
    l.HasRoom(db.file.bytes, c);
    TimesSum(lo - 1, c - lo, l.rl);
    TimesMonotone(c - lo + 1, count, l.rl);
    QuotAtLeast(db.Got(lo, count, size), c - lo + 1, l.rl);
  }
}
