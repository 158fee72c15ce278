/** The data file of a table: positioned reads and writes, and the fixed-format file on top of them. */
module DbfFiles {
  import opened Bytes
  import opened DbfLayout

  /** The largest unsigned long, which marks a bad case number. */
  const NO_COUNT: nat := 0xFFFF_FFFF_FFFF_FFFF

  datatype DeleteSetting = Unknown | OK | CheckDelete | Deleted | Locked | Encrypted

  /** The byte that marks a record, for the four settings that can be stored. */
  function FlagByte(e: DeleteSetting): Option<byte> {
    match e
    case Deleted => Some('*' as int)
    case Locked => Some('!' as int)
    case OK => Some(' ' as int)
    case Encrypted => Some('~' as int)
    case _ => None
  }

  function SettingOf(b: byte): DeleteSetting {
    if b == '*' as int then Deleted
    else if b == '!' as int then Locked
    else if b == 0 || b == ' ' as int then OK
    else if b == '~' as int then Encrypted
    else Unknown
  }

  /** A stored mark reads back as the setting it was stored for. */
  lemma FlagRoundTrip(e: DeleteSetting)
    ensures FlagByte(e).Some? ==> SettingOf(FlagByte(e).value) == e
    ensures FlagByte(e).None? <==> e == Unknown || e == CheckDelete
  {
  }

  /** The operating system's file, opened anew by name for each access. */
  class DataFile {
    var bytes: seq<byte>
    const readable: bool
    const writable: bool

    constructor (bytes: seq<byte>, readable: bool, writable: bool)
      ensures this.bytes == bytes && this.readable == readable && this.writable == writable
    {
      this.bytes, this.readable, this.writable := bytes, readable, writable;
    }

    /** How many of the wanted bytes there are to read. */
    function Available(offset: nat, count: nat): (got: nat)
      reads this
      ensures got <= count && (got > 0 ==> offset + got <= |bytes|)
    {
      if !readable || offset >= |bytes| then 0 else if count < |bytes| - offset then count else |bytes| - offset
    }

    method LongPntrRead(offset: nat, count: nat, mem: array<byte>, at: nat) returns (got: nat)
      requires at + count <= mem.Length
      modifies mem
      ensures got == Available(offset, count)
      ensures mem[..] == old(mem[..at]) + (if got > 0 then bytes[offset..offset + got] else []) + old(mem[at + got..])
    {
      got := Available(offset, count);
      for k := 0 to got
        invariant forall j :: 0 <= j < mem.Length ==>
          mem[j] == if at <= j < at + k then bytes[offset + (j - at)] else old(mem[j])
      {
        mem[at + k] := bytes[offset + k];
      }
    }

    /** A negative offset stands for the end of the file; start is where the data went. */
    method LongPntrWrite(offset: int, data: seq<byte>) returns (written: nat, start: int)
      modifies this
      ensures written == if writable then |data| else 0
      ensures start == if writable && offset < 0 then |old(bytes)| else offset
      ensures bytes == if writable then WriteAt(old(bytes), start, data) else old(bytes)
    {
      written, start := 0, offset;
      if writable {
        start := if offset < 0 then |bytes| else offset;
        bytes := WriteAt(bytes, start, data);
        written := |data|;
      }
    }
  }

  class FixedFormatFile {
    const file: DataFile
    const layout: Layout
    const isDBase: bool
    // The FileStatus bits: wr_Read, wr_Replace and wr_Append.
    const canRead: bool
    const canReplace: bool
    const canAppend: bool

    constructor (file: DataFile, layout: Layout, isDBase: bool, canRead: bool, canReplace: bool, canAppend: bool)
      ensures this.file == file && this.layout == layout && this.isDBase == isDBase
      ensures this.canRead == canRead && this.canReplace == canReplace && this.canAppend == canAppend
    {
      this.file, this.layout, this.isDBase := file, layout, isDBase;
      this.canRead, this.canReplace, this.canAppend := canRead, canReplace, canAppend;
    }

    ghost predicate Valid()
      reads file
    {
      layout.Valid() && |file.bytes| >= layout.hs
    }

    /** How many bytes a read of count records from case c into size bytes gets. */
    ghost function Got(c: nat, count: nat, size: nat): (got: nat)
      requires Valid()
      reads file
      ensures got <= size && got <= Times(count, layout.rl)
      ensures got > 0 ==> c > 0 && layout.At(c) + got <= |file.bytes|
    {
      var want := if Times(count, layout.rl) > size then size else Times(count, layout.rl);
      if !canRead || c == 0 || c == NO_COUNT then 0 else file.Available(layout.At(c), want)
    }

    /** Reads up to count records; returns the number of the last one read in full, or 0. */
    method ReadData(c: nat, count: nat, dest: array<byte>, at: nat, size: nat) returns (l: nat)
      requires Valid() && at + size <= dest.Length
      modifies dest
      ensures Valid()
      ensures l == if Got(c, count, size) == 0 then 0 else c - 1 + Quot(Got(c, count, size), layout.rl)
      ensures var got := Got(c, count, size);
        dest[..] == old(dest[..at])
          + (if got > 0 then file.bytes[layout.At(c)..layout.At(c) + got] else [])
          + old(dest[at + got..])
    {
      if !canRead || c == 0 || c == NO_COUNT {
        return 0;
      }
      var offset := layout.At(c);
      var want := Times(count, layout.rl);
      if want > size {
        want := size;
      }
      var got := file.LongPntrRead(offset, want, dest, at);
      if got <= 0 {
        return 0;
      }
      l := Quot(offset - layout.hs + got, layout.rl);
      QuotShift(c - 1, got, layout.rl);
    }

    /** Whether a save of case c goes through; case 0 appends. */
    ghost predicate Saves(c: nat)
      requires Valid()
      reads file
    {
      layout.WellSized(file.bytes) && file.writable && if c == 0 then canAppend else canReplace
    }

    /** Where an append goes: the end of the file, or over a stray end-of-file byte. */
    method AppendOffset() returns (ok: bool, offset: int)
      requires Valid()
      ensures ok == layout.WellSized(file.bytes)
      ensures ok ==> layout.At(layout.Count(file.bytes) + 1) == if offset < 0 then |file.bytes| else offset
    {
      ok, offset := true, |file.bytes|;
      var stray := Rem(offset - layout.hs, layout.rl);
      if stray == 0 {
        offset := -1;
      } else if stray == 1 {
        offset := offset - 1;
      } else {
        ok := false;
      }
      if ok {
        AppendPosition(layout, file.bytes);
      }
    }

    /** Saves count records at once; the result is the number of the first one, or 0. */
    method SaveData(c: nat, count: nat, origin: seq<byte>) returns (n: nat)
      requires Valid() && |origin| == Times(count, layout.rl)
      modifies file
      ensures Valid()
      ensures file.bytes ==
        if old(Saves(c)) && count > 0 then Saved(layout, old(file.bytes), c, origin) else old(file.bytes)
      ensures n ==
        if old(Saves(c)) && count > 0 then (if c == 0 then old(layout.Count(file.bytes)) + 1 else c) else 0
      ensures n > 0 ==> file.writable && if c > 0 then canReplace else canAppend
      ensures n == 0 ==> file.bytes == old(file.bytes)
    {
      if |origin| == 0 {
        return 0;
      }
      if !(canReplace || canAppend) {
        return 0;
      }
      var ok, offset := AppendOffset();
      if !ok {
        return 0;
      }
      if c == 0 {
        if !canAppend {
          return 0;
        }
      } else {
        if !canReplace {
          return 0;
        }
        offset := layout.At(c);
      }
      var written, start := file.LongPntrWrite(offset, origin);
      start := start - layout.hs;
      if written <= 0 || start < 0 {
        return 0;
      }
      QuotOfTimes((if c == 0 then old(layout.Count(file.bytes)) + 1 else c) - 1, 0, layout.rl);
      n := Quot(start, layout.rl) + 1;
    }

    /** AddCase(origin) is SaveData(0, ...): on success the table is one record longer. */
    method AddCase(origin: seq<byte>) returns (n: nat)
      requires Valid() && |origin| == layout.rl
      modifies file
      ensures Valid()
      ensures n == if old(Saves(0)) then old(layout.Count(file.bytes)) + 1 else 0
      ensures layout.Records(file.bytes) == old(layout.Records(file.bytes)) + if old(Saves(0)) then [origin] else []
    {
      if layout.WellSized(file.bytes) {
        SavedRecords(layout, file.bytes, 0, origin);
      }
      n := SaveData(0, 1, origin);
    }

    method RecordCount() returns (n: nat)
      requires Valid()
      ensures n == if canRead then layout.Count(file.bytes) else 0
    {
      if !canRead {
        return 0;
      }
      if |file.bytes| == 0 {
        return 0;
      }
      n := Quot(|file.bytes| - layout.hs, layout.rl);
    }

    /** The record-buffer form of SetDelete: marks, or checks, the record at an offset of a buffer. */
    method SetDeleteInBuffer(buf: array<byte>, at: nat, e: DeleteSetting) returns (r: DeleteSetting)
      requires at < buf.Length
      modifies buf
      ensures buf[..] == old(buf[..])[at := if isDBase && FlagByte(e).Some? then FlagByte(e).value else old(buf[at])]
      ensures r == if !isDBase then OK else if e.CheckDelete? then SettingOf(buf[at]) else e
    {
      if !isDBase {
        return OK;
      }
      if e.CheckDelete? {
        return SettingOf(buf[at]);
      }
      if FlagByte(e).None? {
        return Unknown;
      }
      buf[at] := FlagByte(e).value;
      return e;
    }

    /** The file form; checking a record that cannot be read looks at an unset byte. */
    method SetDelete(c: nat, e: DeleteSetting) returns (r: DeleteSetting)
      requires Valid()
      modifies file
      ensures Valid()
      ensures file.bytes ==
        if c == 0 || c == NO_COUNT || !isDBase || FlagByte(e).None? || !file.writable then old(file.bytes)
        else WriteAt(old(file.bytes), layout.At(c), [FlagByte(e).value])
      ensures c == 0 || c == NO_COUNT || !isDBase ==> r == OK
      ensures c != 0 && c != NO_COUNT && isDBase ==>
        if !e.CheckDelete? then r == e
        else file.readable && layout.Has(file.bytes, c) ==> r == SettingOf(layout.Record(file.bytes, c)[0])
    {
      if c == 0 || c == NO_COUNT || !isDBase {
        return OK;
      }
      var offset := layout.At(c);
      if e.CheckDelete? {
        var mem := new byte[1];
        layout.HasRoom(file.bytes, c);
        var got := file.LongPntrRead(offset, 1, mem, 0);
        return SettingOf(mem[0]);
      }
      if FlagByte(e).None? {
        return Unknown;
      }
      var written, start := file.LongPntrWrite(offset, [FlagByte(e).value]);
      return e;
    }
  }
}
