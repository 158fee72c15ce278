/** One record being edited: its buffer, the backup taken before the first change, and the commit. */
module DbfRecords {
  import opened Bytes
  import opened DbfLayout
  import opened DbfFiles
  import opened DbfStores
  import opened DbfHeaders

  /** A field inside the record buffer. */
  predicate FieldFits(f: Field, rl: nat) {
    1 <= f.offset && f.offset + f.length <= rl
  }

  /** What a visible field holds after text is stored in it: the text up to a NUL, padded with blanks. */
  function Padded(text: seq<byte>, count: nat, length: nat): (r: seq<byte>)
    requires count <= length
    ensures |r| == length
  {
    var s := CString(if count <= |text| then text[..count] else text);
    s + Repeat(' ' as int, length - |s|)
  }

  /** Text is cut at the length given or at its NUL, and what is left of the field is blank. */
  lemma PaddedInBytes(text: seq<byte>, more: seq<byte>, count: nat, length: nat)
    requires 0 !in text && |text| <= count <= length
    requires |text| == count || (more != [] && more[0] == 0)
    ensures Padded(text + more, count, length) == text + Repeat(0x20, length - |text|)
  {
    var all := text + more;
    if count <= |all| {
      assert all[..count] == text + more[..count - |text|];
      CStringOf(text, more[..count - |text|]);
    } else {
      CStringOf(text, more);
    }
  }

  class Record {
    const table: Table
    const fields: seq<Field>
    var caseNum: nat
    var mem: array<byte>
    var backup: Option<seq<byte>>
    var isModified: bool
    var allowModify: bool
    var allowBackup: bool

    ghost predicate Valid()
      reads this, mem, table.Repr(), table.cache
    {
      && table.Valid()
      && mem.Length == table.db.layout.rl
      && mem !in table.Repr()
      && (backup.Some? ==> |backup.value| == table.db.layout.rl)
      && forall k :: 0 <= k < |fields| ==> FieldFits(fields[k], table.db.layout.rl)
    }

    /** Loads case c for editing, or starts a new record when it cannot be read. */
    constructor (table: Table, fields: seq<Field>, c: nat, modifiable: bool)
      requires table.Valid()
      requires forall k :: 0 <= k < |fields| ==> FieldFits(fields[k], table.db.layout.rl)
      modifies table.Repr() - {table.db.file}
      ensures Valid() && this.table == table && this.fields == fields && fresh(mem)
      ensures table.Repr() == old(table.Repr())
      ensures backup == None
      ensures table.Readable(c) ==>
        && caseNum == c && mem[..] == table.db.layout.Record(table.db.file.bytes, c)
        && allowBackup && allowModify == (modifiable && table.db.canReplace) && !isModified
      ensures c == 0 ==> caseNum == 0 && isModified && !allowBackup && allowModify == (modifiable && table.db.canAppend)
    {
      this.table, this.fields := table, fields;
      mem := new byte[table.db.layout.rl](_ => ' ' as int);
      caseNum, backup, isModified := c, None, c == 0;
      allowModify, allowBackup := false, false;
      new;
      Load(c, modifiable);
    }

    method Load(c: nat, modifiable: bool)
      requires Valid()
      modifies table.Repr() - {table.db.file}, mem, `caseNum, `allowModify, `allowBackup
      ensures Valid() && table.Repr() == old(table.Repr())
      ensures table.Readable(c) ==>
        && caseNum == old(caseNum) && mem[..] == table.db.layout.Record(table.db.file.bytes, c)
        && allowBackup && allowModify == (modifiable && table.db.canReplace)
      ensures c == 0 ==> caseNum == 0 && !allowBackup && allowModify == (modifiable && table.db.canAppend)
    {
      var ok := TryRead(c);
      if ok {
        allowModify := modifiable && table.db.canReplace;
        allowBackup := true;
      } else {
        allowModify := modifiable && table.db.canAppend;
        allowBackup := false;
        caseNum := 0;
      }
    }

    method TryRead(c: nat) returns (ok: bool)
      requires Valid()
      modifies table.Repr() - {table.db.file}, mem
      ensures Valid() && table.Repr() == old(table.Repr())
      ensures table.Readable(c) ==> ok && mem[..] == table.db.layout.Record(table.db.file.bytes, c)
      ensures c == 0 ==> !ok
    {
      ok := false;
      if table.db.canRead {
        ok := table.ReadCaseRawBuf(c, mem);
      }
    }

    /** Keeps a copy of the buffer, but never for a new record. */
    method Backup()
      requires Valid()
      modifies `backup
      ensures Valid()
      ensures backup == if caseNum == 0 || caseNum == NO_COUNT then old(backup) else Some(mem[..])
    {
      if caseNum == 0 || caseNum == NO_COUNT {
        return;
      }
      backup := Some(mem[..]);
    }

    /** The bytes of field fieldnum; 0 is no field. */
    function GetData(fieldnum: nat): (r: Option<seq<byte>>)
      requires Valid()
      reads this, mem, table.Repr(), table.cache
    {
      if fieldnum == 0 || fieldnum > |fields| then None
      else
        var f := fields[fieldnum - 1];
        Some(mem[f.offset..f.offset + f.length])
    }

    /** Whether a call of SetData gets as far as the field. */
    predicate Settable(fieldnum: nat, length: nat)
      reads this
    {
      allowModify && length > 0 && 1 <= fieldnum <= |fields|
    }

    /**
     Stores data in one field: exactly that field changes, and the record as it was is kept as the
     backup if there is none yet.
     */
    method SetData(fieldnum: nat, data: seq<byte>, length: nat) returns (ok: bool, stored: nat)
      requires Valid()
      requires length <= |data| || (0 in data && !(1 <= fieldnum <= |fields| && !fields[fieldnum - 1].visible))
      modifies this`backup, this`isModified, mem
      ensures Valid() && mem == old(mem)
      ensures ok == Settable(fieldnum, length)
      ensures backup == if old(allowModify && length > 0 && backup.None? && allowBackup && caseNum != 0
        && caseNum != NO_COUNT)
        then Some(old(mem[..])) else old(backup)
      ensures !ok ==> mem[..] == old(mem[..]) && isModified == old(isModified)
      ensures ok ==> isModified && var f := fields[fieldnum - 1];
        && stored == (if f.length < length then f.length else length)
        && mem[..f.offset] == old(mem[..f.offset]) && mem[f.offset + f.length..] == old(mem[f.offset + f.length..])
        && GetData(fieldnum) == Some(if f.visible then Padded(data, stored, f.length)
                                     else data[..stored] + old(mem[f.offset + stored..f.offset + f.length]))
    {
      stored := length;
      ok := BeginChange(fieldnum, length);
      if !ok {
        return;
      }
      stored := Change(fieldnum, data, length);
    }

    method Change(fieldnum: nat, data: seq<byte>, length: nat) returns (stored: nat)
      requires Valid() && 1 <= fieldnum <= |fields|
      requires length <= |data| || (0 in data && fields[fieldnum - 1].visible)
      modifies this`isModified, mem
      ensures Valid() && isModified
      ensures var f := fields[fieldnum - 1];
        && stored == (if f.length < length then f.length else length)
        && mem[..f.offset] == old(mem[..f.offset]) && mem[f.offset + f.length..] == old(mem[f.offset + f.length..])
        && GetData(fieldnum) == Some(if f.visible then Padded(data, stored, f.length)
                                     else data[..stored] + old(mem[f.offset + stored..f.offset + f.length]))
    {
      var f := fields[fieldnum - 1];
      stored := if f.length < length then f.length else length;
      isModified := true;
      StoreField(f, data, stored);
    }

    /** The checks before a change, with the backup in between. */
    method BeginChange(fieldnum: nat, length: nat) returns (ok: bool)
      requires Valid()
      modifies `backup
      ensures Valid() && ok == Settable(fieldnum, length)
      ensures backup == if allowModify && length > 0 && old(backup).None? && allowBackup && caseNum != 0
        && caseNum != NO_COUNT
        then Some(mem[..]) else old(backup)
    {
      if !allowModify || length == 0 {
        return false;
      }
      if backup.None? && allowBackup {
        Backup();
      }
      ok := 1 <= fieldnum <= |fields|;
    }

    method StoreField(f: Field, data: seq<byte>, count: nat)
      requires Valid() && FieldFits(f, mem.Length)
      requires count <= f.length && (count <= |data| || (0 in data && f.visible))
      modifies mem
      ensures Valid()
      ensures mem[..f.offset] == old(mem[..f.offset]) && mem[f.offset + f.length..] == old(mem[f.offset + f.length..])
      ensures mem[f.offset..f.offset + f.length] == if f.visible then Padded(data, count, f.length)
        else data[..count] + old(mem[f.offset + count..f.offset + f.length])
    {
      if !f.visible {
        StoreBytes(f, data, count);
        return;
      }
      StoreText(f, data, count);
    }

    method StoreBytes(f: Field, data: seq<byte>, count: nat)
      requires FieldFits(f, mem.Length) && count <= f.length && count <= |data|
      modifies mem
      ensures mem[..f.offset] == old(mem[..f.offset]) && mem[f.offset + f.length..] == old(mem[f.offset + f.length..])
      ensures mem[f.offset..f.offset + f.length] == data[..count] + old(mem[f.offset + count..f.offset + f.length])
    {
      for k := 0 to count
        invariant forall j :: 0 <= j < mem.Length ==>
          mem[j] == if f.offset <= j < f.offset + k then data[j - f.offset] else old(mem[j])
      {
        mem[f.offset + k] := data[k];
      }
    }

    method StoreText(f: Field, data: seq<byte>, count: nat)
      requires FieldFits(f, mem.Length) && count <= f.length && (count <= |data| || 0 in data)
      modifies mem
      ensures mem[..f.offset] == old(mem[..f.offset]) && mem[f.offset + f.length..] == old(mem[f.offset + f.length..])
      ensures mem[f.offset..f.offset + f.length] == Padded(data, count, f.length)
    {
      var i := StoreChars(f, data, count);
      PadField(f, i);
    }

    method PadField(f: Field, from: nat)
      requires FieldFits(f, mem.Length) && from <= f.length
      modifies mem
      ensures mem[..f.offset] == old(mem[..f.offset]) && mem[f.offset + f.length..] == old(mem[f.offset + f.length..])
      ensures mem[f.offset..f.offset + f.length]
           == old(mem[f.offset..f.offset + from]) + Repeat(' ' as int, f.length - from)
    {
      var i := from;
      while i < f.length
        invariant from <= i <= f.length
        invariant forall j :: 0 <= j < mem.Length ==>
          mem[j] == if f.offset + from <= j < f.offset + i then ' ' as int else old(mem[j])
      {
        mem[f.offset + i] := ' ' as int;
        i := i + 1;
      }
    }

    /** The copying loop of StoreText: up to count bytes, or to a NUL. */
    method StoreChars(f: Field, data: seq<byte>, count: nat) returns (i: nat)
      requires FieldFits(f, mem.Length) && count <= f.length && (count <= |data| || 0 in data)
      modifies mem
      ensures i <= count
      ensures mem[..f.offset] == old(mem[..f.offset]) && mem[f.offset + f.length..] == old(mem[f.offset + f.length..])
      ensures mem[f.offset..f.offset + i] == CString(if count <= |data| then data[..count] else data)
    {
      ghost var s := CString(if count <= |data| then data[..count] else data);
      i := 0;
      while i < count
        invariant i <= |s| && i <= count
        invariant forall j :: 0 <= j < mem.Length ==>
          mem[j] == if f.offset <= j < f.offset + i then s[j - f.offset] else old(mem[j])
      {
        TextByte(data, count, i);
        if data[i] == 0 {
          break;
        }
        mem[f.offset + i] := data[i];
        i := i + 1;
      }
      assert i == |s|;
      forall k | 0 <= k < |s|
        ensures mem[f.offset..f.offset + i][k] == s[k]
      {
        assert mem[f.offset + k] == s[k];
      }
    }

    /** Reading the text byte by byte agrees with its C string. */
    static lemma TextByte(data: seq<byte>, count: nat, i: nat)
      requires count <= |data| || 0 in data
      requires var s := CString(if count <= |data| then data[..count] else data); i <= |s| && i < count
      ensures var s := CString(if count <= |data| then data[..count] else data);
        i < |data| && (data[i] == 0 <==> i == |s|) && (i < |s| ==> s[i] == data[i])
    {
    }

    /**
     Commits the changes. With a backup this is a compare-and-swap on the stored record; the backup is
     gone afterwards, whether or not the commit went through.
     */
    method CommitChanges() returns (ok: bool)
      requires Valid()
      modifies this`backup, this`caseNum, table.Repr()
      ensures Valid() && mem == old(mem) && mem[..] == old(mem[..]) && table.Repr() == old(table.Repr())
      ensures !isModified ==> ok && table.db.file.bytes == old(table.db.file.bytes) && backup == old(backup)
      ensures isModified ==> backup == None
      ensures isModified && old(table.Readable(caseNum)) ==>
        && caseNum == old(caseNum)
        && (ok <==> old(table.Swaps(caseNum, backup)))
        && table.db.file.bytes ==
             if ok then Saved(table.db.layout, old(table.db.file.bytes), caseNum, mem[..]) else old(table.db.file.bytes)
      ensures isModified && old(caseNum) == 0 ==>
        && (ok <==> old(table.db.Saves(0)))
        && caseNum == (if ok then old(table.db.layout.Count(table.db.file.bytes)) + 1 else 0)
    {
      if !isModified {
        return true;
      }
      var c := table.UpdateCase(caseNum, mem[..], backup);
      backup := None;
      if c != 0 {
        if caseNum == 0 {
          caseNum := c;
        }
        return true;
      }
      return false;
    }
  }

  /**
   Committing again after a lost commit: the second call has no backup, so it replaces a record it has
   never seen.
   */
  method CommitTwice(r: Record) returns (first: bool, second: bool)
    requires r.Valid() && r.isModified && r.backup.Some? && r.table.Readable(r.caseNum) && r.caseNum != 0
    requires r.table.db.Saves(r.caseNum)
    requires r.backup.value != r.table.db.layout.Record(r.table.db.file.bytes, r.caseNum)
    modifies r`backup, r`caseNum, r.table.Repr()
    ensures !first && second
    ensures r.table.db.Valid() && r.table.Readable(r.caseNum) && r.caseNum == old(r.caseNum)
    ensures r.table.db.layout.Record(r.table.db.file.bytes, r.caseNum) == r.mem[..]
  {
    first := r.CommitChanges();
    second := r.CommitChanges();
    WriteRecord(r.table.db.layout, old(r.table.db.file.bytes), r.caseNum, r.mem[..]);
  }
}
