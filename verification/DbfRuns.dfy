/** Whole runs against a table: any sequence of operations behaves as on a plain sequence of records. */
module DbfRuns {
  import opened Bytes
  import opened DbfLayout
  import opened DbfFiles
  import opened DbfCaches
  import opened DbfStores

  datatype Op =
    | Read(c: nat)
    | GetField(c: nat, offset: nat, length: nat)
    | Save(c: nat, data: seq<byte>)
    | Update(c: nat, changes: seq<byte>, backup: Option<seq<byte>>)
    | Append(data: seq<byte>)
    | Mark(c: nat, e: DeleteSetting)
    | Check(c: nat)
    | CountRecords
    | Resize(size: CacheSize, outcome: Allocation)
    | Reload

  datatype Out = Data(bytes: seq<byte>) | Number(n: nat) | Setting(e: DeleteSetting) | Nothing

  // ----- the reference: records, no file and no cache

  /** The operations a client of n records may ask for. */
  predicate Allowed(n: nat, rl: nat, op: Op) {
    match op
    case Read(c) => 1 <= c <= n && c != NO_COUNT
    case GetField(c, offset, length) => 1 <= c <= n && c != NO_COUNT && offset + length <= rl
    case Save(c, data) => 1 <= c <= n && c != NO_COUNT && |data| == rl
    case Update(c, changes, backup) => 1 <= c <= n && c != NO_COUNT && |changes| == rl
      && (backup.Some? ==> |backup.value| == rl)
    case Append(data) => |data| == rl
    case Mark(c, _) => 1 <= c <= n && c != NO_COUNT
    case Check(c) => 1 <= c <= n && c != NO_COUNT
    case _ => true
  }

  /** Part of a record; nothing of a record that is too short, which a table does not have. */
  function Slice(r: seq<byte>, offset: nat, length: nat): seq<byte> {
    if offset + length <= |r| then r[offset..offset + length] else []
  }

  /** One operation on the records: what it leaves and what it returns. Single fields are to be had
      of a table with a cache only. */
  function Next(rs: seq<seq<byte>>, rl: nat, cached: bool, op: Op): (seq<seq<byte>>, Out) {
    if !Allowed(|rs|, rl, op) then (rs, Nothing)
    else
      match op
      case Read(c) => (rs, Data(rs[c - 1]))
      case GetField(c, offset, length) => (rs, if cached then Data(Slice(rs[c - 1], offset, length)) else Nothing)
      case Save(c, data) => (rs[c - 1 := data], Number(1))
      case Update(c, changes, backup) =>
        if backup.None? || backup.value == rs[c - 1] then (rs[c - 1 := changes], Number(1)) else (rs, Number(0))
      case Append(data) => (rs + [data], Number(|rs| + 1))
      case Mark(c, e) =>
        (if FlagByte(e).None? then rs else rs[c - 1 := MarkedRecord(rs[c - 1], FlagByte(e).value)], Nothing)
      case Check(c) => (rs, Setting(if rs[c - 1] == [] then Unknown else SettingOf(rs[c - 1][0])))
      case CountRecords => (rs, Number(|rs|))
      case Resize(_, _) => (rs, Nothing)
      case Reload => (rs, Nothing)
  }

  function MarkedRecord(r: seq<byte>, flag: byte): seq<byte> {
    if r == [] then r else r[0 := flag]
  }

  function Run(rs: seq<seq<byte>>, rl: nat, cached: bool, ops: seq<Op>): (seq<seq<byte>>, seq<Out>) {
    if ops == [] then (rs, [])
    else
      var (mid, outs) := Run(rs, rl, cached, ops[..|ops| - 1]);
      var (after, out) := Next(mid, rl, cached, ops[|ops| - 1]);
      (after, outs + [out])
  }

  // ----- the table

  /** An ordinary dBase table, open for everything. */
  ghost predicate Serving(t: Table) {
    && t.db.isDBase && t.db.canRead && t.db.canReplace && t.db.canAppend
    && t.db.file.readable && t.db.file.writable
  }

  ghost function RecordsOf(t: Table): seq<seq<byte>>
    requires t.db.Valid()
    reads t.db.file
  {
    t.db.layout.Records(t.db.file.bytes)
  }

  method ReadRecord(t: Table, c: nat) returns (data: seq<byte>)
    requires t.Valid() && Serving(t) && 1 <= c <= |RecordsOf(t)| && c != NO_COUNT
    modifies t.Repr() - {t.db.file}
    ensures t.Valid() && t.Repr() == old(t.Repr())
    ensures data == RecordsOf(t)[c - 1]
  {
    var buf := new byte[t.db.layout.rl];
    var ok := t.ReadCaseRawBuf(c, buf);
    data := buf[..];
  }

  /** The read that fills the cache: a miss loads the records from c on. */
  method ReadField(t: Table, c: nat, offset: nat, length: nat) returns (out: Out)
    requires t.Valid() && Serving(t) && Allowed(|RecordsOf(t)|, t.db.layout.rl, GetField(c, offset, length))
    modifies t.Repr() - {t.db.file}
    ensures t.Valid() && t.Repr() == old(t.Repr())
    ensures out == if t.cache != null then Data(Slice(RecordsOf(t)[c - 1], offset, length)) else Nothing
    ensures t.cache != null ==> t.IsCached(c)
  {
    assert t.Readable(c);
    var data := t.GetDataC(c, offset, length);
    out := if data.Some? then Data(data.value) else Nothing;
  }

  method SaveRecord(t: Table, c: nat, data: seq<byte>) returns (n: nat)
    requires t.Valid() && Serving(t) && Allowed(|RecordsOf(t)|, t.db.layout.rl, Save(c, data))
    modifies t.Repr()
    ensures t.Valid() && t.Repr() == old(t.Repr())
    ensures n == 1 && RecordsOf(t) == old(RecordsOf(t))[c - 1 := data]
  {
    SavedRecords(t.db.layout, t.db.file.bytes, c, data);
    n := t.SaveCaseData(c, data);
  }

  method UpdateRecord(t: Table, c: nat, changes: seq<byte>, backup: Option<seq<byte>>) returns (n: nat)
    requires t.Valid() && Serving(t) && Allowed(|RecordsOf(t)|, t.db.layout.rl, Update(c, changes, backup))
    modifies t.Repr()
    ensures t.Valid() && t.Repr() == old(t.Repr())
    ensures (RecordsOf(t), Number(n)) ==
      Next(old(RecordsOf(t)), t.db.layout.rl, t.cache != null, Update(c, changes, backup))
  {
    SavedRecords(t.db.layout, t.db.file.bytes, c, changes);
    n := t.UpdateCase(c, changes, backup);
  }

  method AppendRecord(t: Table, data: seq<byte>) returns (n: nat)
    requires t.Valid() && Serving(t) && |data| == t.db.layout.rl
    modifies t.Repr()
    ensures t.Valid() && t.Repr() == old(t.Repr())
    ensures RecordsOf(t) == old(RecordsOf(t)) + [data] && n == |RecordsOf(t)|
  {
    SavedRecords(t.db.layout, t.db.file.bytes, 0, data);
    n := t.UpdateCase(0, data, None);
  }

  method MarkRecord(t: Table, c: nat, e: DeleteSetting)
    requires t.Valid() && Serving(t) && Allowed(|RecordsOf(t)|, t.db.layout.rl, Mark(c, e))
    modifies t.Repr()
    ensures t.Valid() && t.Repr() == old(t.Repr())
    ensures RecordsOf(t) == Next(old(RecordsOf(t)), t.db.layout.rl, t.cache != null, Mark(c, e)).0
  {
    if FlagByte(e).Some? {
      MarkedRecords(t.db.layout, t.db.file.bytes, c, FlagByte(e).value);
    }
    var r := t.SetDeleteFlag(c, e);
  }

  method CheckRecord(t: Table, c: nat) returns (e: DeleteSetting)
    requires t.Valid() && Serving(t) && Allowed(|RecordsOf(t)|, t.db.layout.rl, Check(c))
    modifies t.Repr()
    ensures t.Valid() && t.Repr() == old(t.Repr()) && RecordsOf(t) == old(RecordsOf(t))
    ensures RecordsOf(t)[c - 1] != [] && e == SettingOf(RecordsOf(t)[c - 1][0])
  {
    e := t.GetDeleteFlag(c);
    assert RecordsOf(t)[c - 1] == t.db.layout.Record(t.db.file.bytes, c);
  }

  lemma MarkedRecords(l: Layout, bytes: seq<byte>, c: nat, flag: byte)
    requires l.Valid() && l.WellSized(bytes) && l.Has(bytes, c)
    ensures l.WellSized(WriteAt(bytes, l.At(c), [flag]))
    ensures l.Records(WriteAt(bytes, l.At(c), [flag]))
      == l.Records(bytes)[c - 1 := MarkedRecord(l.Records(bytes)[c - 1], flag)]
  {
    WriteFlag(l, bytes, c, flag);
    var after := WriteAt(bytes, l.At(c), [flag]);
    forall k | 0 <= k < l.Count(bytes) && k != c - 1 ensures l.Records(after)[k] == l.Records(bytes)[k] {
      assert l.Has(after, k + 1);
    }
  }

  /** One operation, with whatever the clock reads while it runs. */
  method Perform(t: Table, op: Op) returns (out: Out)
    requires t.Valid() && Serving(t)
    modifies t.Repr()
    ensures t.Valid() && fresh(t.Repr() - old(t.Repr()))
    ensures (RecordsOf(t), out) == Next(old(RecordsOf(t)), t.db.layout.rl, t.cache != null, op)
  {
    var count := t.db.RecordCount();
    if !Allowed(count, t.db.layout.rl, op) {
      return Nothing;
    }
    match op {
      case Read(c) =>
        var data := ReadRecord(t, c);
        return Data(data);
      case GetField(c, offset, length) =>
        out := ReadField(t, c, offset, length);
      case Save(c, data) =>
        var n := SaveRecord(t, c, data);
        return Number(n);
      case Update(c, changes, backup) =>
        var n := UpdateRecord(t, c, changes, backup);
        return Number(n);
      case Append(data) =>
        var n := AppendRecord(t, data);
        return Number(n);
      case Mark(c, e) =>
        MarkRecord(t, c, e);
        return Nothing;
      case Check(c) =>
        var e := CheckRecord(t, c);
        return Setting(e);
      case CountRecords =>
        return Number(count);
      case Resize(size, outcome) =>
        var ok := t.SetCacheSize(size, outcome);
        return Nothing;
      case Reload =>
        t.ReloadFile();
        return Nothing;
    }
  }

  /**
   Any run on a table, cached or not, gives the results and leaves the records that the same run on a
   plain sequence of records does.
   */
  method Replay(t: Table, ops: seq<Op>) returns (outs: seq<Out>)
    requires t.Valid() && Serving(t)
    modifies t.Repr()
    ensures t.Valid()
    ensures (RecordsOf(t), outs) == Run(old(RecordsOf(t)), t.db.layout.rl, t.cache != null, ops)
  {
    outs := [];
    for i := 0 to |ops|
      invariant t.Valid() && fresh(t.Repr() - old(t.Repr()))
      invariant (RecordsOf(t), outs) == Run(old(RecordsOf(t)), t.db.layout.rl, t.cache != null, ops[..i])
    {
      var out := Perform(t, ops[i]);
      outs := outs + [out];
      assert ops[..i + 1][..i] == ops[..i];
    }
    assert ops[..|ops|] == ops;
  }

  // ----- marks, byte by byte

  /** What a mark does to a record, and what a check of a record answers. */
  lemma MarksInBytes(rs: seq<seq<byte>>, rl: nat, cached: bool, c: nat)
    requires rl > 0 && 1 <= c <= |rs| && c != NO_COUNT && |rs[c - 1]| == rl
    ensures var r := rs[c - 1];
      && Next(rs, rl, cached, Mark(c, Deleted)).0 == rs[c - 1 := [0x2A] + r[1..]]
      && Next(rs, rl, cached, Mark(c, OK)).0 == rs[c - 1 := [0x20] + r[1..]]
      && Next(rs, rl, cached, Mark(c, Locked)).0 == rs[c - 1 := [0x21] + r[1..]]
      && Next(rs, rl, cached, Mark(c, Encrypted)).0 == rs[c - 1 := [0x7E] + r[1..]]
      && (Next(rs, rl, cached, Check(c)).1 == Setting(Deleted) <==> r[0] == 0x2A)
      && (Next(rs, rl, cached, Check(c)).1 == Setting(OK) <==> r[0] == 0x20 || r[0] == 0)
      && (Next(rs, rl, cached, Check(c)).1 == Setting(Locked) <==> r[0] == 0x21)
      && (Next(rs, rl, cached, Check(c)).1 == Setting(Encrypted) <==> r[0] == 0x7E)
  {
    var r := rs[c - 1];
    assert [0x2A] + r[1..] == r[0 := 0x2A] && [0x20] + r[1..] == r[0 := 0x20];
    assert [0x21] + r[1..] == r[0 := 0x21] && [0x7E] + r[1..] == r[0 := 0x7E];
  }

  /** A record that is appended with a blank in front is there and not deleted, however it is marked
      and unmarked before it is checked. */
  lemma AppendedIsNotDeleted(rs: seq<seq<byte>>, rl: nat, cached: bool, data: seq<byte>)
    requires |data| == rl > 0 && data[0] == 0x20 && |rs| + 1 < NO_COUNT
    ensures var c, after := |rs| + 1, Next(rs, rl, cached, Append(data)).0;
      && Next(after, rl, cached, Check(c)).1 == Setting(OK)
      && Next(after, rl, cached, Read(c)).1 == Data(data)
      && Next(Next(after, rl, cached, Mark(c, Deleted)).0, rl, cached, Check(c)).1 == Setting(Deleted)
      && Next(Next(after, rl, cached, Mark(c, Deleted)).0, rl, cached, Mark(c, OK)).0 == after
  {
    var c, after := |rs| + 1, rs + [data];
    MarksInBytes(after, rl, cached, c);
    var gone := after[c - 1 := [0x2A] + data[1..]];
    MarksInBytes(gone, rl, cached, c);
    assert [0x20] + ([0x2A] + data[1..])[1..] == data;
    assert gone[c - 1 := data] == after;
  }

  // ----- optimistic updates of one record

  datatype Attempt = Attempt(backup: seq<byte>, changes: seq<byte>)

  /** What the record holds before attempt j: the changes of the last attempt that won, or the start. */
  function Content(start: seq<byte>, attempts: seq<Attempt>, wins: seq<bool>, j: nat): seq<byte>
    requires j <= |wins| <= |attempts|
  {
    if j == 0 then start else if wins[j - 1] then attempts[j - 1].changes else Content(start, attempts, wins, j - 1)
  }

  lemma {:induction false} ContentOfPrefix(start: seq<byte>, attempts: seq<Attempt>, before: seq<bool>,
                                           wins: seq<bool>, j: nat)
    requires j <= |before| && before <= wins && |wins| <= |attempts|
    ensures Content(start, attempts, before, j) == Content(start, attempts, wins, j)
  {
    if j > 0 {
      ContentOfPrefix(start, attempts, before, wins, j - 1);
    }
  }

  /** Each attempt so far won exactly when its backup was the record's content. */
  ghost predicate Judged(start: seq<byte>, attempts: seq<Attempt>, wins: seq<bool>) {
    |wins| <= |attempts| && forall j {:trigger Content(start, attempts, wins, j)} :: 0 <= j < |wins| ==>
      (wins[j] <==> attempts[j].backup == Content(start, attempts, wins, j))
  }

  lemma OneMoreAttempt(start: seq<byte>, attempts: seq<Attempt>, before: seq<bool>, won: bool)
    requires Judged(start, attempts, before) && |before| < |attempts|
    requires won <==> attempts[|before|].backup == Content(start, attempts, before, |before|)
    ensures Judged(start, attempts, before + [won])
    ensures Content(start, attempts, before + [won], |before| + 1)
         == if won then attempts[|before|].changes else Content(start, attempts, before, |before|)
  {
    var wins := before + [won];
    forall j {:trigger Content(start, attempts, wins, j)} | 0 <= j < |wins|
      ensures wins[j] <==> attempts[j].backup == Content(start, attempts, wins, j)
    {
      ContentOfPrefix(start, attempts, before, wins, j);
    }
    ContentOfPrefix(start, attempts, before, wins, |before|);
  }

  method TryUpdate(t: Table, c: nat, attempt: Attempt) returns (won: bool)
    requires t.Valid() && Serving(t) && 1 <= c <= |RecordsOf(t)| && c != NO_COUNT
    requires |attempt.backup| == |attempt.changes| == t.db.layout.rl
    modifies t.Repr()
    ensures t.Valid() && t.Repr() == old(t.Repr())
    ensures won <==> attempt.backup == old(RecordsOf(t))[c - 1]
    ensures RecordsOf(t) == if won then old(RecordsOf(t))[c - 1 := attempt.changes] else old(RecordsOf(t))
  {
    var n := UpdateRecord(t, c, attempt.changes, Some(attempt.backup));
    won := n == 1;
  }

  /**
   However the attempts of any number of clients interleave, an attempt wins exactly when its backup is
   what the record holds, so every update that wins has seen the one before it.
   */
  method Compete(t: Table, c: nat, attempts: seq<Attempt>) returns (wins: seq<bool>)
    requires t.Valid() && Serving(t) && 1 <= c <= |RecordsOf(t)| && c != NO_COUNT
    requires forall j :: 0 <= j < |attempts| ==> |attempts[j].backup| == |attempts[j].changes| == t.db.layout.rl
    modifies t.Repr()
    ensures t.Valid() && |wins| == |attempts|
    ensures Judged(old(RecordsOf(t))[c - 1], attempts, wins)
    ensures RecordsOf(t) == old(RecordsOf(t))[c - 1 := Content(old(RecordsOf(t))[c - 1], attempts, wins, |attempts|)]
  {
    wins := [];
    ghost var rs := RecordsOf(t);
    while |wins| < |attempts|
      invariant t.Valid() && t.Repr() == old(t.Repr())
      invariant Competed(rs, c, attempts, wins, RecordsOf(t))
    {
      wins := CompeteOnce(t, c, attempts, wins, rs);
    }
  }

  /** What the attempts so far have made of the records. */
  ghost predicate Competed(rs: seq<seq<byte>>, c: nat, attempts: seq<Attempt>, wins: seq<bool>, now: seq<seq<byte>>)
    requires 1 <= c <= |rs|
  {
    Judged(rs[c - 1], attempts, wins) && now == rs[c - 1 := Content(rs[c - 1], attempts, wins, |wins|)]
  }

  method CompeteOnce(t: Table, c: nat, attempts: seq<Attempt>, wins: seq<bool>, ghost rs: seq<seq<byte>>)
    returns (wins': seq<bool>)
    requires t.Valid() && Serving(t) && 1 <= c <= |rs| && c != NO_COUNT
    requires forall j :: 0 <= j < |attempts| ==> |attempts[j].backup| == |attempts[j].changes| == t.db.layout.rl
    requires |wins| < |attempts| && Competed(rs, c, attempts, wins, RecordsOf(t))
    modifies t.Repr()
    ensures t.Valid() && t.Repr() == old(t.Repr())
    ensures |wins'| == |wins| + 1 && Competed(rs, c, attempts, wins', RecordsOf(t))
  {
    var won := TryUpdate(t, c, attempts[|wins|]);
    OneMoreAttempt(rs[c - 1], attempts, wins, won);
    wins' := wins + [won];
  }

  /** Of two winners with none between them, the later one had the earlier one's record in hand. */
  lemma {:induction false} WinnersFormAChain(start: seq<byte>, attempts: seq<Attempt>, wins: seq<bool>, i: nat, j: nat)
    requires i < j < |attempts| == |wins| && wins[i] && forall k :: i < k < j ==> !wins[k]
    requires Judged(start, attempts, wins)
    ensures wins[j] <==> attempts[j].backup == attempts[i].changes
  {
    var k := j;
    while k > i + 1
      invariant i < k <= j && Content(start, attempts, wins, k) == Content(start, attempts, wins, j)
    {
      k := k - 1;
    }
  }
}
