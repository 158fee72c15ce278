/** The dBase header: its field list, the bytes that describe it, and reading those bytes back. */
module DbfHeaders {
  import opened Bytes

  const HEADER_END: byte := 13
  const FIELD_CHAR: byte := 'C' as int
  const FIELD_VIRTUAL: byte := 'V' as int

  datatype Field = Field(name: seq<byte>, length: nat, kind: byte, memoAddr: int, offset: nat, visible: bool)

  datatype LoadResult = Loaded | TooShort | InvalidName

  // ----- sizes

  /** Where field k starts: after the deletion mark and the non-virtual fields before it. */
  function OffsetOf(fields: seq<Field>, k: nat): nat
    requires k <= |fields|
  {
    if k == 0 then 1
    else OffsetOf(fields, k - 1) + if fields[k - 1].kind == FIELD_VIRTUAL then 0 else fields[k - 1].length
  }

  /** The same fields, each with its place in the record. */
  ghost predicate LaidOut(fields: seq<Field>, placed: seq<Field>) {
    |placed| == |fields| && forall k :: 0 <= k < |fields| ==> placed[k] == fields[k].(offset := OffsetOf(fields, k))
  }

  /** Laid-out fields follow one another without overlap, and fill the record. */
  lemma {:induction false} FieldsDoNotOverlap(fields: seq<Field>, j: nat, k: nat)
    requires j < k <= |fields| && fields[j].kind != FIELD_VIRTUAL
    ensures 1 <= OffsetOf(fields, j) && OffsetOf(fields, j) + fields[j].length <= OffsetOf(fields, k)
    decreases k
  {
    if k > j + 1 {
      FieldsDoNotOverlap(fields, j, k - 1);
    }
    OffsetAtLeastOne(fields, j);
  }

  lemma {:induction false} OffsetAtLeastOne(fields: seq<Field>, k: nat)
    requires k <= |fields|
    ensures OffsetOf(fields, k) >= 1
  {
    if k > 0 {
      OffsetAtLeastOne(fields, k - 1);
    }
  }

  lemma {:induction false} OffsetsOnlyDependOnLengths(a: seq<Field>, b: seq<Field>, k: nat)
    requires k <= |a| && k <= |b|
    requires forall i :: 0 <= i < k ==> a[i].length == b[i].length && a[i].kind == b[i].kind
    ensures OffsetOf(a, k) == OffsetOf(b, k)
  {
    if k > 0 {
      OffsetsOnlyDependOnLengths(a, b, k - 1);
    }
  }

  // ----- one field record

  /** strncpy of a name into ten bytes, and the zero byte after it. */
  function NameBytes(name: seq<byte>): (r: seq<byte>)
    ensures |r| == 11
  {
    var s := CString(name);
    (if |s| >= 10 then s[..10] else s + Repeat(0, 10 - |s|)) + [0]
  }

  /** The 32 bytes written for a field. */
  function FieldRecord(f: Field): (r: seq<byte>)
    ensures |r| == 32
  {
    var wide := f.length > 255 && f.kind == FIELD_CHAR;
    var low: byte := if wide then f.length % 256 else if f.length < 255 then f.length else 255;
    var high: byte := if wide then f.length / 256 % 256 else 0;
    NameBytes(f.name) + [f.kind, 0, 0, 0, 0, low, high, 0, 0] + Repeat(0, 12)
  }

  /** A signed 32-bit little-endian number. */
  function Int32(a: byte, b: byte, c: byte, d: byte): int {
    var n := a + 256 * b + 65536 * c + 16777216 * d;
    if n >= 2147483648 then n - 4294967296 else n
  }

  function RecordLength(rec: seq<byte>): nat
    requires |rec| == 32
  {
    var low: nat, high: nat, oldLow: nat, oldHigh: nat := rec[16], rec[17], rec[18], rec[19];
    var length := if rec[11] == FIELD_CHAR && high != 0 then low + high * 256 else low;
    if length == 0 then oldLow + 256 * oldHigh else length
  }

  predicate Visible(name: seq<byte>) {
    !(name != [] && 171 <= name[0] <= 176)
  }

  /** The field a 32-byte record stands for. */
  function ParseField(rec: seq<byte>): Field
    requires |rec| == 32
  {
    var name := CString(rec[..11]);
    Field(name, RecordLength(rec), rec[11], Int32(rec[12], rec[13], rec[14], rec[15]), 0, Visible(name))
  }

  // ----- the format of dBase III, byte by byte

  lemma TwoBytes(n: nat)
    requires n < 65536
    ensures LittleEndian(n % 256, n / 256) == n && n / 256 < 256
  {
  }

  /** A field record: the name closed by NULs, the type, and the length in one byte, or in two for text. */
  lemma FieldRecordInBytes(f: Field)
    requires 0 !in f.name && |f.name| <= 10 && f.length < 65536
    ensures var r := FieldRecord(f);
      && r[..|f.name|] == f.name && (forall k :: |f.name| <= k < 11 ==> r[k] == 0) && r[11] == f.kind
      && (forall k :: 12 <= k < 16 || 18 <= k < 32 ==> r[k] == 0)
      && (f.length <= 255 ==> r[16] == f.length && r[17] == 0)
      && (f.length > 255 && f.kind == 0x43 ==> LittleEndian(r[16], r[17]) == f.length)
      && (f.length > 255 && f.kind != 0x43 ==> r[16] == 255 && r[17] == 0)
  {
    CStringOf(f.name, []);
    assert f.name + [] == f.name;
    assert NameBytes(f.name)[..|f.name|] == f.name;
  }

  /** Any field record: the length is in bytes 16 and 17 for text, in byte 16 otherwise, and in bytes 18 and
      19 if that is 0; the address is signed; a first byte from 0xAB to 0xB0 hides the field. */
  lemma ParsedFieldInBytes(name: seq<byte>, kind: byte, address: seq<byte>, length: seq<byte>, tail: seq<byte>)
    requires 0 !in name && |name| <= 11 && |address| == 4 && |length| == 4 && |tail| == 12
    ensures var rec := name + Repeat(0, 11 - |name|) + [kind] + address + length + tail;
      var f := ParseField(rec);
      && f.name == name && f.kind == kind && f.offset == 0
      && (kind == 0x43 && length[1] != 0 ==> f.length == LittleEndian(length[0], length[1]))
      && ((kind != 0x43 || length[1] == 0) && length[0] != 0 ==> f.length == length[0])
      && ((kind != 0x43 || length[1] == 0) && length[0] == 0 ==> f.length == LittleEndian(length[2], length[3]))
      && -0x8000_0000 <= f.memoAddr < 0x8000_0000
      && (f.memoAddr - LittleEndian(address[0], address[1])
           - 0x1_0000 * LittleEndian(address[2], address[3])) % 0x1_0000_0000 == 0
      && (!f.visible <==> name != [] && 0xAB <= name[0] <= 0xB0)
  {
    var rec := name + Repeat(0, 11 - |name|) + [kind] + address + length + tail;
    assert rec[..11] == name + Repeat(0, 11 - |name|);
    CStringOf(name, Repeat(0, 11 - |name|));
    SignedAddress(address[0], address[1], address[2], address[3]);
  }

  lemma SignedAddress(a: byte, b: byte, c: byte, d: byte)
    ensures -0x8000_0000 <= Int32(a, b, c, d) < 0x8000_0000
    ensures (Int32(a, b, c, d) - LittleEndian(a, b) - 0x1_0000 * LittleEndian(c, d)) % 0x1_0000_0000 == 0
  {
  }

  lemma PrologueInBytes(headerSize: nat, recordLength: nat, date: seq<byte>)
    requires |date| == 3
    ensures var b := Prologue(headerSize, recordLength, date);
      && b[0] == 0x03 && b[1..4] == date && (forall k :: 4 <= k < 8 || 12 <= k < 32 ==> b[k] == 0)
      && LittleEndian(b[8], b[9]) == (if headerSize < 65535 then headerSize else 0)
      && LittleEndian(b[10], b[11]) == (if recordLength < 65535 then recordLength else 0)
  {
    var hs, rl := if headerSize < 65535 then headerSize else 0, if recordLength < 65535 then recordLength else 0;
    PrologueParts(headerSize, recordLength, date, hs, rl);
    TwoBytes(hs);
    TwoBytes(rl);
  }

  lemma PrologueParts(headerSize: nat, recordLength: nat, date: seq<byte>, hs: nat, rl: nat)
    requires |date| == 3 && hs == (if headerSize < 65535 then headerSize else 0)
    requires rl == if recordLength < 65535 then recordLength else 0
    ensures var b := Prologue(headerSize, recordLength, date);
      && b[0] == 0x03 && b[1..4] == date && (forall k :: 4 <= k < 8 || 12 <= k < 32 ==> b[k] == 0)
      && b[8] == hs % 256 && b[9] == hs / 256 && b[10] == rl % 256 && b[11] == rl / 256
  {
    var b, lo: byte, hi: byte, l: byte, h: byte :=
      Prologue(headerSize, recordLength, date), hs % 256, hs / 256, rl % 256, rl / 256;
    assert b == [3] + date + [0, 0, 0, 0, lo, hi, l, h] + Repeat(0, 20);
  }

  /** A created file: the prologue, the field records, and the byte that ends the header. */
  lemma ImageInBytes(fields: seq<Field>, headerSize: nat, recordLength: nat, date: seq<byte>)
    requires |date| == 3
    ensures var b, n := Image(fields, headerSize, recordLength, date), |Records(NotVirtual(fields))|;
      && |b| == 33 + n && b[0] == 0x03 && b[1..4] == date && b[32..32 + n] == Records(NotVirtual(fields))
      && b[32 + n] == 0x0D && (forall k :: 4 <= k < 8 || 12 <= k < 32 ==> b[k] == 0)
      && LittleEndian(b[8], b[9]) == (if headerSize < 65535 then headerSize else 0)
      && LittleEndian(b[10], b[11]) == (if recordLength < 65535 then recordLength else 0)
  {
    var p, b := Prologue(headerSize, recordLength, date), Image(fields, headerSize, recordLength, date);
    PrologueInBytes(headerSize, recordLength, date);
    assert forall k :: 0 <= k < 32 ==> b[k] == p[k];
    assert b[1..4] == p[1..4];
  }

  /** The fields of a record follow the mark: each starts where the one before it ends, virtual ones take
      no room. */
  lemma FieldsFollowTheMark(fields: seq<Field>, k: nat)
    requires k < |fields|
    ensures OffsetOf(fields, 0) == 1
    ensures OffsetOf(fields, k + 1) == OffsetOf(fields, k) + if fields[k].kind == 0x56 then 0 else fields[k].length
  {
  }

  /** What the ten name bytes and the one or two length bytes can hold. */
  predicate Fits(f: Field) {
    |f.name| <= 10 && f.length <= if f.kind == FIELD_CHAR then 65535 else 255
  }

  predicate SameField(a: Field, b: Field) {
    a.name == b.name && a.length == b.length && a.kind == b.kind
  }

  /** Exactly the fields that fit come back with the same name, type and length. */
  lemma FieldRoundTrip(f: Field)
    requires 0 !in f.name && f.length < 65536
    ensures SameField(ParseField(FieldRecord(f)), f) <==> Fits(f)
  {
    var rec := FieldRecord(f);
    NameRoundTrip(f.name);
    assert rec[..11] == NameBytes(f.name);
    LengthRoundTrip(f);
  }

  lemma NameRoundTrip(name: seq<byte>)
    requires 0 !in name
    ensures CString(NameBytes(name)) == if |name| <= 10 then name else name[..10]
  {
    CStringOf(name, []);
    assert name + [] == name;
    if |name| <= 10 {
      assert NameBytes(name) == name + (Repeat(0, 10 - |name|) + [0]);
      CStringOf(name, Repeat(0, 10 - |name|) + [0]);
    } else {
      CStringOf(name[..10], [0]);
    }
  }

  lemma LengthRoundTrip(f: Field)
    requires f.length < 65536
    ensures RecordLength(FieldRecord(f)) == if f.kind == FIELD_CHAR || f.length <= 255 then f.length else 255
  {
  }

  // ----- the field list

  /** The index of the first field of that name, ignoring case, or the number of fields. */
  function IndexOfName(fields: seq<Field>, name: seq<byte>): (k: nat)
    ensures k <= |fields|
  {
    if fields == [] || SameIgnoringCase(fields[0].name, name) then 0 else 1 + IndexOfName(fields[1..], name)
  }

  lemma {:induction false} IndexOfNameFinds(fields: seq<Field>, name: seq<byte>)
    ensures var k := IndexOfName(fields, name);
      && (k < |fields| ==> SameIgnoringCase(fields[k].name, name))
      && forall i :: 0 <= i < k ==> !SameIgnoringCase(fields[i].name, name)
  {
    if fields != [] && !SameIgnoringCase(fields[0].name, name) {
      IndexOfNameFinds(fields[1..], name);
      var k := IndexOfName(fields[1..], name);
      assert forall i :: 0 < i < k + 1 ==> fields[i] == fields[1..][i - 1];
    }
  }

  /** AddField on the list: a field of the same name is overwritten, a new one goes last. */
  function Added(fields: seq<Field>, f: Field): (r: seq<Field>)
    ensures |fields| <= |r| <= |fields| + 1
  {
    var k := IndexOfName(fields, f.name);
    if k < |fields| then fields[k := f] else fields + [f]
  }

  /** Adding a field makes it the one its name finds, leaves every other field where it was, and keeps
      the names distinct. */
  lemma AddedIsFound(fields: seq<Field>, f: Field)
    ensures var after, k := Added(fields, f), IndexOfName(fields, f.name);
      && IndexOfName(after, f.name) == k < |after| && after[k] == f
      && |after| == (if k < |fields| then |fields| else |fields| + 1)
      && (forall i :: 0 <= i < |fields| && i != k ==> after[i] == fields[i])
      && (DistinctNames(fields) ==> DistinctNames(after))
  {
    var after, k := Added(fields, f), IndexOfName(fields, f.name);
    IndexOfNameFinds(fields, f.name);
    IndexOfNameFinds(after, f.name);
    assert SameIgnoringCase(after[k].name, f.name);
    assert forall i :: 0 <= i < k ==> after[i] == fields[i];
    if DistinctNames(fields) {
      AddedIsDistinct(fields, f);
    }
  }

  lemma AddedIsDistinct(fields: seq<Field>, f: Field)
    requires DistinctNames(fields)
    ensures DistinctNames(Added(fields, f))
  {
    var after, k := Added(fields, f), IndexOfName(fields, f.name);
    IndexOfNameFinds(fields, f.name);
    forall i, j | 0 <= i < j < |after|
      ensures !SameIgnoringCase(after[i].name, after[j].name)
    {
      assert k < |fields| ==> SameIgnoringCase(fields[k].name, f.name);
      if i == k {
        assert !SameIgnoringCase(fields[i].name, fields[j].name);
      } else if j == k && k < |fields| {
        assert !SameIgnoringCase(fields[i].name, fields[j].name);
      }
    }
  }

  predicate DistinctNames(fields: seq<Field>) {
    forall j, k :: 0 <= j < k < |fields| ==> !SameIgnoringCase(fields[j].name, fields[k].name)
  }

  function Records(fields: seq<Field>): (r: seq<byte>)
    ensures |r| == 32 * |fields|
  {
    if fields == [] then [] else Records(fields[..|fields| - 1]) + FieldRecord(fields[|fields| - 1])
  }

  /** The k-th of a row of 32-byte records. */
  function RecordOf(bytes: seq<byte>, k: nat): (r: seq<byte>)
    requires 32 * (k + 1) <= |bytes|
    ensures |r| == 32
  {
    bytes[32 * k..32 * k + 32]
  }

  /** What n consecutive field records say. */
  function FieldsIn(bytes: seq<byte>, n: nat): (r: seq<Field>)
    requires 32 * n <= |bytes|
    ensures |r| == n
  {
    seq(n, k requires 0 <= k < n => ParseField(RecordOf(bytes, k)))
  }

  /** Fields added one by one to an empty list. */
  function AddedAll(fields: seq<Field>): (r: seq<Field>)
    ensures |r| <= |fields|
  {
    if fields == [] then [] else Added(AddedAll(fields[..|fields| - 1]), fields[|fields| - 1])
  }

  /** The list read from n consecutive field records. */
  function Parsed(bytes: seq<byte>, n: nat): (r: seq<Field>)
    requires 32 * n <= |bytes|
  {
    AddedAll(FieldsIn(bytes, n))
  }

  lemma ParsedNext(bytes: seq<byte>, n: nat)
    requires 32 * (n + 1) <= |bytes|
    ensures Parsed(bytes, n + 1) == Added(Parsed(bytes, n), ParseField(RecordOf(bytes, n)))
  {
    var fields := FieldsIn(bytes, n + 1);
    assert fields[..n] == FieldsIn(bytes, n);
  }

  lemma {:induction false} RecordAt(fields: seq<Field>, tail: seq<byte>, k: nat)
    requires k < |fields|
    ensures RecordOf(Records(fields) + tail, k) == FieldRecord(fields[k])
    decreases |fields|
  {
    var front, last := fields[..|fields| - 1], fields[|fields| - 1];
    assert Records(fields) + tail == Records(front) + (FieldRecord(last) + tail);
    if k < |fields| - 1 {
      RecordAt(front, FieldRecord(last) + tail, k);
    } else {
      assert RecordOf(Records(front) + (FieldRecord(last) + tail), k) == FieldRecord(last);
    }
  }

  predicate SameFields(a: seq<Field>, b: seq<Field>) {
    |a| == |b| && forall k :: 0 <= k < |a| ==> SameField(a[k], b[k])
  }

  predicate Printable(fields: seq<Field>) {
    && DistinctNames(fields)
    && forall k :: 0 <= k < |fields| ==>
         && 0 !in fields[k].name && fields[k].length < 65536 && Fits(fields[k])
         && (fields[k].name == [] || fields[k].name[0] != HEADER_END)
  }

  /** Reading back n of the written records recovers those n fields. */
  lemma {:induction false} ParsedRecords(fields: seq<Field>, tail: seq<byte>, n: nat)
    requires Printable(fields) && n <= |fields|
    ensures SameFields(Parsed(Records(fields) + tail, n), fields[..n])
  {
    if n > 0 {
      ParsedRecords(fields, tail, n - 1);
      RecordAt(fields, tail, n - 1);
      OneMoreParsed(fields, Records(fields) + tail, n - 1);
    }
  }

  lemma OneMoreParsed(fields: seq<Field>, data: seq<byte>, n: nat)
    requires Printable(fields) && n < |fields| && 32 * (n + 1) <= |data|
    requires RecordOf(data, n) == FieldRecord(fields[n]) && SameFields(Parsed(data, n), fields[..n])
    ensures SameFields(Parsed(data, n + 1), fields[..n + 1])
  {
    FieldRoundTrip(fields[n]);
    ParsedNext(data, n);
    NewField(fields, Parsed(data, n), n, ParseField(RecordOf(data, n)));
  }

  lemma NewField(fields: seq<Field>, before: seq<Field>, n: nat, f: Field)
    requires DistinctNames(fields) && n < |fields| && SameFields(before, fields[..n]) && SameField(f, fields[n])
    ensures SameFields(Added(before, f), fields[..n + 1])
  {
    forall k | 0 <= k < n ensures before[k].name == fields[k].name {
      assert SameField(before[k], fields[..n][k]);
    }
    NewName(fields, before, n);
  }

  lemma NewName(fields: seq<Field>, before: seq<Field>, n: nat)
    requires DistinctNames(fields) && |before| == n < |fields|
    requires forall k :: 0 <= k < n ==> before[k].name == fields[k].name
    ensures IndexOfName(before, fields[n].name) == n
  {
    IndexOfNameFinds(before, fields[n].name);
    assert forall k :: 0 <= k < n ==> !SameIgnoringCase(before[k].name, fields[n].name);
  }

  // ----- the header object

  /** The bytes CreateFile writes: the 32-byte prologue, the field records, and the end mark. */
  function Image(fields: seq<Field>, headerSize: nat, recordLength: nat, date: seq<byte>): seq<byte>
    requires |date| == 3
  {
    Prologue(headerSize, recordLength, date) + Records(NotVirtual(fields)) + [HEADER_END]
  }

  function Prologue(headerSize: nat, recordLength: nat, date: seq<byte>): (r: seq<byte>)
    requires |date| == 3
    ensures |r| == 32
  {
    var hs, rl := if headerSize < 65535 then headerSize else 0, if recordLength < 65535 then recordLength else 0;
    [3] + date + [0, 0, 0, 0, hs % 256, hs / 256, rl % 256, rl / 256] + Repeat(0, 20)
  }

  function NotVirtual(fields: seq<Field>): seq<Field> {
    if fields == [] then []
    else
      var last := fields[|fields| - 1];
      NotVirtual(fields[..|fields| - 1]) + if last.kind == FIELD_VIRTUAL then [] else [last]
  }

  lemma OneMoreRecord(fields: seq<Field>, i: nat)
    requires i < |fields|
    ensures Records(NotVirtual(fields[..i + 1]))
         == Records(NotVirtual(fields[..i])) + if fields[i].kind == FIELD_VIRTUAL then [] else FieldRecord(fields[i])
  {
    assert fields[..i + 1][..i] == fields[..i];
    var list := NotVirtual(fields[..i]);
    assert (list + [fields[i]])[..|list|] == list;
    if fields[i].kind == FIELD_VIRTUAL {
      assert NotVirtual(fields[..i + 1]) == list + [] == list;
    }
  }

  class Header {
    var fields: seq<Field>
    var recordLength: nat
    var headerSize: nat

    constructor ()
      ensures fields == [] && recordLength == 0 && headerSize == 0
    {
      fields, recordLength, headerSize := [], 0, 0;
    }

    method CalculateSizes()
      modifies `fields, `recordLength
      ensures LaidOut(old(fields), fields)
      ensures recordLength == OffsetOf(old(fields), |old(fields)|)
    {
      ghost var before := fields;
      recordLength := 1;
      for i := 0 to |fields|
        invariant |fields| == |before|
        invariant recordLength == OffsetOf(before, i)
        invariant forall k :: 0 <= k < i ==> fields[k] == before[k].(offset := OffsetOf(before, k))
        invariant fields[i..] == before[i..]
      {
        assert fields[i] == before[i] && fields[i + 1..] == before[i + 1..];
        fields := fields[i := fields[i].(offset := recordLength)];
        if fields[i].kind == FIELD_VIRTUAL {
          continue;
        }
        recordLength := recordLength + fields[i].length;
      }
    }

    method AddField(name: seq<byte>, length: nat, kind: byte, memoAddr: int, offset: nat)
      modifies `fields
      ensures fields == Added(old(fields), Field(name, length % 65536, kind, memoAddr, offset, Visible(name)))
    {
      var f := Field(name, length % 65536, kind, memoAddr, offset, Visible(name));
      var k := IndexOfName(fields, name);
      if k < |fields| {
        fields := fields[k := f];
      } else {
        fields := fields + [f];
      }
    }

    /** Writes a new header file; false when the file exists or there are too many fields. */
    method CreateFile(out: OutStream, exists_: bool, date: seq<byte>) returns (ok: bool)
      requires |date| == 3
      modifies this, out
      ensures LaidOut(old(fields), fields) && recordLength == OffsetOf(old(fields), |old(fields)|)
      ensures ok <==> |fields| <= 16384 && !exists_
      ensures ok ==> headerSize == if old(headerSize) == 0 then 1 + (|fields| + 1) * 32 else old(headerSize)
      ensures ok ==> out.bytes == old(out.bytes) + Image(fields, headerSize, recordLength, date)
      ensures !ok ==> out.bytes == old(out.bytes)
    {
      CalculateSizes();
      if |fields| > 16384 {
        return false;
      }
      if exists_ {
        return false;
      }
      if headerSize == 0 {
        headerSize := 1 + (|fields| + 1) * 32;
      }
      WriteImage(out, date);
      ok := true;
    }

    method WriteImage(out: OutStream, date: seq<byte>)
      requires |date| == 3
      modifies out
      ensures out.bytes == old(out.bytes) + Image(fields, headerSize, recordLength, date)
    {
      out.WriteBytes(Prologue(headerSize, recordLength, date));
      WriteRecords(out);
      out.Put(HEADER_END);
      Assoc3(old(out.bytes), Prologue(headerSize, recordLength, date), Records(NotVirtual(fields)), [HEADER_END]);
    }

    method WriteRecords(out: OutStream)
      modifies out
      ensures out.bytes == old(out.bytes) + Records(NotVirtual(fields))
    {
      for i := 0 to |fields|
        invariant out.bytes == old(out.bytes) + Records(NotVirtual(fields[..i]))
      {
        OneMoreRecord(fields, i);
        if fields[i].kind == FIELD_VIRTUAL {
          assert Records(NotVirtual(fields[..i])) + [] == Records(NotVirtual(fields[..i]));
          continue;
        }
        out.WriteBytes(FieldRecord(fields[i]));
        Assoc(old(out.bytes), Records(NotVirtual(fields[..i])), FieldRecord(fields[i]));
      }
      assert fields[..|fields|] == fields;
    }

    method AddParsed(rec: seq<byte>)
      requires |rec| == 32
      modifies `fields
      ensures fields == Added(old(fields), ParseField(rec))
    {
      LengthFits(rec);
      AddField(CString(rec[..11]), RecordLength(rec), rec[11], Int32(rec[12], rec[13], rec[14], rec[15]), 0);
    }

    /** One read of 32 bytes; a short one leaves the end of the buffer as it was. */
    method ReadOne(data: seq<byte>, pos0: nat, ghost count: nat, rec0: seq<byte>) returns (rec: seq<byte>, pos: nat)
      requires |rec0| == 32 && 32 * count < |data| && pos0 == 32 * count
      ensures |rec| == 32 && pos == ScanPosition(data, count + 1)
      ensures rec[0] == data[32 * count] && rec == RecordRead(data, count, rec0)
    {
      var got := if |data| - pos0 < 32 then |data| - pos0 else 32;
      rec := data[pos0..pos0 + got] + rec0[got..];
      pos := pos0 + got;
    }

    /** Field records, one at a time, up to the one that starts with the end mark. */
    method LoadScanned(data: seq<byte>)
      requires fields == []
      modifies this
      ensures forall n: nat ::
        EndsAt(data, n) || RunsOut(data, n) ==> fields == Parsed(DataRead(data, n), n) && headerSize == (n + 1) * 32 + 1
    {
      var count := ScanRecords(data);
      headerSize := (count + 1) * 32 + 1;
      forall n: nat | EndsAt(data, n) || RunsOut(data, n)
        ensures n == count
      {
        MarkIsFirst(data, count, n);
      }
    }

    method ScanRecords(data: seq<byte>) returns (count: nat)
      requires fields == []
      modifies `fields
      ensures ScanReached(data, count) && (32 * count >= |data| || MarkAt(data, count))
      ensures FieldsScanned(data, fields, count)
    {
      var rec := FreshBuffer();
      var pos := 0;
      count := 0;
      while pos < |data|
        invariant pos == ScanPosition(data, count) && ScanReached(data, count)
        invariant Scanned(data, fields, count, rec)
        decreases |data| - pos
      {
        var over;
        count, rec, pos, over := ScanOne(data, pos, count, rec);
        if over {
          break;
        }
      }
    }

    /** The record buffer on the stack, which nobody clears. */
    method FreshBuffer() returns (rec: seq<byte>)
      ensures |rec| == 32
    {
      var buf := new byte[32];
      rec := buf[..];
    }

    method ScanOne(data: seq<byte>, pos0: nat, count0: nat, rec0: seq<byte>)
      returns (count: nat, rec: seq<byte>, pos: nat, over: bool)
      requires pos0 == ScanPosition(data, count0) < |data| && Scanned(data, fields, count0, rec0)
      modifies `fields
      ensures ScanReached(data, count) && pos0 < pos <= |data|
      ensures if over then MarkAt(data, count) && FieldsScanned(data, fields, count)
        else Scanned(data, fields, count, rec) && pos == ScanPosition(data, count)
    {
      count := count0;
      rec, pos := ReadOne(data, pos0, count, rec0);
      over := rec[0] == HEADER_END;
      if !over {
        ScanStep(data, fields, count, rec0, rec);
        AddParsed(rec);
        count := count + 1;
      }
    }

    method AddRecord(data: seq<byte>, i: nat)
      requires 32 * (i + 1) <= |data| && fields == Parsed(data, i)
      modifies `fields
      ensures fields == Parsed(data, i + 1)
    {
      AddParsed(RecordOf(data, i));
      ParsedNext(data, i);
    }

    /** By count: the size in the prologue says how many field records follow. */
    method LoadCounted(data: seq<byte>, count: nat) returns (r: LoadResult)
      requires fields == []
      modifies `fields
      ensures r == CountedResult(data, count)
      ensures r.Loaded? ==> fields == Parsed(data, count)
    {
      if |data| < 32 * count {
        return TooShort;
      }
      var i := 0;
      while i < count && data[32 * i] != HEADER_END
        invariant i <= count && fields == Parsed(data, i) && NoEndMark(data, i)
      {
        AddRecord(data, i);
        i := i + 1;
      }
      assert i < count ==> MarkAt(data, i);
      r := if i < count then InvalidName else Loaded;
    }

    /**
     Reads the fields that follow a 32-byte prologue, by count or up to the end mark. A declared size
     below 32 means a count of -1, for which nothing is read.
     */
    method LoadDBF(prologue: seq<byte>, data: seq<byte>) returns (r: LoadResult)
      requires |prologue| == 32 && fields == []
      modifies this
      ensures DeclaredSize(prologue) != 0 ==> r == CountedResult(data, DeclaredCount(prologue))
      ensures DeclaredSize(prologue) != 0 && r.Loaded? ==>
        HoldsParsed(data, DeclaredCount(prologue)) && headerSize == DeclaredSize(prologue)
      ensures DeclaredSize(prologue) == 0 ==> r.Loaded? && forall n: nat ::
        EndsAt(data, n) || RunsOut(data, n) ==> HoldsParsed(DataRead(data, n), n) && headerSize == (n + 1) * 32 + 1
    {
      if DeclaredSize(prologue) != 0 {
        headerSize := DeclaredSize(prologue);
        r := LoadAndLayOut(data, DeclaredCount(prologue));
      } else {
        r := Loaded;
        LoadScanned(data);
        CalculateSizes();
      }
    }

    method LoadAndLayOut(data: seq<byte>, count: nat) returns (r: LoadResult)
      requires fields == []
      modifies `fields, `recordLength
      ensures r == CountedResult(data, count)
      ensures r.Loaded? ==> HoldsParsed(data, count)
    {
      r := LoadCounted(data, count);
      if r.Loaded? { CalculateSizes(); }
    }

    /** The header holds the laid-out fields of the first n records. */
    ghost predicate HoldsParsed(data: seq<byte>, n: nat)
      requires 32 * n <= |data|
      reads this
    {
      LaidOut(Parsed(data, n), fields) && recordLength == OffsetOf(Parsed(data, n), |Parsed(data, n)|)
    }
  }

  function DeclaredSize(prologue: seq<byte>): nat
    requires |prologue| == 32
  {
    var low: nat, high: nat := prologue[8], prologue[9];
    low + 256 * high
  }

  /** How many fields a declared size stands for. */
  function DeclaredCount(prologue: seq<byte>): nat
    requires |prologue| == 32
  {
    CountFor(DeclaredSize(prologue))
  }

  function CountFor(size: nat): nat {
    if size < 32 then 0 else size / 32 - 1
  }

  /** Record k is there, if only in part, and starts with the end mark. */
  predicate MarkAt(data: seq<byte>, k: nat) {
    32 * k < |data| && data[32 * k] == HEADER_END
  }

  predicate EndsAt(data: seq<byte>, n: nat) {
    MarkAt(data, n) && NoEndMark(data, n)
  }

  predicate NoEndMark(data: seq<byte>, n: nat) {
    forall k :: 0 <= k < n ==> !MarkAt(data, k)
  }

  /** n reads give n records: whole ones, or a short one behind a whole one. */
  predicate Readable(data: seq<byte>, n: nat) {
    32 * n <= |data| || (n >= 2 && 32 * (n - 1) < |data|)
  }

  /** The bytes of n records read one by one; the end of a short one is that of the record before it. */
  function DataRead(data: seq<byte>, n: nat): (r: seq<byte>)
    requires Readable(data, n)
    ensures |r| >= 32 * n
  {
    if 32 * n <= |data| then data else data + data[|data| - 32..32 * (n - 1)]
  }

  /** What the buffer holds once record number count has been read over rec. */
  function RecordRead(data: seq<byte>, count: nat, rec: seq<byte>): (r: seq<byte>)
    requires |rec| == 32 && 32 * count < |data|
    ensures |r| == 32
  {
    if 32 * (count + 1) <= |data| then RecordOf(data, count)
    else data[32 * count..] + rec[|data| - 32 * count..]
  }

  /** The data end behind n records, the last of them perhaps short, without an end mark. */
  predicate RunsOut(data: seq<byte>, n: nat) {
    |data| <= 32 * n && Readable(data, n) && NoEndMark(data, n)
  }

  lemma MarkIsFirst(data: seq<byte>, count: nat, n: nat)
    requires (EndsAt(data, n) || RunsOut(data, n)) && NoEndMark(data, count) && ScanReached(data, count)
    requires 32 * count >= |data| || MarkAt(data, count)
    ensures n == count
  {
  }

  /** The loop has not read past the end. */
  predicate ScanReached(data: seq<byte>, count: nat) {
    count == 0 || 32 * (count - 1) < |data|
  }

  /** Where the stream is after a number of reads of 32 bytes. */
  function ScanPosition(data: seq<byte>, count: nat): nat {
    if 32 * count <= |data| then 32 * count else |data|
  }

  /** The fields read so far by the scanning loop. */
  ghost predicate FieldsScanned(data: seq<byte>, fields: seq<Field>, count: nat) {
    && NoEndMark(data, count)
    && (Readable(data, count) ==> fields == Parsed(DataRead(data, count), count))
  }

  /** The same, and the last record is still in the buffer. */
  ghost predicate Scanned(data: seq<byte>, fields: seq<Field>, count: nat, rec: seq<byte>) {
    && FieldsScanned(data, fields, count) && |rec| == 32
    && (0 < count && 32 * count <= |data| ==> rec == RecordOf(data, count - 1))
  }

  lemma ScanStep(data: seq<byte>, fields: seq<Field>, count: nat, rec0: seq<byte>, rec: seq<byte>)
    requires Scanned(data, fields, count, rec0) && |rec0| == 32
    requires 32 * count < |data| && !MarkAt(data, count) && rec == RecordRead(data, count, rec0)
    ensures Scanned(data, Added(fields, ParseField(rec)), count + 1, rec)
  {
    if Readable(data, count + 1) {
      LastRecordRead(data, count, rec0);
      SamePrefixParses(data, DataRead(data, count + 1), count);
      ParsedNext(DataRead(data, count + 1), count);
    }
  }

  lemma LastRecordRead(data: seq<byte>, count: nat, rec0: seq<byte>)
    requires 32 * count < |data| && Readable(data, count + 1) && |rec0| == 32
    requires 0 < count ==> rec0 == RecordOf(data, count - 1)
    ensures var all := DataRead(data, count + 1);
      RecordOf(all, count) == RecordRead(data, count, rec0) && all[..32 * count] == data[..32 * count]
  {
    if |data| < 32 * (count + 1) {
      var all := DataRead(data, count + 1);
      assert rec0[|data| - 32 * count..] == data[|data| - 32..32 * count];
      assert RecordOf(all, count) == data[32 * count..] + data[|data| - 32..32 * count];
    }
  }

  lemma SamePrefixParses(a: seq<byte>, b: seq<byte>, n: nat)
    requires 32 * n <= |a| && 32 * n <= |b| && a[..32 * n] == b[..32 * n]
    ensures Parsed(a, n) == Parsed(b, n)
  {
    forall k | 0 <= k < n
      ensures RecordOf(a, k) == RecordOf(b, k)
    {
      SamePrefixRecord(a, b, n, k);
    }
    assert FieldsIn(a, n) == FieldsIn(b, n);
  }

  lemma SamePrefixRecord(a: seq<byte>, b: seq<byte>, n: nat, k: nat)
    requires k < n && 32 * n <= |a| && 32 * n <= |b| && a[..32 * n] == b[..32 * n]
    ensures RecordOf(a, k) == RecordOf(b, k)
  {
    assert RecordOf(a, k) == RecordOf(a[..32 * n], k);
    assert RecordOf(b, k) == RecordOf(b[..32 * n], k);
  }

  function CountedResult(data: seq<byte>, n: nat): LoadResult {
    if |data| < 32 * n then TooShort else if NoEndMark(data, n) then Loaded else InvalidName
  }

  lemma LengthFits(rec: seq<byte>)
    requires |rec| == 32
    ensures RecordLength(rec) < 65536
  {
  }

  // ----- round trip

  predicate SameLayout(a: seq<Field>, b: seq<Field>) {
    SameFields(a, b) && forall k :: 0 <= k < |a| ==> a[k].offset == b[k].offset
  }

  lemma FirstByte(f: Field)
    requires 0 !in f.name && (f.name == [] || f.name[0] != HEADER_END)
    ensures FieldRecord(f)[0] != HEADER_END
  {
  }

  lemma RecordStart(fields: seq<Field>, tail: seq<byte>, k: nat)
    requires k < |fields| && FieldRecord(fields[k])[0] != HEADER_END
    ensures !MarkAt(Records(fields) + tail, k)
  {
    var data := Records(fields) + tail;
    RecordAt(fields, tail, k);
    assert data[32 * k] == RecordOf(data, k)[0];
  }

  /** The records of printable fields, and the end mark after them, are found where they were put. */
  lemma RecordStarts(fields: seq<Field>, tail: seq<byte>)
    requires Printable(fields) && tail != [] && tail[0] == HEADER_END
    ensures EndsAt(Records(fields) + tail, |fields|)
  {
    forall k | 0 <= k < |fields| ensures !MarkAt(Records(fields) + tail, k) {
      FirstByte(fields[k]);
      RecordStart(fields, tail, k);
    }
  }

  lemma ImageParts(file: seq<byte>, a: seq<byte>, b: seq<byte>, c: seq<byte>, d: seq<byte>)
    requires file == a + b + c + d
    ensures file[..|a|] == a && file[|a|..] == b + (c + d)
    ensures b + c + d == b + (c + d)
  {
  }

  lemma PrologueSize(headerSize: nat, recordLength: nat, date: seq<byte>)
    requires |date| == 3
    ensures DeclaredSize(Prologue(headerSize, recordLength, date)) == if headerSize < 65535 then headerSize else 0
  {
  }

  /** Same names, types and lengths: laid out, also the same offsets. */
  lemma SameOffsets(a: seq<Field>, b: seq<Field>, p: seq<Field>, q: seq<Field>)
    requires SameFields(a, b) && LaidOut(a, p) && LaidOut(b, q)
    ensures SameLayout(p, q)
    ensures OffsetOf(a, |a|) == OffsetOf(b, |b|)
  {
    forall k | 0 <= k <= |a| ensures OffsetOf(a, k) == OffsetOf(b, k) {
      OffsetsOnlyDependOnLengths(a, b, k);
    }
  }

  // ----- exactly which fields come back

  /** The fields that can be printed without loss, as far as the printer and the parser go. */
  predicate Whole(f: Field) {
    f.kind != FIELD_VIRTUAL && Fits(f) && (f.name == [] || f.name[0] != HEADER_END)
  }

  /** What AddField keeps of a field list: C strings for names, 16-bit lengths, no name twice. */
  predicate Proper(fields: seq<Field>) {
    DistinctNames(fields) && forall k :: 0 <= k < |fields| ==> 0 !in fields[k].name && fields[k].length < 65536
  }

  predicate AllWhole(fields: seq<Field>) {
    forall k :: 0 <= k < |fields| ==> Whole(fields[k])
  }

  lemma WholeIsPrintable(fields: seq<Field>)
    requires Proper(fields) && AllWhole(fields)
    ensures Printable(fields) && NotVirtual(fields) == fields
  {
    VirtualFieldsAreNotWritten(fields);
  }

  /** The number of virtual fields. */
  function Virtuals(fields: seq<Field>): nat {
    if fields == [] then 0
    else Virtuals(fields[..|fields| - 1]) + if fields[|fields| - 1].kind == FIELD_VIRTUAL then 1 else 0
  }

  lemma {:induction false} NoVirtuals(fields: seq<Field>)
    ensures Virtuals(fields) == 0 <==> forall k :: 0 <= k < |fields| ==> fields[k].kind != FIELD_VIRTUAL
    decreases |fields|
  {
    if fields != [] {
      var front := fields[..|fields| - 1];
      NoVirtuals(front);
      assert forall k :: 0 <= k < |front| ==> front[k] == fields[k];
      if Virtuals(front) > 0 {
        var k :| 0 <= k < |front| && front[k].kind == FIELD_VIRTUAL;
        assert fields[k].kind == FIELD_VIRTUAL;
      }
    }
  }

  /** The image is one record shorter for each virtual field, though the declared size is not. */
  lemma {:induction false} VirtualFieldsAreNotWritten(fields: seq<Field>)
    ensures |NotVirtual(fields)| + Virtuals(fields) == |fields|
    ensures |Records(NotVirtual(fields))| == 32 * (|fields| - Virtuals(fields))
    ensures Virtuals(fields) == 0 <==> forall k :: 0 <= k < |fields| ==> fields[k].kind != FIELD_VIRTUAL
    ensures Virtuals(fields) == 0 ==> NotVirtual(fields) == fields
    decreases |fields|
  {
    NoVirtuals(fields);
    if fields != [] {
      VirtualFieldsAreNotWritten(fields[..|fields| - 1]);
      assert fields[..|fields| - 1] + [fields[|fields| - 1]] == fields;
    }
  }

  /** No field is lost only if none has the name of an earlier one. */
  lemma {:induction false} AllAdded(fields: seq<Field>)
    requires |AddedAll(fields)| == |fields|
    ensures AddedAll(fields) == fields
    decreases |fields|
  {
    if fields != [] {
      AllAdded(fields[..|fields| - 1]);
    }
  }

  /** The data behind the prologue of a created file. */
  function Body(fields: seq<Field>, records: seq<byte>): seq<byte> {
    Records(NotVirtual(fields)) + ([HEADER_END] + records)
  }

  lemma EndOfBody(fields: seq<Field>, records: seq<byte>)
    ensures MarkAt(Body(fields, records), |NotVirtual(fields)|)
  {
  }

  /** If as many fields as were there come back the same from m records, all of them were whole. */
  lemma OnlyWholeFieldsComeBack(fields: seq<Field>, records: seq<byte>, m: nat)
    requires Proper(fields) && 32 * m <= |Body(fields, records)| && NoEndMark(Body(fields, records), m)
    requires SameFields(Parsed(Body(fields, records), m), fields)
    ensures AllWhole(fields) && m == |fields|
  {
    var data, n := Body(fields, records), |fields|;
    EndOfBody(fields, records);
    assert m <= |NotVirtual(fields)|;
    VirtualFieldsAreNotWritten(fields);
    assert NotVirtual(fields) == fields && m == n;
    AllAdded(FieldsIn(data, n));
    forall k | 0 <= k < n
      ensures Whole(fields[k])
    {
      RecordAt(fields, [HEADER_END] + records, k);
      FieldRoundTrip(fields[k]);
      WholeName(fields[k], data, k);
    }
  }

  lemma WholeName(f: Field, data: seq<byte>, k: nat)
    requires 32 * (k + 1) <= |data| && RecordOf(data, k) == FieldRecord(f) && 0 !in f.name
    requires !MarkAt(data, k)
    ensures f.name == [] || f.name[0] != HEADER_END
  {
    assert data[32 * k] == FieldRecord(f)[0];
    if f.name != [] {
      CStringOf(f.name, []);
      assert f.name + [] == f.name;
    }
  }

  /** There is a first end mark, since there is one behind the field records. */
  lemma {:induction false} FirstMark(data: seq<byte>, n: nat) returns (m: nat)
    requires MarkAt(data, n)
    ensures m <= n && EndsAt(data, m)
  {
    if k: nat :| k < n && MarkAt(data, k) {
      m := FirstMark(data, k);
    } else {
      m := n;
    }
  }

  /** In the counted form the header loads if and only if it has no virtual field and no name starts
      with the end mark, however many records follow it. */
  lemma CountedFormLoads(fields: seq<Field>, records: seq<byte>)
    requires Proper(fields)
    ensures CountedResult(Body(fields, records), |fields|) == Loaded
      <==> forall k :: 0 <= k < |fields| ==> Nameable(fields[k])
  {
    VirtualFieldsAreNotWritten(fields);
    EndOfBody(fields, records);
    if NoEndMark(Body(fields, records), |fields|) {
      NoMarkMeansNameable(fields, records);
    }
    if NotVirtual(fields) == fields && forall k :: 0 <= k < |fields| ==> Nameable(fields[k]) {
      NameableMeansNoMark(fields, records);
    }
  }

  lemma NoMarkMeansNameable(fields: seq<Field>, records: seq<byte>)
    requires Proper(fields) && NotVirtual(fields) == fields && NoEndMark(Body(fields, records), |fields|)
    ensures forall k :: 0 <= k < |fields| ==> fields[k].name == [] || fields[k].name[0] != HEADER_END
  {
    forall k | 0 <= k < |fields|
      ensures fields[k].name == [] || fields[k].name[0] != HEADER_END
    {
      RecordAt(fields, [HEADER_END] + records, k);
      WholeName(fields[k], Body(fields, records), k);
    }
  }

  lemma NameableMeansNoMark(fields: seq<Field>, records: seq<byte>)
    requires Proper(fields) && NotVirtual(fields) == fields
    requires forall k :: 0 <= k < |fields| ==> Nameable(fields[k])
    ensures NoEndMark(Body(fields, records), |fields|)
  {
    forall k | 0 <= k < |fields|
      ensures !MarkAt(Body(fields, records), k)
    {
      FirstByte(fields[k]);
      RecordStart(fields, [HEADER_END] + records, k);
    }
  }

  predicate Nameable(f: Field) {
    f.kind != FIELD_VIRTUAL && (f.name == [] || f.name[0] != HEADER_END)
  }

  /** In the scanned form a header with virtual fields loads all the same, with those fields missing
      and a header size that is 32 bytes short for each of them. */
  lemma ScannedFormLosesVirtualFields(fields: seq<Field>, records: seq<byte>)
    requires Printable(NotVirtual(fields))
    ensures var n := |NotVirtual(fields)|;
      && EndsAt(Body(fields, records), n) && SameFields(Parsed(Body(fields, records), n), NotVirtual(fields))
      && (n + 1) * 32 + 1 == (|fields| + 1) * 32 + 1 - 32 * Virtuals(fields)
  {
    var list := NotVirtual(fields);
    VirtualFieldsAreNotWritten(fields);
    RecordStarts(list, [HEADER_END] + records);
    ParsedRecords(list, [HEADER_END] + records, |list|);
    assert list[..|list|] == list;
  }

  /** A header has come back as it was. */
  ghost predicate SameHeader(loaded: Header, h: Header)
    reads loaded, h
  {
    && SameLayout(loaded.fields, h.fields)
    && loaded.recordLength == h.recordLength && loaded.headerSize == h.headerSize
  }

  /**
   A created file, whatever records follow its header, loads back to the same names, types, lengths,
   offsets, record length and header size if and only if every field is whole: not virtual, with a name
   and a length that fit, and a name that does not start with the end mark; and the header size, if one
   is set already, stands for that many fields. This holds for the counted form and for the scanned form.
   */
  method CreateThenLoad(h: Header, date: seq<byte>, records: seq<byte>) returns (loaded: Header, r: LoadResult)
    requires |date| == 3 && |h.fields| <= 16384 && Proper(h.fields)
    modifies h
    ensures fresh(loaded)
    ensures r == Loaded && SameHeader(loaded, h) <==>
      AllWhole(old(h.fields)) && (old(h.headerSize) == 0 || SizeFits(old(h.headerSize), |old(h.fields)|))
  {
    ghost var before := h.fields;
    var out := new OutStream();
    var ok := h.CreateFile(out, false, date);
    var file := out.bytes + records;
    EmptyFront(Image(h.fields, h.headerSize, h.recordLength, date));
    PlacedIsProper(before, h.fields);
    ImageBody(file, h.fields, h.headerSize, h.recordLength, date, records);
    loaded := new Header();
    FreshSizeFits(|h.fields|);
    r := LoadImage(loaded, file, before, h.fields, records, h.headerSize);
  }

  /** A header size that stands for n fields: written if it has two bytes, and measured otherwise. */
  predicate SizeFits(size: nat, n: nat) {
    if size < 65535 then CountFor(size) == n else size == 33 + 32 * n
  }

  /** A declared size stands for n fields if it reaches behind n records and a prologue, and not for more. */
  lemma CountForInBytes(size: nat, n: nat)
    ensures n > 0 ==> (CountFor(size) == n <==> 32 * (n + 1) <= size < 32 * (n + 2))
    ensures CountFor(size) == 0 <==> size < 64
  {
  }

  lemma FreshSizeFits(n: nat)
    ensures SizeFits(33 + 32 * n, n)
  {
  }

  lemma PlacedIsProper(fields: seq<Field>, placed: seq<Field>)
    requires LaidOut(fields, placed) && Proper(fields)
    ensures Proper(placed) && (AllWhole(placed) <==> AllWhole(fields))
  {
    forall j, k | 0 <= j < k < |placed|
      ensures !SameIgnoringCase(placed[j].name, placed[k].name)
    {
      assert placed[j].name == fields[j].name && placed[k].name == fields[k].name;
    }
    forall k | 0 <= k < |fields|
      ensures Whole(placed[k]) == Whole(fields[k])
    {
    }
  }

  lemma ImageBody(file: seq<byte>, fields: seq<Field>, hs: nat, recordLength: nat, date: seq<byte>, records: seq<byte>)
    requires |date| == 3 && file == Image(fields, hs, recordLength, date) + records
    ensures |file| > 32 && file[32..] == Body(fields, records)
    ensures DeclaredSize(file[..32]) == if hs < 65535 then hs else 0
  {
    ImageParts(file, Prologue(hs, recordLength, date), Records(NotVirtual(fields)), [HEADER_END], records);
    PrologueSize(hs, recordLength, date);
  }

  /** Loading the image of the laid-out fields. */
  method LoadImage(loaded: Header, file: seq<byte>, ghost before: seq<Field>, ghost fields: seq<Field>,
                   ghost records: seq<byte>, ghost size: nat)
    returns (r: LoadResult)
    requires |file| > 32 && file[32..] == Body(fields, records) && loaded.fields == [] && size > 0
    requires DeclaredSize(file[..32]) == if size < 65535 then size else 0
    requires LaidOut(before, fields) && Proper(fields)
    modifies loaded
    ensures r == Loaded && SameLayout(loaded.fields, fields)
      && loaded.recordLength == OffsetOf(before, |before|) && loaded.headerSize == size
      <==> AllWhole(fields) && SizeFits(size, |fields|)
  {
    ghost var declared := DeclaredSize(file[..32]);
    r := loaded.LoadDBF(file[..32], file[32..]);
    ghost var m := RecordsRead(fields, records, size, r);
    assert r == Loaded ==> loaded.HoldsParsed(file[32..], m);
    assert r == Loaded ==> loaded.headerSize == if declared != 0 then declared else (m + 1) * 32 + 1;
    Verdict(before, fields, records, size, r, m, loaded.fields, loaded.recordLength, loaded.headerSize);
  }

  lemma Verdict(before: seq<Field>, fields: seq<Field>, records: seq<byte>, size: nat, r: LoadResult, m: nat,
                loaded: seq<Field>, recordLength: nat, headerSize: nat)
    requires LaidOut(before, fields) && Proper(fields)
    requires size < 65535 ==> m == CountFor(size)
    requires r == Loaded ==>
      var data := Body(fields, records);
      && 32 * m <= |data| && NoEndMark(data, m)
      && LaidOut(Parsed(data, m), loaded) && recordLength == OffsetOf(Parsed(data, m), |Parsed(data, m)|)
      && headerSize == if size < 65535 then size else (m + 1) * 32 + 1
    requires AllWhole(fields) && SizeFits(size, |fields|) ==> r == Loaded && m == |fields|
    ensures r == Loaded && SameLayout(loaded, fields)
      && recordLength == OffsetOf(before, |before|) && headerSize == size
      <==> AllWhole(fields) && SizeFits(size, |fields|)
  {
    if r == Loaded {
      LoadedExactly(before, fields, records, m, loaded);
    }
  }

  /** How many records a load goes through, when it goes through. */
  lemma RecordsRead(fields: seq<Field>, records: seq<byte>, size: nat, r: LoadResult) returns (m: nat)
    requires Proper(fields)
    requires r == if size < 65535 then CountedResult(Body(fields, records), CountFor(size)) else Loaded
    ensures 32 * m <= |Body(fields, records)| || r != Loaded
    ensures if size < 65535 then m == CountFor(size) else EndsAt(Body(fields, records), m)
    ensures r == Loaded ==> NoEndMark(Body(fields, records), m)
    ensures AllWhole(fields) && SizeFits(size, |fields|) ==> r == Loaded && m == |fields|
  {
    var data := Body(fields, records);
    EndOfBody(fields, records);
    if size < 65535 {
      m := CountFor(size);
    } else {
      m := FirstMark(data, |NotVirtual(fields)|);
    }
    if AllWhole(fields) {
      WholeIsPrintable(fields);
      RecordStarts(fields, [HEADER_END] + records);
    }
  }

  lemma LoadedExactly(before: seq<Field>, fields: seq<Field>, records: seq<byte>, m: nat, loaded: seq<Field>)
    requires LaidOut(before, fields) && Proper(fields)
    requires 32 * m <= |Body(fields, records)| && NoEndMark(Body(fields, records), m)
    requires LaidOut(Parsed(Body(fields, records), m), loaded)
    ensures SameLayout(loaded, fields) ==> AllWhole(fields) && m == |fields|
    ensures AllWhole(fields) && m == |fields| ==>
      var p := Parsed(Body(fields, records), m);
      SameLayout(loaded, fields) && OffsetOf(p, |p|) == OffsetOf(before, |before|)
  {
    var parsed := Parsed(Body(fields, records), m);
    if SameLayout(loaded, fields) {
      SameBeforeLayout(parsed, loaded, fields);
      OnlyWholeFieldsComeBack(fields, records, m);
    }
    if AllWhole(fields) && m == |fields| {
      WholeIsPrintable(fields);
      ParsedBody(fields, records);
      LoadedFields(before, fields, parsed, loaded);
    }
  }

  lemma ParsedBody(fields: seq<Field>, records: seq<byte>)
    requires Printable(fields) && NotVirtual(fields) == fields
    ensures 32 * |fields| <= |Body(fields, records)|
    ensures SameFields(Parsed(Body(fields, records), |fields|), fields)
  {
    ParsedRecords(fields, [HEADER_END] + records, |fields|);
    assert fields[..|fields|] == fields;
  }

  lemma SameBeforeLayout(parsed: seq<Field>, loaded: seq<Field>, fields: seq<Field>)
    requires LaidOut(parsed, loaded) && SameLayout(loaded, fields)
    ensures SameFields(parsed, fields)
  {
    forall k | 0 <= k < |parsed|
      ensures SameField(parsed[k], fields[k])
    {
      assert SameField(loaded[k], fields[k]);
    }
  }

  lemma LoadedFields(before: seq<Field>, fields: seq<Field>, parsed: seq<Field>, loaded: seq<Field>)
    requires LaidOut(before, fields) && SameFields(parsed, fields) && LaidOut(parsed, loaded)
    ensures SameLayout(loaded, fields)
    ensures OffsetOf(parsed, |parsed|) == OffsetOf(before, |before|)
  {
    SameAsBefore(parsed, before, fields);
    SameOffsets(parsed, before, loaded, fields);
  }

  lemma SameAsBefore(parsed: seq<Field>, before: seq<Field>, fields: seq<Field>)
    requires LaidOut(before, fields) && SameFields(parsed, fields)
    ensures SameFields(parsed, before)
  {
    forall k | 0 <= k < |parsed|
      ensures SameField(parsed[k], before[k])
    {
      assert SameField(parsed[k], fields[k]);
    }
  }
}
