/** FindDirectory of io_zip.cpp: the backward search for the end-of-central-directory record. */
module ZipFind {
  import opened Bytes
  import opened Streams

  const BUFREADCOMMENT := 1064
  const FARTHEST := 0xffff

  /** That record without its comment. */
  const RECORD_SIZE := 22

  /** The four bytes that open the end record, PKWARE APPNOTE section 4.3.16. */
  predicate MarkAt(file: seq<byte>, p: nat) {
    p + 4 <= |file| && file[p] == 0x50 && file[p + 1] == 0x4b && file[p + 2] == 0x05 && file[p + 3] == 0x06
  }

  predicate NoMarkIn(file: seq<byte>, from: nat, to: nat) {
    forall p: nat | from <= p < to :: !MarkAt(file, p)
  }

  /** The naive search: r is the last mark at or after lowest, 0 for none. */
  predicate LastMark(file: seq<byte>, lowest: nat, r: nat) {
    if r == 0 then NoMarkIn(file, lowest, |file|)
    else lowest <= r && MarkAt(file, r) && NoMarkIn(file, r + 1, |file|)
  }

  /** The lowest offset the search can return. */
  function Lowest(file: seq<byte>): nat {
    if |file| <= FARTHEST then 1 else |file| - FARTHEST
  }

  /** How much of a file a 32-bit size variable makes the search see. */
  function Seen(file: seq<byte>): seq<byte> {
    file[..|file| % 0x1_0000_0000]
  }

  /** No mark starts here or later once backRead bytes have been gone through. */
  function Unsearched(size: nat, backRead: nat): nat {
    if size <= backRead then 1 else if backRead == 4 then size - 3 else size - backRead
  }

  /** Scans one window from its end; found is the highest offset in it, or none. */
  method ScanWindow(buf: array<byte>, size: nat, ghost file: seq<byte>, ghost at: nat) returns (found: Option<nat>)
    requires size <= buf.Length && at + size <= |file| && buf[..size] == file[at..at + size]
    requires size >= 4 && NoMarkIn(file, at + size - 3, |file|)
    ensures found.None? ==> NoMarkIn(file, at, |file|)
    ensures found.Some? ==> MarkAt(file, at + found.value) && NoMarkIn(file, at + found.value + 1, |file|)
  {
    var i := size - 3;
    assert forall k :: 0 <= k < size ==> buf[..size][k] == file[at..at + size][k];
    while i > 0
      invariant 0 <= i <= size - 3 && NoMarkIn(file, at + i, |file|)
    {
      i := i - 1;
      if buf[i] == 0x50 && buf[i + 1] == 0x4b && buf[i + 2] == 0x05 && buf[i + 3] == 0x06 {
        assert MarkAt(file, at + i);
        return Some(i);
      }
      assert !MarkAt(file, at + i);
    }
    return None;
  }

  method ReadWindow(s: InStream, buf: array<byte>, at: nat, size: nat) returns (n: nat)
    requires s.Valid() && size <= buf.Length && at + size <= |Seen(s.bytes)|
    modifies s, buf
    ensures s.Valid() && n == size && buf[..size] == Seen(s.bytes)[at..at + size]
  {
    s.Seek(at);
    n := s.Read(buf, size);
    assert s.bytes[at..][..size] == Seen(s.bytes)[at..at + size];
  }

  method FindDirectory(s: InStream) returns (posFound: nat)
    requires s.Valid()
    modifies s
    ensures LastMark(Seen(s.bytes), Lowest(Seen(s.bytes)), posFound)
  {
    var buf := new byte[BUFREADCOMMENT + 4](_ => 0);
    ghost var file := Seen(s.bytes);
    var sizeFile := |s.bytes| % 0x1_0000_0000;
    var maxBack := FARTHEST;
    s.Seek(-1);
    if maxBack > sizeFile { maxBack := sizeFile; }
    var backRead := 4;
    posFound := 0;
    while backRead < maxBack
      invariant 4 <= backRead && (backRead <= maxBack || backRead == 4)
      invariant posFound == 0 && s.Valid()
      invariant NoMarkIn(file, Unsearched(sizeFile, backRead), |file|)
    {
      backRead := if backRead + BUFREADCOMMENT > maxBack then maxBack else backRead + BUFREADCOMMENT;
      var readPos := sizeFile - backRead;
      var readSize := if BUFREADCOMMENT + 4 < sizeFile - readPos then BUFREADCOMMENT + 4 else sizeFile - readPos;
      var n := ReadWindow(s, buf, readPos, readSize);
      if n != readSize { break; }
      var found := ScanWindow(buf, readSize, file, readPos);
      if found.Some? { posFound := readPos + found.value; }
      if posFound != 0 { break; }
    }
  }

  /** A file whose end record starts at body and is followed by its comment and nothing else. */
  predicate Archive(file: seq<byte>, body: nat, comment: nat) {
    |file| == body + RECORD_SIZE + comment && MarkAt(file, body)
  }

  /** The search finds the end record if and only if something stands before it, its comment has at
      most 65513 bytes (22 short of what the format allows), and no mark comes after it. */
  lemma EndRecordIsFound(file: seq<byte>, body: nat, comment: nat, r: nat)
    requires Archive(file, body, comment) && LastMark(file, Lowest(file), r)
    ensures r != 0 && r == body
      <==> 0 < body && comment <= 65513 && NoMarkIn(file, body + 1, |file|)
  {
    assert r > 0 ==> MarkAt(file, r);
    assert MarkAt(file, body) && body < |file|;
  }

  /** What happens otherwise: a later mark within reach is taken for the record, and without one the
      archive is taken to have none. */
  lemma EndRecordIsMissed(file: seq<byte>, body: nat, comment: nat, r: nat)
    requires Archive(file, body, comment) && LastMark(file, Lowest(file), r)
    ensures r > body || r == 0 || r == body
    ensures r > body <==> !NoMarkIn(file, if body + 1 < Lowest(file) then Lowest(file) else body + 1, |file|)
  {
    assert r > 0 ==> MarkAt(file, r) && r < |file|;
    assert MarkAt(file, body);
  }

  /** The archive without entries is the record alone: it stands at offset 0, which means not found. */
  const EMPTY_ARCHIVE: seq<byte> :=
    [0x50, 0x4b, 0x05, 0x06, 0, 0, 0, 0, 0, 0, 0, 0, 0, 0, 0, 0, 0, 0, 0, 0, 0, 0]

  lemma EmptyArchiveIsMissed(r: nat)
    requires LastMark(EMPTY_ARCHIVE, Lowest(EMPTY_ARCHIVE), r)
    ensures Archive(EMPTY_ARCHIVE, 0, 0) && r == 0
  {
    assert forall p: nat | 1 <= p < 22 :: !MarkAt(EMPTY_ARCHIVE, p);
  }

  /** An end record whose four-byte comment is the mark again: the offset found lies in the comment. */
  lemma MarkInTheCommentIsFound(entry: byte, file: seq<byte>, r: nat)
    requires file == [entry] + EMPTY_ARCHIVE[..20] + [4, 0] + EMPTY_ARCHIVE[..4]
    requires LastMark(file, Lowest(file), r)
    ensures Archive(file, 1, 4) && r == 23
  {
    assert MarkAt(file, 23);
    assert r > 23 ==> !MarkAt(file, r);
  }
}
