/**
 A GIF reader, written from the GIF89a specification and independent of the writer:
 data sub-blocks (section 15), LZW codes of growing width packed least significant bit
 first (Appendix F), and four-pass interlacing (Appendix E).
 */
module GifLzw {
  import opened Bytes

  // Minimum code size 7, as in the last byte of the header the writer sends.
  const CLEAR: byte := 128
  const END_OF_INFORMATION: byte := 129
  const FIRST_CODE := 130
  const MAX_CODES := 4096

  /** table[k] is the string of code FIRST_CODE + k; prev is empty just after a clear code. */
  datatype State =
    | Running(table: seq<seq<byte>>, prev: seq<byte>, out: seq<byte>)
    | Finished(out: seq<byte>)
    | Corrupt

  const START: State := Running([], [], [])

  /** The width in bits of the next code. */
  function Width(table: seq<seq<byte>>): (w: nat)
    ensures 8 <= w <= 12
  {
    var next := FIRST_CODE + |table|;
    if next < 256 then 8 else if next < 512 then 9 else if next < 1024 then 10 else if next < 2048 then 11 else 12
  }

  /** The string a code stands for, if it stands for one. */
  function Lookup(st: State, code: nat): (s: Option<seq<byte>>)
    requires st.Running?
  {
    if code < 128 then Some([code])
    else if FIRST_CODE <= code < FIRST_CODE + |st.table| then Some(st.table[code - FIRST_CODE])
    else if code == FIRST_CODE + |st.table| && st.prev != [] then Some(st.prev + [st.prev[0]])
    else None
  }

  /** One code of Appendix F. */
  function Step(st: State, code: nat): State
    requires st.Running?
  {
    if code == CLEAR then Running([], [], st.out)
    else if code == END_OF_INFORMATION then Finished(st.out)
    else
      match Lookup(st, code)
      case None => Corrupt
      case Some(s) =>
        if s == [] then Corrupt
        else if st.prev == [] || FIRST_CODE + |st.table| >= MAX_CODES then Running(st.table, s, st.out + s)
        else Running(st.table + [st.prev + [s[0]]], s, st.out + s)
  }

  function Bit(b: nat, k: nat): (r: nat)
    ensures r < 2
  {
    if k == 0 then b % 2 else Bit(b / 2, k - 1)
  }

  /** The code of the given width that starts at a bit position. */
  function ReadCode(data: seq<byte>, pos: nat, width: nat): nat
    requires pos + width <= 8 * |data|
    decreases width
  {
    if width == 0 then 0 else Bit(data[pos / 8], pos % 8) + 2 * ReadCode(data, pos + 1, width - 1)
  }

  function DecodeBits(data: seq<byte>, pos: nat, st: State): State
    decreases 8 * |data| - pos
  {
    if !st.Running? || pos + Width(st.table) > 8 * |data| then st
    else DecodeBits(data, pos + Width(st.table), Step(st, ReadCode(data, pos, Width(st.table))))
  }

  /** The contents of a chain of data sub-blocks, and what follows its terminator. */
  function SubBlocks(bytes: seq<byte>): (r: Option<(seq<byte>, seq<byte>)>)
    ensures r.Some? ==> |r.value.1| < |bytes|
    decreases |bytes|
  {
    if bytes == [] then None
    else if bytes[0] == 0 then Some(([], bytes[1..]))
    else if |bytes| <= bytes[0] then None
    else Prepend(bytes[1..bytes[0] + 1], SubBlocks(bytes[bytes[0] + 1..]))
  }

  function Prepend(data: seq<byte>, r: Option<(seq<byte>, seq<byte>)>): Option<(seq<byte>, seq<byte>)> {
    if r.None? then None else Some((data + r.value.0, r.value.1))
  }

  /** Table-based image data: the pixels, and the bytes after the block terminator. */
  function DecodeImageData(bytes: seq<byte>): Option<(seq<byte>, seq<byte>)> {
    match SubBlocks(bytes)
    case None => None
    case Some((data, rest)) =>
      var st := DecodeBits(data, 0, START);
      if st.Finished? then Some((st.out, rest)) else None
  }

  // ----- a run in which every code is one byte wide

  /** Decoding one byte per code; Corrupt as soon as a code would not be eight bits wide. */
  function RunBytes(st: State, codes: seq<byte>): State
    decreases |codes|
  {
    if codes == [] || !st.Running? then st
    else if Width(st.table) != 8 then Corrupt
    else RunBytes(Step(st, codes[0]), codes[1..])
  }

  lemma {:induction false} RunConcat(st: State, a: seq<byte>, b: seq<byte>)
    ensures RunBytes(st, a + b) == RunBytes(RunBytes(st, a), b)
    decreases |a|
  {
    if a == [] {
      assert a + b == b;
    } else if st.Running? && Width(st.table) == 8 {
      assert (a + b)[1..] == a[1..] + b;
      RunConcat(Step(st, a[0]), a[1..], b);
    }
  }

  lemma RunLast(st: State, codes: seq<byte>, c: byte)
    requires RunBytes(st, codes).Running? && Width(RunBytes(st, codes).table) == 8
    ensures RunBytes(st, codes + [c]) == Step(RunBytes(st, codes), c)
  {
    RunConcat(st, codes, [c]);
    var mid := RunBytes(st, codes);
    assert [c][1..] == [];
    assert RunBytes(mid, [c]) == RunBytes(Step(mid, c), []);
  }

  function Shift(b: nat, k: nat): nat {
    if k == 0 then b else Shift(b / 2, k - 1)
  }

  lemma {:induction false} ShiftBit(b: nat, k: nat)
    ensures Shift(b, k) == Bit(b, k) + 2 * Shift(b, k + 1)
  {
    if k == 0 {
      assert Shift(b, 1) == Shift(b / 2, 0);
    } else {
      ShiftBit(b / 2, k - 1);
    }
  }

  lemma {:induction false} AlignedTail(data: seq<byte>, i: nat, k: nat)
    requires i < |data| && k <= 8
    ensures ReadCode(data, 8 * i + k, 8 - k) == Shift(data[i], k)
    decreases 8 - k
  {
    if k == 8 {
      var b := data[i];
      calc {
        Shift(b, 8);
        Shift(b / 2, 7);
        Shift(b / 2 / 2, 6);
        Shift(b / 2 / 2 / 2, 5);
        Shift(b / 2 / 2 / 2 / 2, 4);
        Shift(b / 2 / 2 / 2 / 2 / 2, 3);
        Shift(b / 2 / 2 / 2 / 2 / 2 / 2, 2);
        Shift(b / 2 / 2 / 2 / 2 / 2 / 2 / 2, 1);
        Shift(b / 2 / 2 / 2 / 2 / 2 / 2 / 2 / 2, 0);
        0;
      }
    } else {
      AlignedTail(data, i, k + 1);
      ShiftBit(data[i], k);
      assert (8 * i + k) / 8 == i && (8 * i + k) % 8 == k;
    }
  }

  /** An eight-bit code on a byte boundary is that byte. */
  lemma AlignedCode(data: seq<byte>, i: nat)
    requires i < |data|
    ensures ReadCode(data, 8 * i, 8) == data[i]
  {
    AlignedTail(data, i, 0);
    assert 8 * i + 0 == 8 * i;
  }

  lemma OneByte(data: seq<byte>, i: nat, st: State)
    requires i < |data| && st.Running? && Width(st.table) == 8
    ensures DecodeBits(data, 8 * i, st) == DecodeBits(data, 8 * (i + 1), Step(st, data[i]))
  {
    AlignedCode(data, i);
    assert 8 * i + 8 == 8 * (i + 1);
  }

  /** A byte-wise run that reaches the end code is what the bit-level decoder does. */
  lemma {:induction false} BitsAreBytes(data: seq<byte>, i: nat, st: State)
    requires i <= |data|
    requires RunBytes(st, data[i..]).Finished?
    ensures DecodeBits(data, 8 * i, st) == RunBytes(st, data[i..])
    decreases |data| - i
  {
    if i < |data| && st.Running? {
      assert data[i..][0] == data[i] && data[i..][1..] == data[i + 1..];
      OneByte(data, i, st);
      BitsAreBytes(data, i + 1, Step(st, data[i]));
    }
  }

  // ----- framing

  ghost predicate BlockSizes(blocks: seq<seq<byte>>) {
    forall k :: 0 <= k < |blocks| ==> 0 < |blocks[k]| < 256
  }

  /** A list of blocks as the bytes of data sub-blocks, each behind its size. */
  function Framed(blocks: seq<seq<byte>>): seq<byte>
    requires BlockSizes(blocks)
  {
    if blocks == [] then []
    else
      var last := blocks[|blocks| - 1];
      Framed(blocks[..|blocks| - 1]) + ([|last|] + last)
  }

  function Flat(blocks: seq<seq<byte>>): seq<byte> {
    if blocks == [] then [] else Flat(blocks[..|blocks| - 1]) + blocks[|blocks| - 1]
  }

  lemma OneBlockIsRead(block: seq<byte>, tail: seq<byte>)
    requires 0 < |block| < 256
    ensures SubBlocks([|block|] + block + tail) == Prepend(block, SubBlocks(tail))
  {
  }

  lemma PrependTwice(a: seq<byte>, b: seq<byte>, r: Option<(seq<byte>, seq<byte>)>)
    ensures Prepend(a, Prepend(b, r)) == Prepend(a + b, r)
  {
    if r.Some? {
      assert a + (b + r.value.0) == a + b + r.value.0;
    }
  }

  lemma {:induction false} FramedIsRead(blocks: seq<seq<byte>>, tail: seq<byte>)
    requires BlockSizes(blocks)
    ensures SubBlocks(Framed(blocks) + tail) == Prepend(Flat(blocks), SubBlocks(tail))
    decreases |blocks|
  {
    if blocks == [] {
      assert [] + tail == tail;
      assert SubBlocks(tail).Some? ==> [] + SubBlocks(tail).value.0 == SubBlocks(tail).value.0;
    } else {
      var front, last := blocks[..|blocks| - 1], blocks[|blocks| - 1];
      assert Framed(blocks) + tail == Framed(front) + ([|last|] + last + tail);
      FramedIsRead(front, [|last|] + last + tail);
      OneBlockIsRead(last, tail);
      PrependTwice(Flat(front), last, SubBlocks(tail));
    }
  }

  lemma FramedData(blocks: seq<seq<byte>>, rest: seq<byte>)
    requires BlockSizes(blocks)
    ensures SubBlocks(Framed(blocks) + ([1, END_OF_INFORMATION, 0] + rest))
      == Some((Flat(blocks) + [END_OF_INFORMATION], rest))
  {
    var end, block: seq<byte> := [0] + rest, [END_OF_INFORMATION];
    assert end[1..] == rest;
    FramedIsRead(blocks, [|block|] + block + end);
    OneBlockIsRead(block, end);
    PrependTwice(Flat(blocks), block, SubBlocks(end));
    assert [1, END_OF_INFORMATION, 0] + rest == [|block|] + block + end;
    assert Flat(blocks) + block + [] == Flat(blocks) + block;
  }

  /** Framed codes that end with the end code decode to what the byte-wise run yields. */
  lemma FramedDecodes(blocks: seq<seq<byte>>, rest: seq<byte>)
    requires BlockSizes(blocks)
    requires RunBytes(START, Flat(blocks) + [END_OF_INFORMATION]).Finished?
    ensures DecodeImageData(Framed(blocks) + ([1, END_OF_INFORMATION, 0] + rest))
         == Some((RunBytes(START, Flat(blocks) + [END_OF_INFORMATION]).out, rest))
  {
    FramedData(blocks, rest);
    var data := Flat(blocks) + [END_OF_INFORMATION];
    assert data[0..] == data;
    BitsAreBytes(data, 0, START);
  }

  // ----- what can come out

  ghost predicate SevenBit(s: seq<byte>) {
    forall k :: 0 <= k < |s| ==> s[k] < 128
  }

  ghost predicate StateSevenBit(st: State) {
    && (!st.Corrupt? ==> SevenBit(st.out))
    && (st.Running? ==> SevenBit(st.prev) && forall k :: 0 <= k < |st.table| ==> SevenBit(st.table[k]))
  }

  lemma StepSevenBit(st: State, code: nat)
    requires st.Running? && StateSevenBit(st)
    ensures StateSevenBit(Step(st, code))
  {
  }

  lemma {:induction false} DecodeSevenBit(data: seq<byte>, pos: nat, st: State)
    requires StateSevenBit(st)
    ensures StateSevenBit(DecodeBits(data, pos, st))
    decreases 8 * |data| - pos
  {
    if st.Running? && pos + Width(st.table) <= 8 * |data| {
      var code := ReadCode(data, pos, Width(st.table));
      var next, end := Step(st, code), pos + Width(st.table);
      StepSevenBit(st, code);
      DecodeSevenBit(data, end, next);
      assert DecodeBits(data, pos, st) == DecodeBits(data, end, next);
    }
  }

  /** No stream at all decodes to a pixel of 128 or more. */
  lemma DecodedPixelsAreSevenBit(bytes: seq<byte>)
    requires DecodeImageData(bytes).Some?
    ensures SevenBit(DecodeImageData(bytes).value.0)
  {
    DecodeSevenBit(SubBlocks(bytes).value.0, 0, START);
  }
}
