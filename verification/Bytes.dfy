/** Bytes, byte strings and the in-memory output stream that every other module writes to. */
module Bytes {

  type byte = b: int | 0 <= b < 256

  datatype Option<+T> = None | Some(value: T)

  /** n copies of one byte. */
  function Repeat(b: byte, n: nat): (s: seq<byte>)
    ensures |s| == n
    ensures forall k :: 0 <= k < n ==> s[k] == b
  {
    seq(n, _ => b)
  }

  lemma Assoc(a: seq<byte>, b: seq<byte>, c: seq<byte>)
    ensures a + b + c == a + (b + c)
  {
  }

  lemma Assoc3(a: seq<byte>, b: seq<byte>, c: seq<byte>, d: seq<byte>)
    ensures a + b + c + d == a + (b + c + d)
  {
  }

  lemma EmptyFront(a: seq<byte>)
    ensures [] + a == a
  {
  }

  /** The bytes of a text in ASCII. */
  function Ascii(s: string): (t: seq<byte>)
    ensures |t| == |s|
  {
    seq(|s|, i requires 0 <= i < |s| => (s[i] as int) % 256)
  }

  // ----- C strings

  function Lower(b: byte): byte {
    if 'A' as int <= b <= 'Z' as int then b + 32 else b
  }

  /** strcasecmp(a, b) == 0. */
  predicate SameIgnoringCase(a: seq<byte>, b: seq<byte>) {
    |a| == |b| && forall k :: 0 <= k < |a| ==> Lower(a[k]) == Lower(b[k])
  }

  /** Letters that differ by 0x20 only are the same; no other two different bytes are. */
  lemma CaseInBytes(a: byte, b: byte)
    ensures SameIgnoringCase([a], [b]) <==>
      a == b || (0x41 <= a <= 0x5A && b == a + 32) || (0x41 <= b <= 0x5A && a == b + 32)
  {
    assert [a][0] == a && [b][0] == b;
  }

  /** What a C string function sees of a buffer: everything before the first NUL. */
  function CString(buf: seq<byte>): (s: seq<byte>)
    ensures |s| <= |buf| && s == buf[..|s|] && 0 !in s
    ensures |s| < |buf| ==> buf[|s|] == 0
  {
    if buf == [] || buf[0] == 0 then [] else [buf[0]] + CString(buf[1..])
  }

  lemma {:induction false} CStringOf(s: seq<byte>, rest: seq<byte>)
    requires 0 !in s && (rest == [] || rest[0] == 0)
    ensures CString(s + rest) == s
  {
    if s == [] {
      assert s + rest == rest;
    } else {
      assert (s + rest)[1..] == s[1..] + rest;
      CStringOf(s[1..], rest);
    }
  }

  /** n * w, defined by addition so that the proofs about offsets stay linear. */
  function Times(n: nat, w: nat): nat {
    if n == 0 then 0 else Times(n - 1, w) + w
  }

  lemma {:induction false} TimesIsProduct(n: nat, w: nat)
    ensures Times(n, w) == n * w
  {
    if n > 0 {
      TimesIsProduct(n - 1, w);
    }
  }

  lemma {:induction false} TimesFits(r: nat, h: nat, w: nat)
    requires r < h
    ensures Times(r, w) + w == Times(r + 1, w) <= Times(h, w)
    decreases h
  {
    if r + 1 < h {
      TimesFits(r, h - 1, w);
    }
  }

  /** The number two bytes stand for, the low one first. */
  function LittleEndian(lo: nat, hi: nat): nat {
    lo + 256 * hi
  }

  /** 1 + 2 + ... + n. */
  function Triangle(n: nat): nat {
    if n == 0 then 0 else Triangle(n - 1) + n
  }

  lemma {:induction false} TriangleIsHalfProduct(n: nat)
    ensures 2 * Triangle(n) == n * (n + 1)
  {
    if n > 0 {
      TriangleIsHalfProduct(n - 1);
    }
  }

  /** The part of an output stream the writers use: everything written so far. */
  class OutStream {
    var bytes: seq<byte>

    constructor ()
      ensures bytes == []
    {
      bytes := [];
    }

    method Write(data: array<byte>, offset: nat, count: nat)
      requires offset + count <= data.Length
      modifies this
      ensures bytes == old(bytes) + data[offset..offset + count]
    {
      bytes := bytes + data[offset..offset + count];
    }

    method WriteBytes(data: seq<byte>)
      modifies this
      ensures bytes == old(bytes) + data
    {
      bytes := bytes + data;
    }

    method Put(b: byte)
      modifies this
      ensures bytes == old(bytes) + [b]
    {
      bytes := bytes + [b];
    }
  }

  /** memcpy between two distinct buffers. */
  method CopyBytes(dst: array<byte>, to: nat, src: array<byte>, from: nat, count: nat)
    requires dst != src
    requires to + count <= dst.Length && from + count <= src.Length
    modifies dst
    ensures dst[..] == old(dst[..to]) + src[from..from + count] + old(dst[to + count..])
  {
    ghost var data := src[from..from + count];
    for k := 0 to count
      invariant forall j :: 0 <= j < dst.Length ==> dst[j] == if to <= j < to + k then data[j - to] else old(dst[j])
    {
      assert data[k] == src[from + k];
      dst[to + k] := src[from + k];
    }
  }
}
