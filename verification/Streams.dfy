/** The input stream that every reader works on, and the byte-string functions of the C library
    that they use. */
module Streams {
  import opened Bytes

  /** The part of an input stream the readers use: a byte sequence and a position in it. */
  class InStream {
    const bytes: seq<byte>
    var pos: nat

    ghost predicate Valid() reads this { pos <= |bytes| }

    function Rest(): seq<byte> reads this requires Valid() { bytes[pos..] }

    constructor (content: seq<byte>)
      ensures Valid() && bytes == content && pos == 0 && Rest() == content
    {
      bytes := content;
      pos := 0;
    }

    /** A negative offset, and any offset past the end, means the end. */
    method Seek(offset: int)
      requires Valid()
      modifies this
      ensures Valid()
      ensures pos == if 0 <= offset <= |bytes| then offset else |bytes|
    {
      pos := if 0 <= offset <= |bytes| then offset else |bytes|;
    }

    method Read(data: array<byte>, count: nat) returns (n: nat)
      requires Valid() && count <= data.Length
      modifies this, data
      ensures Valid() && n == (if old(|Rest()|) < count then old(|Rest()|) else count)
      ensures pos == old(pos) + n
      ensures data[..] == old(Rest()[..n]) + old(data[..])[n..]
    {
      n := if |bytes| - pos < count then |bytes| - pos else count;
      assert bytes[pos..][..n] == bytes[pos..pos + n];
      StoreBytes(data, bytes[pos..pos + n]);
      pos := pos + n;
    }

    /** One character as a C int; char is signed, so a byte of 0xFF reads as EOF. */
    method Get() returns (c: int)
      requires Valid()
      modifies this
      ensures Valid()
      ensures old(Rest()) == [] ==> c == EOF && pos == old(pos)
      ensures old(Rest()) != [] ==> c == Signed(old(Rest())[0]) && pos == old(pos) + 1
    {
      if pos == |bytes| { return EOF; }
      c := Signed(bytes[pos]);
      pos := pos + 1;
    }
  }

  /** memmove from a value of its own into a buffer. */
  method StoreAt(c: array<byte>, k: nat, src: seq<byte>)
    requires k + |src| <= c.Length
    modifies c
    ensures c[..] == old(c[..])[..k] + src + old(c[..])[k + |src|..]
  {
    ghost var was := c[..];
    for j := 0 to |src|
      invariant forall i | 0 <= i < c.Length :: c[i] == if k <= i < k + j then src[i - k] else was[i]
    {
      c[k + j] := src[j];
    }
  }

  method StoreBytes(dst: array<byte>, src: seq<byte>)
    requires |src| <= dst.Length
    modifies dst
    ensures dst[..] == src + old(dst[..])[|src|..]
  {
    EmptyFront(src);
    assert dst[..][..0] == [];
    StoreAt(dst, 0, src);
  }

  const EOF := -1

  function Signed(b: byte): int {
    if b < 128 then b else b - 256
  }

  // ----- C strings

  /** strncasecmp(t, e, |e|) == 0 */
  predicate HasPrefix(t: seq<byte>, e: seq<byte>) {
    e == [] || (t != [] && Lower(t[0]) == Lower(e[0]) && HasPrefix(t[1..], e[1..]))
  }

  lemma {:induction false} PrefixIsShorter(t: seq<byte>, e: seq<byte>)
    requires HasPrefix(t, e)
    ensures |e| <= |t|
  {
    if e != [] {
      PrefixIsShorter(t[1..], e[1..]);
    }
  }

  lemma {:induction false} CStringDrop(m: seq<byte>, k: nat)
    requires k <= |CString(m)|
    ensures CString(m[k..]) == CString(m)[k..]
  {
    if k > 0 {
      assert m[1..][k - 1..] == m[k..];
      CStringDrop(m[1..], k - 1);
    }
  }

  lemma {:induction false} CStringIgnores(t: seq<byte>, junk: seq<byte>)
    requires junk == [] || junk[0] == 0
    ensures CString(t + junk) == CString(t)
  {
    if t == [] {
      assert t + junk == junk;
    } else {
      assert (t + junk)[1..] == t[1..] + junk;
      CStringIgnores(t[1..], junk);
    }
  }
}
