/** The running checksum of sy_crc.cpp: Adler-32 with the modulo put off for up to 5552 bytes. */
module Adler {
  import opened Bytes

  /** The arithmetic of the source: every variable of the loops below must fit in 32 bits. */
  type uint32 = w: int | 0 <= w < 0x1_0000_0000

  const BASE: nat := 65521
  const NMAX: nat := 5552

  // ----- Specification: RFC 1950 section 8.2, one modulo per byte

  function PerByte(a: nat, b: nat, data: seq<byte>): (nat, nat) {
    if data == [] then (a, b)
    else
      var (a', b') := PerByte(a, b, data[..|data| - 1]);
      var a'' := (a' + data[|data| - 1]) % BASE;
      (a'', (b' + a'') % BASE)
  }

  function Low(start: uint32): nat { start % 0x10000 }
  function High(start: uint32): nat { start / 0x10000 }

  function Checksum(start: uint32, data: seq<byte>): uint32 {
    PerByteFits(Low(start), High(start), data);
    var (a, b) := PerByte(Low(start), High(start), data);
    b * 0x10000 + a
  }

  lemma {:induction false} PerByteFits(a: nat, b: nat, data: seq<byte>)
    requires a < 0x10000 && b < 0x10000
    ensures PerByte(a, b, data).0 < 0x10000 && PerByte(a, b, data).1 < 0x10000
    ensures data != [] ==> PerByte(a, b, data).0 < BASE && PerByte(a, b, data).1 < BASE
  {
  }

  // ----- The two sums without any modulo

  function Sum1(a: nat, data: seq<byte>): nat {
    if data == [] then a else Sum1(a, data[..|data| - 1]) + data[|data| - 1]
  }

  function Sum2(a: nat, b: nat, data: seq<byte>): nat {
    if data == [] then b else Sum2(a, b, data[..|data| - 1]) + Sum1(a, data)
  }

  lemma {:induction false} SumsOfConcat(a: nat, b: nat, x: seq<byte>, y: seq<byte>)
    ensures Sum1(a, x + y) == Sum1(Sum1(a, x), y)
    ensures Sum2(a, b, x + y) == Sum2(Sum1(a, x), Sum2(a, b, x), y)
  {
    if y == [] {
      assert x + y == x;
    } else {
      assert (x + y)[..|x + y| - 1] == x + y[..|y| - 1];
      SumsOfConcat(a, b, x, y[..|y| - 1]);
    }
  }

  lemma {:induction false} PerByteOfConcat(a: nat, b: nat, x: seq<byte>, y: seq<byte>)
    ensures PerByte(a, b, x + y) == PerByte(PerByte(a, b, x).0, PerByte(a, b, x).1, y)
  {
    if y == [] {
      assert x + y == x;
    } else {
      assert (x + y)[..|x + y| - 1] == x + y[..|y| - 1];
      PerByteOfConcat(a, b, x, y[..|y| - 1]);
    }
  }

  lemma ModuloAdds(a: nat, x: nat)
    ensures (a % BASE + x) % BASE == (a + x) % BASE
    ensures (x + a % BASE) % BASE == (x + a) % BASE
  {
  }

  /** Putting the modulo off to the end changes nothing. */
  lemma {:induction false} DeferredModulo(a: nat, b: nat, data: seq<byte>)
    requires data != []
    ensures PerByte(a, b, data) == (Sum1(a, data) % BASE, Sum2(a, b, data) % BASE)
  {
    var init, x := data[..|data| - 1], data[|data| - 1];
    var s1, s2 := Sum1(a, init), Sum2(a, b, init);
    if init != [] {
      DeferredModulo(a, b, init);
      ModuloAdds(s1, x);
      ModuloAdds(s2, Sum1(a, data) % BASE);
    }
    ModuloAdds(Sum1(a, data), s2);
  }

  // ----- How large the sums get

  lemma {:induction false} TriangleGrows(m: nat, n: nat)
    requires m <= n
    ensures Triangle(m) <= Triangle(n)
    decreases n
  {
    if m < n {
      TriangleGrows(m, n - 1);
    }
  }

  function Bound(a: nat, b: nat, n: nat): nat {
    b + Times(n, a) + 255 * Triangle(n)
  }

  lemma {:induction false} SumsAreBounded(a: nat, b: nat, data: seq<byte>)
    ensures a <= Sum1(a, data) <= a + 255 * |data|
    ensures b <= Sum2(a, b, data) <= Bound(a, b, |data|)
  {
    if data != [] {
      SumsAreBounded(a, b, data[..|data| - 1]);
    }
  }

  lemma {:induction false} AllOnesReachTheBound(a: nat, b: nat, n: nat)
    ensures Sum1(a, Repeat(255, n)) == a + 255 * n
    ensures Sum2(a, b, Repeat(255, n)) == Bound(a, b, n)
  {
    if n > 0 {
      assert Repeat(255, n)[..n - 1] == Repeat(255, n - 1);
      AllOnesReachTheBound(a, b, n - 1);
    }
  }

  lemma BoundAtMost(a: nat, b: nat, n: nat)
    requires a <= 0xffff && b <= 0xffff && n <= NMAX
    ensures a + 255 * n < 0x1_0000_0000
    ensures Bound(a, b, n) < 0x1_0000_0000
  {
    TriangleGrows(n, NMAX);
    TriangleIsHalfProduct(NMAX);
    TimesIsProduct(n, a);
    ProductGrows(n, NMAX, a, 0xffff);
  }

  lemma ProductGrows(m: nat, n: nat, a: nat, b: nat)
    requires m <= n && a <= b
    ensures m * a <= n * b
  {
  }

  /** No partial sum of a chunk overflows, even from the start value 0xffffffff. */
  lemma ChunkFits(a: nat, b: nat, data: seq<byte>)
    requires a <= 0xffff && b <= 0xffff && |data| <= NMAX
    ensures Sum1(a, data) < 0x1_0000_0000 && Sum2(a, b, data) < 0x1_0000_0000
  {
    SumsAreBounded(a, b, data);
    BoundAtMost(a, b, |data|);
  }

  ghost predicate ChunksOfFit(n: nat) {
    forall a: nat, b: nat, data: seq<byte> | a < BASE && b < BASE && |data| == n ::
      Sum2(a, b, data) < 0x1_0000_0000
  }

  /** 5552 is the longest chunk that is safe. */
  lemma NmaxIsTheLargestChunk(n: nat)
    ensures ChunksOfFit(n) <==> n <= 5552
  {
    if n <= NMAX {
      forall a: nat, b: nat, data: seq<byte> | a < BASE && b < BASE && |data| == n
        ensures Sum2(a, b, data) < 0x1_0000_0000
      {
        ChunkFits(a, b, data);
      }
    } else {
      var top: nat := BASE - 1;
      AllOnesReachTheBound(top, top, n);
      TimesIsProduct(n, top);
      TriangleGrows(NMAX + 1, n);
      TriangleIsHalfProduct(NMAX + 1);
      assert Sum2(top, top, Repeat(255, n)) >= 0x1_0000_0000;
    }
  }

  /** Two checksums that are known: that of the letter a, and one that wraps round at 65521. */
  lemma KnownChecksums()
    ensures Checksum(1, []) == 1 && Checksum(1, [0x61]) == 0x0062_0062 && Checksum(0xFFF0, [1]) == 0
  {
    assert [0x61][..0] == [] && [1][..0] == [];
    assert PerByte(1, 0, [0x61]) == (0x62, 0x62);
    assert PerByte(0xFFF0, 0, [1]) == (0, 0);
  }

  // ----- The implementation

  method Do1(buf: array<byte>, i: nat, s1: uint32, s2: uint32, ghost n: nat, ghost a: nat, ghost b: nat)
    returns (t1: uint32, t2: uint32)
    requires i + 1 <= buf.Length && n <= i && i + 1 - n <= NMAX && a <= 0xffff && b <= 0xffff
    requires s1 == Sum1(a, buf[n..i]) && s2 == Sum2(a, b, buf[n..i])
    ensures t1 == Sum1(a, buf[n..i + 1]) && t2 == Sum2(a, b, buf[n..i + 1])
  {
    assert buf[n..i + 1][..i - n] == buf[n..i];
    ChunkFits(a, b, buf[n..i + 1]);
    t1 := s1 + buf[i];
    t2 := s2 + t1;
  }

  method Do4(buf: array<byte>, i: nat, s1: uint32, s2: uint32, ghost n: nat, ghost a: nat, ghost b: nat)
    returns (t1: uint32, t2: uint32)
    requires i + 4 <= buf.Length && n <= i && i + 4 - n <= NMAX && a <= 0xffff && b <= 0xffff
    requires s1 == Sum1(a, buf[n..i]) && s2 == Sum2(a, b, buf[n..i])
    ensures t1 == Sum1(a, buf[n..i + 4]) && t2 == Sum2(a, b, buf[n..i + 4])
  {
    t1, t2 := Do1(buf, i, s1, s2, n, a, b);
    t1, t2 := Do1(buf, i + 1, t1, t2, n, a, b);
    t1, t2 := Do1(buf, i + 2, t1, t2, n, a, b);
    t1, t2 := Do1(buf, i + 3, t1, t2, n, a, b);
  }

  method Do16(buf: array<byte>, i: nat, s1: uint32, s2: uint32, ghost n: nat, ghost a: nat, ghost b: nat)
    returns (t1: uint32, t2: uint32)
    requires i + 16 <= buf.Length && n <= i && i + 16 - n <= NMAX && a <= 0xffff && b <= 0xffff
    requires s1 == Sum1(a, buf[n..i]) && s2 == Sum2(a, b, buf[n..i])
    ensures t1 == Sum1(a, buf[n..i + 16]) && t2 == Sum2(a, b, buf[n..i + 16])
  {
    t1, t2 := Do4(buf, i, s1, s2, n, a, b);
    t1, t2 := Do4(buf, i + 4, t1, t2, n, a, b);
    t1, t2 := Do4(buf, i + 8, t1, t2, n, a, b);
    t1, t2 := Do4(buf, i + 12, t1, t2, n, a, b);
  }

  /** One chunk of at most NMAX bytes, sixteen at a time and then one at a time. */
  method SumChunk(buf: array<byte>, from: nat, count: nat, a: uint32, b: uint32)
    returns (s1: uint32, s2: uint32)
    requires from + count <= buf.Length && count <= NMAX && a <= 0xffff && b <= 0xffff
    ensures s1 == Sum1(a, buf[from..from + count])
    ensures s2 == Sum2(a, b, buf[from..from + count])
  {
    var k, i := count, from;
    s1, s2 := a, b;
    while k >= 16
      invariant 0 <= k <= count && i == from + count - k
      invariant s1 == Sum1(a, buf[from..i]) && s2 == Sum2(a, b, buf[from..i])
    {
      s1, s2 := Do16(buf, i, s1, s2, from, a, b);
      i := i + 16;
      k := k - 16;
    }
    while k != 0
      invariant 0 <= k <= count && i == from + count - k
      invariant s1 == Sum1(a, buf[from..i]) && s2 == Sum2(a, b, buf[from..i])
    {
      s1, s2 := Do1(buf, i, s1, s2, from, a, b);
      i := i + 1;
      k := k - 1;
    }
  }

  method Crc32(adler: uint32, buf: array?<byte>, length: nat) returns (r: uint32)
    requires buf != null ==> length <= buf.Length
    ensures buf == null ==> r == 1
    ensures buf != null ==> r == Checksum(adler, buf[..length])
  {
    var s1, s2 := adler % 0x10000, adler / 0x10000;
    if buf == null { return 1; }
    var i, left := 0, length;
    while left > 0
      invariant 0 <= i && 0 <= left && i + left == length
      invariant s1 <= 0xffff && s2 <= 0xffff
      invariant (s1, s2) == PerByte(Low(adler), High(adler), buf[..i])
    {
      var k := if left < NMAX then left else NMAX;
      left := left - k;
      PerByteOfConcat(Low(adler), High(adler), buf[..i], buf[i..i + k]);
      assert buf[..i] + buf[i..i + k] == buf[..i + k];
      DeferredModulo(s1, s2, buf[i..i + k]);
      s1, s2 := SumChunk(buf, i, k, s1, s2);
      i := i + k;
      s1 := s1 % BASE;
      s2 := s2 % BASE;
    }
    assert buf[..i] == buf[..length];
    return s2 * 0x10000 + s1;
  }

  // ----- What the checksum is for

  /** Checksumming piece by piece is checksumming the whole. */
  lemma Composes(start: uint32, x: seq<byte>, y: seq<byte>)
    ensures Checksum(Checksum(start, x), y) == Checksum(start, x + y)
  {
    var sums := PerByte(Low(start), High(start), x);
    PerByteOfConcat(Low(start), High(start), x, y);
    PerByteFits(Low(start), High(start), x);
    Halves(sums.0, sums.1);
    assert Checksum(start, x) == sums.1 * 0x10000 + sums.0;
  }

  lemma Halves(a: nat, b: nat)
    requires a < 0x10000 && b < 0x10000
    ensures Low(b * 0x10000 + a) == a && High(b * 0x10000 + a) == b
  {
  }

  lemma {:induction false} Sum1Shifts(a: nat, d: nat, data: seq<byte>)
    ensures Sum1(a + d, data) == Sum1(a, data) + d
  {
    if data != [] {
      Sum1Shifts(a, d, data[..|data| - 1]);
    }
  }

  lemma {:induction false} Sum2Shifts(a: nat, b: nat, d: nat, data: seq<byte>)
    ensures Sum2(a, b + d, data) == Sum2(a, b, data) + d
  {
    if data != [] {
      Sum2Shifts(a, b, d, data[..|data| - 1]);
    }
  }

  lemma ChecksumsDiffer(start: uint32, u: seq<byte>, v: seq<byte>)
    requires u != [] && v != []
    requires Sum1(Low(start), u) % BASE != Sum1(Low(start), v) % BASE
          || Sum2(Low(start), High(start), u) % BASE != Sum2(Low(start), High(start), v) % BASE
    ensures Checksum(start, u) != Checksum(start, v)
  {
    HalvesOfChecksum(start, u);
    HalvesOfChecksum(start, v);
  }

  lemma HalvesOfChecksum(start: uint32, data: seq<byte>)
    requires data != []
    ensures Low(Checksum(start, data)) == Sum1(Low(start), data) % BASE
    ensures High(Checksum(start, data)) == Sum2(Low(start), High(start), data) % BASE
  {
    var sums := PerByte(Low(start), High(start), data);
    DeferredModulo(Low(start), High(start), data);
    PerByteFits(Low(start), High(start), data);
    Halves(sums.0, sums.1);
  }

  lemma SmallShiftShows(m: nat, d: nat)
    requires 0 < d < 256
    ensures (m + d) % BASE != m % BASE
  {
  }

  /** Changing a single byte anywhere always changes the checksum. */
  lemma OneWrongByteIsDetected(start: uint32, p: seq<byte>, x: byte, y: byte, q: seq<byte>)
    requires x < y
    ensures Checksum(start, p + [x] + q) != Checksum(start, p + [y] + q)
  {
    var a := Low(start);
    SumsOfConcat(a, 0, p + [x], q);
    SumsOfConcat(a, 0, p + [y], q);
    SumsOfConcat(a, 0, p, [x]);
    SumsOfConcat(a, 0, p, [y]);
    Sum1Shifts(Sum1(a, p) + x, y - x, q);
    assert Sum1(Sum1(a, p), [x]) == Sum1(a, p) + x;
    assert Sum1(Sum1(a, p), [y]) == Sum1(a, p) + y;
    SmallShiftShows(Sum1(a, p + [x] + q), y - x);
    ChecksumsDiffer(start, p + [x] + q, p + [y] + q);
  }

  /** So does exchanging two different neighbours, which a plain byte sum would miss. */
  lemma SwappedNeighboursAreDetected(start: uint32, p: seq<byte>, x: byte, y: byte, q: seq<byte>)
    requires x < y
    ensures Checksum(start, p + [x, y] + q) != Checksum(start, p + [y, x] + q)
  {
    var a, b := Low(start), High(start);
    var s, t := Sum1(a, p), Sum2(a, b, p);
    PairInside(a, b, p, x, y, q);
    PairInside(a, b, p, y, x, q);
    Sum2Shifts(s + x + y, t + 2 * s + 2 * x + y, y - x, q);
    SmallShiftShows(Sum2(a, b, p + [x, y] + q), y - x);
    ChecksumsDiffer(start, p + [x, y] + q, p + [y, x] + q);
  }

  lemma PairInside(a: nat, b: nat, p: seq<byte>, x: byte, y: byte, q: seq<byte>)
    ensures var s, t := Sum1(a, p), Sum2(a, b, p);
      Sum2(a, b, p + [x, y] + q) == Sum2(s + x + y, t + 2 * s + 2 * x + y, q)
  {
    SumsOfConcat(a, b, p + [x, y], q);
    SumsOfConcat(a, b, p, [x, y]);
    PairSums(Sum1(a, p), Sum2(a, b, p), x, y);
  }

  lemma PairSums(s: nat, t: nat, x: byte, y: byte)
    ensures Sum1(s, [x, y]) == s + x + y
    ensures Sum2(s, t, [x, y]) == t + 2 * s + 2 * x + y
  {
    assert [x, y][..1] == [x];
    assert [x][..0] == [];
    assert Sum1(s, [x]) == s + x;
    assert Sum2(s, t, [x]) == t + s + x;
  }
}
