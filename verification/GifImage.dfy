/** The GIF writer: image buffer, interlacing, flood fill and the two hand-built LZW encoders. */
module GifImages {
  import opened Bytes
  import opened GifLzw
  import opened GifRuns
  import opened GifReader
  import opened FloodFill

  const HEADER_SIZE := 416
  const INTERLACE_BYTE := 414

  /** The header fields a reader needs, as the constructor lays them out. */
  ghost predicate HeaderFor(hdr: seq<byte>, w: nat, h: nat) {
    && |hdr| == HEADER_SIZE
    && hdr[0] == 'G' as int && hdr[1] == 'I' as int && hdr[2] == 'F' as int
    && hdr[3] == '8' as int && hdr[4] == '9' as int && hdr[5] == 'a' as int
    && hdr[10] == 230
    && hdr[397] == 0x21 && hdr[399] == 4 && hdr[404] == 0
    && hdr[405] == 0x2C
    && (w < 65536 ==> LittleEndian(hdr[410], hdr[411]) == w)
    && (h < 65536 ==> LittleEndian(hdr[412], hdr[413]) == h)
    && (hdr[INTERLACE_BYTE] == 0 || hdr[INTERLACE_BYTE] == 64)
    && hdr[415] == 7
  }

  /** The rest of a new header: the logical screen is as large as the image, colour 0 is white and the
      background, all other colours are black, and colour 127 is transparent if asked for. */
  ghost predicate NewHeader(hdr: seq<byte>, w: nat, h: nat, transp: bool) {
    && |hdr| == 416
    && (w < 65536 ==> LittleEndian(hdr[6], hdr[7]) == w) && (h < 65536 ==> LittleEndian(hdr[8], hdr[9]) == h)
    && hdr[11] == 0 && hdr[12] == 0 && hdr[13] == 255 && hdr[14] == 255 && hdr[15] == 255
    && (forall k :: 16 <= k < 397 ==> hdr[k] == 0)
    && hdr[398] == 0xF9 && hdr[400] == (if transp then 1 else 0) && hdr[403] == (if transp then 127 else 0)
    && hdr[401] == 0 && hdr[402] == 0 && (forall k :: 406 <= k < 410 ==> hdr[k] == 0)
  }

  /** What a reader shows for pixel data stored under this header. */
  ghost function Shown(hdr: seq<byte>, w: nat, h: nat, pixels: seq<byte>): seq<byte>
    requires HeaderFor(hdr, w, h) && |pixels| == Times(h, w)
  {
    if hdr[INTERLACE_BYTE] == 64 then Deinterlace(w, h, pixels) else pixels
  }

  /** A reader finds the size and the image data behind the header. */
  lemma HeaderIsRead(hdr: seq<byte>, w: nat, h: nat, body: seq<byte>, pixels: seq<byte>)
    requires HeaderFor(hdr, w, h) && w < 65536 && h < 65536
    requires |pixels| == Times(h, w)
    requires DecodeImageData(body) == Some((pixels, [0x3B]))
    ensures ReadGif(hdr + body) == Some(Picture(w, h, Shown(hdr, w, h, pixels)))
  {
    var rest, image := hdr[397..] + body, hdr[405..] + body;
    PrologueIsRead(hdr, w, h, body);
    assert rest[8..] == image && rest[0] == hdr[397] && rest[2] == hdr[399] && rest[7] == hdr[404];
    ExtensionIsSkipped(rest, image);
    ImageIsRead(hdr, w, h, image, body, pixels);
  }

  lemma PrologueIsRead(hdr: seq<byte>, w: nat, h: nat, body: seq<byte>)
    requires HeaderFor(hdr, w, h)
    ensures ReadGif(hdr + body) == ReadImage(SkipExtensions(hdr[397..] + body))
  {
    var file := hdr + body;
    assert file[..6] == ['G' as int, 'I' as int, 'F' as int, '8' as int, '9' as int, 'a' as int];
    assert PowerOfTwo(7) == 128;
    assert file[13 + 384..] == hdr[397..] + body;
  }

  lemma ImageIsRead(hdr: seq<byte>, w: nat, h: nat, image: seq<byte>, body: seq<byte>, pixels: seq<byte>)
    requires HeaderFor(hdr, w, h) && w < 65536 && h < 65536 && image == hdr[405..] + body
    requires |pixels| == Times(h, w) && DecodeImageData(body) == Some((pixels, [0x3B]))
    ensures ReadImage(image) == Some(Picture(w, h, Shown(hdr, w, h, pixels)))
  {
    DescriptorIsRead(hdr, w, h, image, body);
    assert image[11..] == body;
  }

  lemma DescriptorIsRead(hdr: seq<byte>, w: nat, h: nat, image: seq<byte>, body: seq<byte>)
    requires HeaderFor(hdr, w, h) && w < 65536 && h < 65536
    requires image == hdr[405..] + body
    ensures ReadDescriptor(image) == Some(Descriptor(w, h, hdr[INTERLACE_BYTE] == 64))
  {
  }

  lemma ExtensionIsSkipped(rest: seq<byte>, image: seq<byte>)
    requires |rest| == |image| + 8 && rest[8..] == image && |image| > 0
    requires rest[0] == 0x21 && rest[2] == 4 && rest[7] == 0 && image[0] != 0x21
    ensures SkipExtensions(rest) == image
  {
    var after := rest[2..];
    assert after[5..] == [0] + image;
    assert ([0] + image)[1..] == image;
    assert SubBlocks([0] + image) == Some(([], image));
    assert SubBlocks(after) == Prepend(after[1..5], SubBlocks([0] + image));
  }

  /** The rows named by order are stored at the front of the interlaced copy. */
  ghost predicate RowsStored(buf: seq<byte>, img: seq<byte>, w: nat, h: nat, order: seq<nat>) {
    && |img| == |buf| == Times(h, w)
    && (forall k :: 0 <= k < |order| ==> order[k] < h)
    && Times(|order|, w) <= Times(h, w)
    && buf[..Times(|order|, w)] == Gather(img, w, h, order)
  }

  lemma StoreRow(before: seq<byte>, after: seq<byte>, img: seq<byte>, w: nat, h: nat, order: seq<nat>, i: nat)
    requires RowsStored(before, img, w, h, order) && |order| < h && i < h
    requires Times(i, w) + w <= |img| && Times(|order|, w) + w <= |before|
    requires after == before[..Times(|order|, w)] + img[Times(i, w)..Times(i, w) + w] + before[Times(|order|, w) + w..]
    ensures RowsStored(after, img, w, h, order + [i])
  {
    var at := Times(|order|, w);
    TimesFits(|order|, h, w);
    GatherLast(img, w, h, order, i);
    assert Times(|order + [i]|, w) == at + w;
    assert after[..at + w] == before[..at] + img[Times(i, w)..Times(i, w) + w];
  }

  /**
   The file written behind a header is the image exactly when `good` holds: the image data decodes to
   the pixels with nothing but the trailer left, and then a reader shows the whole picture.
   */
  ghost predicate Faithful(hdr: seq<byte>, w: nat, h: nat, pixels: seq<byte>, body: seq<byte>, good: bool) {
    && (DecodeImageData(body) == Some((pixels, [0x3B])) <==> good)
    && HeaderFor(hdr, w, h) && |pixels| == Times(h, w)
    && (good && w < 65536 && h < 65536 ==> ReadGif(hdr + body) == Some(Picture(w, h, Shown(hdr, w, h, pixels))))
  }

  /** A writer has appended the header and such a body to the stream. */
  ghost predicate FileWritten(before: seq<byte>, after: seq<byte>, hdr: seq<byte>, w: nat, h: nat, pixels: seq<byte>,
                              good: bool) {
    before + hdr <= after && Faithful(hdr, w, h, pixels, after[|before| + |hdr|..], good)
  }

  lemma WrittenFileIsRead(before: seq<byte>, after: seq<byte>, hdr: seq<byte>, w: nat, h: nat, pixels: seq<byte>)
    requires FileWritten(before, after, hdr, w, h, pixels, SevenBit(pixels)) && w < 65536 && h < 65536
    ensures before <= after
    ensures SevenBit(pixels) ==> ReadGif(after[|before|..]) == Some(Picture(w, h, Shown(hdr, w, h, pixels)))
  {
    assert after[|before|..] == hdr + after[|before| + |hdr|..];
  }

  /**
   The blocks sent so far leave a cleared decoder with the first n pixels; or, once an end code
   slipped out, a finished decoder with only the first `cut` pixels.
   */
  ghost predicate Encoded(img: seq<byte>, blocks: seq<seq<byte>>, n: nat, cut: Option<nat>) {
    && n <= |img|
    && BlockSizes(blocks)
    && (cut.Some? ==> cut.value < |img|)
    && (SevenBit(img) ==>
          RunBytes(START, Flat(blocks)) == if cut.Some? then Finished(img[..cut.value]) else Cleared(img[..n]))
  }

  /** Sending one more block continues the decoder where the blocks before it left off. */
  lemma BlockSent(blocks: seq<seq<byte>>, block: seq<byte>)
    requires BlockSizes(blocks) && 0 < |block| < 256
    ensures BlockSizes(blocks + [block])
    ensures Framed(blocks + [block]) == Framed(blocks) + ([|block|] + block)
    ensures RunBytes(START, Flat(blocks + [block])) == RunBytes(RunBytes(START, Flat(blocks)), block)
  {
    assert (blocks + [block])[..|blocks|] == blocks;
    RunConcat(START, Flat(blocks), block);
  }

  /** A block that takes a cleared decoder from the first i pixels to the first `next`. */
  lemma OneMoreBlock(img: seq<byte>, blocks: seq<seq<byte>>, block: seq<byte>, i: nat, next: nat, cut: Option<nat>)
    requires Encoded(img, blocks, i, cut) && 0 < |block| < 256 && next <= |img|
    requires SevenBit(img) ==> RunBytes(Cleared(img[..i]), block) == Cleared(img[..next])
    ensures Encoded(img, blocks + [block], next, cut)
  {
    BlockSent(blocks, block);
  }

  lemma LiteralBlockSent(img: seq<byte>, blocks: seq<seq<byte>>, i: nat, count: nat, cut: Option<nat>)
    requires Encoded(img, blocks, i, cut) && i + count <= |img| && count <= 126
    ensures Encoded(img, blocks + [img[i..i + count] + [CLEAR]], i + count, cut)
  {
    if SevenBit(img) {
      LiteralBlock(img[..i], img[i..i + count]);
      assert img[..i] + img[i..i + count] == img[..i + count];
    }
    OneMoreBlock(img, blocks, img[i..i + count] + [CLEAR], i, i + count, cut);
  }

  lemma LiteralsSent(img: seq<byte>, blocks: seq<seq<byte>>, i: nat, count: nat)
    returns (sent: seq<seq<byte>>, sentBytes: seq<byte>)
    requires Encoded(img, blocks, i, None) && i + count <= |img| && count <= 126
    ensures Encoded(img, sent, i + count, None)
    ensures Framed(sent) == Framed(blocks) + sentBytes
    ensures sentBytes == [count + 1] + (img[i..i + count] + [CLEAR])
  {
    var block := img[i..i + count] + [CLEAR];
    LiteralBlockSent(img, blocks, i, count, None);
    BlockSent(blocks, block);
    sent, sentBytes := blocks + [block], [count + 1] + block;
  }

  lemma ThreeAppended(before: seq<byte>, a: seq<byte>, b: seq<byte>, c: seq<byte>)
    ensures before + a + b + c == before + (a + (b + c))
  {
  }

  /** The codes of a run block: n of them, and for n = 121 the last one stands for m+1 pixels. */
  function RunBlockCodes(k: byte, n: nat, m: nat): (s: seq<byte>)
    requires n <= 121 && m <= 120
    ensures |s| == n
  {
    if n == 121 then RunCodes(k, 120) + [129 + m] else RunCodes(k, n)
  }

  function RunBlockPixels(n: nat, m: nat): nat {
    if n == 121 then 7260 + m + 1 else Triangle(n)
  }

  lemma RunBlockDecodes(out: seq<byte>, k: byte, n: nat, m: nat)
    requires 1 <= n <= 121 && m <= 120 && !(n == 121 && m == 0) && k < 128
    ensures RunBytes(Cleared(out), RunBlockCodes(k, n, m) + [CLEAR]) == Cleared(out + Repeat(k, RunBlockPixels(n, m)))
  {
    if n == 121 {
      LongRunBlock(out, k, m);
    } else {
      RunBlock(out, k, n);
    }
  }

  lemma RunBlockSent(img: seq<byte>, blocks: seq<seq<byte>>, i: nat, n: nat, m: nat, cut: Option<nat>)
    requires Encoded(img, blocks, i, cut) && i < |img| && 1 <= n <= 121 && m <= 120
    requires i + RunBlockPixels(n, m) <= RunEnd(img, i)
    requires !(n == 121 && m == 0)
    ensures Encoded(img, blocks + [RunBlockCodes(img[i], n, m) + [CLEAR]], i + RunBlockPixels(n, m), cut)
  {
    if SevenBit(img) {
      RunBlockExtends(img, i, n, m);
    }
    OneMoreBlock(img, blocks, RunBlockCodes(img[i], n, m) + [CLEAR], i, i + RunBlockPixels(n, m), cut);
  }

  lemma RunBlockExtends(img: seq<byte>, i: nat, n: nat, m: nat)
    requires SevenBit(img) && i < |img| && 1 <= n <= 121 && m <= 120 && !(n == 121 && m == 0)
    requires i + RunBlockPixels(n, m) <= RunEnd(img, i)
    ensures RunBytes(Cleared(img[..i]), RunBlockCodes(img[i], n, m) + [CLEAR])
         == Cleared(img[..i + RunBlockPixels(n, m)])
  {
    RunBlockDecodes(img[..i], img[i], n, m);
    RunJoins(img, i, RunBlockPixels(n, m));
  }

  lemma BrokenBlockSent(img: seq<byte>, blocks: seq<seq<byte>>, i: nat, cut: Option<nat>) returns (cut': Option<nat>)
    requires Encoded(img, blocks, i, cut) && i < |img|
    requires RunEnd(img, i) == i + 7261
    ensures cut'.Some? && Encoded(img, blocks + [RunBlockCodes(img[i], 121, 0) + [CLEAR]], i + 7261, cut')
  {
    cut' := if cut.Some? then cut else Some(i + 7260);
    BlockSent(blocks, RunBlockCodes(img[i], 121, 0) + [CLEAR]);
    if SevenBit(img) {
      RunJoins(img, i, 7260);
      BrokenRunBlock(img[..i], img[i]);
    }
  }

  /** The ghost state of the run-length writer: blocks sent, position among the runs, and where an end code cut the
      image. */
  datatype Encoder = Encoder(blocks: seq<seq<byte>>, s: nat, safe: bool, cut: Option<nat>) {

    /** Everything before pixel i has been sent, but for the last n pixels. */
    ghost predicate Tracks(img: seq<byte>, i: nat, n: nat) {
      && n <= i
      && Encoded(img, blocks, i - n, cut)
      && i <= |img|
      && (if cut.Some? then !NoStrayRun(img) else Position(img, i, s, safe))
    }

    lemma AfterRunBlock(img: seq<byte>, i: nat, next: nat, n: nat, m: nat) returns (e: Encoder)
      requires i < |img| && Tracks(img, i, 0)
      requires 3 <= n <= 121 && m <= 120 && RunEnd(img, i) - i > 6
      requires next == i + RunBlockPixels(n, m) <= RunEnd(img, i)
      requires n == 121 ==> next == RunEnd(img, i)
      requires n == 120 ==> RunEnd(img, i) - next > 121
      requires n < 120 ==> 0 < RunEnd(img, i) - next <= n + 1
      ensures e.blocks == blocks + [RunBlockCodes(img[i], n, m) + [CLEAR]]
      ensures e.Tracks(img, next, 0)
    {
      if n == 121 && m == 0 {
        e := AfterBrokenBlock(img, i);
      } else {
        RunBlockSent(img, blocks, i, n, m, cut);
        var s', safe' := s, safe;
        if cut.None? {
          s', safe' := PositionAfter(img, i, next, n, m);
        }
        e := Moved(img, i, next, blocks + [RunBlockCodes(img[i], n, m) + [CLEAR]], s', safe');
      }
    }

    /** One more block is sent, and the place among the runs is known unless the image has been cut. */
    lemma Moved(img: seq<byte>, i: nat, next: nat, blocks': seq<seq<byte>>, s': nat, safe': bool) returns (e: Encoder)
      requires Tracks(img, i, 0) && next <= |img| && Encoded(img, blocks', next, cut)
      requires cut.None? ==> Position(img, next, s', safe')
      ensures e.blocks == blocks' && e.Tracks(img, next, 0)
    {
      e := Encoder(blocks', s', safe', cut);
    }

    lemma AfterBrokenBlock(img: seq<byte>, i: nat) returns (e: Encoder)
      requires i < |img| && Tracks(img, i, 0) && RunEnd(img, i) == i + 7261
      ensures e.blocks == blocks + [RunBlockCodes(img[i], 121, 0) + [CLEAR]]
      ensures e.Tracks(img, i + 7261, 0)
    {
      var cut' := BrokenBlockSent(img, blocks, i, cut);
      if cut.None? {
        LeftoverPixel(img, i, s, safe);
      }
      e := Encoder(blocks + [RunBlockCodes(img[i], 121, 0) + [CLEAR]], s, safe, cut');
    }

    /** Where among the runs the writer is behind a run block that is decoded in full. */
    lemma PositionAfter(img: seq<byte>, i: nat, next: nat, n: nat, m: nat) returns (s': nat, safe': bool)
      requires i < |img| && Position(img, i, s, safe)
      requires 3 <= n <= 121 && m <= 120 && !(n == 121 && m == 0) && RunEnd(img, i) - i > 6
      requires next == i + RunBlockPixels(n, m) <= RunEnd(img, i)
      requires n == 121 ==> next == RunEnd(img, i)
      requires n == 120 ==> RunEnd(img, i) - next > 121
      requires n < 120 ==> 0 < RunEnd(img, i) - next <= n + 1
      ensures Position(img, next, s', safe')
    {
      if n == 121 {
        assert 7262 <= RunEnd(img, i) - i <= 7381;
        RunDone(img, i, s, safe);
        return next, false;
      } else if n == 120 {
        TriangleIsHalfProduct(120);
        assert next == i + 7260;
        BlockOfRunSent(img, i, s, safe);
        return s, false;
      } else {
        TriangleBound(n);
        RunPartlySent(img, i, s, safe, Triangle(n));
        return s, true;
      }
    }

    lemma Flushed(img: seq<byte>, i: nat, n: nat, blocks': seq<seq<byte>>) returns (e: Encoder)
      requires Tracks(img, i, n) && Encoded(img, blocks', i, cut)
      ensures e.blocks == blocks' && e.Tracks(img, i, 0)
    {
      e := Encoder(blocks', s, safe, cut);
    }

    /** A short run has joined the pending literals. */
    lemma AfterShortRun(img: seq<byte>, i: nat, n0: nat, blocks': seq<seq<byte>>, n: nat) returns (e: Encoder)
      requires i < |img| && Tracks(img, i, n0) && RunEnd(img, i) - i <= 6
      requires n <= RunEnd(img, i) && Encoded(img, blocks', RunEnd(img, i) - n, cut)
      ensures e.blocks == blocks' && e.Tracks(img, RunEnd(img, i), n)
    {
      e := Encoder(blocks', RunEnd(img, i), false, cut);
      if cut.None? {
        RunDone(img, i, s, safe);
      }
    }

    lemma AtEnd(img: seq<byte>)
      requires Tracks(img, |img|, 0)
      ensures cut.Some? <==> !NoStrayRun(img)
    {
    }
  }

  lemma {:induction false} TriangleBound(n: nat)
    requires 1 <= n <= 119
    ensures n <= Triangle(n) <= 7140 - (119 - n)
  {
    TriangleIsHalfProduct(119);
    var k := 119;
    while k > n
      invariant n <= k <= 119 && Triangle(k) <= 7140 - (119 - k)
    {
      k := k - 1;
    }
    TriangleAtLeast(n);
  }

  lemma {:induction false} TriangleAtLeast(n: nat)
    ensures n <= Triangle(n)
  {
  }

  /** The last n pixels before i wait in the buffer. */
  ghost predicate Pending(img: seq<byte>, data: seq<byte>, i: nat, n: nat) {
    |data| == 150 && n < 120 && n <= i <= |img| && data[1..n + 1] == img[i - n..i]
  }

  /** The closing bytes end the image at whatever the codes have produced. */
  lemma EndImage(before: seq<byte>, hdr: seq<byte>, w: nat, h: nat, img: seq<byte>, shown: seq<byte>,
                 blocks: seq<seq<byte>>)
    requires HeaderFor(hdr, w, h) && |img| == Times(h, w)
    requires BlockSizes(blocks)
    requires SevenBit(img) ==>
      RunBytes(START, Flat(blocks)) == Cleared(shown) || RunBytes(START, Flat(blocks)) == Finished(shown)
    ensures FileWritten(before, before + hdr + Framed(blocks) + [1, 0x81, 0, 0x3B], hdr, w, h, img,
                        SevenBit(img) && shown == img)
  {
    var file := Framed(blocks) + ([1, END_OF_INFORMATION, 0] + [0x3B]);
    assert before + hdr + Framed(blocks) + [1, 0x81, 0, 0x3B] == before + hdr + file;
    assert (before + hdr + file)[|before| + |hdr|..] == file;
    if SevenBit(img) {
      if RunBytes(START, Flat(blocks)) == Cleared(shown) {
        RunLast(START, Flat(blocks), END_OF_INFORMATION);
      } else {
        RunConcat(START, Flat(blocks), [END_OF_INFORMATION]);
      }
      FramedDecodes(blocks, [0x3B]);
      if shown == img && w < 65536 && h < 65536 {
        HeaderIsRead(hdr, w, h, file, img);
      }
    } else if DecodeImageData(file).Some? {
      DecodedPixelsAreSevenBit(file);
    }
  }

  lemma FramedBlock(data: seq<byte>, was: seq<byte>, n: nat, codes: seq<byte>)
    requires |data| == |was| == 150 && n <= 121 && was[1..n + 1] == codes
    requires data == was[0 := n + 1][n + 1 := CLEAR]
    ensures data[..n + 2] == [n + 1] + (codes + [CLEAR])
  {
  }

  method SetBytes(hdr: array<byte>, at: nat, data: seq<byte>)
    requires at + |data| <= hdr.Length
    modifies hdr
    ensures forall k :: 0 <= k < hdr.Length ==> hdr[k] == if at <= k < at + |data| then data[k - at] else old(hdr[k])
  {
    for i := 0 to |data|
      invariant forall k :: 0 <= k < hdr.Length ==> hdr[k] == if at <= k < at + i then data[k - at] else old(hdr[k])
    {
      hdr[at + i] := data[i];
    }
  }

  /** The signature, the logical screen and the first colour. */
  method InitScreen(hdr: array<byte>, w: nat, h: nat)
    requires hdr.Length == HEADER_SIZE
    modifies hdr
    ensures hdr[0] == 'G' as int && hdr[1] == 'I' as int && hdr[2] == 'F' as int
    ensures hdr[3] == '8' as int && hdr[4] == '9' as int && hdr[5] == 'a' as int
    ensures hdr[6] == w % 256 && hdr[7] == w / 256 % 256 && hdr[8] == h % 256 && hdr[9] == h / 256 % 256
    ensures hdr[10] == 230 && hdr[11] == 0 && hdr[12] == 0 && hdr[13] == 255 && hdr[14] == 255 && hdr[15] == 255
    ensures forall k :: 16 <= k < hdr.Length ==> hdr[k] == old(hdr[k])
  {
    var wLo: byte, wHi: byte, hLo: byte, hHi: byte := w % 256, w / 256 % 256, h % 256, h / 256 % 256;
    SetBytes(hdr, 0, ['G' as int, 'I' as int, 'F' as int, '8' as int, '9' as int, 'a' as int]);
    SetBytes(hdr, 6, [wLo, wHi, hLo, hHi, 230, 0, 0, 255, 255, 255]);
  }

  /** The extension that says what is transparent, and the image descriptor. */
  method InitDescriptor(hdr: array<byte>, w: nat, h: nat, transp: bool)
    requires hdr.Length == HEADER_SIZE
    modifies hdr
    ensures hdr[397] == 0x21 && hdr[398] == 0xF9 && hdr[399] == 4 && hdr[400] == (if transp then 1 else 0)
    ensures hdr[401] == 0 && hdr[402] == 0 && hdr[403] == (if transp then 127 else 0) && hdr[404] == 0
    ensures hdr[405] == 0x2C && (forall k :: 406 <= k < 410 ==> hdr[k] == 0)
    ensures hdr[410] == w % 256 && hdr[411] == w / 256 % 256 && hdr[412] == h % 256 && hdr[413] == h / 256 % 256
    ensures hdr[414] == 0 && hdr[415] == 7
    ensures forall k :: 0 <= k < 397 ==> hdr[k] == old(hdr[k])
  {
    var wLo: byte, wHi: byte, hLo: byte, hHi: byte := w % 256, w / 256 % 256, h % 256, h / 256 % 256;
    SetBytes(hdr, 397, [0x21, 0xF9, 4, if transp then 1 else 0, 0, 0, if transp then 127 else 0, 0]);
    SetBytes(hdr, 405, [0x2C, 0, 0, 0, 0, wLo, wHi, hLo, hHi, 0, 7]);
  }

  method InitHeader(hdr: array<byte>, w: nat, h: nat, transp: bool)
    requires hdr.Length == HEADER_SIZE && forall k :: 0 <= k < hdr.Length ==> hdr[k] == 0
    modifies hdr
    ensures HeaderFor(hdr[..], w, h) && hdr[INTERLACE_BYTE] == 0
    ensures NewHeader(hdr[..], w, h, transp)
  {
    InitScreen(hdr, w, h);
    InitDescriptor(hdr, w, h, transp);
  }

  class GifImage {
    var hdr: array<byte>
    var image: array<byte>
    var imageInterlaced: array<byte>
    var writeInterlaced: bool
    const iw: nat
    const ih: nat
    const imsize: nat

    ghost predicate Valid()
      reads this, hdr, image, imageInterlaced
    {
      && imsize == Times(ih, iw)
      && image.Length == imsize
      && hdr.Length == HEADER_SIZE && HeaderFor(hdr[..], iw, ih)
      && image != hdr && image != imageInterlaced && hdr != imageInterlaced
      && (writeInterlaced ==> imageInterlaced.Length == imsize)
    }

    /** The pixels the writers send. */
    function Current(): array<byte>
      reads this
    {
      if writeInterlaced then imageInterlaced else image
    }

    constructor (width: nat, height: nat, transp: bool)
      ensures Valid() && iw == width && ih == height
      ensures image[..] == Repeat(0, Times(height, width))
      ensures fresh(image) && fresh(hdr) && fresh(imageInterlaced)
      ensures !writeInterlaced && hdr[INTERLACE_BYTE] == 0
      ensures NewHeader(hdr[..], width, height, transp)
    {
      iw, ih, imsize := width, height, Times(height, width);
      image := new byte[Times(height, width)](_ => 0);
      imageInterlaced := new byte[1024](_ => 0);
      hdr := new byte[HEADER_SIZE](_ => 0);
      writeInterlaced := false;
      new;
      InitHeader(hdr, width, height, transp);
      assert image[..] == Repeat(0, Times(height, width));
    }

    // ----- interlacing

    /** memcpy of source row i to row l of the interlaced copy. */
    method CopyRow(l: nat, i: nat, ghost order: seq<nat>)
      requires Valid() && imageInterlaced.Length == imsize
      requires RowsStored(imageInterlaced[..], image[..], iw, ih, order) && |order| == l < ih && i < ih
      modifies imageInterlaced
      ensures RowsStored(imageInterlaced[..], image[..], iw, ih, order + [i])
    {
      ghost var before := imageInterlaced[..];
      TimesFits(l, ih, iw);
      TimesFits(i, ih, iw);
      CopyBytes(imageInterlaced, Times(l, iw), image, Times(i, iw), iw);
      StoreRow(before, imageInterlaced[..], image[..], iw, ih, order, i);
    }

    /** One of the four passes: rows start, start+step, ... are appended to the interlaced copy. */
    method CopyPass(start: nat, step: nat, l0: nat, ghost order: seq<nat>) returns (l: nat)
      requires Valid() && imageInterlaced.Length == imsize && step > 0
      requires RowsStored(imageInterlaced[..], image[..], iw, ih, order)
      requires |order| == l0 && l0 + |Pass(start, step, ih)| <= ih
      modifies imageInterlaced
      ensures l == l0 + |Pass(start, step, ih)|
      ensures RowsStored(imageInterlaced[..], image[..], iw, ih, order + Pass(start, step, ih))
    {
      ghost var stored: seq<nat> := order;
      var i := start;
      l := l0;
      while i < ih
        invariant |stored| == l && l + |Pass(i, step, ih)| == l0 + |Pass(start, step, ih)|
        invariant stored + Pass(i, step, ih) == order + Pass(start, step, ih)
        invariant RowsStored(imageInterlaced[..], image[..], iw, ih, stored)
        decreases if i < ih then ih - i else 0
      {
        CopyRow(l, i, stored);
        assert stored + Pass(i, step, ih) == (stored + [i]) + Pass(i + step, step, ih);
        stored := stored + [i];
        i := i + step;
        l := l + 1;
      }
      assert stored + [] == stored;
    }

    method CopyPasses()
      requires Valid() && imageInterlaced.Length == imsize
      modifies imageInterlaced
      ensures forall l :: 0 <= l < |InterlaceOrder(ih)| ==> InterlaceOrder(ih)[l] < ih
      ensures imageInterlaced[..] == Gather(image[..], iw, ih, InterlaceOrder(ih))
    {
      ghost var p0, p1, p2, p3 := Pass(0, 8, ih), Pass(4, 8, ih), Pass(2, 4, ih), Pass(1, 2, ih);
      OrderLength(ih);
      assert [] + p0 == p0;
      var l := CopyPass(0, 8, 0, []);
      l := CopyPass(4, 8, l, p0);
      l := CopyPass(2, 4, l, p0 + p1);
      l := CopyPass(1, 2, l, p0 + p1 + p2);
      assert RowsStored(imageInterlaced[..], image[..], iw, ih, InterlaceOrder(ih));
      assert imageInterlaced[..][..Times(ih, iw)] == imageInterlaced[..];
    }

    method Interlace() returns (ok: bool)
      requires Valid()
      modifies this, hdr
      ensures ok && Valid() && writeInterlaced && hdr[INTERLACE_BYTE] == 64
      ensures image == old(image) && hdr == old(hdr) && fresh(imageInterlaced)
      ensures image[..] == old(image[..])
      ensures forall l :: 0 <= l < |InterlaceOrder(ih)| ==> InterlaceOrder(ih)[l] < ih
      ensures imageInterlaced[..] == Gather(image[..], iw, ih, InterlaceOrder(ih))
      ensures Shown(hdr[..], iw, ih, Current()[..]) == image[..]
    {
      imageInterlaced := new byte[imsize](_ => 0);
      CopyPasses();
      SetInterlaceByte();
      writeInterlaced := true;
      DeinterlaceGather(image[..], iw, ih);
      ok := true;
    }

    method SetInterlaceByte()
      requires Valid()
      modifies hdr
      ensures Valid() && hdr[INTERLACE_BYTE] == 64
    {
      hdr[INTERLACE_BYTE] := 64;
    }

    // ----- flood fill

    /** Recolours the 4-connected component of (x, y); a call on a pixel that is not open does nothing. */
    method Fill(x: int, y: int, c: int) returns (ghost depth: nat)
      requires Valid()
      requires c % 256 != 0 || !Open(image[..], iw, ih, Point(x, y)) || Isolated(image[..], iw, ih, Point(x, y))
      modifies image, `writeInterlaced
      ensures Valid()
      ensures FillWithin(old(image[..]), iw, ih, Point(x, y), c % 256, depth) == Some(image[..])
      ensures c % 256 != 0 ==> Filled(old(image[..]), image[..], iw, ih, Point(x, y), c % 256)
      ensures ComponentFilled(old(image[..]), image[..], iw, ih, Point(x, y), c % 256)
      ensures writeInterlaced == (old(writeInterlaced) && !Open(old(image[..]), iw, ih, Point(x, y)))
      decreases ZeroCount(image[..]), if Open(image[..], iw, ih, Point(x, y)) then 4 else 0
    {
      ghost var before, s := image[..], Point(x, y);
      depth := 1;
      if x < 0 || x >= iw || y < 0 || y >= ih {
        FilledIsComponent(before, before, iw, ih, s, c % 256);
        return;
      }
      TimesFits(y, ih, iw);
      if image[Times(y, iw) + x] != 0 {
        FilledIsComponent(before, before, iw, ih, s, c % 256);
        return;
      }
      depth := FillOpen(x, y, c);
    }

    method FillOpen(x: int, y: int, c: int) returns (ghost depth: nat)
      requires Valid() && Open(image[..], iw, ih, Point(x, y))
      requires c % 256 != 0 || Isolated(image[..], iw, ih, Point(x, y))
      modifies image, `writeInterlaced
      ensures Valid() && !writeInterlaced
      ensures FillWithin(old(image[..]), iw, ih, Point(x, y), c % 256, depth) == Some(image[..])
      ensures c % 256 != 0 ==> Filled(old(image[..]), image[..], iw, ih, Point(x, y), c % 256)
      ensures ComponentFilled(old(image[..]), image[..], iw, ih, Point(x, y), c % 256)
      decreases ZeroCount(image[..]), 3
    {
      ghost var before, s, k := image[..], Point(x, y), IndexAt(iw, ih, Point(x, y));
      TimesFits(y, ih, iw);
      image[Times(y, iw) + x] := c % 256;
      assert image[..] == before[k := image[..][k]];
      FillStarted(before, image[..], iw, ih, s, c % 256);
      depth := FillNeighbours(x, y, c, before, s);
      writeInterlaced := false;
      depth := depth + 1;
      FillEnds(before, image[..], iw, ih, s, c % 256);
    }

    method FillNeighbours(x: int, y: int, c: int, ghost before: seq<byte>, ghost s: Point) returns (ghost depth: nat)
      requires Valid() && UnderWay(before, image[..], iw, ih, s, c % 256) && s == Point(x, y)
      modifies image, `writeInterlaced
      ensures Valid() && UnderWay(before, image[..], iw, ih, s, c % 256)
      ensures c % 256 != 0 ==> Isolated(image[..], iw, ih, s)
      ensures FillEach(old(image[..]), iw, ih, Around(s), c % 256, depth) == Some(image[..])
      decreases ZeroCount(before), 2
    {
      ghost var now0 := image[..];
      ghost var d0 := FillNeighbour(x + 1, y, c, before, s);
      ghost var now1 := image[..];
      ghost var d1 := FillNeighbour(x, y + 1, c, before, s);
      ghost var now2 := image[..];
      ghost var d2 := FillNeighbour(x - 1, y, c, before, s);
      ghost var now3 := image[..];
      ghost var d3 := FillNeighbour(x, y - 1, c, before, s);
      depth := AllFourDone(now0, now1, now2, now3, image[..], iw, ih, s, c % 256, d0, d1, d2, d3);
    }

    method FillNeighbour(x: int, y: int, c: int, ghost before: seq<byte>, ghost s: Point) returns (ghost depth: nat)
      requires Valid() && UnderWay(before, image[..], iw, ih, s, c % 256) && Adjacent(s, Point(x, y))
      modifies image, `writeInterlaced
      ensures Valid() && UnderWay(before, image[..], iw, ih, s, c % 256)
      ensures c % 256 != 0 ==> !Open(image[..], iw, ih, Point(x, y))
      ensures NoneOpened(old(image[..]), image[..], iw, ih)
      ensures FillWithin(old(image[..]), iw, ih, Point(x, y), c % 256, depth) == Some(image[..])
      decreases ZeroCount(before), 1
    {
      FewerToFill(before, image[..], iw, ih, s, Point(x, y), c % 256);
      ghost var now := image[..];
      depth := Fill(x, y, c);
      if c % 256 != 0 {
        NeighbourFilled(before, now, image[..], iw, ih, s, Point(x, y), c % 256);
      }
    }

    /** Drawing into an interlaced image and writing it: the pixels go out row by row under a header that
        still promises interlaced rows, which shows if and only if a row differs from the one that the
        header puts in its place. */
    method FillInterlacedAndWrite(out: OutStream, x: int, y: int, c: int)
      requires Valid() && iw < 65536 && ih < 65536 && Open(image[..], iw, ih, Point(x, y)) && c % 256 != 0
      modifies this, hdr, image, out
      ensures Valid() && image == old(image)
      ensures ComponentFilled(old(image[..]), image[..], iw, ih, Point(x, y), c % 256)
      ensures old(out.bytes) <= out.bytes
      ensures SevenBit(image[..]) ==>
        var file, img := out.bytes[|old(out.bytes)|..], image[..];
        && ReadGif(file) == Some(Picture(iw, ih, Deinterlace(iw, ih, img)))
        && (ReadGif(file) == Some(Picture(iw, ih, img)) <==> RowsStay(img, iw, ih))
    {
      var ok := Interlace();
      ghost var depth := Fill(x, y, c);
      ghost var before := out.bytes;
      Write(out);
      WrittenFileIsRead(before, out.bytes, hdr[..], iw, ih, image[..]);
      ShownIfRowsStay(image[..], iw, ih);
    }

    // ----- the literal writer

    /** One sub-block: up to 126 literals and a clear code. */
    method SendLiterals(out: OutStream, cur: array<byte>, i: nat, ghost blocks: seq<seq<byte>>)
      returns (ghost sent: seq<seq<byte>>, ghost sentBytes: seq<byte>)
      requires cur.Length == imsize && i < imsize && Encoded(cur[..], blocks, i, None)
      modifies out
      ensures Encoded(cur[..], sent, if imsize - i > 126 then i + 126 else imsize, None)
      ensures Framed(sent) == Framed(blocks) + sentBytes && out.bytes == old(out.bytes) + sentBytes
    {
      var count := if imsize - i > 126 then 126 else imsize - i;
      out.Put(if imsize - i > 126 then 127 else imsize - i + 1);
      out.Write(cur, i, count);
      out.Put(CLEAR);
      sent, sentBytes := LiteralsSent(cur[..], blocks, i, count);
      assert out.bytes == old(out.bytes) + [count + 1] + cur[..][i..i + count] + [CLEAR];
      ThreeAppended(old(out.bytes), [count + 1], cur[..][i..i + count], [CLEAR]);
    }

    method SendAllLiterals(out: OutStream, cur: array<byte>) returns (ghost blocks: seq<seq<byte>>)
      requires cur.Length == imsize
      modifies out
      ensures Encoded(cur[..], blocks, imsize, None)
      ensures out.bytes == old(out.bytes) + Framed(blocks)
    {
      blocks := [];
      var i := 0;
      while imsize > i
        invariant Encoded(cur[..], blocks, if i < imsize then i else imsize, None)
        invariant out.bytes == old(out.bytes) + Framed(blocks)
      {
        ghost var sentBytes;
        blocks, sentBytes := SendLiterals(out, cur, i, blocks);
        i := i + 126;
      }
    }

    /** The plain writer: exact for every size, as long as the pixels are below 128. */
    method Write(out: OutStream)
      requires Valid()
      modifies out
      ensures FileWritten(old(out.bytes), out.bytes, hdr[..], iw, ih, Current()[..], SevenBit(Current()[..]))
    {
      var cur := Current();
      out.Write(hdr, 0, HEADER_SIZE);
      assert hdr[0..HEADER_SIZE] == hdr[..];
      ghost var blocks := SendAllLiterals(out, cur);
      out.WriteBytes([1, 0x81, 0, 0x3B]);
      EndImage(old(out.bytes), hdr[..], iw, ih, cur[..], cur[..], blocks);
    }

    // ----- the run-length writer

    /** SENDRLEDATA: the n codes in the buffer and a clear code, as one sub-block. */
    method SendRleData(out: OutStream, data: array<byte>, n: nat, ghost before: seq<byte>,
                       ghost blocks: seq<seq<byte>>, ghost codes: seq<byte>)
      requires data.Length == 150 && n <= 121 && data[1..n + 1] == codes
      requires BlockSizes(blocks) && out.bytes == before + Framed(blocks)
      modifies out, data
      ensures BlockSizes(blocks + [codes + [CLEAR]])
      ensures out.bytes == before + Framed(blocks + [codes + [CLEAR]])
    {
      data[0] := n + 1;
      data[n + 1] := CLEAR;
      FramedBlock(data[..], old(data[..]), n, codes);
      out.Write(data, 0, n + 2);
      assert data[0..n + 2] == data[..][..n + 2];
      BlockSent(blocks, codes + [CLEAR]);
      Assoc(before, Framed(blocks), [n + 1] + (codes + [CLEAR]));
    }

    /** The index after the run of equal pixels that starts at i. */
    method ScanRun(cur: array<byte>, i: nat) returns (j: nat)
      requires cur.Length == imsize && i < imsize
      ensures j == RunEnd(cur[..], i)
    {
      var k := cur[i];
      j := i + 1;
      while j < imsize
        invariant i < j <= imsize && RunEnd(cur[..], i) == RunEnd(cur[..], j - 1) && cur[j - 1] == k
      {
        if cur[j] != k {
          break;
        }
        j := j + 1;
      }
    }

    /** The codes of one run block; j is the last pixel of the run. */
    method FillRunBlock(cur: array<byte>, data: array<byte>, i0: nat, j: nat) returns (n: nat, i: nat, ghost m: nat)
      requires cur.Length == imsize && i0 < imsize && j + 1 == RunEnd(cur[..], i0) && j - i0 > 5
      requires data.Length == 150 && data != cur
      modifies data
      ensures 3 <= n <= 121 && m <= 120
      ensures data[1..n + 1] == RunBlockCodes(cur[i0], n, m)
      ensures i == i0 + RunBlockPixels(n, m) <= j + 1
      ensures n == 121 ==> i == j + 1
      ensures n == 120 ==> j - i > 120
      ensures n < 120 ==> 0 <= j - i <= n
    {
      var k := cur[i0];
      i, n, m := i0, 1, 0;
      data[1] := k;
      i := i + 1;
      assert data[1..2] == RunBlockCodes(k, 1, m) && Triangle(1) == 1;
      while j - i > n
        invariant 1 <= n < 120 && i == i0 + Triangle(n) <= j
        invariant n < 3 ==> j - i > n
        invariant m == 0 && data[1..n + 1] == RunBlockCodes(k, n, m)
        decreases 120 - n
      {
        StoreRunCode(data, k, n);
        i := i + n + 1;
        n := n + 1;
        if n == 120 {
          TriangleIsHalfProduct(120);
          n, i, m := CloseFullBlock(data, k, i, j);
          break;
        }
      }
    }

    /** After 120 codes: what is left of the run goes into one more code if it fits. */
    method CloseFullBlock(data: array<byte>, k: byte, i0: nat, j: nat) returns (n: nat, i: nat, ghost m: nat)
      requires data.Length == 150 && i0 <= j && data[1..121] == RunCodes(k, 120)
      modifies data
      ensures if j - i0 <= 120 then n == 121 && m == j - i0 && i == j + 1 else n == 120 && m == 0 && i == i0
      ensures data[1..n + 1] == RunBlockCodes(k, n, m)
    {
      n, i, m := 120, i0, 0;
      if j - i <= 120 {
        n, m := 121, j - i;
        StoreLastCode(data, k, j - i);
        i := j + 1;
      }
    }

    method StoreRunCode(data: array<byte>, k: byte, n: nat)
      requires data.Length == 150 && 1 <= n < 120 && data[1..n + 1] == RunCodes(k, n)
      modifies data
      ensures data[1..n + 2] == RunCodes(k, n + 1)
    {
      data[n + 1] := 129 + n;
      assert data[1..n + 2] == data[1..n + 1] + [129 + n];
    }

    method StoreLastCode(data: array<byte>, k: byte, m: nat)
      requires data.Length == 150 && m <= 120 && data[1..121] == RunCodes(k, 120)
      modifies data
      ensures data[1..122] == RunBlockCodes(k, 121, m)
    {
      data[121] := 129 + m;
      assert data[1..122] == data[1..121] + [129 + m];
    }

    /** Pending literals, if any, go out as a block of their own. */
    method Flush(out: OutStream, data: array<byte>, n: nat, ghost img: seq<byte>, ghost i: nat,
                 ghost before: seq<byte>, ghost e: Encoder)
      returns (ghost blocks: seq<seq<byte>>)
      requires data.Length == 150 && Pending(img, data[..], i, n)
      requires Encoded(img, e.blocks, i - n, e.cut) && out.bytes == before + Framed(e.blocks)
      modifies out, data
      ensures Encoded(img, blocks, i, e.cut) && out.bytes == before + Framed(blocks)
    {
      blocks := e.blocks;
      if n > 0 {
        assert data[1..n + 1] == img[i - n..i];
        SendRleData(out, data, n, before, blocks, img[i - n..i]);
        LiteralBlockSent(img, blocks, i - n, n, e.cut);
        blocks := blocks + [img[i - n..i] + [CLEAR]];
      }
    }

    /** One run block, from the current pixel. */
    method SendRunBlock(out: OutStream, cur: array<byte>, data: array<byte>, i0: nat, j: nat,
                        ghost before: seq<byte>, ghost e: Encoder)
      returns (i: nat, ghost e': Encoder)
      requires cur.Length == imsize && i0 < imsize && j + 1 == RunEnd(cur[..], i0) && j - i0 > 5
      requires data.Length == 150 && data != cur
      requires e.Tracks(cur[..], i0, 0) && out.bytes == before + Framed(e.blocks)
      modifies out, data
      ensures i0 < i <= imsize && e'.Tracks(cur[..], i, 0) && out.bytes == before + Framed(e'.blocks)
    {
      ghost var img := cur[..];
      var n;
      ghost var m;
      n, i, m := FillRunBlock(cur, data, i0, j);
      SendRleData(out, data, n, before, e.blocks, RunBlockCodes(img[i0], n, m));
      e' := e.AfterRunBlock(img, i0, i, n, m);
    }

    method BufferPixel(out: OutStream, data: array<byte>, k: byte, n0: nat, ghost img: seq<byte>, ghost i: nat,
                       ghost before: seq<byte>, ghost blocks0: seq<seq<byte>>, ghost cut: Option<nat>)
      returns (n: nat, ghost blocks: seq<seq<byte>>)
      requires data.Length == 150 && Pending(img, data[..], i, n0) && i < |img| && img[i] == k
      requires Encoded(img, blocks0, i - n0, cut) && out.bytes == before + Framed(blocks0)
      modifies out, data
      ensures Pending(img, data[..], i + 1, n)
      ensures Encoded(img, blocks, i + 1 - n, cut) && out.bytes == before + Framed(blocks)
    {
      n, blocks := n0, blocks0;
      data[n + 1] := k;
      assert data[1..n + 1] == img[i - n..i];
      assert data[1..n + 2] == img[i - n..i] + [img[i]] == img[i - n..i + 1];
      n := n + 1;
      if n == 120 {
        SendRleData(out, data, n, before, blocks, img[i + 1 - n..i + 1]);
        LiteralBlockSent(img, blocks, i + 1 - n, n, cut);
        blocks := blocks + [img[i + 1 - n..i + 1] + [CLEAR]];
        n := 0;
      }
    }

    /** A short run: its pixels join the buffer, which goes out whenever it holds 120. */
    method BufferShortRun(out: OutStream, cur: array<byte>, data: array<byte>, i0: nat, n0: nat, j: nat,
                          ghost before: seq<byte>, ghost blocks0: seq<seq<byte>>, ghost cut: Option<nat>)
      returns (i: nat, n: nat, ghost blocks: seq<seq<byte>>)
      requires cur.Length == imsize && i0 < imsize && j + 1 == RunEnd(cur[..], i0)
      requires data.Length == 150 && data != cur && Pending(cur[..], data[..], i0, n0)
      requires Encoded(cur[..], blocks0, i0 - n0, cut) && out.bytes == before + Framed(blocks0)
      modifies out, data
      ensures i == j + 1 && Pending(cur[..], data[..], i, n)
      ensures Encoded(cur[..], blocks, i - n, cut) && out.bytes == before + Framed(blocks)
    {
      ghost var img := cur[..];
      var k := cur[i0];
      i, n, blocks := i0, n0, blocks0;
      while i <= j
        invariant i0 <= i <= j + 1
        invariant Pending(img, data[..], i, n)
        invariant Encoded(img, blocks, i - n, cut) && out.bytes == before + Framed(blocks)
      {
        n, blocks := BufferPixel(out, data, k, n, img, i, before, blocks, cut);
        i := i + 1;
      }
    }

    /** The run of equal pixels at i, as run blocks or as literals. */
    method SendRun(out: OutStream, cur: array<byte>, data: array<byte>, i: nat, n: nat, ghost before: seq<byte>,
                   ghost e: Encoder)
      returns (i': nat, n': nat, ghost e': Encoder)
      requires cur.Length == imsize && i < imsize && data.Length == 150 && data != cur
      requires Pending(cur[..], data[..], i, n) && e.Tracks(cur[..], i, n) && out.bytes == before + Framed(e.blocks)
      modifies out, data
      ensures i < i' <= imsize && Pending(cur[..], data[..], i', n')
      ensures e'.Tracks(cur[..], i', n') && out.bytes == before + Framed(e'.blocks)
    {
      ghost var img := cur[..];
      var j := ScanRun(cur, i);
      j := j - 1;
      ghost var blocks;
      if j - i > 5 {
        blocks := Flush(out, data, n, img, i, before, e);
        e' := e.Flushed(img, i, n, blocks);
        n' := 0;
        i', e' := SendRunBlock(out, cur, data, i, j, before, e');
      } else {
        i', n', blocks := BufferShortRun(out, cur, data, i, n, j, before, e.blocks, e.cut);
        e' := e.AfterShortRun(img, i, n, blocks, n');
      }
    }

    method SendAllRuns(out: OutStream, cur: array<byte>) returns (ghost e: Encoder)
      requires cur.Length == imsize > 0
      modifies out
      ensures e.Tracks(cur[..], imsize, 0) && out.bytes == old(out.bytes) + Framed(e.blocks)
    {
      var data := new byte[150];
      var i, n := 0, 0;
      e := Encoder([], 0, false, None);
      while true
        invariant i < imsize && Pending(cur[..], data[..], i, n)
        invariant e.Tracks(cur[..], i, n) && out.bytes == old(out.bytes) + Framed(e.blocks)
        decreases imsize - i
      {
        i, n, e := SendRun(out, cur, data, i, n, old(out.bytes), e);
        if i == imsize {
          break;
        }
      }
      ghost var blocks := Flush(out, data, n, cur[..], i, old(out.bytes), e);
      e := e.(blocks := blocks);
    }

    /**
     The run-length writer: the file decodes to the image exactly when every pixel is below 128 and
     no maximal run of equal pixels has a length of 7261, 14521, ... pixels.
     */
    method WriteRLE(out: OutStream)
      requires Valid() && imsize > 0
      modifies out
      ensures FileWritten(old(out.bytes), out.bytes, hdr[..], iw, ih, Current()[..],
                          SevenBit(Current()[..]) && NoStrayRun(Current()[..]))
    {
      var cur := Current();
      ghost var img := cur[..];
      out.Write(hdr, 0, HEADER_SIZE);
      assert hdr[0..HEADER_SIZE] == hdr[..];
      ghost var e := SendAllRuns(out, cur);
      out.WriteBytes([1, 0x81, 0, 0x3B]);
      e.AtEnd(img);
      assert img[..|img|] == img;
      EndImage(old(out.bytes), hdr[..], iw, ih, img, if e.cut.Some? then img[..e.cut.value] else img, e.blocks);
    }
  }
}
