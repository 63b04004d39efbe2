/** The GIF layout as the library reads and writes it, on values: one
    datatype per structure, a parser per structure over the file contents
    from a position (returning the value and the position after it, or None
    where the library raises on a short read), and the bytes each `rebuild`
    writes. The classes in `Tables` and `MicroGif` are specified against
    these functions. */
module GifFormat {
  import opened Bytes

  const ExtensionMarker: byte := 0x21
  const ImageMarker: byte := 0x2C
  const Trailer: byte := 0x3B

  function Pow2(k: nat): (r: nat)
    ensures r >= 1
  {
    if k == 0 then 1 else 2 * Pow2(k - 1)
  }

  lemma MulMono(a: nat, b: nat)
    requires a <= b
    ensures a * a <= b * b
  {
    assert a * a <= a * b;
  }

  /** The integer square root, standing in for `math.sqrt` followed by
      truncation (FloorSqrtIsRoot states what it computes). */
  function FloorSqrt(n: nat): nat
    decreases n
  {
    if n < 4 then (if n == 0 then 0 else 1)
    else
      var h := FloorSqrt(n / 4);
      if (2 * h + 1) * (2 * h + 1) <= n then 2 * h + 1 else 2 * h
  }

  /** The root of `n` is twice the root of `n / 4`, or one more. */
  lemma SqrtStep(n: nat, h: nat)
    requires h * h <= n / 4 < (h + 1) * (h + 1)
    ensures (2 * h) * (2 * h) <= n < (2 * h + 2) * (2 * h + 2)
  {
    assert (2 * h) * (2 * h) == 4 * (h * h);
    assert n / 4 + 1 <= (h + 1) * (h + 1);
    assert n < 4 * (n / 4 + 1);
    assert (2 * h + 2) * (2 * h + 2) == 4 * ((h + 1) * (h + 1));
  }

  lemma {:induction false} FloorSqrtIsRoot(n: nat)
    ensures FloorSqrt(n) * FloorSqrt(n) <= n < (FloorSqrt(n) + 1) * (FloorSqrt(n) + 1)
    decreases n
  {
    if n >= 4 {
      FloorSqrtIsRoot(n / 4);
      SqrtStep(n, FloorSqrt(n / 4));
    }
  }

  lemma SqrtUnique(n: nat, r: nat)
    requires r * r <= n < (r + 1) * (r + 1)
    ensures FloorSqrt(n) == r
  {
    var q := FloorSqrt(n);
    FloorSqrtIsRoot(n);
    if q < r {
      MulMono(q + 1, r);
    } else if q > r {
      MulMono(r + 1, q);
    }
  }

  /** The size bits a rebuilt packed byte carries for a table of
      `colorNum` entries: `int(math.sqrt(colorNum) - 1) & 0b111`. */
  function SizeBits(colorNum: nat): (r: nat)
    ensures r < 8
  {
    (FloorSqrt(colorNum) - 1) % 8
  }

  // ---------------------------------------------------------------- tables

  datatype Rgb = Rgb(r: byte, g: byte, b: byte)

  /** A color table: the entry count it was parsed with, and its triples. */
  datatype ColorTableV = ColorTableV(colorNum: nat, colors: seq<Rgb>)

  function RgbAt(s: seq<byte>, p: nat): Rgb
    requires p + 3 <= |s|
  {
    Rgb(s[p], s[p + 1], s[p + 2])
  }

  /** The `n` triples stored from position `p` on. */
  function Triples(s: seq<byte>, p: nat, n: nat): (r: seq<Rgb>)
    requires n > 0 ==> p + 3 * n <= |s|
    ensures |r| == n
  {
    if n == 0 then [] else Triples(s, p, n - 1) + [RgbAt(s, p + 3 * (n - 1))]
  }

  /** Triple `i` is read from `p + 3 * i`. */
  lemma {:induction false} TriplesAt(s: seq<byte>, p: nat, n: nat)
    requires n > 0 ==> p + 3 * n <= |s|
    ensures forall i :: 0 <= i < n ==> Triples(s, p, n)[i] == RgbAt(s, p + 3 * i)
  {
    if n > 0 {
      TriplesAt(s, p, n - 1);
    }
  }

  /** A table of `2^(k + 1)` triples at `p`, or None when the file ends first. */
  function ParseColorTable(s: seq<byte>, p: nat, k: nat): Option<(ColorTableV, nat)>
  {
    var n := Pow2(k + 1);
    if p + 3 * n <= |s| then Some((ColorTableV(n, Triples(s, p, n)), p + 3 * n)) else None
  }

  function RgbBytes(cs: seq<Rgb>): (r: seq<byte>)
    ensures |r| == 3 * |cs|
  {
    if cs == [] then []
    else
      var c := cs[|cs| - 1];
      RgbBytes(cs[..|cs| - 1]) + [c.r, c.g, c.b]
  }

  /** Triple `i` is written at `3 * i`. */
  lemma {:induction false} RgbBytesAt(cs: seq<Rgb>)
    ensures forall i :: 0 <= i < |cs| ==>
      RgbBytes(cs)[3 * i] == cs[i].r && RgbBytes(cs)[3 * i + 1] == cs[i].g && RgbBytes(cs)[3 * i + 2] == cs[i].b
  {
    if cs != [] {
      RgbBytesAt(cs[..|cs| - 1]);
    }
  }

  /** The bytes `ColorTable.rebuild` writes: every stored triple, in order. */
  function TableBytes(t: ColorTableV): seq<byte>
  {
    RgbBytes(t.colors)
  }

  function OptTableBytes(t: Option<ColorTableV>): seq<byte>
  {
    if t.Some? then TableBytes(t.value) else []
  }

  /** A packed byte's table: parsed when bit 7 is set (size bits 0..2). */
  function ParseOptTable(s: seq<byte>, p: nat, packed: byte): (r: Option<(Option<ColorTableV>, nat)>)
    ensures r.Some? ==> p <= r.value.1 <= |s| || (packed < 0x80 && r.value.1 == p)
  {
    if packed >= 0x80 then
      match ParseColorTable(s, p, packed % 8)
      case None => None
      case Some((t, q)) => Some((Some(t), q))
    else Some((None, p))
  }

  /** The packed byte `rebuild` writes: bit 7 when a table is present, its
      size bits from SizeBits, every other bit 0. */
  function PackedFor(t: Option<ColorTableV>): byte
  {
    if t.Some? then 0x80 + SizeBits(t.value.colorNum) else 0
  }

  // ------------------------------------------------------------ extensions

  type Payload = s: seq<byte> | |s| < 0x100 witness []

  datatype ExtensionV = ExtensionV(extLabel: byte, payload: Payload)

  /** An extension after its 0x21 marker: label, one length byte, that many
      payload bytes (fewer if the file ends), then one byte consumed as the
      terminator whatever its value (none if the file has ended). */
  function ParseExtension(s: seq<byte>, p: nat): (r: Option<(ExtensionV, nat)>)
    ensures r.Some? ==> p + 2 <= r.value.1 <= |s|
  {
    if p + 2 > |s| then None
    else
      var body := Slice(s, p + 2, s[p + 1]);
      var q := p + 2 + |body|;
      Some((ExtensionV(s[p], body), if q < |s| then q + 1 else q))
  }

  /** The bytes `Extension.rebuild` writes. */
  function ExtensionBytes(e: ExtensionV): seq<byte>
  {
    [e.extLabel, |e.payload|] + e.payload + [0]
  }

  // ------------------------------------------------------------ image data

  /** One stored sub-block: the offset of its length byte, the length, the bytes. */
  datatype SubBlock = SubBlock(offset: nat, length: byte, bytes: seq<byte>)

  datatype ImageDataV = ImageDataV(minCodeSize: byte, chain: seq<SubBlock>)

  /** The sub-block chain from `p`: a length byte, zero ending the chain,
      otherwise (a read of) that many bytes; a length byte missing at the end
      of the file makes the parse fail. */
  function ParseChain(s: seq<byte>, p: nat): (r: Option<(seq<SubBlock>, nat)>)
    ensures r.Some? ==> p < r.value.1 <= |s|
    decreases |s| - p
  {
    if p >= |s| then None
    else if s[p] == 0 then Some(([], p + 1))
    else
      var dat := Slice(s, p + 1, s[p]);
      match ParseChain(s, p + 1 + |dat|)
      case None => None
      case Some((c, q)) => Some(([SubBlock(p, s[p], dat)] + c, q))
  }

  function ParseImageData(s: seq<byte>, p: nat): (r: Option<(ImageDataV, nat)>)
    ensures r.Some? ==> p < r.value.1 <= |s|
  {
    if p >= |s| then None
    else
      match ParseChain(s, p + 1)
      case None => None
      case Some((c, q)) => Some((ImageDataV(s[p], c), q))
  }

  function ChainBytes(c: seq<SubBlock>): seq<byte>
  {
    if c == [] then [] else [c[0].length] + c[0].bytes + ChainBytes(c[1..])
  }

  /** The bytes `ImageData.rebuild` writes. */
  function ImageDataBytes(d: ImageDataV): seq<byte>
  {
    [d.minCodeSize] + ChainBytes(d.chain) + [0]
  }

  // ---------------------------------------------------------------- images

  datatype ImageV = ImageV(left: u16, top: u16, width: u16, height: u16,
                           lct: Option<ColorTableV>, data: ImageDataV)

  /** What follows an image descriptor whose packed byte is `packed`: the
      local table if announced, then the image data. */
  function ParseImageBody(s: seq<byte>, p: nat, packed: byte): (r: Option<(Option<ColorTableV>, ImageDataV, nat)>)
    ensures r.Some? ==> p < r.value.2 <= |s|
  {
    match ParseOptTable(s, p, packed)
    case None => None
    case Some((t, q)) =>
      match ParseImageData(s, q)
      case None => None
      case Some((d, e)) => Some((t, d, e))
  }

  /** An image after its 0x2C marker: the 9-byte descriptor, a local table
      when the packed byte says so, and the image data. */
  function ParseImage(s: seq<byte>, p: nat): (r: Option<(ImageV, nat)>)
    ensures r.Some? ==> p + 9 < r.value.1 <= |s|
  {
    if p + 9 > |s| then None
    else
      match ParseImageBody(s, p + 9, s[p + 8])
      case None => None
      case Some((t, d, e)) =>
        Some((ImageV(U16At(s, p), U16At(s, p + 2), U16At(s, p + 4), U16At(s, p + 6), t, d), e))
  }

  function DescriptorBytes(i: ImageV): (r: seq<byte>)
    ensures |r| == 9
  {
    LE16(i.left) + LE16(i.top) + LE16(i.width) + LE16(i.height) + [PackedFor(i.lct)]
  }

  /** The bytes `Image.rebuild` writes. */
  function ImageBytes(i: ImageV): seq<byte>
  {
    DescriptorBytes(i) + OptTableBytes(i.lct) + ImageDataBytes(i.data)
  }

  // ------------------------------------------------------- blocks and file

  datatype BlockV = ExtB(ext: ExtensionV) | ImgB(img: ImageV)

  function Prepend(b: BlockV, rest: Option<seq<BlockV>>): Option<seq<BlockV>>
  {
    if rest.Some? then Some([b] + rest.value) else None
  }

  /** The block scan of `read_from_stream`: 0x21 reads an extension, 0x2C an
      image, every other byte (the trailer included) is skipped, and only the
      end of the file ends the scan. */
  function ParseBlocks(s: seq<byte>, p: nat): Option<seq<BlockV>>
    decreases |s| - p
  {
    if p >= |s| then Some([])
    else if s[p] == ExtensionMarker then
      match ParseExtension(s, p + 1)
      case None => None
      case Some((e, q)) => Prepend(ExtB(e), ParseBlocks(s, q))
    else if s[p] == ImageMarker then
      match ParseImage(s, p + 1)
      case None => None
      case Some((i, q)) => Prepend(ImgB(i), ParseBlocks(s, q))
    else ParseBlocks(s, p + 1)
  }

  function BlockBytes(b: BlockV): seq<byte>
  {
    match b
    case ExtB(e) => [ExtensionMarker] + ExtensionBytes(e)
    case ImgB(i) => [ImageMarker] + ImageBytes(i)
  }

  function BlocksBytes(bs: seq<BlockV>): seq<byte>
  {
    if bs == [] then [] else BlocksBytes(bs[..|bs| - 1]) + BlockBytes(bs[|bs| - 1])
  }

  datatype GifV = GifV(header: seq<byte>, version: seq<byte>,
                       canvasW: u16, canvasH: u16, bkgCol: byte, pixAspect: byte,
                       gct: Option<ColorTableV>, blocks: seq<BlockV>)

  /** Offsets of the screen descriptor fields, relative to the start of the
      file (signature and version take the 6 bytes before them). */
  const CanvasWOffset: nat := 6
  const CanvasHOffset: nat := 8
  const BkgColOffset: nat := 11
  const PixAspectOffset: nat := 12

  /** `read_from_stream` from position `p`: 3 signature and 3 version
      bytes, the 7-byte logical screen descriptor, the global table when
      bit 7 of its packed byte is set, then the block scan. */
  function ParseGif(s: seq<byte>, p: nat): Option<GifV>
  {
    if p + 13 > |s| then None
    else
      match ParseContents(s, p + 13, s[p + 10])
      case None => None
      case Some((t, _, bs)) =>
        Some(GifV(s[p..p + 3], s[p + 3..p + 6], U16At(s, p + CanvasWOffset), U16At(s, p + CanvasHOffset),
                  s[p + BkgColOffset], s[p + PixAspectOffset], t, bs))
  }

  /** What follows the screen descriptor whose packed byte is `packed`: the
      global table if announced, the position where the blocks start, and
      the block scan to the end of the file. */
  function ParseContents(s: seq<byte>, p: nat, packed: byte): Option<(Option<ColorTableV>, nat, seq<BlockV>)>
  {
    match ParseOptTable(s, p, packed)
    case None => None
    case Some((t, q)) =>
      match ParseBlocks(s, q)
      case None => None
      case Some(bs) => Some((t, q, bs))
  }

  function ScreenBytes(g: GifV): (r: seq<byte>)
    ensures |r| == 7
  {
    LE16(g.canvasW) + LE16(g.canvasH) + [PackedFor(g.gct), g.bkgCol, g.pixAspect]
  }

  /** The bytes `recompile` writes. */
  function GifBytes(g: GifV): seq<byte>
  {
    g.header + g.version + ScreenBytes(g) + OptTableBytes(g.gct) + BlocksBytes(g.blocks) + [Trailer]
  }
}
