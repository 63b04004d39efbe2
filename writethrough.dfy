/** What the single-field setters leave in the file: parsing the structure
    again at the same position finds the new value in that field and
    everything else as it was. A parse from `p` reads nothing before `p`,
    so a write below `p` leaves the parse from `p` as it was; the setters
    only write inside the fixed-size heads they record offsets for. */
module WriteThroughs {
  import opened Bytes
  import opened Streams
  import opened GifFormat
  import opened Tables
  import opened MicroGif
  import opened GifFiles
  import opened RoundTrips
  import opened Frames

  // ------------------------------------------------------ screen fields

  lemma ScreenLocsAt(p: nat, f: ScreenField)
    ensures f in ScreenLocs(p) && ScreenLocs(p)[f] == p + ScreenOffset(f)
  {
    match f
    case CanvasW =>
    case CanvasH =>
    case BkgCol =>
    case PixAspect =>
  }

  /** The in-memory file `g` with screen field `f` set to `v`. */
  function WithScreen(g: GifV, f: ScreenField, v: nat): (r: GifV)
    requires PackField(f, v).Some?
    ensures ScreenValue(r, f) == v
    ensures forall f' :: f' != f ==> ScreenValue(r, f') == ScreenValue(g, f')
    ensures r.header == g.header && r.version == g.version && r.gct == g.gct && r.blocks == g.blocks
  {
    match f
    case CanvasW => g.(canvasW := v)
    case CanvasH => g.(canvasH := v)
    case BkgCol => g.(bkgCol := v)
    case PixAspect => g.(pixAspect := v)
  }

  /** A file whose first 6 bytes, packed byte and bytes from 13 on are those
      of a parsed file parses to that file with the four screen fields it
      now holds. */
  lemma ScreenReread(s: seq<byte>, t: seq<byte>, g: GifV)
    requires ParseGif(s, 0) == Some(g) && SameFrom(s, t, 13)
    requires t[..6] == s[..6] && t[10] == s[10]
    ensures ParseGif(t, 0) == Some(g.(canvasW := U16At(t, 6), canvasH := U16At(t, 8), bkgCol := t[11], pixAspect := t[12]))
  {
    ContentsSame(s, t, 13, s[10]);
    assert t[0..3] == t[..6][0..3] == s[..6][0..3] == s[0..3];
    assert t[3..6] == t[..6][3..6] == s[..6][3..6] == s[3..6];
  }

  /** The offsets `read_from_stream` records from offset 0 hold the packed
      screen fields of the file it read. */
  lemma ScreenFieldsAt(s: seq<byte>, g: GifV, f: ScreenField)
    requires ParseGif(s, 0) == Some(g)
    ensures PackField(f, ScreenValue(g, f)).Some?
    ensures At(s, ScreenLocs(CanvasWOffset)[f], PackField(f, ScreenValue(g, f)).value)
  {
    ScreenLocsAt(CanvasWOffset, f);
    match f
    case CanvasW => U16Bytes(s, 6);
    case CanvasH => U16Bytes(s, 8);
    case BkgCol => AtByte(s, 11, s[11]);
    case PixAspect => AtByte(s, 12, s[12]);
  }

  /** Setting screen field `f` of a file read from offset 0 and reading
      the file again gives the file with that field changed. */
  lemma ScreenWriteThrough(s: seq<byte>, g: GifV, f: ScreenField, v: nat)
    requires ParseGif(s, 0) == Some(g) && PackField(f, v).Some?
    ensures ParseGif(Patch(s, ScreenLocs(CanvasWOffset)[f], PackField(f, v).value), 0) == Some(WithScreen(g, f, v))
  {
    ScreenLocsAt(CanvasWOffset, f);
    var o, bs := ScreenLocs(CanvasWOffset)[f], PackField(f, v).value;
    var t := Patch(s, o, bs);
    assert 13 <= |s|;
    PatchInside(s, o, bs);
    assert t[..6] == s[..6];
    ScreenReread(s, t, g);
    match f
    case CanvasW =>
      PatchedU16(s, 6, v);
      assert U16At(t, 8) == U16At(s, 8);
    case CanvasH =>
      PatchedU16(s, 8, v);
      assert U16At(t, 6) == U16At(s, 6);
    case BkgCol =>
      assert U16At(t, 6) == U16At(s, 6) && U16At(t, 8) == U16At(s, 8);
    case PixAspect =>
      assert U16At(t, 6) == U16At(s, 6) && U16At(t, 8) == U16At(s, 8);
  }

  // ------------------------------------------------------- image fields

  /** The value of descriptor field `f` of the parsed image `i`. */
  function FieldOf(i: ImageV, f: ImageField): u16
  {
    match f
    case Left => i.left
    case Top => i.top
    case Width => i.width
    case Height => i.height
  }

  /** The parsed image `i` with descriptor field `f` set to `v`. */
  function WithField(i: ImageV, f: ImageField, v: u16): (r: ImageV)
    ensures FieldOf(r, f) == v
    ensures forall f' :: f' != f ==> FieldOf(r, f') == FieldOf(i, f')
    ensures r.lct == i.lct && r.data == i.data
  {
    match f
    case Left => i.(left := v)
    case Top => i.(top := v)
    case Width => i.(width := v)
    case Height => i.(height := v)
  }

  /** The offsets `Image.parse` records hold the image's packed fields. */
  lemma ImageFieldsAt(s: seq<byte>, p: nat, i: ImageV, q: nat, f: ImageField)
    requires ParseImage(s, p) == Some((i, q))
    ensures At(s, FieldLocs(p)[f], LE16(FieldOf(i, f)))
  {
    FieldLocsAt(p, f);
    ImageFromBody(s, p);
    U16Bytes(s, p + FieldOffset(f));
  }

  /** Setting descriptor field `f` of an image parsed at `p` and parsing
      again gives the image with that field changed, ending where it did. */
  lemma ImageWriteThrough(s: seq<byte>, t: seq<byte>, p: nat, i: ImageV, q: nat, f: ImageField, v: u16)
    requires ParseImage(s, p) == Some((i, q)) && t == Patch(s, FieldLocs(p)[f], LE16(v))
    ensures ParseImage(t, p) == Some((WithField(i, f, v), q))
  {
    DescriptorPatched(s, t, p, f, v);
    ImageBodySame(s, t, p + 9, s[p + 8]);
    ImageFromBody(s, p);
    ImageFromBody(t, p);
    assert U16At(t, p) == FieldOf(WithField(i, f, v), Left);
    assert U16At(t, p + 2) == FieldOf(WithField(i, f, v), Top);
    assert U16At(t, p + 4) == FieldOf(WithField(i, f, v), Width);
    assert U16At(t, p + 6) == FieldOf(WithField(i, f, v), Height);
  }

  /** Setting field `f` of the descriptor at `p` changes the two bytes of
      that field and nothing else. */
  lemma DescriptorPatched(s: seq<byte>, t: seq<byte>, p: nat, f: ImageField, v: u16)
    requires p + 9 <= |s| && t == Patch(s, FieldLocs(p)[f], LE16(v))
    ensures |t| == |s| && t[p + 8] == s[p + 8] && SameFrom(s, t, p + 9)
    ensures U16At(t, p) == if f == Left then v else U16At(s, p)
    ensures U16At(t, p + 2) == if f == Top then v else U16At(s, p + 2)
    ensures U16At(t, p + 4) == if f == Width then v else U16At(s, p + 4)
    ensures U16At(t, p + 6) == if f == Height then v else U16At(s, p + 6)
  {
    FieldLocsAt(p, f);
    var o := p + FieldOffset(f);
    PatchInside(s, o, LE16(v));
    PatchBelow(s, o, LE16(v), p + 9);
    PatchedU16(s, o, v);
  }

  /** A field write stays inside the descriptor of the image at `p`. */
  lemma FieldPatchFrame(s: seq<byte>, t: seq<byte>, p: nat, q: nat, f: ImageField, bs: seq<byte>)
    requires p + 9 <= q <= |s| && |bs| == 2 && t == Patch(s, FieldLocs(p)[f], bs)
    ensures SameOn(s, t, 0, p) && SameFrom(s, t, q)
  {
    FieldLocsAt(p, f);
    PatchOutside(s, FieldLocs(p)[f], bs, p, q);
  }

  // ---------------------------------------------------------- extensions

  /** Setting the label of an extension parsed at `p` and parsing again
      gives the extension with the new label and the same payload. */
  lemma LabelWriteThrough(s: seq<byte>, p: nat, e: ExtensionV, q: nat, v: byte)
    requires ParseExtension(s, p) == Some((e, q))
    ensures ParseExtension(Patch(s, p, [v]), p) == Some((ExtensionV(v, e.payload), q))
  {
    var t := Patch(s, p, [v]);
    PatchInside(s, p, [v]);
    PatchBelow(s, p, [v], p + 1);
    SliceSame(s, t, p + 2, s[p + 1]);
  }

  /** Writing `bs` over payload bytes `o..o + |bs|` of an extension parsed
      at `p`, that is at file offset `off`, and parsing again gives the
      payload with those bytes replaced. */
  lemma PayloadWriteThrough(s: seq<byte>, t: seq<byte>, p: nat, e: ExtensionV, q: nat, o: nat, bs: seq<byte>, off: nat)
    requires ParseExtension(s, p) == Some((e, q)) && o + |bs| <= |e.payload| && off == p + 2 + o
    requires t == Patch(s, off, bs)
    ensures |e.payload[..o] + bs + e.payload[o + |bs|..]| == |e.payload|
    ensures ParseExtension(t, p) == Some((ExtensionV(e.extLabel, e.payload[..o] + bs + e.payload[o + |bs|..]), q))
  {
    PatchInside(s, off, bs);
    assert t[p] == s[p] && t[p + 1] == s[p + 1];
    SpliceSlice(s, t, p + 2, s[p + 1], o, bs, off);
  }

  /** Writing `bs` at `a + o` inside the `n` bytes read from `a` splices
      it into what a read of those bytes gives. */
  lemma SpliceSlice(s: seq<byte>, t: seq<byte>, a: nat, n: nat, o: nat, bs: seq<byte>, off: nat)
    requires a <= |s| && off == a + o && o + |bs| <= |Slice(s, a, n)| && t == Patch(s, off, bs)
    ensures Slice(t, a, n) == Slice(s, a, n)[..o] + bs + Slice(s, a, n)[o + |bs|..]
  {
    var before := Slice(s, a, n);
    var body := before[..o] + bs + before[o + |bs|..];
    PatchInside(s, off, bs);
    var b := Slice(t, a, n);
    assert |b| == |body|;
    forall k | 0 <= k < |b|
      ensures b[k] == body[k]
    {
      if k < o {
        assert body[k] == before[k];
      } else if k < o + |bs| {
        assert body[k] == bs[k - o];
      } else {
        assert body[k] == before[k];
      }
    }
  }

  // -------------------------------------------------------- color tables

  /** Writing triple `c` over entry `index` of a table parsed at `p` and
      parsing again gives the table with that entry replaced. */
  lemma ColorWriteThrough(s: seq<byte>, p: nat, k: nat, t: ColorTableV, q: nat, index: nat, c: Rgb)
    requires ParseColorTable(s, p, k) == Some((t, q)) && index < t.colorNum
    ensures ParseColorTable(Patch(s, p + 3 * index, [c.r, c.g, c.b]), p, k) ==
      Some((ColorTableV(t.colorNum, t.colors[index := c]), q))
  {
    var n := Pow2(k + 1);
    var u := Patch(s, p + 3 * index, [c.r, c.g, c.b]);
    assert p + 3 * index + 3 <= p + 3 * n;
    PatchInside(s, p + 3 * index, [c.r, c.g, c.b]);
    TriplesAt(s, p, n);
    TriplesAt(u, p, n);
    forall j | 0 <= j < n
      ensures Triples(u, p, n)[j] == t.colors[index := c][j]
    {
      assert p + 3 * j + 3 <= p + 3 * n;
      if j != index {
        assert j < index || j > index;
        assert RgbAt(u, p + 3 * j) == RgbAt(s, p + 3 * j);
      }
    }
    assert Triples(u, p, n) == t.colors[index := c];
  }

  /** Writing triple `c` over entry `index` of the local table of an image
      parsed at `p` and parsing again gives the image with that entry of
      its table replaced, ending where it did. */
  lemma LocalColorWriteThrough(s: seq<byte>, p: nat, i: ImageV, q: nat, index: nat, c: Rgb, off: nat)
    requires ParseImage(s, p) == Some((i, q)) && i.lct.Some? && index < i.lct.value.colorNum
    requires off == p + 9 + 3 * index
    ensures off + 3 <= q
    ensures ParseImage(Patch(s, off, [c.r, c.g, c.b]), p) ==
      Some((i.(lct := Some(ColorTableV(i.lct.value.colorNum, i.lct.value.colors[index := c]))), q))
  {
    var q1 := ImageUnscan(s, p, i, q);
    var k := LocalTableAt(s, p, i.lct.value, q1);
    ColorWriteThrough(s, p + 9, k, i.lct.value, q1, index, c);
    var lct' := ColorTableV(i.lct.value.colorNum, i.lct.value.colors[index := c]);
    PatchOutside(s, off, [c.r, c.g, c.b], p + 9, q1);
    TableAsOpt(Patch(s, off, [c.r, c.g, c.b]), p + 9, s[p + 8], lct', q1);
    ImageTableReplaced(s, Patch(s, off, [c.r, c.g, c.b]), p, i, q, q1, Some(lct'));
  }

  /** The local table of an image parsed at `p` is a table of `colorNum`
      triples from `p + 9`, of size bits `k`. */
  lemma LocalTableAt(s: seq<byte>, p: nat, t: ColorTableV, q1: nat) returns (k: nat)
    requires p + 9 <= |s| && ParseOptTable(s, p + 9, s[p + 8]) == Some((Some(t), q1))
    ensures k == s[p + 8] % 8 && s[p + 8] >= 0x80 && q1 == p + 9 + 3 * t.colorNum
    ensures ParseColorTable(s, p + 9, k) == Some((t, q1))
  {
    k := s[p + 8] % 8;
  }

  lemma TableAsOpt(t: seq<byte>, p: nat, packed: byte, x: ColorTableV, q: nat)
    requires packed >= 0x80 && ParseColorTable(t, p, packed % 8) == Some((x, q))
    ensures ParseOptTable(t, p, packed) == Some((Some(x), q))
  {
  }

  // ------------------------------------------------------ in the whole file

  // Each setter, applied to a block that the scan of a file read from
  // offset 0 reaches at `p`, leaves a file that reads again as the same
  // file with only that block changed; `j` is the index of the block.

  lemma ImageInGif(s: seq<byte>, t: seq<byte>, g: GifV, p: nat, i: ImageV, q: nat, f: ImageField, v: u16) returns (j: nat)
    requires ParseGif(s, 0) == Some(g) && Reaches(s, DataStart(g), p)
    requires p < |s| && s[p] == ImageMarker && ParseImage(s, p + 1) == Some((i, q))
    requires t == Patch(s, FieldLocs(p + 1)[f], LE16(v))
    ensures j == |Between(s, DataStart(g), p)| && j < |g.blocks| && g.blocks[j] == ImgB(i)
    ensures ParseGif(t, 0) == Some(g.(blocks := g.blocks[j := ImgB(WithField(i, f, v))]))
  {
    ImageWriteThrough(s, t, p + 1, i, q, f, v);
    FieldPatchFrame(s, t, p + 1, q, f, LE16(v));
    j := ImageBlockReplaced(s, t, g, p, i, WithField(i, f, v), q);
  }

  lemma LabelInGif(s: seq<byte>, t: seq<byte>, g: GifV, p: nat, e: ExtensionV, q: nat, v: byte) returns (j: nat)
    requires ParseGif(s, 0) == Some(g) && Reaches(s, DataStart(g), p)
    requires p < |s| && s[p] == ExtensionMarker && ParseExtension(s, p + 1) == Some((e, q))
    requires t == Patch(s, p + 1, [v])
    ensures j == |Between(s, DataStart(g), p)| && j < |g.blocks| && g.blocks[j] == ExtB(e)
    ensures ParseGif(t, 0) == Some(g.(blocks := g.blocks[j := ExtB(ExtensionV(v, e.payload))]))
  {
    LabelWriteThrough(s, p + 1, e, q, v);
    PatchOutside(s, p + 1, [v], p + 1, q);
    j := ExtensionBlockReplaced(s, t, g, p, e, ExtensionV(v, e.payload), q);
  }

  /** `e'` is the extension with payload bytes `o..o + |bs|` replaced. */
  lemma PayloadInGif(s: seq<byte>, t: seq<byte>, g: GifV, p: nat, e: ExtensionV, q: nat, o: nat, bs: seq<byte>, off: nat)
    returns (j: nat, e': ExtensionV)
    requires ParseGif(s, 0) == Some(g) && Reaches(s, DataStart(g), p)
    requires p < |s| && s[p] == ExtensionMarker && ParseExtension(s, p + 1) == Some((e, q))
    requires o + |bs| <= |e.payload| && off == p + 3 + o && t == Patch(s, off, bs)
    ensures j == |Between(s, DataStart(g), p)| && j < |g.blocks| && g.blocks[j] == ExtB(e)
    ensures e'.extLabel == e.extLabel && e'.payload == e.payload[..o] + bs + e.payload[o + |bs|..]
    ensures ParseGif(t, 0) == Some(g.(blocks := g.blocks[j := ExtB(e')]))
  {
    e' := PayloadInBlock(s, t, p, e, q, o, bs, off);
    j := ExtensionBlockReplaced(s, t, g, p, e, e', q);
  }

  /** The block part of `PayloadInGif`: `t` differs from `s` only inside
      the extension at `p + 1`, which reads as `e'`. */
  lemma PayloadInBlock(s: seq<byte>, t: seq<byte>, p: nat, e: ExtensionV, q: nat, o: nat, bs: seq<byte>, off: nat)
    returns (e': ExtensionV)
    requires ParseExtension(s, p + 1) == Some((e, q)) && o + |bs| <= |e.payload| && off == p + 3 + o && t == Patch(s, off, bs)
    ensures e'.extLabel == e.extLabel && e'.payload == e.payload[..o] + bs + e.payload[o + |bs|..]
    ensures SameOn(s, t, 0, p + 1) && SameFrom(s, t, q) && ParseExtension(t, p + 1) == Some((e', q))
  {
    PayloadWriteThrough(s, t, p + 1, e, q, o, bs, off);
    PatchOutside(s, off, bs, p + 1, q);
    e' := ExtensionV(e.extLabel, e.payload[..o] + bs + e.payload[o + |bs|..]);
  }

  /** `i'` is the image with entry `index` of its local table replaced;
      `off` is where that entry's triple is stored. */
  lemma LocalColorInGif(s: seq<byte>, t: seq<byte>, g: GifV, p: nat, i: ImageV, q: nat, index: nat, c: Rgb, off: nat)
    returns (j: nat, i': ImageV)
    requires ParseGif(s, 0) == Some(g) && Reaches(s, DataStart(g), p)
    requires p < |s| && s[p] == ImageMarker && ParseImage(s, p + 1) == Some((i, q))
    requires i.lct.Some? && index < i.lct.value.colorNum && off == p + 10 + 3 * index && t == Patch(s, off, [c.r, c.g, c.b])
    ensures j == |Between(s, DataStart(g), p)| && j < |g.blocks| && g.blocks[j] == ImgB(i)
    ensures i' == i.(lct := Some(ColorTableV(i.lct.value.colorNum, i.lct.value.colors[index := c])))
    ensures ParseGif(t, 0) == Some(g.(blocks := g.blocks[j := ImgB(i')]))
  {
    i' := LocalColorInBlock(s, t, p, i, q, index, c, off);
    j := ImageBlockReplaced(s, t, g, p, i, i', q);
  }

  /** The block part of `LocalColorInGif`. */
  lemma LocalColorInBlock(s: seq<byte>, t: seq<byte>, p: nat, i: ImageV, q: nat, index: nat, c: Rgb, off: nat)
    returns (i': ImageV)
    requires ParseImage(s, p + 1) == Some((i, q)) && i.lct.Some? && index < i.lct.value.colorNum
    requires off == p + 10 + 3 * index && t == Patch(s, off, [c.r, c.g, c.b])
    ensures i' == i.(lct := Some(ColorTableV(i.lct.value.colorNum, i.lct.value.colors[index := c])))
    ensures SameOn(s, t, 0, p + 1) && SameFrom(s, t, q) && ParseImage(t, p + 1) == Some((i', q))
  {
    var bs := [c.r, c.g, c.b];
    LocalColorWriteThrough(s, p + 1, i, q, index, c, off);
    PatchOutside(s, off, bs, p + 1, q);
    i' := i.(lct := Some(ColorTableV(i.lct.value.colorNum, i.lct.value.colors[index := c])));
  }

  /** Writing triple `c` over entry `index` of the global table of a file
      read from offset 0 and reading the file again gives the file with
      that entry of its global table replaced. */
  lemma GlobalColorInGif(s: seq<byte>, g: GifV, index: nat, c: Rgb)
    requires ParseGif(s, 0) == Some(g) && g.gct.Some? && index < g.gct.value.colorNum
    ensures ParseGif(Patch(s, 13 + 3 * index, [c.r, c.g, c.b]), 0) ==
      Some(g.(gct := Some(ColorTableV(g.gct.value.colorNum, g.gct.value.colors[index := c]))))
  {
    var gct' := GlobalColorInTable(s, g, index, c);
    PatchOutside(s, 13 + 3 * index, [c.r, c.g, c.b], 13, DataStart(g));
    GifTableReplaced(s, Patch(s, 13 + 3 * index, [c.r, c.g, c.b]), g, Some(gct'));
  }

  lemma GlobalColorInTable(s: seq<byte>, g: GifV, index: nat, c: Rgb) returns (gct': ColorTableV)
    requires ParseGif(s, 0) == Some(g) && g.gct.Some? && index < g.gct.value.colorNum
    ensures gct' == ColorTableV(g.gct.value.colorNum, g.gct.value.colors[index := c])
    ensures 13 + 3 * index + 3 <= DataStart(g) <= |s|
    ensures ParseOptTable(Patch(s, 13 + 3 * index, [c.r, c.g, c.b]), 13, s[10]) == Some((Some(gct'), DataStart(g)))
  {
    var d := GifUnscan(s, g);
    var k := s[10] % 8;
    OptTableReparse(s, 13, s[10], g.gct, d);
    assert ParseColorTable(s, 13, k) == Some((g.gct.value, d));
    ColorWriteThrough(s, 13, k, g.gct.value, d, index, c);
    gct' := ColorTableV(g.gct.value.colorNum, g.gct.value.colors[index := c]);
  }

  // ------------------------------------------------- setters on objects

  /** A document read writable from offset 0, with no write since: it holds
      the file's value `g`, block `k` holds `g.blocks[k]` and was found by
      the scan at `at[k]`, and every block and table object keeps the
      document's stream, is writable and has its origin where the file
      holds it. */
  ghost predicate Opened(h: GifFile, g: GifV, at: seq<nat>)
    reads h, h.Repr, h.stream
  {
    h.Valid() && h.writable && h.stream != null && ParseGif(h.stream.content, 0) == Some(g) && h.Value() == g &&
    h.dataOff == DataStart(g) && Agrees(h, g, at)
  }

  /** The objects of `h` as `read_from_stream(strm, True)` from offset 0
      left them, and block `k` holding `g.blocks[k]`. */
  ghost predicate Agrees(h: GifFile, g: GifV, at: seq<nat>)
    reads h, h.Repr, h.stream
  {
    h.stream != null && h.BlocksRead(h.stream, true, 0, at) && BlocksIn(h.blocks, h.Repr) &&
    |g.blocks| == |h.blocks| && forall k :: 0 <= k < |h.blocks| ==> g.blocks[k] == BlockValue(h.blocks[k], h.Repr)
  }

  /** `read_from_stream` from offset 0 on a writable file records the
      offsets of the screen descriptor that starts at 6, and leaves every
      object it creates ready for write-through into that file. */
  method OpenWritable(s: Stream) returns (ok: bool, h: GifFile, ghost at: seq<nat>)
    requires s.pos == 0
    modifies s`pos
    ensures fresh(h) && ok == ParseGif(s.content, 0).Some?
    ensures ok ==> (h.Valid() && h.writable && h.stream == s && h.memlocs == ScreenLocs(CanvasWOffset) &&
                    ParseGif(s.content, 0) == Some(h.Value()))
    ensures ok ==> Opened(h, h.Value(), at)
  {
    h := new GifFile();
    ok, at := h.ReadFromStream(s, true);
    if ok {
      forall k | 0 <= k < |h.blocks|
        ensures h.Value().blocks[k] == BlockValue(h.blocks[k], h.Repr)
      {
        BlocksValueAt(h.blocks, h.Repr, k);
      }
    }
  }

  /** A screen field setter on a file read writable from offset 0: the
      file read again has the new value in that field and nothing else
      changed, while the object keeps its old value. */
  method SetScreenAndReread(h: GifFile, f: ScreenField, v: nat, ghost g: GifV) returns (r: Outcome)
    requires h.Valid() && h.writable && h.memlocs == ScreenLocs(CanvasWOffset)
    requires ParseGif(h.stream.content, 0) == Some(g) && h.Value() == g
    modifies h.stream
    ensures h.Valid() && h.Value() == g
    ensures PackField(f, v).None? ==> r == Fail(PackOverflow) && ParseGif(h.stream.content, 0) == Some(g)
    ensures PackField(f, v).Some? ==> r == Pass && ParseGif(h.stream.content, 0) == Some(WithScreen(g, f, v))
  {
    ghost var c := h.stream.content;
    ScreenLocsAt(CanvasWOffset, f);
    r := h.SetScreenField(f, v);
    if PackField(f, v).Some? {
      ScreenWriteThrough(c, g, f, v);
    }
  }

  /** The image object and its file agree: parsing the file at the origin
      gives the image's value, ending at `q`. */
  ghost predicate ImageInFile(i: Image, q: nat)
    reads i, i.lct, i.data, i.strm
  {
    i.data != null && i.strm != null && ParseImage(i.strm.content, i.origin) == Some((i.Value(), q))
  }

  /** An image setter keeps the image and its file in agreement: the field
      takes the value in memory and in the file alike. */
  method SetImageField(i: Image, f: ImageField, v: nat, ghost q: nat) returns (r: Outcome)
    requires i.Valid() && i.writable && i.memlocs == FieldLocs(i.origin) && ImageInFile(i, q)
    modifies i`left, i`top, i`width, i`height, i.strm
    ensures ImageInFile(i, q)
    ensures v < 0x1_0000 ==> r == Pass && i.Value() == WithField(old(i.Value()), f, v) &&
                             i.strm.content == Patch(old(i.strm.content), FieldLocs(i.origin)[f], LE16(v))
    ensures v >= 0x1_0000 ==> r == Fail(PackOverflow) && i.Value() == old(i.Value()) && i.strm.content == old(i.strm.content)
  {
    ghost var c, m := i.strm.content, i.Value();
    FieldLocsAt(i.origin, f);
    r := i.SetField(f, v);
    if v < 0x1_0000 {
      ImageWriteThrough(c, i.strm.content, i.origin, m, q, f, v);
      match f {
        case Left => assert i.Field(Top) == m.top && i.Field(Width) == m.width && i.Field(Height) == m.height;
        case Top => assert i.Field(Left) == m.left && i.Field(Width) == m.width && i.Field(Height) == m.height;
        case Width => assert i.Field(Left) == m.left && i.Field(Top) == m.top && i.Field(Height) == m.height;
        case Height => assert i.Field(Left) == m.left && i.Field(Top) == m.top && i.Field(Width) == m.width;
      }
    }
  }

  /** The extension object and its file agree. */
  ghost predicate ExtensionInFile(e: Extension, q: nat)
    reads e, e.strm
  {
    e.strm != null && ParseExtension(e.strm.content, e.origin) == Some((e.Value(), q))
  }

  /** The label setter keeps the extension and its file in agreement. */
  method SetExtensionLabel(e: Extension, v: nat, ghost q: nat) returns (r: Outcome)
    requires e.Valid() && e.writable && ExtensionInFile(e, q)
    modifies e`extLabel, e.strm
    ensures ExtensionInFile(e, q)
    ensures v < 0x100 ==> r == Pass && e.Value() == ExtensionV(v, old(e.payload)) &&
                          e.strm.content == Patch(old(e.strm.content), e.origin, [v])
    ensures v >= 0x100 ==> r == Fail(PackOverflow) && e.Value() == old(e.Value()) && e.strm.content == old(e.strm.content)
  {
    ghost var c, m := e.strm.content, e.Value();
    r := e.SetLabel(v);
    if v < 0x100 {
      LabelWriteThrough(c, e.origin, m, q, v);
    }
  }

  /** `write` keeps the extension and its file in agreement, whether it
      runs to the end or stops at an index `new_data` does not reach. */
  method WritePayload(e: Extension, o: nat, length: nat, newData: seq<byte>, ghost q: nat) returns (r: Outcome)
    requires e.Valid() && e.writable && ExtensionInFile(e, q)
    modifies e`payload, e.strm
    ensures ExtensionInFile(e, q)
    ensures r == Pass || r == Fail(OutOfRange)
    ensures var w := Written(o, length, |old(e.payload)|, |newData|);
      e.extLabel == old(e.extLabel) &&
      if o < w then
        e.payload == old(e.payload)[..o] + newData[o..w] + old(e.payload)[w..] &&
        e.strm.content == Patch(old(e.strm.content), e.origin + 2 + o, newData[o..w])
      else
        e.payload == old(e.payload) && e.strm.content == old(e.strm.content)
  {
    ghost var c, m := e.strm.content, e.Value();
    r := e.Write(o, length, newData);
    WrittenInSync(c, e.strm.content, e.origin, m, e.payload, q, o, length, newData);
  }

  /** What `Extension.write` leaves, in the terms of `WritePayload`: the
      payload indices `o..w` replaced, and the file still parsing to the
      extension. */
  lemma WrittenInSync(c: seq<byte>, c': seq<byte>, origin: nat, m: ExtensionV, after: Payload, q: nat,
                      o: nat, length: nat, nd: seq<byte>)
    requires ParseExtension(c, origin) == Some((m, q)) && |after| == |m.payload|
    requires forall k :: 0 <= k < |after| ==>
      after[k] == if o <= k < Written(o, length, |after|, |nd|) then nd[k] else m.payload[k]
    requires var w := Written(o, length, |after|, |nd|);
      if o < w then c' == Patch(c, origin + 2 + o, nd[o..w]) else c' == c
    ensures var w := Written(o, length, |m.payload|, |nd|);
      (if o < w then after == m.payload[..o] + nd[o..w] + m.payload[w..] else after == m.payload) &&
      ParseExtension(c', origin) == Some((ExtensionV(m.extLabel, after), q))
  {
    var w := Written(o, length, |m.payload|, |nd|);
    Spliced(m.payload, after, nd, o, w);
    PayloadInSync(c, c', origin, m, after, q, o, w, nd);
  }

  /** The file and the payload after `write` reached payload indices
      `o..w`, as Extension.Write leaves them, still parse one to the other. */
  lemma PayloadInSync(c: seq<byte>, c': seq<byte>, origin: nat, m: ExtensionV, after: Payload, q: nat,
                      o: nat, w: nat, nd: seq<byte>)
    requires ParseExtension(c, origin) == Some((m, q)) && w <= |m.payload| && w <= |nd|
    requires o < w ==> after == m.payload[..o] + nd[o..w] + m.payload[w..] && c' == Patch(c, origin + 2 + o, nd[o..w])
    requires o >= w ==> after == m.payload && c' == c
    ensures ParseExtension(c', origin) == Some((ExtensionV(m.extLabel, after), q))
  {
    if o < w {
      var bs := nd[o..w];
      assert o + |bs| == w;
      PayloadWriteThrough(c, c', origin, m, q, o, bs, origin + 2 + o);
    } else {
      assert ExtensionV(m.extLabel, after) == m;
    }
  }

  /** The payload `write` leaves: `nd` over [o, w), the old bytes elsewhere. */
  lemma Spliced(before: seq<byte>, after: seq<byte>, nd: seq<byte>, o: nat, w: nat)
    requires |after| == |before| && w <= |before| && w <= |nd|
    requires forall k :: 0 <= k < |after| ==> after[k] == if o <= k < w then nd[k] else before[k]
    ensures o < w ==> after == before[..o] + nd[o..w] + before[w..]
    ensures o >= w ==> after == before
  {
    if o < w {
      var body := before[..o] + nd[o..w] + before[w..];
      forall k | 0 <= k < |body|
        ensures after[k] == body[k]
      {
        if k < o {
        } else if k < w {
          assert body[k] == nd[o..w][k - o];
        }
      }
    }
  }

  /** `set_color` on a table whose file holds it: the file parsed again
      has the new triple at `index`, while `get_color` still answers the
      old one. */
  method SetTableColor(t: ColorTable, index: nat, c: Rgb, ghost k: nat, ghost q: nat) returns (r: Outcome)
    requires t.Valid() && t.writable
    requires ParseColorTable(t.strm.content, t.origin, k) == Some((t.Value(), q))
    modifies t.strm
    ensures t.Value() == old(t.Value())
    ensures index < t.ColorNum() ==>
      (r == Pass && ParseColorTable(t.strm.content, t.origin, k) == Some((ColorTableV(t.entryCount, t.colors[index := c]), q)))
    ensures index >= t.ColorNum() ==>
      (r == Fail(OutOfRange) && ParseColorTable(t.strm.content, t.origin, k) == Some((t.Value(), q)))
  {
    ghost var s := t.strm.content;
    r := t.SetColor(index, (c.r, c.g, c.b));
    if index < t.ColorNum() {
      ColorWriteThrough(s, t.origin, k, t.Value(), q, index, c);
    }
  }

  // ---------------------------------------------- setters on a document

  /** Block `j` of an opened document: the position where the scan found
      it, after `j` blocks, and its object as the block loop left it. */
  lemma OpenedAt(h: GifFile, g: GifV, at: seq<nat>, j: nat) returns (p: nat)
    requires Agrees(h, g, at) && j < |h.blocks|
    ensures Reaches(h.stream.content, h.dataOff, p) && |Between(h.stream.content, h.dataOff, p)| == j
    ensures ReadAt(h.blocks[j], h.Repr, h.stream, true, h.stream.content, p)
    ensures g.blocks[j] == BlockValue(h.blocks[j], h.Repr)
  {
    AllFoundAt(h.blocks, h.Repr, h.stream, true, h.stream.content, h.dataOff, at, j);
    p := at[j];
  }

  /** What `ReadAt` says of an image block. */
  lemma ImageReadAt(i: Image, R: set<object>, s: Stream, c: seq<byte>, p: nat) returns (q: nat)
    requires ReadAt(ImgBlock(i), R, s, true, c, p)
    ensures i.data != null && i.Valid() && i.writable && i.strm == s && i.origin == p + 1 && i.memlocs == FieldLocs(p + 1)
    ensures i.lct != null ==> TableFrom(i.lct, s, true, p + 10)
    ensures p < |c| && c[p] == ImageMarker && ParseImage(c, p + 1) == Some((i.Value(), q))
  {
    q := ParseImage(c, p + 1).value.1;
  }

  /** What `ReadAt` says of an extension block. */
  lemma ExtensionReadAt(e: Extension, R: set<object>, s: Stream, c: seq<byte>, p: nat) returns (q: nat)
    requires ReadAt(ExtBlock(e), R, s, true, c, p)
    ensures e.Valid() && e.writable && e.strm == s && e.origin == p + 1
    ensures p < |c| && c[p] == ExtensionMarker && ParseExtension(c, p + 1) == Some((e.Value(), q))
  {
    q := ParseExtension(c, p + 1).value.1;
  }

  /** Image block `j` of an opened document: where the scan found it, and
      its object ready to write through into the document's file. */
  lemma OpenedImage(h: GifFile, g: GifV, at: seq<nat>, j: nat) returns (p: nat, q: nat)
    requires Agrees(h, g, at) && j < |h.blocks| && h.blocks[j].ImgBlock?
    ensures var i := h.blocks[j].img;
      i.data != null && g.blocks[j] == ImgB(i.Value()) && i.Valid() && i.writable && i.strm == h.stream &&
      i.origin == p + 1 && i.memlocs == FieldLocs(p + 1) && (i.lct != null ==> TableFrom(i.lct, h.stream, true, p + 10))
    ensures var c := h.stream.content;
      Reaches(c, h.dataOff, p) && |Between(c, h.dataOff, p)| == j && p < |c| && c[p] == ImageMarker &&
      ParseImage(c, p + 1) == Some((h.blocks[j].img.Value(), q))
  {
    p := OpenedAt(h, g, at, j);
    q := ImageReadAt(h.blocks[j].img, h.Repr, h.stream, h.stream.content, p);
  }

  /** Extension block `j` of an opened document, likewise. */
  lemma OpenedExtension(h: GifFile, g: GifV, at: seq<nat>, j: nat) returns (p: nat, q: nat)
    requires Agrees(h, g, at) && j < |h.blocks| && h.blocks[j].ExtBlock?
    ensures var e := h.blocks[j].ext;
      g.blocks[j] == ExtB(e.Value()) && e.Valid() && e.writable && e.strm == h.stream && e.origin == p + 1
    ensures var c := h.stream.content;
      Reaches(c, h.dataOff, p) && |Between(c, h.dataOff, p)| == j && p < |c| && c[p] == ExtensionMarker &&
      ParseExtension(c, p + 1) == Some((h.blocks[j].ext.Value(), q))
  {
    p := OpenedAt(h, g, at, j);
    q := ExtensionReadAt(h.blocks[j].ext, h.Repr, h.stream, h.stream.content, p);
  }

  /** An image setter on image block `j` of a document read writable from
      offset 0: the file read again from offset 0 has only that field of
      block `j` changed, and the image object holds the new value. */
  method SetBlockImageField(h: GifFile, j: nat, f: ImageField, v: nat, ghost g: GifV, ghost at: seq<nat>) returns (r: Outcome)
    requires Opened(h, g, at) && j < |h.blocks| && h.blocks[j].ImgBlock?
    modifies h.blocks[j].img`left, h.blocks[j].img`top, h.blocks[j].img`width, h.blocks[j].img`height, h.stream
    ensures v < 0x1_0000 ==>
      r == Pass && h.blocks[j].img.Value() == WithField(g.blocks[j].img, f, v) &&
      ParseGif(h.stream.content, 0) == Some(g.(blocks := g.blocks[j := ImgB(WithField(g.blocks[j].img, f, v))]))
    ensures v >= 0x1_0000 ==> r == Fail(PackOverflow) && ParseGif(h.stream.content, 0) == Some(g)
  {
    var i := h.blocks[j].img;
    ghost var p, q := OpenedImage(h, g, at, j);
    ghost var c, m := h.stream.content, i.Value();
    r := SetImageField(i, f, v, q);
    if v < 0x1_0000 {
      ghost var j' := ImageInGif(c, h.stream.content, g, p, m, q, f, v);
    }
  }

  /** The label setter on extension block `j` of a document read writable
      from offset 0: the file read again has only that block's label
      changed, and the object holds the new label. */
  method SetBlockLabel(h: GifFile, j: nat, v: nat, ghost g: GifV, ghost at: seq<nat>) returns (r: Outcome)
    requires Opened(h, g, at) && j < |h.blocks| && h.blocks[j].ExtBlock?
    modifies h.blocks[j].ext`extLabel, h.stream
    ensures v < 0x100 ==>
      r == Pass && h.blocks[j].ext.Value() == ExtensionV(v, g.blocks[j].ext.payload) &&
      ParseGif(h.stream.content, 0) == Some(g.(blocks := g.blocks[j := ExtB(ExtensionV(v, g.blocks[j].ext.payload))]))
    ensures v >= 0x100 ==> r == Fail(PackOverflow) && ParseGif(h.stream.content, 0) == Some(g)
  {
    var e := h.blocks[j].ext;
    ghost var p, q := OpenedExtension(h, g, at, j);
    ghost var c, m := h.stream.content, e.Value();
    r := SetExtensionLabel(e, v, q);
    if v < 0x100 {
      ghost var j' := LabelInGif(c, h.stream.content, g, p, m, q, v);
    }
  }

  /** The extension `write` leaves: `nd` over the payload indices it
      reaches, the old bytes elsewhere. */
  function Rewritten(m: ExtensionV, o: nat, length: nat, nd: seq<byte>): ExtensionV
  {
    var w := Written(o, length, |m.payload|, |nd|);
    if o < w then ExtensionV(m.extLabel, m.payload[..o] + nd[o..w] + m.payload[w..]) else m
  }

  /** `write` on extension block `j` of a document read writable from
      offset 0: the file read again has only the payload bytes that `write`
      reached replaced in that block, and the object holds the same payload. */
  method WriteBlockPayload(h: GifFile, j: nat, o: nat, length: nat, newData: seq<byte>, ghost g: GifV, ghost at: seq<nat>)
    returns (r: Outcome)
    requires Opened(h, g, at) && j < |h.blocks| && h.blocks[j].ExtBlock?
    modifies h.blocks[j].ext`payload, h.stream
    ensures r == Pass || r == Fail(OutOfRange)
    ensures var e' := Rewritten(g.blocks[j].ext, o, length, newData);
      h.blocks[j].ext.Value() == e' && ParseGif(h.stream.content, 0) == Some(g.(blocks := g.blocks[j := ExtB(e')]))
  {
    var e := h.blocks[j].ext;
    ghost var p, q := OpenedExtension(h, g, at, j);
    r := WriteExtensionInGif(e, o, length, newData, q, g, p, j);
  }

  /** `write` on an extension whose file reads from offset 0 as `g`, with
      the extension as block `j`, found by the scan at `p`. */
  method WriteExtensionInGif(e: Extension, o: nat, length: nat, newData: seq<byte>, ghost q: nat, ghost g: GifV, ghost p: nat,
                             ghost j: nat)
    returns (r: Outcome)
    requires e.Valid() && e.writable && ExtensionInFile(e, q) && e.origin == p + 1 && j < |g.blocks| && g.blocks[j] == ExtB(e.Value())
    requires ParseGif(e.strm.content, 0) == Some(g) && Reaches(e.strm.content, DataStart(g), p)
    requires j == |Between(e.strm.content, DataStart(g), p)| && p < |e.strm.content| && e.strm.content[p] == ExtensionMarker
    modifies e`payload, e.strm
    ensures r == Pass || r == Fail(OutOfRange)
    ensures var e' := Rewritten(g.blocks[j].ext, o, length, newData);
      e.Value() == e' && ParseGif(e.strm.content, 0) == Some(g.(blocks := g.blocks[j := ExtB(e')]))
  {
    ghost var c, before := e.strm.content, e.payload;
    assert ParseExtension(c, p + 1) == Some((g.blocks[j].ext, q));
    r := WritePayload(e, o, length, newData, q);
    PayloadInDocAfter(c, e.strm.content, g, p, before, q, o, length, newData, e.payload, e.origin, j);
  }

  /** The document after `write`, by cases on whether it reached any byte;
      `before` is the payload of block `j` as read. */
  lemma PayloadInDocAfter(c: seq<byte>, c': seq<byte>, g: GifV, p: nat, before: Payload, q: nat, o: nat, length: nat,
                          nd: seq<byte>, after: Payload, org: nat, j: nat)
    requires ParseGif(c, 0) == Some(g) && Reaches(c, DataStart(g), p) && j == |Between(c, DataStart(g), p)| && j < |g.blocks|
    requires g.blocks[j].ExtB? && g.blocks[j].ext.payload == before
    requires p < |c| && c[p] == ExtensionMarker && ParseExtension(c, p + 1) == Some((g.blocks[j].ext, q))
    requires org == p + 1
    requires var w := Written(o, length, |before|, |nd|);
      if o < w then after == before[..o] + nd[o..w] + before[w..] && c' == Patch(c, org + 2 + o, nd[o..w])
      else after == before && c' == c
    ensures var e' := Rewritten(g.blocks[j].ext, o, length, nd);
      ExtensionV(g.blocks[j].ext.extLabel, after) == e' && ParseGif(c', 0) == Some(g.(blocks := g.blocks[j := ExtB(e')]))
  {
    var m := g.blocks[j].ext;
    var w := Written(o, length, |m.payload|, |nd|);
    if o < w {
      PayloadInDoc(c, c', g, p, m, q, o, w, nd, org, j);
    } else {
      assert g.blocks[j := ExtB(m)] == g.blocks;
    }
  }

  /** `PayloadInGif` for the file `c'` that `write` leaves when it reaches
      payload indices `o..w`. */
  lemma PayloadInDoc(c: seq<byte>, c': seq<byte>, g: GifV, p: nat, m: ExtensionV, q: nat, o: nat, w: nat, nd: seq<byte>,
                     org: nat, j: nat)
    requires ParseGif(c, 0) == Some(g) && Reaches(c, DataStart(g), p) && j == |Between(c, DataStart(g), p)| && j < |g.blocks|
    requires p < |c| && c[p] == ExtensionMarker && ParseExtension(c, p + 1) == Some((m, q))
    requires o < w <= |m.payload| && w <= |nd| && org == p + 1 && c' == Patch(c, org + 2 + o, nd[o..w])
    ensures ParseGif(c', 0) == Some(g.(blocks := g.blocks[j := ExtB(ExtensionV(m.extLabel, m.payload[..o] + nd[o..w] + m.payload[w..]))]))
  {
    var bs := nd[o..w];
    assert o + |bs| == w;
    var j', e' := PayloadInGif(c, c', g, p, m, q, o, bs, org + 2 + o);
  }

  /** `set_color` on the local table of image block `j` of a document read
      writable from offset 0: in range, the file read again has only that
      entry of block `j`'s table replaced; out of range it fails and the
      file is unchanged. The document keeps its old value. */
  method SetBlockColor(h: GifFile, j: nat, index: nat, c: Rgb, ghost g: GifV, ghost at: seq<nat>) returns (r: Outcome)
    requires Opened(h, g, at) && j < |h.blocks| && h.blocks[j].ImgBlock? && h.blocks[j].img.lct != null
    modifies h.stream
    ensures h.Valid() && h.Value() == g
    ensures var i := g.blocks[j].img;
      index < |i.lct.value.colors| ==>
        r == Pass && ParseGif(h.stream.content, 0) ==
          Some(g.(blocks := g.blocks[j := ImgB(i.(lct := Some(ColorTableV(i.lct.value.colorNum, i.lct.value.colors[index := c]))))]))
    ensures index >= |g.blocks[j].img.lct.value.colors| ==> r == Fail(OutOfRange) && ParseGif(h.stream.content, 0) == Some(g)
  {
    var t := h.blocks[j].img.lct;
    ghost var p, q := OpenedImage(h, g, at, j);
    r := SetColorInGif(t, index, c, g, p, q, j);
  }

  /** `set_color` on a local table whose file reads from offset 0 as `g`,
      the table of image block `j`, found by the scan at `p`. */
  method SetColorInGif(t: ColorTable, index: nat, c: Rgb, ghost g: GifV, ghost p: nat, ghost q: nat, ghost j: nat)
    returns (r: Outcome)
    requires t.Valid() && t.writable && t.origin == p + 10 && j < |g.blocks| && g.blocks[j].ImgB?
    requires g.blocks[j].img.lct == Some(t.Value())
    requires ParseGif(t.strm.content, 0) == Some(g) && Reaches(t.strm.content, DataStart(g), p)
    requires j == |Between(t.strm.content, DataStart(g), p)| && p < |t.strm.content| && t.strm.content[p] == ImageMarker
    requires ParseImage(t.strm.content, p + 1) == Some((g.blocks[j].img, q))
    modifies t.strm
    ensures var i := g.blocks[j].img;
      index < i.lct.value.colorNum ==>
        r == Pass && ParseGif(t.strm.content, 0) ==
          Some(g.(blocks := g.blocks[j := ImgB(i.(lct := Some(ColorTableV(i.lct.value.colorNum, i.lct.value.colors[index := c]))))]))
    ensures index >= g.blocks[j].img.lct.value.colorNum ==> r == Fail(OutOfRange) && ParseGif(t.strm.content, 0) == Some(g)
  {
    ghost var s := t.strm.content;
    r := t.SetColor(index, (c.r, c.g, c.b));
    if index < t.ColorNum() {
      ghost var j', i' := LocalColorInGif(s, t.strm.content, g, p, g.blocks[j].img, q, index, c, t.origin + 3 * index);
    }
  }

  /** `set_color` on the global table of a document read writable from
      offset 0: in range, the file read again has only that entry of the
      global table replaced; out of range it fails and the file is
      unchanged. The document keeps its old value. */
  method SetGlobalColor(h: GifFile, index: nat, c: Rgb, ghost g: GifV, ghost at: seq<nat>) returns (r: Outcome)
    requires Opened(h, g, at) && h.gct != null
    modifies h.stream
    ensures h.Valid() && h.Value() == g
    ensures index < g.gct.value.colorNum ==>
      r == Pass && ParseGif(h.stream.content, 0) ==
        Some(g.(gct := Some(ColorTableV(g.gct.value.colorNum, g.gct.value.colors[index := c]))))
    ensures index >= g.gct.value.colorNum ==> r == Fail(OutOfRange) && ParseGif(h.stream.content, 0) == Some(g)
  {
    ghost var s := h.stream.content;
    r := h.gct.SetColor(index, (c.r, c.g, c.b));
    if index < h.gct.ColorNum() {
      GlobalColorInGif(s, g, index, c);
    }
  }
}
