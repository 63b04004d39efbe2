/** Parsing and rebuilding undo each other: for every structure, the bytes
    `rebuild` writes parse back to the same value (given that the value is
    one a parse can produce at that position), and a parsed structure
    rebuilds to exactly the bytes it was read from whenever those bytes are
    in the canonical form `rebuild` writes. The position after a structure
    is passed as `q`, with an equation saying where it is. */
module RoundTrips {
  import opened Bytes
  import opened GifFormat

  /** `x` occurs in `s` at `p`. */
  predicate At(s: seq<byte>, p: nat, x: seq<byte>)
  {
    p + |x| <= |s| && s[p..p + |x|] == x
  }

  lemma AtBytes(s: seq<byte>, p: nat, x: seq<byte>)
    requires At(s, p, x)
    ensures forall i :: 0 <= i < |x| ==> s[p + i] == x[i]
  {
    forall i | 0 <= i < |x| ensures s[p + i] == x[i] {
      assert s[p..p + |x|][i] == s[p + i];
    }
  }

  lemma AtByte(s: seq<byte>, p: nat, b: byte)
    ensures At(s, p, [b]) <==> p < |s| && s[p] == b
  {
    if p < |s| && s[p] == b {
      assert s[p..p + 1] == [s[p]];
    }
    if At(s, p, [b]) {
      assert s[p..p + 1][0] == s[p];
    }
  }

  lemma AtSplit(s: seq<byte>, p: nat, a: seq<byte>, b: seq<byte>, q: nat)
    requires At(s, p, a + b) && q == p + |a|
    ensures At(s, p, a) && At(s, q, b)
  {
    assert s[p..q] == s[p..p + |a + b|][..|a|];
    assert s[q..q + |b|] == s[p..p + |a + b|][|a|..];
  }

  lemma AtJoin(s: seq<byte>, p: nat, a: seq<byte>, b: seq<byte>, q: nat)
    requires At(s, p, a) && q == p + |a| && At(s, q, b)
    ensures At(s, p, a + b)
  {
    assert s[p..p + |a + b|] == s[p..q] + s[q..q + |b|];
  }

  /** A read of as many bytes as `x` has, where `x` occurs, returns `x`. */
  lemma SliceAt(s: seq<byte>, p: nat, x: seq<byte>)
    requires At(s, p, x)
    ensures Slice(s, p, |x|) == x
  {
    if x != [] {
      assert Slice(s, p, |x|) == s[p..p + |x|];
    }
  }

  /** The two bytes a field is read from are the bytes it packs to. */
  lemma U16Bytes(s: seq<byte>, p: nat)
    requires p + 2 <= |s|
    ensures At(s, p, LE16(U16At(s, p)))
  {
    var v := U16At(s, p);
    assert v % 0x100 == s[p] && v / 0x100 == s[p + 1];
  }

  // ---------------------------------------------------------------- tables

  /** A rebuilt table of `2^(k + 1)` entries parses back with exponent `k`. */
  lemma TableRoundTrip(t: ColorTableV, s: seq<byte>, p: nat, k: nat, q: nat)
    requires |t.colors| == t.colorNum == Pow2(k + 1) && At(s, p, TableBytes(t)) && q == p + |TableBytes(t)|
    ensures ParseColorTable(s, p, k) == Some((t, q))
  {
    var n := |t.colors|;
    AtBytes(s, p, TableBytes(t));
    RgbBytesAt(t.colors);
    TriplesAt(s, p, n);
    forall i | 0 <= i < n ensures Triples(s, p, n)[i] == t.colors[i] {
      assert s[p + 3 * i] == RgbBytes(t.colors)[3 * i];
      assert s[p + (3 * i + 1)] == RgbBytes(t.colors)[3 * i + 1];
      assert s[p + (3 * i + 2)] == RgbBytes(t.colors)[3 * i + 2];
    }
    assert Triples(s, p, n) == t.colors;
  }

  /** A parsed table holds `2^(k + 1)` triples and rebuilds to the bytes it
      was read from. */
  lemma TableReparse(s: seq<byte>, p: nat, k: nat, t: ColorTableV, q: nat)
    requires ParseColorTable(s, p, k) == Some((t, q))
    ensures |t.colors| == t.colorNum == Pow2(k + 1) && q == p + |TableBytes(t)| && At(s, p, TableBytes(t))
  {
    var cs := t.colors;
    var b := RgbBytes(cs);
    TriplesAt(s, p, |cs|);
    RgbBytesAt(cs);
    forall j | 0 <= j < |b| ensures s[p..p + |b|][j] == b[j] {
      var i := j / 3;
      assert j == 3 * i + j % 3;
      assert cs[i] == RgbAt(s, p + 3 * i);
    }
  }

  /** A rebuilt packed byte's size bits, for each table size
      `2^(k + 1)` a packed byte can announce. */
  lemma SizeBitsOfPow2()
    ensures SizeBits(Pow2(1)) == 0 && SizeBits(Pow2(2)) == 1
    ensures SizeBits(Pow2(3)) == 1 && SizeBits(Pow2(4)) == 3
    ensures SizeBits(Pow2(5)) == 4 && SizeBits(Pow2(6)) == 7
    ensures SizeBits(Pow2(7)) == 2 && SizeBits(Pow2(8)) == 7
  {
    assert Pow2(1) == 2 && Pow2(2) == 4 && Pow2(3) == 8 && Pow2(4) == 16;
    assert Pow2(5) == 32 && Pow2(6) == 64 && Pow2(7) == 128 && Pow2(8) == 256;
    SqrtUnique(2, 1);
    SqrtUnique(4, 2);
    SqrtUnique(8, 2);
    SqrtUnique(16, 4);
    SqrtUnique(32, 5);
    SqrtUnique(64, 8);
    SqrtUnique(128, 11);
    SqrtUnique(256, 16);
  }

  /** A table parsed with exponent `k` is rebuilt with a packed byte that
      announces the same exponent only for `k` in {0, 1, 3, 4, 7}. */
  lemma CanonicalExponents(k: nat)
    requires k < 8
    ensures SizeBits(Pow2(k + 1)) == k <==> k == 0 || k == 1 || k == 3 || k == 4 || k == 7
  {
    SizeBitsOfPow2();
  }

  /** A table whose rebuilt packed byte announces its own size. */
  predicate Canonical(t: ColorTableV)
  {
    |t.colors| == t.colorNum == Pow2(SizeBits(t.colorNum) + 1)
  }

  /** An optional table, rebuilt with the packed byte `rebuild` writes for
      it, parses back. */
  lemma OptTableRoundTrip(t: Option<ColorTableV>, s: seq<byte>, p: nat, q: nat)
    requires (t.Some? ==> Canonical(t.value)) && At(s, p, OptTableBytes(t)) && q == p + |OptTableBytes(t)|
    ensures ParseOptTable(s, p, PackedFor(t)) == Some((t, q))
  {
    if t.Some? {
      var k := SizeBits(t.value.colorNum);
      assert PackedFor(t) % 8 == k;
      TableRoundTrip(t.value, s, p, k, q);
    }
  }

  /** A parsed optional table rebuilds to the bytes it was read from; it
      is present exactly when bit 7 of the packed byte is set. */
  lemma OptTableReparse(s: seq<byte>, p: nat, packed: byte, t: Option<ColorTableV>, q: nat)
    requires p <= |s| && ParseOptTable(s, p, packed) == Some((t, q))
    ensures (t.Some? <==> packed >= 0x80) && q == p + |OptTableBytes(t)| && At(s, p, OptTableBytes(t))
  {
    if packed >= 0x80 {
      TableReparse(s, p, packed % 8, t.value, q);
    }
  }

  // ------------------------------------------------------------ extensions

  lemma AtPair(s: seq<byte>, p: nat, a: byte, b: byte)
    requires At(s, p, [a, b])
    ensures s[p] == a && s[p + 1] == b
  {
    assert s[p..p + 2][0] == s[p] && s[p..p + 2][1] == s[p + 1];
  }

  /** The extension parse when the payload and one byte after it are there. */
  lemma ExtensionScan(s: seq<byte>, p: nat, body: Payload, q: nat)
    requires p + 2 <= |s| && Slice(s, p + 2, s[p + 1]) == body && q == p + 3 + |body| && q <= |s|
    ensures ParseExtension(s, p) == Some((ExtensionV(s[p], body), q))
  {
  }

  /** A rebuilt extension parses back, terminator included. */
  lemma ExtensionRoundTrip(e: ExtensionV, s: seq<byte>, p: nat, q: nat)
    requires At(s, p, ExtensionBytes(e)) && q == p + |ExtensionBytes(e)|
    ensures ParseExtension(s, p) == Some((e, q))
  {
    var head := [e.extLabel, |e.payload|];
    AtSplit(s, p, head + e.payload, [0], q - 1);
    AtSplit(s, p, head, e.payload, p + 2);
    AtPair(s, p, e.extLabel, |e.payload|);
    SliceAt(s, p + 2, e.payload);
    ExtensionScan(s, p, e.payload, q);
  }

  /** A parsed extension rebuilds to the bytes it was read from exactly
      when its whole payload was there and the byte consumed after it was
      the 0x00 terminator. */
  lemma ExtensionReparse(s: seq<byte>, p: nat, e: ExtensionV, q: nat)
    requires ParseExtension(s, p) == Some((e, q))
    ensures At(s, p, ExtensionBytes(e)) <==> q == p + 3 + s[p + 1] && s[q - 1] == 0
  {
    if At(s, p, ExtensionBytes(e)) {
      ExtensionAtTerminated(s, p, e, q);
    }
    if q == p + 3 + s[p + 1] && s[q - 1] == 0 {
      ExtensionTerminatedAt(s, p, e, q);
    }
  }

  lemma ExtensionAtTerminated(s: seq<byte>, p: nat, e: ExtensionV, q: nat)
    requires ParseExtension(s, p) == Some((e, q)) && At(s, p, ExtensionBytes(e))
    ensures q == p + 3 + s[p + 1] && s[q - 1] == 0
  {
    var x := ExtensionBytes(e);
    AtBytes(s, p, x);
    assert s[p + 1] == x[1];
    assert s[p + (|x| - 1)] == x[|x| - 1];
  }

  lemma ExtensionTerminatedAt(s: seq<byte>, p: nat, e: ExtensionV, q: nat)
    requires ParseExtension(s, p) == Some((e, q)) && q == p + 3 + s[p + 1] && s[q - 1] == 0
    ensures At(s, p, ExtensionBytes(e))
  {
    assert s[p..q] == [s[p], s[p + 1]] + s[p + 2..q - 1] + [s[q - 1]];
  }

  // ------------------------------------------------------------ image data

  /** A chain as a parse at `p` stores it: each sub-block records the
      offset of its length byte, the length is nonzero, and its bytes are
      that many. */
  predicate ChainFrom(c: seq<SubBlock>, p: nat)
    decreases |c|
  {
    c == [] ||
    (c[0].offset == p && c[0].length > 0 && |c[0].bytes| == c[0].length &&
     ChainFrom(c[1..], p + 1 + c[0].length))
  }

  lemma ChainBytesCons(c: seq<SubBlock>)
    requires c != []
    ensures ChainBytes(c) + [0] == ([c[0].length] + c[0].bytes) + (ChainBytes(c[1..]) + [0])
    ensures |ChainBytes(c)| == 1 + |c[0].bytes| + |ChainBytes(c[1..])|
  {
  }

  /** One turn of the chain scan at a nonzero length byte, forwards. */
  lemma ChainScan(s: seq<byte>, p: nat, dat: seq<byte>, r: nat, rest: seq<SubBlock>, q: nat)
    requires p < |s| && s[p] != 0 && dat == Slice(s, p + 1, s[p]) && r == p + 1 + |dat|
    requires ParseChain(s, r) == Some((rest, q))
    ensures ParseChain(s, p) == Some(([SubBlock(p, s[p], dat)] + rest, q))
  {
  }

  /** One turn of the chain scan at a nonzero length byte, backwards. */
  lemma ChainUnscan(s: seq<byte>, p: nat, dat: seq<byte>, r: nat, c: seq<SubBlock>, q: nat)
    requires p < |s| && s[p] != 0 && dat == Slice(s, p + 1, s[p]) && r == p + 1 + |dat|
    requires ParseChain(s, p) == Some((c, q))
    ensures c != [] && c[0] == SubBlock(p, s[p], dat) && ParseChain(s, r) == Some((c[1..], q))
  {
  }

  /** A rebuilt chain, terminator included, parses back. */
  lemma {:induction false} ChainRoundTrip(c: seq<SubBlock>, s: seq<byte>, p: nat, q: nat)
    requires ChainFrom(c, p) && At(s, p, ChainBytes(c) + [0]) && q == p + |ChainBytes(c)| + 1
    ensures ParseChain(s, p) == Some((c, q))
    decreases |c|
  {
    if c == [] {
      AtByte(s, p, 0);
    } else {
      var b, rest := c[0], c[1..];
      var r := p + 1 + b.length;
      ChainBytesCons(c);
      var head := [b.length] + b.bytes;
      AtSplit(s, p, head, ChainBytes(rest) + [0], r);
      AtSplit(s, p, [b.length], b.bytes, p + 1);
      AtByte(s, p, b.length);
      SliceAt(s, p + 1, b.bytes);
      ChainRoundTrip(rest, s, r, q);
      ChainScan(s, p, b.bytes, r, rest, q);
      assert [SubBlock(p, s[p], b.bytes)] + rest == c;
    }
  }

  lemma ChainFromCons(c: seq<SubBlock>, p: nat, r: nat)
    requires c != [] && c[0].offset == p && c[0].length > 0 && |c[0].bytes| == c[0].length
    requires r == p + 1 + c[0].length && ChainFrom(c[1..], r)
    ensures ChainFrom(c, p)
  {
  }

  lemma ChainFromAt(c: seq<SubBlock>, a: nat, b: nat)
    requires ChainFrom(c, a) && a == b
    ensures ChainFrom(c, b)
  {
  }

  /** The length byte and bytes of a sub-block read in full. */
  lemma SubBlockAt(s: seq<byte>, p: nat, dat: seq<byte>)
    requires p < |s| && dat == Slice(s, p + 1, s[p]) && |dat| == s[p]
    ensures At(s, p, [s[p]] + dat)
  {
    AtByte(s, p, s[p]);
    if dat != [] {
      assert s[p + 1..p + 1 + |dat|] == dat;
    }
    AtJoin(s, p, [s[p]], dat, p + 1);
  }

  /** A parsed chain rebuilds to the bytes it was read from: the parse
      fails rather than return a sub-block cut short by the end of the file. */
  lemma {:induction false} ChainReparse(s: seq<byte>, p: nat, c: seq<SubBlock>, q: nat)
    requires ParseChain(s, p) == Some((c, q))
    ensures ChainFrom(c, p) && q == p + |ChainBytes(c)| + 1 && At(s, p, ChainBytes(c) + [0])
    decreases |s| - p
  {
    if s[p] == 0 {
      AtByte(s, p, 0);
    } else {
      var dat := Slice(s, p + 1, s[p]);
      var r := p + 1 + |dat|;
      ChainUnscan(s, p, dat, r, c, q);
      var rest := c[1..];
      ChainReparse(s, r, rest, q);
      assert |dat| == s[p];
      ChainFromCons(c, p, r);
      ChainBytesCons(c);
      SubBlockAt(s, p, dat);
      AtJoin(s, p, [s[p]] + dat, ChainBytes(rest) + [0], r);
    }
  }

  lemma ImageDataBytesSplit(d: ImageDataV)
    ensures ImageDataBytes(d) == [d.minCodeSize] + (ChainBytes(d.chain) + [0])
  {
  }

  /** A rebuilt image data block whose chain sits where it is written parses back. */
  lemma ImageDataRoundTrip(d: ImageDataV, s: seq<byte>, p: nat, q: nat)
    requires ChainFrom(d.chain, p + 1) && At(s, p, ImageDataBytes(d)) && q == p + |ImageDataBytes(d)|
    ensures ParseImageData(s, p) == Some((d, q))
  {
    ImageDataBytesSplit(d);
    AtSplit(s, p, [d.minCodeSize], ChainBytes(d.chain) + [0], p + 1);
    AtByte(s, p, d.minCodeSize);
    ChainRoundTrip(d.chain, s, p + 1, q);
  }

  /** A parsed image data block rebuilds to the bytes it was read from. */
  lemma ImageDataReparse(s: seq<byte>, p: nat, d: ImageDataV, q: nat)
    requires ParseImageData(s, p) == Some((d, q))
    ensures ChainFrom(d.chain, p + 1) && q == p + |ImageDataBytes(d)| && At(s, p, ImageDataBytes(d))
  {
    ChainReparse(s, p + 1, d.chain, q);
    AtByte(s, p, d.minCodeSize);
    AtJoin(s, p, [d.minCodeSize], ChainBytes(d.chain) + [0], p + 1);
    ImageDataBytesSplit(d);
  }

  // ---------------------------------------------------------------- images

  /** An image as a parse at `p` produces it: a canonical local table and
      a chain that sits where it is written. */
  predicate ImageAt(i: ImageV, p: nat)
  {
    (i.lct.Some? ==> Canonical(i.lct.value)) && ChainFrom(i.data.chain, p + 9 + |OptTableBytes(i.lct)| + 1)
  }

  lemma DescriptorRoundTrip(i: ImageV, s: seq<byte>, p: nat)
    requires At(s, p, DescriptorBytes(i))
    ensures U16At(s, p) == i.left && U16At(s, p + 2) == i.top
    ensures U16At(s, p + 4) == i.width && U16At(s, p + 6) == i.height
    ensures s[p + 8] == PackedFor(i.lct)
  {
    var a, b, c, d := LE16(i.left), LE16(i.top), LE16(i.width), LE16(i.height);
    AtSplit(s, p, a + b + c + d, [PackedFor(i.lct)], p + 8);
    AtSplit(s, p, a + b + c, d, p + 6);
    AtSplit(s, p, a + b, c, p + 4);
    AtSplit(s, p, a, b, p + 2);
    AtByte(s, p + 8, PackedFor(i.lct));
    LE16RoundTrip(i.left, s, p);
    LE16RoundTrip(i.top, s, p + 2);
    LE16RoundTrip(i.width, s, p + 4);
    LE16RoundTrip(i.height, s, p + 6);
  }

  /** A descriptor read at `p` packs back to its 9 bytes exactly when its
      packed byte is the one `rebuild` writes. */
  lemma DescriptorReparse(s: seq<byte>, p: nat, i: ImageV)
    requires p + 9 <= |s|
    requires i.left == U16At(s, p) && i.top == U16At(s, p + 2)
    requires i.width == U16At(s, p + 4) && i.height == U16At(s, p + 6)
    ensures At(s, p, DescriptorBytes(i)) <==> s[p + 8] == PackedFor(i.lct)
  {
    if At(s, p, DescriptorBytes(i)) {
      DescriptorRoundTrip(i, s, p);
    }
    if s[p + 8] == PackedFor(i.lct) {
      var a, b, c, d := LE16(i.left), LE16(i.top), LE16(i.width), LE16(i.height);
      U16Bytes(s, p);
      U16Bytes(s, p + 2);
      U16Bytes(s, p + 4);
      U16Bytes(s, p + 6);
      AtJoin(s, p, a, b, p + 2);
      AtJoin(s, p, a + b, c, p + 4);
      AtJoin(s, p, a + b + c, d, p + 6);
      AtByte(s, p + 8, PackedFor(i.lct));
      AtJoin(s, p, a + b + c + d, [PackedFor(i.lct)], p + 8);
    }
  }

  /** Three parts in a row occur where their concatenation does. */
  lemma AtThree(s: seq<byte>, p: nat, a: seq<byte>, b: seq<byte>, c: seq<byte>, q1: nat, q2: nat)
    requires q1 == p + |a| && q2 == q1 + |b| && At(s, q1, b) && At(s, q2, c)
    ensures At(s, p, a + b + c) <==> At(s, p, a)
  {
    if At(s, p, a + b + c) {
      AtSplit(s, p, a + b, c, q2);
      AtSplit(s, p, a, b, q1);
    }
    if At(s, p, a) {
      AtJoin(s, p, a, b, q1);
      AtJoin(s, p, a + b, c, q2);
    }
  }

  /** The image parse, given the parses of its table and its data. */
  lemma ImageScan(s: seq<byte>, p: nat, lct: Option<ColorTableV>, q1: nat, d: ImageDataV, q: nat)
    requires p + 9 <= |s| && ParseOptTable(s, p + 9, s[p + 8]) == Some((lct, q1))
    requires ParseImageData(s, q1) == Some((d, q))
    ensures ParseImage(s, p) == Some((ImageV(U16At(s, p), U16At(s, p + 2), U16At(s, p + 4), U16At(s, p + 6), lct, d), q))
  {
  }

  /** A rebuilt image parses back. */
  lemma ImageRoundTrip(i: ImageV, s: seq<byte>, p: nat, q: nat)
    requires ImageAt(i, p) && At(s, p, ImageBytes(i)) && q == p + |ImageBytes(i)|
    ensures ParseImage(s, p) == Some((i, q))
  {
    var t := OptTableBytes(i.lct);
    var q1 := p + 9 + |t|;
    AtSplit(s, p, DescriptorBytes(i) + t, ImageDataBytes(i.data), q1);
    AtSplit(s, p, DescriptorBytes(i), t, p + 9);
    DescriptorRoundTrip(i, s, p);
    OptTableRoundTrip(i.lct, s, p + 9, q1);
    ImageDataRoundTrip(i.data, s, q1, q);
    ImageScan(s, p, i.lct, q1, i.data, q);
  }

  /** The parses of an image's descriptor, table and data, given the
      image parse; `q1` is where the data starts. */
  lemma ImageUnscan(s: seq<byte>, p: nat, i: ImageV, q: nat) returns (q1: nat)
    requires ParseImage(s, p) == Some((i, q))
    ensures p + 9 <= q1 <= |s| && ParseOptTable(s, p + 9, s[p + 8]) == Some((i.lct, q1))
    ensures ParseImageData(s, q1) == Some((i.data, q))
    ensures i.left == U16At(s, p) && i.top == U16At(s, p + 2)
    ensures i.width == U16At(s, p + 4) && i.height == U16At(s, p + 6)
  {
    q1 := ParseOptTable(s, p + 9, s[p + 8]).value.1;
  }

  /** A parsed image rebuilds to the bytes it was read from exactly when
      its packed byte is the one `rebuild` writes for its local table. */
  lemma ImageReparse(s: seq<byte>, p: nat, i: ImageV, q: nat)
    requires ParseImage(s, p) == Some((i, q))
    ensures ChainFrom(i.data.chain, p + 9 + |OptTableBytes(i.lct)| + 1) && q == p + |ImageBytes(i)|
    ensures At(s, p, ImageBytes(i)) <==> s[p + 8] == PackedFor(i.lct)
  {
    var q1 := ImageUnscan(s, p, i, q);
    OptTableReparse(s, p + 9, s[p + 8], i.lct, q1);
    ImageDataReparse(s, q1, i.data, q);
    ImageRejoin(s, p, i, q1, q);
  }

  /** An image whose table and data rebuild to the bytes after its
      descriptor rebuilds in full exactly when its descriptor does. */
  lemma ImageRejoin(s: seq<byte>, p: nat, i: ImageV, q1: nat, q: nat)
    requires p + 9 <= |s|
    requires i.left == U16At(s, p) && i.top == U16At(s, p + 2)
    requires i.width == U16At(s, p + 4) && i.height == U16At(s, p + 6)
    requires q1 == p + 9 + |OptTableBytes(i.lct)| && At(s, p + 9, OptTableBytes(i.lct))
    requires ChainFrom(i.data.chain, q1 + 1) && q == q1 + |ImageDataBytes(i.data)| && At(s, q1, ImageDataBytes(i.data))
    ensures ChainFrom(i.data.chain, p + 9 + |OptTableBytes(i.lct)| + 1) && q == p + |ImageBytes(i)|
    ensures At(s, p, ImageBytes(i)) <==> s[p + 8] == PackedFor(i.lct)
  {
    ChainFromAt(i.data.chain, q1 + 1, p + 9 + |OptTableBytes(i.lct)| + 1);
    DescriptorReparse(s, p, i);
    AtThree(s, p, DescriptorBytes(i), OptTableBytes(i.lct), ImageDataBytes(i.data), p + 9, q1);
  }

  // ------------------------------------------------------- blocks and file

  predicate BlockAt(b: BlockV, p: nat)
  {
    b.ImgB? ==> ImageAt(b.img, p + 1)
  }

  /** Blocks as a parse from `p` produces them, each at its own position. */
  predicate BlocksAt(bs: seq<BlockV>, p: nat)
    decreases |bs|
  {
    bs == [] || (BlockAt(bs[0], p) && BlocksAt(bs[1..], p + |BlockBytes(bs[0])|))
  }

  lemma {:induction false} BlocksBytesCons(b: BlockV, rest: seq<BlockV>)
    ensures BlocksBytes([b] + rest) == BlockBytes(b) + BlocksBytes(rest)
    decreases |rest|
  {
    var bs := [b] + rest;
    if rest == [] {
      assert bs[..|bs| - 1] == [];
    } else {
      var init := rest[..|rest| - 1];
      assert bs[..|bs| - 1] == [b] + init;
      BlocksBytesCons(b, init);
      AppendAssoc(BlockBytes(b), BlocksBytes(init), BlockBytes(rest[|rest| - 1]));
    }
  }

  /** The scan at an extension marker. */
  lemma ScanExtension(s: seq<byte>, p: nat, e: ExtensionV, q: nat)
    requires p < |s| && s[p] == ExtensionMarker && ParseExtension(s, p + 1) == Some((e, q))
    ensures ParseBlocks(s, p) == Prepend(ExtB(e), ParseBlocks(s, q))
  {
  }

  /** The scan at an image marker. */
  lemma ScanImage(s: seq<byte>, p: nat, i: ImageV, q: nat)
    requires p < |s| && s[p] == ImageMarker && ParseImage(s, p + 1) == Some((i, q))
    ensures ParseBlocks(s, p) == Prepend(ImgB(i), ParseBlocks(s, q))
  {
  }

  /** A rebuilt block, marker first, is scanned back as that block. */
  lemma BlockRoundTrip(bs: seq<BlockV>, s: seq<byte>, p: nat, q: nat)
    requires bs != [] && BlockAt(bs[0], p) && At(s, p, BlockBytes(bs[0])) && q == p + |BlockBytes(bs[0])|
    requires ParseBlocks(s, q) == Some(bs[1..])
    ensures ParseBlocks(s, p) == Some(bs)
  {
    assert [bs[0]] + bs[1..] == bs;
    match bs[0] {
      case ExtB(e) =>
        AtSplit(s, p, [ExtensionMarker], ExtensionBytes(e), p + 1);
        AtByte(s, p, ExtensionMarker);
        ExtensionRoundTrip(e, s, p + 1, q);
        ScanExtension(s, p, e, q);
      case ImgB(i) =>
        AtSplit(s, p, [ImageMarker], ImageBytes(i), p + 1);
        AtByte(s, p, ImageMarker);
        ImageRoundTrip(i, s, p + 1, q);
        ScanImage(s, p, i, q);
    }
  }

  /** What follows `p` starts with `a`, and what follows `a` is `b`. */
  lemma SuffixSplit(s: seq<byte>, p: nat, a: seq<byte>, b: seq<byte>, q: nat)
    requires p <= |s| && s[p..] == a + b && q == p + |a|
    ensures At(s, p, a) && q <= |s| && s[q..] == b
  {
    assert s[p..q] == s[p..][..|a|];
    assert s[q..] == s[p..][|a|..];
  }

  lemma BlocksAtCons(bs: seq<BlockV>, p: nat, q: nat)
    requires bs != [] && BlocksAt(bs, p) && q == p + |BlockBytes(bs[0])|
    ensures BlockAt(bs[0], p) && BlocksAt(bs[1..], q)
  {
  }

  lemma BlocksBytesFirst(bs: seq<BlockV>)
    requires bs != []
    ensures BlocksBytes(bs) + [Trailer] == BlockBytes(bs[0]) + (BlocksBytes(bs[1..]) + [Trailer])
  {
    assert [bs[0]] + bs[1..] == bs;
    BlocksBytesCons(bs[0], bs[1..]);
    AppendAssoc(BlockBytes(bs[0]), BlocksBytes(bs[1..]), [Trailer]);
  }

  /** The first rebuilt block sits at `p`, and the rest follow it. */
  lemma BlocksSplit(bs: seq<BlockV>, s: seq<byte>, p: nat, q: nat)
    requires bs != [] && BlocksAt(bs, p) && p <= |s| && s[p..] == BlocksBytes(bs) + [Trailer]
    requires q == p + |BlockBytes(bs[0])|
    ensures BlockAt(bs[0], p) && At(s, p, BlockBytes(bs[0]))
    ensures BlocksAt(bs[1..], q) && q <= |s| && s[q..] == BlocksBytes(bs[1..]) + [Trailer]
  {
    BlocksBytesFirst(bs);
    SuffixSplit(s, p, BlockBytes(bs[0]), BlocksBytes(bs[1..]) + [Trailer], q);
    BlocksAtCons(bs, p, q);
  }

  /** Rebuilt blocks followed by the trailer scan back to the same blocks:
      the trailer is skipped and the end of the file ends the scan. */
  lemma {:induction false} BlocksRoundTrip(bs: seq<BlockV>, s: seq<byte>, p: nat)
    requires BlocksAt(bs, p) && p <= |s| && s[p..] == BlocksBytes(bs) + [Trailer]
    ensures ParseBlocks(s, p) == Some(bs)
    decreases |bs|
  {
    if bs == [] {
      assert s[p] == s[p..][0] == Trailer;
      assert |s| == p + 1;
    } else {
      var q := p + |BlockBytes(bs[0])|;
      BlocksSplit(bs, s, p, q);
      BlocksRoundTrip(bs[1..], s, q);
      BlockRoundTrip(bs, s, p, q);
    }
  }

  /** A file value as `read_from_stream` produces it from offset 0. */
  predicate WellPlaced(g: GifV)
  {
    |g.header| == 3 && |g.version| == 3 && (g.gct.Some? ==> Canonical(g.gct.value)) &&
    BlocksAt(g.blocks, 13 + |OptTableBytes(g.gct)|)
  }

  /** The screen descriptor `recompile` writes reads back as the same fields. */
  lemma ScreenRoundTrip(g: GifV, s: seq<byte>)
    requires At(s, 6, ScreenBytes(g))
    ensures U16At(s, 6) == g.canvasW && U16At(s, 8) == g.canvasH
    ensures s[10] == PackedFor(g.gct) && s[11] == g.bkgCol && s[12] == g.pixAspect
  {
    var w, h := LE16(g.canvasW), LE16(g.canvasH);
    var rest := [PackedFor(g.gct), g.bkgCol, g.pixAspect];
    AtSplit(s, 6, w + h, rest, 10);
    AtSplit(s, 6, w, h, 8);
    AtBytes(s, 10, rest);
    LE16RoundTrip(g.canvasW, s, 6);
    LE16RoundTrip(g.canvasH, s, 8);
  }

  /** The file parse, given the parses of its global table and its blocks. */
  lemma GifScan(s: seq<byte>, t: Option<ColorTableV>, q: nat, bs: seq<BlockV>)
    requires 13 <= |s| && ParseOptTable(s, 13, s[10]) == Some((t, q)) && ParseBlocks(s, q) == Some(bs)
    ensures ParseGif(s, 0) == Some(GifV(s[0..3], s[3..6], U16At(s, 6), U16At(s, 8), s[11], s[12], t, bs))
  {
    assert ParseContents(s, 13, s[10]) == Some((t, q, bs));
  }

  /** The bytes `recompile` writes read back as the same file. */
  lemma GifRoundTrip(g: GifV)
    requires WellPlaced(g)
    ensures ParseGif(GifBytes(g), 0) == Some(g)
  {
    var s := GifBytes(g);
    var hv := g.header + g.version;
    var scr := ScreenBytes(g);
    var t := OptTableBytes(g.gct);
    var q := 13 + |t|;
    var rest := BlocksBytes(g.blocks) + [Trailer];
    assert s == hv + scr + t + rest;
    SuffixSplit(s, 0, hv + scr + t, rest, q);
    AtSplit(s, 0, hv + scr, t, 13);
    AtSplit(s, 0, hv, scr, 6);
    AtSplit(s, 0, g.header, g.version, 3);
    ScreenRoundTrip(g, s);
    OptTableRoundTrip(g.gct, s, 13, q);
    BlocksRoundTrip(g.blocks, s, q);
    GifScan(s, g.gct, q, g.blocks);
    assert s[0..3] == g.header && s[3..6] == g.version;
  }

  // ------------------------------------------- parse, then recompile

  /** The bytes from `p` are laid out as `recompile` writes blocks: every
      extension has its whole payload and a 0x00 terminator, every image
      carries the packed byte its rebuild recomputes, no byte is skipped
      between blocks, and one trailer byte ends the file. */
  predicate CanonicalBlocks(s: seq<byte>, p: nat)
    decreases |s| - p
  {
    p < |s| &&
    if s[p] == ExtensionMarker then
      p + 3 <= |s| && p + 4 + s[p + 2] <= |s| && s[p + 3 + s[p + 2]] == 0 &&
      CanonicalBlocks(s, p + 4 + s[p + 2])
    else if s[p] == ImageMarker then
      match ParseImage(s, p + 1)
      case None => false
      case Some((i, q)) => s[p + 9] == PackedFor(i.lct) && CanonicalBlocks(s, q)
    else
      s[p] == Trailer && p + 1 == |s|
  }

  /** A complete extension with a zero terminator is its rebuild. */
  lemma ExtensionExact(s: seq<byte>, p: nat, e: ExtensionV, q: nat)
    requires p < |s| && s[p] == ExtensionMarker && ParseExtension(s, p + 1) == Some((e, q))
    requires p + 4 + s[p + 2] <= |s| && s[p + 3 + s[p + 2]] == 0
    ensures q == p + 4 + s[p + 2] && q == p + |BlockBytes(ExtB(e))| && At(s, p, BlockBytes(ExtB(e)))
  {
    ExtensionReparse(s, p + 1, e, q);
    AtByte(s, p, ExtensionMarker);
    AtJoin(s, p, [ExtensionMarker], ExtensionBytes(e), p + 1);
  }

  /** An image with the recomputed packed byte is its rebuild. */
  lemma ImageExact(s: seq<byte>, p: nat, i: ImageV, q: nat)
    requires p < |s| && s[p] == ImageMarker && ParseImage(s, p + 1) == Some((i, q))
    requires s[p + 9] == PackedFor(i.lct)
    ensures q == p + |BlockBytes(ImgB(i))| && At(s, p, BlockBytes(ImgB(i)))
  {
    ImageReparse(s, p + 1, i, q);
    AtByte(s, p, ImageMarker);
    AtJoin(s, p, [ImageMarker], ImageBytes(i), p + 1);
  }

  /** A rebuilt block followed by rebuilt blocks and the trailer. */
  lemma BlocksJoin(s: seq<byte>, p: nat, b: BlockV, rest: seq<BlockV>, q: nat)
    requires At(s, p, BlockBytes(b)) && q == p + |BlockBytes(b)| && s[q..] == BlocksBytes(rest) + [Trailer]
    ensures s[p..] == BlocksBytes([b] + rest) + [Trailer]
  {
    SuffixJoin(s, p, BlockBytes(b), BlocksBytes(rest) + [Trailer], q);
    BlocksBytesCons(b, rest);
    AppendAssoc(BlockBytes(b), BlocksBytes(rest), [Trailer]);
  }

  lemma SuffixJoin(s: seq<byte>, p: nat, a: seq<byte>, b: seq<byte>, q: nat)
    requires At(s, p, a) && q == p + |a| && s[q..] == b
    ensures s[p..] == a + b
  {
    assert s[p..] == s[p..q] + s[q..];
  }

  /** Canonical blocks are exactly the bytes `recompile` writes for the
      blocks the scan finds there, and the trailer. */
  lemma {:induction false} CanonicalBlocksBytes(s: seq<byte>, p: nat, bs: seq<BlockV>)
    requires ParseBlocks(s, p) == Some(bs) && CanonicalBlocks(s, p)
    ensures p < |s| && s[p..] == BlocksBytes(bs) + [Trailer]
    decreases |s| - p
  {
    if s[p] == ExtensionMarker {
      var e, q := ScanFoundExtension(s, p, bs);
      CanonicalAtExtension(s, p, q);
      ExtensionExact(s, p, e, q);
      CanonicalBlocksBytes(s, q, bs[1..]);
      BlocksJoin(s, p, ExtB(e), bs[1..], q);
    } else if s[p] == ImageMarker {
      var i, q := ScanFoundImage(s, p, bs);
      CanonicalAtImage(s, p, i, q);
      ImageExact(s, p, i, q);
      CanonicalBlocksBytes(s, q, bs[1..]);
      BlocksJoin(s, p, ImgB(i), bs[1..], q);
    } else {
      CanonicalAtEnd(s, p, bs);
    }
  }

  lemma CanonicalAtExtension(s: seq<byte>, p: nat, q: nat)
    requires CanonicalBlocks(s, p) && s[p] == ExtensionMarker && p + 3 <= |s| && q == p + 4 + s[p + 2]
    ensures q <= |s| && s[q - 1] == 0 && CanonicalBlocks(s, q)
  {
  }

  lemma CanonicalAtImage(s: seq<byte>, p: nat, i: ImageV, q: nat)
    requires CanonicalBlocks(s, p) && s[p] == ImageMarker && ParseImage(s, p + 1) == Some((i, q))
    ensures s[p + 9] == PackedFor(i.lct) && CanonicalBlocks(s, q)
  {
  }

  lemma CanonicalAtEnd(s: seq<byte>, p: nat, bs: seq<BlockV>)
    requires CanonicalBlocks(s, p) && s[p] != ExtensionMarker && s[p] != ImageMarker && ParseBlocks(s, p) == Some(bs)
    ensures s[p..] == BlocksBytes(bs) + [Trailer]
  {
    assert ParseBlocks(s, p) == ParseBlocks(s, p + 1);
    assert s[p..] == [Trailer];
  }

  /** What the scan reads at an extension marker. */
  lemma ScanFoundExtension(s: seq<byte>, p: nat, bs: seq<BlockV>) returns (e: ExtensionV, q: nat)
    requires p + 3 <= |s| && s[p] == ExtensionMarker && ParseBlocks(s, p) == Some(bs)
    ensures ParseExtension(s, p + 1) == Some((e, q)) && bs != [] && bs[0] == ExtB(e) && ParseBlocks(s, q) == Some(bs[1..])
  {
    var r := ParseExtension(s, p + 1);
    e, q := r.value.0, r.value.1;
    ScanExtension(s, p, e, q);
    var rest := ParseBlocks(s, q).value;
    assert bs == [ExtB(e)] + rest;
    assert bs[1..] == rest;
  }

  /** The extension a scan finds where a rebuilt extension block sits is
      that extension, canonical, and the scan goes on after it. */
  lemma ExtensionFound(s: seq<byte>, p: nat, e: ExtensionV, bs: seq<BlockV>, q: nat)
    requires ParseBlocks(s, p) == Some(bs) && bs != [] && bs[0] == ExtB(e)
    requires At(s, p, BlockBytes(ExtB(e))) && q == p + |BlockBytes(ExtB(e))|
    ensures p + 3 <= |s| && s[p] == ExtensionMarker && p + 4 + s[p + 2] == q <= |s| && s[q - 1] == 0
    ensures ParseBlocks(s, q) == Some(bs[1..])
  {
    AtSplit(s, p, [ExtensionMarker], ExtensionBytes(e), p + 1);
    AtByte(s, p, ExtensionMarker);
    ExtensionRoundTrip(e, s, p + 1, q);
    ExtensionReparse(s, p + 1, e, q);
    ScanExtension(s, p, e, q);
    assert [bs[0]] + bs[1..] == bs;
  }

  /** A rebuilt block starts with its marker. */
  lemma MarkerAt(s: seq<byte>, p: nat, m: byte, x: seq<byte>)
    requires At(s, p, [m] + x)
    ensures p < |s| && s[p] == m && At(s, p + 1, x)
  {
    AtSplit(s, p, [m], x, p + 1);
    AtByte(s, p, m);
  }

  /** The image a scan finds where a rebuilt image sits ends where the
      rebuilt bytes end and carries the recomputed packed byte. */
  lemma ImageFound(s: seq<byte>, p: nat, i: ImageV, q: nat, q': nat)
    requires At(s, p + 1, ImageBytes(i)) && ParseImage(s, p + 1) == Some((i, q'))
    requires q == p + |BlockBytes(ImgB(i))|
    ensures q' == q && s[p + 9] == PackedFor(i.lct)
  {
    ImageReparse(s, p + 1, i, q');
    assert |BlockBytes(ImgB(i))| == 1 + |ImageBytes(i)|;
  }

  /** What the scan reads at an image marker. */
  lemma ScanFoundImage(s: seq<byte>, p: nat, bs: seq<BlockV>) returns (i: ImageV, q: nat)
    requires p < |s| && s[p] == ImageMarker && ParseBlocks(s, p) == Some(bs)
    ensures ParseImage(s, p + 1) == Some((i, q)) && bs != [] && bs[0] == ImgB(i) && ParseBlocks(s, q) == Some(bs[1..])
  {
    var r := ParseImage(s, p + 1);
    i, q := r.value.0, r.value.1;
    ScanImage(s, p, i, q);
    var rest := ParseBlocks(s, q).value;
    assert bs == [ImgB(i)] + rest;
    assert bs[1..] == rest;
  }

  /** Blocks that are the bytes `recompile` writes for them are canonical. */
  lemma {:induction false} BytesCanonicalBlocks(s: seq<byte>, p: nat, bs: seq<BlockV>)
    requires ParseBlocks(s, p) == Some(bs) && p <= |s| && s[p..] == BlocksBytes(bs) + [Trailer]
    ensures CanonicalBlocks(s, p)
    decreases |bs|
  {
    if bs == [] {
      assert s[p] == s[p..][0] == Trailer;
      assert |s| == p + 1;
    } else {
      var q := p + |BlockBytes(bs[0])|;
      BlocksBytesFirst(bs);
      SuffixSplit(s, p, BlockBytes(bs[0]), BlocksBytes(bs[1..]) + [Trailer], q);
      match bs[0]
      case ExtB(e) =>
        ExtensionFound(s, p, e, bs, q);
        BytesCanonicalBlocks(s, q, bs[1..]);
        CanonicalExtension(s, p, q);
      case ImgB(i) =>
        MarkerAt(s, p, ImageMarker, ImageBytes(i));
        var i', q' := ScanFoundImage(s, p, bs);
        ImageFound(s, p, i, q, q');
        BytesCanonicalBlocks(s, q, bs[1..]);
        CanonicalImage(s, p, i, q);
    }
  }

  lemma CanonicalExtension(s: seq<byte>, p: nat, q: nat)
    requires p + 3 <= |s| && s[p] == ExtensionMarker && p + 4 + s[p + 2] == q <= |s| && s[q - 1] == 0
    requires CanonicalBlocks(s, q)
    ensures CanonicalBlocks(s, p)
  {
  }

  lemma CanonicalImage(s: seq<byte>, p: nat, i: ImageV, q: nat)
    requires p < |s| && s[p] == ImageMarker && ParseImage(s, p + 1) == Some((i, q))
    requires s[p + 9] == PackedFor(i.lct) && CanonicalBlocks(s, q)
    ensures CanonicalBlocks(s, p)
  {
  }

  /** The blocks a scan finds rebuild, with the trailer, to the rest of
      the file exactly when that rest is in canonical form. */
  lemma BlocksReparse(s: seq<byte>, p: nat, bs: seq<BlockV>)
    requires ParseBlocks(s, p) == Some(bs)
    ensures CanonicalBlocks(s, p) <==> p <= |s| && s[p..] == BlocksBytes(bs) + [Trailer]
  {
    if CanonicalBlocks(s, p) {
      CanonicalBlocksBytes(s, p, bs);
    }
    if p <= |s| && s[p..] == BlocksBytes(bs) + [Trailer] {
      BytesCanonicalBlocks(s, p, bs);
    }
  }

  /** A screen descriptor read from offset 6 packs back to its 7 bytes
      exactly when its packed byte is the one `recompile` writes. */
  lemma ScreenReparse(s: seq<byte>, g: GifV)
    requires 13 <= |s| && U16At(s, 6) == g.canvasW && U16At(s, 8) == g.canvasH
    requires s[11] == g.bkgCol && s[12] == g.pixAspect
    ensures At(s, 6, ScreenBytes(g)) <==> s[10] == PackedFor(g.gct)
  {
    if At(s, 6, ScreenBytes(g)) {
      ScreenRoundTrip(g, s);
    }
    if s[10] == PackedFor(g.gct) {
      var w, h := LE16(g.canvasW), LE16(g.canvasH);
      var rest := [PackedFor(g.gct), g.bkgCol, g.pixAspect];
      U16Bytes(s, 6);
      U16Bytes(s, 8);
      AtJoin(s, 6, w, h, 8);
      assert s[10..13] == rest;
      AtJoin(s, 6, w + h, rest, 10);
    }
  }

  /** The parses a file parse from offset 0 is made of; `q` is where the
      blocks start. */
  lemma GifUnscan(s: seq<byte>, g: GifV) returns (q: nat)
    requires ParseGif(s, 0) == Some(g)
    ensures 13 <= q <= |s| && ParseOptTable(s, 13, s[10]) == Some((g.gct, q)) && ParseBlocks(s, q) == Some(g.blocks)
    ensures g.header == s[0..3] && g.version == s[3..6]
    ensures U16At(s, 6) == g.canvasW && U16At(s, 8) == g.canvasH && s[11] == g.bkgCol && s[12] == g.pixAspect
  {
    q := ParseContents(s, 13, s[10]).value.1;
  }

  /** The file is the header, the version, the descriptor, the table and
      the blocks that make up `GifBytes(g)`, in that order. */
  lemma GifJoin(s: seq<byte>, g: GifV, q: nat)
    requires 13 <= q <= |s| && g.header == s[0..3] && g.version == s[3..6]
    requires At(s, 6, ScreenBytes(g)) && q == 13 + |OptTableBytes(g.gct)| && At(s, 13, OptTableBytes(g.gct))
    requires s[q..] == BlocksBytes(g.blocks) + [Trailer]
    ensures GifBytes(g) == s
  {
    var hv := g.header + g.version;
    var pre := hv + ScreenBytes(g) + OptTableBytes(g.gct);
    AtJoin(s, 0, g.header, g.version, 3);
    AtJoin(s, 0, hv, ScreenBytes(g), 6);
    AtJoin(s, 0, hv + ScreenBytes(g), OptTableBytes(g.gct), 13);
    assert s == s[0..q] + s[q..];
    AppendAssoc(pre, BlocksBytes(g.blocks), [Trailer]);
  }

  /** `GifBytes(g)` split at the start of the blocks. */
  lemma GifSplit(s: seq<byte>, g: GifV, q: nat)
    requires GifBytes(g) == s && |g.header| == 3 && |g.version| == 3 && q == 13 + |OptTableBytes(g.gct)|
    ensures At(s, 6, ScreenBytes(g)) && q <= |s| && s[q..] == BlocksBytes(g.blocks) + [Trailer]
  {
    var hv := g.header + g.version;
    var rest := BlocksBytes(g.blocks) + [Trailer];
    assert s == hv + ScreenBytes(g) + OptTableBytes(g.gct) + rest;
    SuffixSplit(s, 0, hv + ScreenBytes(g) + OptTableBytes(g.gct), rest, q);
    AtSplit(s, 0, hv + ScreenBytes(g), OptTableBytes(g.gct), 13);
    AtSplit(s, 0, hv, ScreenBytes(g), 6);
  }

  /** A file read from offset 0 is exactly the bytes `recompile` writes
      for it when, and only when, its packed byte is the recomputed one and
      its blocks are canonical. */
  lemma GifReparse(s: seq<byte>, g: GifV)
    requires ParseGif(s, 0) == Some(g)
    ensures GifBytes(g) == s <==> s[10] == PackedFor(g.gct) && CanonicalBlocks(s, 13 + |OptTableBytes(g.gct)|)
  {
    var q := GifUnscan(s, g);
    OptTableReparse(s, 13, s[10], g.gct, q);
    ScreenReparse(s, g);
    BlocksReparse(s, q, g.blocks);
    if GifBytes(g) == s {
      GifSplit(s, g, q);
    }
    if s[10] == PackedFor(g.gct) && CanonicalBlocks(s, q) {
      GifJoin(s, g, q);
    }
  }
}
