/** Which bytes each parse reads. A parse from `p` reads nothing before
    `p`, and one that succeeds reads nothing at or after the position where
    it ends (only the file length); so the block scan of a file changes in
    exactly one block when a write lands inside that block's bytes. */
module Frames {
  import opened Bytes
  import opened GifFormat
  import opened RoundTrips

  // ------------------------------------------- what a parse does not read

  // A parse from `p` reads nothing before `p`.

  /** `t` has the length of `s` and agrees with it from `p` on. */
  predicate SameFrom(s: seq<byte>, t: seq<byte>, p: nat)
  {
    |s| == |t| && forall i :: p <= i < |s| ==> s[i] == t[i]
  }

  lemma SliceSame(s: seq<byte>, t: seq<byte>, p: nat, n: nat)
    requires SameFrom(s, t, p)
    ensures Slice(s, p, n) == Slice(t, p, n)
  {
  }

  lemma {:induction false} TriplesSame(s: seq<byte>, t: seq<byte>, p: nat, n: nat)
    requires SameFrom(s, t, p) && (n > 0 ==> p + 3 * n <= |s|)
    ensures Triples(s, p, n) == Triples(t, p, n)
  {
    if n > 0 {
      assert p + 3 * (n - 1) <= |s|;
      TriplesSame(s, t, p, n - 1);
    }
  }

  lemma OptTableSame(s: seq<byte>, t: seq<byte>, p: nat, packed: byte)
    requires SameFrom(s, t, p)
    ensures ParseOptTable(s, p, packed) == ParseOptTable(t, p, packed)
  {
    var n := Pow2(packed % 8 + 1);
    if packed >= 0x80 && p + 3 * n <= |s| {
      TriplesSame(s, t, p, n);
    }
  }

  lemma ChainSame(s: seq<byte>, t: seq<byte>, p: nat)
    requires SameFrom(s, t, p)
    ensures ParseChain(s, p) == ParseChain(t, p)
  {
    var r, r' := ParseChain(s, p), ParseChain(t, p);
    if r.Some? {
      ChainPrefix(s, t, p, r.value.0, r.value.1);
    } else if r'.Some? {
      ChainPrefix(t, s, p, r'.value.0, r'.value.1);
    }
  }

  /** One turn of the chain scan at a nonzero length byte. */
  lemma ChainOneStep(s: seq<byte>, p: nat, dat: seq<byte>)
    requires p < |s| && s[p] != 0 && dat == Slice(s, p + 1, s[p])
    ensures var r := ParseChain(s, p + 1 + |dat|);
      ParseChain(s, p) == if r.None? then None else Some(([SubBlock(p, s[p], dat)] + r.value.0, r.value.1))
  {
  }

  lemma ImageBodySame(s: seq<byte>, t: seq<byte>, p: nat, packed: byte)
    requires SameFrom(s, t, p)
    ensures ParseImageBody(s, p, packed) == ParseImageBody(t, p, packed)
  {
    OptTableSame(s, t, p, packed);
    var o := ParseOptTable(s, p, packed);
    if o.Some? && o.value.1 < |s| {
      ChainSame(s, t, o.value.1 + 1);
    }
  }

  lemma ExtensionSame(s: seq<byte>, t: seq<byte>, p: nat)
    requires SameFrom(s, t, p)
    ensures ParseExtension(s, p) == ParseExtension(t, p)
  {
    if p + 2 <= |s| {
      SliceSame(s, t, p + 2, s[p + 1]);
    }
  }

  lemma ImageSame(s: seq<byte>, t: seq<byte>, p: nat)
    requires SameFrom(s, t, p)
    ensures ParseImage(s, p) == ParseImage(t, p)
  {
    var r, r' := ParseImage(s, p), ParseImage(t, p);
    if r.Some? {
      ImagePrefix(s, t, p, r.value.0, r.value.1);
    } else if r'.Some? {
      ImagePrefix(t, s, p, r'.value.0, r'.value.1);
    }
  }

  lemma {:induction false} BlocksSame(s: seq<byte>, t: seq<byte>, p: nat)
    requires SameFrom(s, t, p)
    ensures ParseBlocks(s, p) == ParseBlocks(t, p)
    decreases |s| - p
  {
    if p < |s| {
      if s[p] == ExtensionMarker {
        ExtensionSame(s, t, p + 1);
        var r := ParseExtension(s, p + 1);
        if r.Some? {
          BlocksSame(s, t, r.value.1);
        }
      } else if s[p] == ImageMarker {
        ImageSame(s, t, p + 1);
        var r := ParseImage(s, p + 1);
        if r.Some? {
          BlocksSame(s, t, r.value.1);
        }
      } else {
        BlocksSame(s, t, p + 1);
      }
    }
  }

  /** Everything after the screen descriptor is read from `p` on. */
  lemma ContentsSame(s: seq<byte>, t: seq<byte>, p: nat, packed: byte)
    requires SameFrom(s, t, p)
    ensures ParseContents(s, p, packed) == ParseContents(t, p, packed)
  {
    OptTableSame(s, t, p, packed);
    var o := ParseOptTable(s, p, packed);
    if o.Some? {
      BlocksSame(s, t, o.value.1);
    }
  }

  /** A write below `p` that fits in the file leaves everything from `p` on. */
  lemma PatchBelow(s: seq<byte>, off: nat, bs: seq<byte>, p: nat)
    requires off + |bs| <= p && off + |bs| <= |s|
    ensures SameFrom(s, Patch(s, off, bs), p)
  {
    PatchInside(s, off, bs);
  }

  /** Two bytes written at `o` read back as the 16-bit value they pack. */
  lemma PatchedU16(s: seq<byte>, o: nat, v: u16)
    requires o + 2 <= |s|
    ensures o + 2 <= |Patch(s, o, LE16(v))| && U16At(Patch(s, o, LE16(v)), o) == v
  {
    var t := Patch(s, o, LE16(v));
    PatchInside(s, o, LE16(v));
    assert t[o..o + 2] == LE16(v);
    LE16RoundTrip(v, t, o);
  }


  // A parse that ends at `q` reads nothing at or after `q`.

  /** `t` has the length of `s` and agrees with it on [a, b). */
  predicate SameOn(s: seq<byte>, t: seq<byte>, a: nat, b: nat)
  {
    |s| == |t| && forall i :: a <= i < b && i < |s| ==> s[i] == t[i]
  }

  lemma SlicePrefix(s: seq<byte>, t: seq<byte>, p: nat, n: nat)
    requires SameOn(s, t, p, p + n)
    ensures Slice(s, p, n) == Slice(t, p, n)
  {
  }

  lemma {:induction false} TriplesPrefix(s: seq<byte>, t: seq<byte>, p: nat, n: nat)
    requires SameOn(s, t, p, p + 3 * n) && (n > 0 ==> p + 3 * n <= |s|)
    ensures Triples(s, p, n) == Triples(t, p, n)
  {
    if n > 0 {
      assert p + 3 * (n - 1) <= |s|;
      TriplesPrefix(s, t, p, n - 1);
    }
  }

  lemma OptTablePrefix(s: seq<byte>, t: seq<byte>, p: nat, packed: byte, x: Option<ColorTableV>, q: nat)
    requires ParseOptTable(s, p, packed) == Some((x, q)) && SameOn(s, t, p, q)
    ensures ParseOptTable(t, p, packed) == Some((x, q))
  {
    if packed >= 0x80 {
      TriplesPrefix(s, t, p, Pow2(packed % 8 + 1));
    }
  }

  lemma {:induction false} ChainPrefix(s: seq<byte>, t: seq<byte>, p: nat, c: seq<SubBlock>, q: nat)
    requires ParseChain(s, p) == Some((c, q)) && SameOn(s, t, p, q)
    ensures ParseChain(t, p) == Some((c, q))
    decreases |s| - p
  {
    assert t[p] == s[p];
    if s[p] != 0 {
      var dat := Slice(s, p + 1, s[p]);
      ChainOneStep(s, p, dat);
      var r := ParseChain(s, p + 1 + |dat|);
      assert r.Some? && p + 1 + |dat| < r.value.1 <= q;
      SlicePrefix(s, t, p + 1, s[p]);
      ChainPrefix(s, t, p + 1 + |dat|, r.value.0, r.value.1);
      ChainOneStep(t, p, dat);
    }
  }

  lemma ImageDataPrefix(s: seq<byte>, t: seq<byte>, p: nat, d: ImageDataV, q: nat)
    requires ParseImageData(s, p) == Some((d, q)) && SameOn(s, t, p, q)
    ensures ParseImageData(t, p) == Some((d, q))
  {
    assert t[p] == s[p];
    ChainPrefix(s, t, p + 1, d.chain, q);
  }

  lemma ImagePrefix(s: seq<byte>, t: seq<byte>, p: nat, i: ImageV, q: nat)
    requires ParseImage(s, p) == Some((i, q)) && SameOn(s, t, p, q)
    ensures ParseImage(t, p) == Some((i, q))
  {
    var q1 := ImageUnscan(s, p, i, q);
    assert t[p + 8] == s[p + 8];
    OptTablePrefix(s, t, p + 9, s[p + 8], i.lct, q1);
    ImageDataPrefix(s, t, q1, i.data, q);
    assert U16At(s, p) == U16At(t, p) && U16At(s, p + 2) == U16At(t, p + 2);
    assert U16At(s, p + 4) == U16At(t, p + 4) && U16At(s, p + 6) == U16At(t, p + 6);
    ImageScan(t, p, i.lct, q1, i.data, q);
  }

  lemma ExtensionPrefix(s: seq<byte>, t: seq<byte>, p: nat, e: ExtensionV, q: nat)
    requires ParseExtension(s, p) == Some((e, q)) && SameOn(s, t, p, q)
    ensures ParseExtension(t, p) == Some((e, q))
  {
    assert t[p] == s[p] && t[p + 1] == s[p + 1];
    SlicePrefix(s, t, p + 2, s[p + 1]);
  }

  /** A file that agrees with `s` on the descriptor of an image parsed at
      `p` and from the end `q1` of its local table on, and whose table now
      parses to `x` ending at `q1`, parses to the image with table `x`. */
  lemma ImageTableReplaced(s: seq<byte>, t: seq<byte>, p: nat, i: ImageV, q: nat, q1: nat, x: Option<ColorTableV>)
    requires ParseImage(s, p) == Some((i, q)) && ParseOptTable(s, p + 9, s[p + 8]) == Some((i.lct, q1))
    requires SameOn(s, t, 0, p + 9) && SameFrom(s, t, q1) && ParseOptTable(t, p + 9, s[p + 8]) == Some((x, q1))
    ensures ParseImage(t, p) == Some((i.(lct := x), q))
  {
    var q1' := ImageUnscan(s, p, i, q);
    assert q1' == q1;
    assert t[p + 8] == s[p + 8];
    ImageDataPrefix(s, t, q1, i.data, q);
    assert U16At(s, p) == U16At(t, p) && U16At(s, p + 2) == U16At(t, p + 2);
    assert U16At(s, p + 4) == U16At(t, p + 4) && U16At(s, p + 6) == U16At(t, p + 6);
    ImageScan(t, p, x, q1, i.data, q);
  }

  // ------------------------------------------------------ the block scan

  /** One turn of the block scan at `p`: the blocks it finds there (one or,
      for a skipped byte, none) and where the scan goes on. */
  function Step(s: seq<byte>, p: nat): (r: Option<(seq<BlockV>, nat)>)
    requires p < |s|
    ensures r.Some? ==> p < r.value.1 <= |s| && |r.value.0| <= 1
    ensures r.None? <==> (s[p] == ExtensionMarker && ParseExtension(s, p + 1).None?) ||
                         (s[p] == ImageMarker && ParseImage(s, p + 1).None?)
  {
    if s[p] == ExtensionMarker then
      match ParseExtension(s, p + 1)
      case None => None
      case Some((e, q)) => Some(([ExtB(e)], q))
    else if s[p] == ImageMarker then
      match ParseImage(s, p + 1)
      case None => None
      case Some((i, q)) => Some(([ImgB(i)], q))
    else Some(([], p + 1))
  }

  /** The blocks `a` in front of a scan result. */
  function Join(a: seq<BlockV>, r: Option<seq<BlockV>>): (j: Option<seq<BlockV>>)
    ensures j.Some? <==> r.Some?
    ensures j.Some? ==> |j.value| == |a| + |r.value| && j.value[..|a|] == a && j.value[|a|..] == r.value
  {
    if r.Some? then Some(a + r.value) else None
  }

  lemma JoinAssoc(a: seq<BlockV>, b: seq<BlockV>, r: Option<seq<BlockV>>)
    ensures Join(a, Join(b, r)) == Join(a + b, r)
  {
    if r.Some? {
      assert a + (b + r.value) == (a + b) + r.value;
    }
  }

  /** The scan from `p` is its first turn followed by the scan from where
      that turn ends. */
  lemma StepBlocks(s: seq<byte>, p: nat)
    requires p < |s|
    ensures ParseBlocks(s, p) == if Step(s, p).None? then None else Join(Step(s, p).value.0, ParseBlocks(s, Step(s, p).value.1))
  {
    if s[p] != ExtensionMarker && s[p] != ImageMarker {
      var r := ParseBlocks(s, p + 1);
      if r.Some? {
        assert [] + r.value == r.value;
      }
    }
  }

  /** The scan from `d` arrives at `p` after whole turns. */
  predicate Reaches(s: seq<byte>, d: nat, p: nat)
    decreases |s| - d
  {
    d == p || (d < p && d < |s| && Step(s, d).Some? && Reaches(s, Step(s, d).value.1, p))
  }

  /** The blocks the scan from `d` finds before it arrives at `p`. */
  function Between(s: seq<byte>, d: nat, p: nat): seq<BlockV>
    requires Reaches(s, d, p)
    decreases |s| - d
  {
    if d == p then [] else Step(s, d).value.0 + Between(s, Step(s, d).value.1, p)
  }

  /** One more turn from a reached position reaches where that turn ends,
      and finds its blocks after the ones found before. */
  lemma {:induction false} ReachStep(s: seq<byte>, d: nat, p: nat)
    requires Reaches(s, d, p) && p < |s| && Step(s, p).Some?
    ensures Reaches(s, d, Step(s, p).value.1)
    ensures Between(s, d, Step(s, p).value.1) == Between(s, d, p) + Step(s, p).value.0
    decreases |s| - d
  {
    var b := Step(s, p).value.0;
    if d == p {
      assert Between(s, p, p) + b == b + Between(s, Step(s, p).value.1, Step(s, p).value.1);
    } else {
      var st := Step(s, d).value;
      ReachStep(s, st.1, p);
      assert st.0 + (Between(s, st.1, p) + b) == (st.0 + Between(s, st.1, p)) + b;
    }
  }

  /** The scan from `d` is the blocks before `p`, then the scan from `p`. */
  lemma {:induction false} ReachSplit(s: seq<byte>, d: nat, p: nat)
    requires Reaches(s, d, p)
    ensures ParseBlocks(s, d) == Join(Between(s, d, p), ParseBlocks(s, p))
    decreases |s| - d
  {
    if d == p {
      var r := ParseBlocks(s, p);
      if r.Some? {
        assert [] + r.value == r.value;
      }
    } else {
      var st := Step(s, d).value;
      StepBlocks(s, d);
      ReachSplit(s, st.1, p);
      JoinAssoc(st.0, Between(s, st.1, p), ParseBlocks(s, p));
    }
  }

  /** Every block the scan from `d` finds is found by a turn at a position
      the scan reaches, after exactly the blocks before it. */
  lemma {:induction false} BlockAt(s: seq<byte>, d: nat, bs: seq<BlockV>, j: nat) returns (p: nat, q: nat)
    requires ParseBlocks(s, d) == Some(bs) && j < |bs|
    ensures Reaches(s, d, p) && p < |s| && |Between(s, d, p)| == j && Step(s, p) == Some(([bs[j]], q))
    decreases |s| - d
  {
    assert d < |s|;
    StepBlocks(s, d);
    var st := Step(s, d).value;
    var rest := ParseBlocks(s, st.1).value;
    assert bs == st.0 + rest;
    if st.0 == [] {
      p, q := BlockAt(s, st.1, bs, j);
    } else if j == 0 {
      p, q := d, st.1;
    } else {
      assert rest[j - 1] == bs[j];
      p, q := BlockAt(s, st.1, rest, j - 1);
    }
  }

  /** A turn that ends at `q` reads only [p, q). */
  lemma StepPrefix(s: seq<byte>, t: seq<byte>, p: nat, b: seq<BlockV>, q: nat)
    requires p < |s| && Step(s, p) == Some((b, q)) && SameOn(s, t, p, q)
    ensures Step(t, p) == Some((b, q))
  {
    assert t[p] == s[p];
    if s[p] == ExtensionMarker {
      ExtensionPrefix(s, t, p + 1, ParseExtension(s, p + 1).value.0, q);
    } else if s[p] == ImageMarker {
      ImagePrefix(s, t, p + 1, ParseImage(s, p + 1).value.0, q);
    }
  }

  /** The scan from `d` to `p` reads only [d, p). */
  lemma {:induction false} ReachSame(s: seq<byte>, t: seq<byte>, d: nat, p: nat)
    requires Reaches(s, d, p) && SameOn(s, t, d, p)
    ensures Reaches(t, d, p) && Between(t, d, p) == Between(s, d, p)
    decreases |s| - d
  {
    if d != p {
      var st := Step(s, d).value;
      assert st.1 <= p;
      StepPrefix(s, t, d, st.0, st.1);
      ReachSame(s, t, st.1, p);
    }
  }

  /** A file that differs from `s` only inside the turn at `p`, where it
      reads `b'` instead of `b` and ends at the same `q`, scans to the same
      blocks with `b'` in place of `b`. */
  lemma BlockReplaced(s: seq<byte>, t: seq<byte>, d: nat, p: nat, b: seq<BlockV>, b': seq<BlockV>, q: nat)
    requires SameOn(s, t, d, p) && SameFrom(s, t, q)
    requires Reaches(s, d, p) && p < |s| && Step(s, p) == Some((b, q)) && Step(t, p) == Some((b', q))
    ensures ParseBlocks(s, d) == Join(Between(s, d, p) + b, ParseBlocks(s, q))
    ensures ParseBlocks(t, d) == Join(Between(s, d, p) + b', ParseBlocks(s, q))
  {
    ReachSplit(s, d, p);
    ReachSame(s, t, d, p);
    ReachSplit(t, d, p);
    StepBlocks(s, p);
    StepBlocks(t, p);
    BlocksSame(s, t, q);
    JoinAssoc(Between(s, d, p), b, ParseBlocks(s, q));
    JoinAssoc(Between(s, d, p), b', ParseBlocks(s, q));
  }

  /** Where the block scan of a file parsed from offset 0 starts. */
  function DataStart(g: GifV): nat
  {
    13 + |OptTableBytes(g.gct)|
  }

  /** The block scan of a file parsed from offset 0 starts at DataStart. */
  lemma DataStartAt(s: seq<byte>, g: GifV)
    requires ParseGif(s, 0) == Some(g)
    ensures 13 <= DataStart(g) <= |s| && ParseBlocks(s, DataStart(g)) == Some(g.blocks)
  {
    var d := GifUnscan(s, g);
    OptTableReparse(s, 13, s[10], g.gct, d);
  }

  /** A file that agrees with a parsed file `s` up to the blocks and scans
      to `bs` from there parses to the same file with blocks `bs`. */
  lemma GifBlocksReplaced(s: seq<byte>, t: seq<byte>, g: GifV, bs: seq<BlockV>)
    requires ParseGif(s, 0) == Some(g) && SameOn(s, t, 0, DataStart(g))
    requires ParseBlocks(t, DataStart(g)) == Some(bs)
    ensures ParseGif(t, 0) == Some(g.(blocks := bs))
  {
    var d := GifUnscan(s, g);
    OptTableReparse(s, 13, s[10], g.gct, d);
    assert t[10] == s[10];
    OptTablePrefix(s, t, 13, s[10], g.gct, d);
    GifScan(t, g.gct, d, bs);
    assert t[0..3] == s[0..3] && t[3..6] == s[3..6];
    assert U16At(t, 6) == U16At(s, 6) && U16At(t, 8) == U16At(s, 8);
    assert t[11] == s[11] && t[12] == s[12];
  }

  /** A file that agrees with a parsed file `s` outside its global table,
      and whose table now parses to `x` ending where it did, parses to the
      same file with global table `x`. */
  lemma GifTableReplaced(s: seq<byte>, t: seq<byte>, g: GifV, x: Option<ColorTableV>)
    requires ParseGif(s, 0) == Some(g) && SameOn(s, t, 0, 13) && SameFrom(s, t, DataStart(g))
    requires ParseOptTable(t, 13, s[10]) == Some((x, DataStart(g)))
    ensures ParseGif(t, 0) == Some(g.(gct := x))
  {
    var d := GifUnscan(s, g);
    OptTableReparse(s, 13, s[10], g.gct, d);
    assert t[10] == s[10];
    BlocksSame(s, t, d);
    GifScan(t, x, d, g.blocks);
    assert t[0..3] == s[0..3] && t[3..6] == s[3..6];
    assert U16At(t, 6) == U16At(s, 6) && U16At(t, 8) == U16At(s, 8);
    assert t[11] == s[11] && t[12] == s[12];
  }

  /** The file-level form of BlockReplaced: a file that differs from a
      parsed file `s` only inside one block, which now parses to `b'` and
      ends where it did, parses to the same file with block `j` replaced. */
  lemma GifBlockReplaced(s: seq<byte>, t: seq<byte>, g: GifV, p: nat, b: BlockV, b': BlockV, q: nat) returns (j: nat)
    requires SameOn(s, t, 0, p) && SameFrom(s, t, q)
    requires ParseGif(s, 0) == Some(g) && Reaches(s, DataStart(g), p) && p < |s|
    requires Step(s, p) == Some(([b], q)) && Step(t, p) == Some(([b'], q))
    ensures j == |Between(s, DataStart(g), p)|
    ensures j < |g.blocks| && g.blocks[j] == b && ParseGif(t, 0) == Some(g.(blocks := g.blocks[j := b']))
  {
    var d := DataStart(g);
    DataStartAt(s, g);
    var pre := Between(s, d, p);
    j := |pre|;
    BlockReplaced(s, t, d, p, [b], [b'], q);
    var post := ParseBlocks(s, q).value;
    Replaced(pre, b, b', post);
    GifBlocksReplaced(s, t, g, pre + [b'] + post);
  }

  /** Block `j` of a file parsed from offset 0: the marker the scan finds
      it at, and its parse after that marker. */
  lemma GifBlockAt(s: seq<byte>, g: GifV, j: nat) returns (p: nat, q: nat)
    requires ParseGif(s, 0) == Some(g) && j < |g.blocks|
    ensures Reaches(s, DataStart(g), p) && p < |s| && |Between(s, DataStart(g), p)| == j
    ensures g.blocks[j].ImgB? ==> s[p] == ImageMarker && ParseImage(s, p + 1) == Some((g.blocks[j].img, q))
    ensures g.blocks[j].ExtB? ==> s[p] == ExtensionMarker && ParseExtension(s, p + 1) == Some((g.blocks[j].ext, q))
  {
    DataStartAt(s, g);
    p, q := BlockAt(s, DataStart(g), g.blocks, j);
  }

  lemma ImageBlockReplaced(s: seq<byte>, t: seq<byte>, g: GifV, p: nat, i: ImageV, i': ImageV, q: nat) returns (j: nat)
    requires SameOn(s, t, 0, p + 1) && SameFrom(s, t, q)
    requires ParseGif(s, 0) == Some(g) && Reaches(s, DataStart(g), p)
    requires p < |s| && s[p] == ImageMarker && ParseImage(s, p + 1) == Some((i, q)) && ParseImage(t, p + 1) == Some((i', q))
    ensures j == |Between(s, DataStart(g), p)| && j < |g.blocks| && g.blocks[j] == ImgB(i)
    ensures ParseGif(t, 0) == Some(g.(blocks := g.blocks[j := ImgB(i')]))
  {
    assert t[p] == s[p];
    j := GifBlockReplaced(s, t, g, p, ImgB(i), ImgB(i'), q);
  }

  lemma ExtensionBlockReplaced(s: seq<byte>, t: seq<byte>, g: GifV, p: nat, e: ExtensionV, e': ExtensionV, q: nat)
    returns (j: nat)
    requires SameOn(s, t, 0, p + 1) && SameFrom(s, t, q)
    requires ParseGif(s, 0) == Some(g) && Reaches(s, DataStart(g), p) && p < |s| && s[p] == ExtensionMarker
    requires ParseExtension(s, p + 1) == Some((e, q)) && ParseExtension(t, p + 1) == Some((e', q))
    ensures j == |Between(s, DataStart(g), p)| && j < |g.blocks| && g.blocks[j] == ExtB(e)
    ensures ParseGif(t, 0) == Some(g.(blocks := g.blocks[j := ExtB(e')]))
  {
    assert t[p] == s[p];
    j := GifBlockReplaced(s, t, g, p, ExtB(e), ExtB(e'), q);
  }

  /** A write inside the image block at `p` whose image still parses,
      ending where it did, changes only that block of the file. */
  lemma ImagePatched(s: seq<byte>, g: GifV, p: nat, i: ImageV, i': ImageV, q: nat, off: nat, bs: seq<byte>)
    returns (j: nat)
    requires ParseGif(s, 0) == Some(g) && Reaches(s, DataStart(g), p)
    requires p < |s| && s[p] == ImageMarker && ParseImage(s, p + 1) == Some((i, q))
    requires p + 1 <= off && off + |bs| <= q && ParseImage(Patch(s, off, bs), p + 1) == Some((i', q))
    ensures j == |Between(s, DataStart(g), p)| && j < |g.blocks| && g.blocks[j] == ImgB(i)
    ensures ParseGif(Patch(s, off, bs), 0) == Some(g.(blocks := g.blocks[j := ImgB(i')]))
  {
    PatchOutside(s, off, bs, p + 1, q);
    j := ImageBlockReplaced(s, Patch(s, off, bs), g, p, i, i', q);
  }

  /** A write inside the extension block at `p` whose extension still
      parses, ending where it did, changes only that block of the file. */
  lemma ExtensionPatched(s: seq<byte>, g: GifV, p: nat, e: ExtensionV, e': ExtensionV, q: nat, off: nat, bs: seq<byte>)
    returns (j: nat)
    requires ParseGif(s, 0) == Some(g) && Reaches(s, DataStart(g), p)
    requires p < |s| && s[p] == ExtensionMarker && ParseExtension(s, p + 1) == Some((e, q))
    requires p + 1 <= off && off + |bs| <= q && ParseExtension(Patch(s, off, bs), p + 1) == Some((e', q))
    ensures j == |Between(s, DataStart(g), p)| && j < |g.blocks| && g.blocks[j] == ExtB(e)
    ensures ParseGif(Patch(s, off, bs), 0) == Some(g.(blocks := g.blocks[j := ExtB(e')]))
  {
    PatchOutside(s, off, bs, p + 1, q);
    j := ExtensionBlockReplaced(s, Patch(s, off, bs), g, p, e, e', q);
  }

  /** A write inside [lo, hi) leaves every byte outside it. */
  lemma PatchOutside(s: seq<byte>, off: nat, bs: seq<byte>, lo: nat, hi: nat)
    requires lo <= off && off + |bs| <= hi <= |s|
    ensures SameOn(s, Patch(s, off, bs), 0, lo) && SameFrom(s, Patch(s, off, bs), hi)
  {
    PatchAt(s, off, bs);
  }

  lemma Replaced(pre: seq<BlockV>, b: BlockV, b': BlockV, post: seq<BlockV>)
    ensures |pre| < |pre + [b] + post| && (pre + [b] + post)[|pre|] == b
    ensures pre + [b'] + post == (pre + [b] + post)[|pre| := b']
  {
  }
}
