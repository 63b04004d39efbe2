/** The whole file: the block list of Extension and Image objects in stream
    order, the logical screen fields with the offsets of the four that can
    be written through, the global table, and `recompile`. */
module GifFiles {
  import opened Bytes
  import opened Streams
  import opened GifFormat
  import opened Tables
  import opened MicroGif
  import opened Frames

  /** An entry of `_blocks`: the object parsed after a 0x21 or a 0x2C. */
  datatype Block = ExtBlock(ext: Extension) | ImgBlock(img: Image)

  /** The objects of block `b` are in `R`, and an image has its data. */
  ghost predicate BlockIn(b: Block, R: set<object>)
    reads R
  {
    match b
    case ExtBlock(e) => e in R
    case ImgBlock(i) => i in R && i.data != null && i.data in R && (i.lct != null ==> i.lct in R)
  }

  ghost predicate BlocksIn(bs: seq<Block>, R: set<object>)
    reads R
  {
    forall k :: 0 <= k < |bs| ==> BlockIn(bs[k], R)
  }

  function BlockValue(b: Block, R: set<object>): BlockV
    requires BlockIn(b, R)
    reads R
  {
    match b
    case ExtBlock(e) => ExtB(e.Value())
    case ImgBlock(i) => ImgB(i.Value())
  }

  /** The value of every block, in list order. */
  function BlocksValue(bs: seq<Block>, R: set<object>): (r: seq<BlockV>)
    requires BlocksIn(bs, R)
    reads R
    ensures |r| == |bs|
  {
    if bs == [] then [] else BlocksValue(bs[..|bs| - 1], R) + [BlockValue(bs[|bs| - 1], R)]
  }

  /** Block `k` has value `k`. */
  lemma {:induction false} BlocksValueAt(bs: seq<Block>, R: set<object>, k: nat)
    requires BlocksIn(bs, R) && k < |bs|
    ensures BlocksValue(bs, R)[k] == BlockValue(bs[k], R)
    decreases |bs|
  {
    if k < |bs| - 1 {
      assert BlocksIn(bs[..|bs| - 1], R);
      BlocksValueAt(bs[..|bs| - 1], R, k);
    }
  }

  /** Naming more objects does not change the value of the blocks. */
  lemma {:induction false} BlocksValueMono(bs: seq<Block>, R: set<object>, R': set<object>)
    requires BlocksIn(bs, R) && R <= R'
    ensures BlocksIn(bs, R') && BlocksValue(bs, R') == BlocksValue(bs, R)
    decreases |bs|
  {
    if bs != [] {
      assert BlocksIn(bs[..|bs| - 1], R);
      BlocksValueMono(bs[..|bs| - 1], R, R');
    }
  }

  /** One more block, naming objects `own`, joins blocks `bs`: its value
      follows theirs. */
  lemma BlocksGrow(bs: seq<Block>, R: set<object>, own: set<object>, b: Block)
    requires BlocksIn(bs, R) && BlockIn(b, own)
    ensures BlocksIn(bs + [b], R + own)
    ensures BlocksValue(bs + [b], R + own) == BlocksValue(bs, R) + [BlockValue(b, own)]
  {
    BlocksValueMono(bs, R, R + own);
    BlockValueMono(b, own, R + own);
    assert (bs + [b])[..|bs|] == bs;
  }

  /** Block object `b` as the block loop leaves it, found at the marker
      position `p` of the file contents `c`: it keeps the stream `s` and the
      mode `w` it was parsed with and the position after the marker as its
      origin, and the file parsed there holds its value. An image records
      its field offsets from the origin, and its local table starts after
      the 9-byte descriptor and keeps the same stream and mode. */
  ghost predicate ReadAt(b: Block, R: set<object>, s: Stream, w: bool, c: seq<byte>, p: nat)
    reads R
  {
    BlockIn(b, R) && p < |c| &&
    match b
    case ExtBlock(e) =>
      c[p] == ExtensionMarker && e.strm == s && e.writable == w && e.origin == p + 1 &&
      ParseExtension(c, p + 1).Some? && ParseExtension(c, p + 1).value.0 == e.Value()
    case ImgBlock(i) =>
      c[p] == ImageMarker && i.strm == s && i.writable == w && i.origin == p + 1 && i.memlocs == FieldLocs(p + 1) &&
      ParseImage(c, p + 1).Some? && ParseImage(c, p + 1).value.0 == i.Value() &&
      (i.lct != null ==> TableFrom(i.lct, s, w, p + 10))
  }

  /** Block `k` of the loop that scanned `c` from `d`: its object is as
      `ReadAt` says, at a position the scan reaches after `k` blocks. */
  ghost predicate Found(b: Block, R: set<object>, s: Stream, w: bool, c: seq<byte>, d: nat, p: nat, k: nat)
    reads R
  {
    Reaches(c, d, p) && |Between(c, d, p)| == k && ReadAt(b, R, s, w, c, p)
  }

  /** Every block of `bs` was found, block `k` at `at[k]`. */
  ghost predicate AllFound(bs: seq<Block>, R: set<object>, s: Stream, w: bool, c: seq<byte>, d: nat, at: seq<nat>)
    reads R
    decreases |bs|
  {
    |at| == |bs| &&
    (bs != [] ==>
      AllFound(bs[..|bs| - 1], R, s, w, c, d, at[..|at| - 1]) && Found(bs[|bs| - 1], R, s, w, c, d, at[|at| - 1], |bs| - 1))
  }

  lemma {:induction false} AllFoundAt(bs: seq<Block>, R: set<object>, s: Stream, w: bool, c: seq<byte>, d: nat, at: seq<nat>,
                                      j: nat)
    requires AllFound(bs, R, s, w, c, d, at) && j < |bs|
    ensures j < |at| && Found(bs[j], R, s, w, c, d, at[j], j)
    decreases |bs|
  {
    if j < |bs| - 1 {
      AllFoundAt(bs[..|bs| - 1], R, s, w, c, d, at[..|at| - 1], j);
    }
  }

  lemma {:induction false} AllFoundMono(bs: seq<Block>, R: set<object>, R': set<object>, s: Stream, w: bool, c: seq<byte>, d: nat,
                                        at: seq<nat>)
    requires AllFound(bs, R, s, w, c, d, at) && R <= R'
    ensures AllFound(bs, R', s, w, c, d, at)
    decreases |bs|
  {
    if bs != [] {
      AllFoundMono(bs[..|bs| - 1], R, R', s, w, c, d, at[..|at| - 1]);
      ReadAtMono(bs[|bs| - 1], R, R', s, w, c, at[|at| - 1]);
    }
  }

  lemma ReadAtMono(b: Block, R: set<object>, R': set<object>, s: Stream, w: bool, c: seq<byte>, p: nat)
    requires ReadAt(b, R, s, w, c, p) && R <= R'
    ensures ReadAt(b, R', s, w, c, p)
  {
  }

  // ------------------------------------------------------------ block scan

  /** A scan result with the values `acc` stored in front of it. */
  function GlueBlocks(acc: seq<BlockV>, rest: Option<seq<BlockV>>): Option<seq<BlockV>>
  {
    if rest.Some? then Some(acc + rest.value) else None
  }

  /** Storing the block in front of the rest of the scan moves it to the end
      of the stored blocks. */
  lemma GlueStep(acc: seq<BlockV>, b: BlockV, rest: Option<seq<BlockV>>)
    ensures GlueBlocks(acc, Prepend(b, rest)) == GlueBlocks(acc + [b], rest)
  {
    if rest.Some? {
      assert acc + ([b] + rest.value) == (acc + [b]) + rest.value;
    }
  }

  /** A marker byte followed by a block that parses opens a scan that is
      that block in front of the scan after it. */
  lemma ExtScanStep(c: seq<byte>, p: nat, e: ExtensionV, q: nat) returns (r: Option<seq<BlockV>>)
    requires p < |c| && c[p] == ExtensionMarker && ParseExtension(c, p + 1) == Some((e, q))
    ensures r == ParseBlocks(c, q) && ParseBlocks(c, p) == Prepend(ExtB(e), r)
  {
    r := ParseBlocks(c, q);
  }

  lemma ImgScanStep(c: seq<byte>, p: nat, i: ImageV, q: nat) returns (r: Option<seq<BlockV>>)
    requires p < |c| && c[p] == ImageMarker && ParseImage(c, p + 1) == Some((i, q))
    ensures r == ParseBlocks(c, q) && ParseBlocks(c, p) == Prepend(ImgB(i), r)
  {
    r := ParseBlocks(c, q);
  }

  /** The 0x21 branch of the block loop: a new Extension parsed from the
      position. */
  method ParseNewExtension(s: Stream, w: bool) returns (ok: bool, e: Extension)
    modifies s`pos
    ensures fresh(e) && e.Valid() && e.writable == w && e.strm == s && e.origin == old(s.pos)
    ensures ok == ParseExtension(s.content, old(s.pos)).Some?
    ensures ok ==> ParseExtension(s.content, old(s.pos)) == Some((e.Value(), s.pos))
  {
    e := new Extension();
    ok := e.Parse(s, w);
  }

  /** The 0x2C branch of the block loop: a new Image parsed from the
      position; `own` is the image with its data and table. */
  method ParseNewImage(s: Stream, w: bool) returns (ok: bool, i: Image, ghost own: set<object>)
    modifies s`pos
    ensures fresh(own) && i in own
    ensures ok == ParseImage(s.content, old(s.pos)).Some?
    ensures ok ==> BlockIn(ImgBlock(i), own) && i.Valid() && i.writable == w &&
                   ParseImage(s.content, old(s.pos)) == Some((i.Value(), s.pos))
    ensures ok ==> i.strm == s && i.origin == old(s.pos) && i.memlocs == FieldLocs(old(s.pos)) &&
                   (i.lct != null ==> TableFrom(i.lct, s, w, old(s.pos) + 9))
  {
    i := new Image();
    ok := i.Parse(s, w);
    own := {i};
    if ok {
      own := own + {i.data};
      if i.lct != null {
        own := own + {i.lct};
      }
    }
  }

  /** What one turn of the block loop did. */
  datatype ScanStatus = AtEnd | Failed | Skipped | Got(block: Block)

  /** One turn of the block loop: an empty read ends the scan, 0x21 and 0x2C
      parse a new block, any other byte is consumed. */
  method ScanStep(s: Stream, w: bool) returns (st: ScanStatus, ghost own: set<object>)
    requires s.pos <= |s.content|
    modifies s`pos
    ensures fresh(own) && (st != Failed ==> s.pos <= |s.content|)
    ensures st == AtEnd <==> old(s.pos) == |s.content|
    ensures st == AtEnd ==> s.pos == old(s.pos)
    ensures st == Failed ==> ParseBlocks(s.content, old(s.pos)) == None
    ensures st == Skipped ==> old(s.pos) < s.pos && ParseBlocks(s.content, old(s.pos)) == ParseBlocks(s.content, s.pos)
    ensures st == Skipped ==> old(s.pos) < |s.content| && Step(s.content, old(s.pos)) == Some(([], s.pos))
    ensures st.Got? ==>
      old(s.pos) < s.pos && BlockIn(st.block, own) &&
      ParseBlocks(s.content, old(s.pos)) == Prepend(BlockValue(st.block, own), ParseBlocks(s.content, s.pos))
    ensures st.Got? ==>
      ReadAt(st.block, own, s, w, s.content, old(s.pos)) &&
      Step(s.content, old(s.pos)) == Some(([BlockValue(st.block, own)], s.pos))
  {
    ghost var c := s.content;
    var org := s.Tell();
    var b := s.Read(1);
    own := {};
    if |b| == 0 {
      return AtEnd, own;
    }
    if b[0] == ExtensionMarker {
      var okE, e := ParseNewExtension(s, w);
      own := {e};
      if !okE {
        return Failed, own;
      }
      ghost var next := ExtScanStep(c, org, e.Value(), s.pos);
      st := Got(ExtBlock(e));
    } else if b[0] == ImageMarker {
      var okI, i;
      okI, i, own := ParseNewImage(s, w);
      if !okI {
        return Failed, own;
      }
      ghost var next := ImgScanStep(c, org, i.Value(), s.pos);
      st := Got(ImgBlock(i));
    } else {
      st := Skipped;
    }
  }

  lemma BlockValueMono(b: Block, R: set<object>, R': set<object>)
    requires BlockIn(b, R) && R <= R'
    ensures BlockIn(b, R') && BlockValue(b, R') == BlockValue(b, R)
  {
  }

  /** The block loop of `read_from_stream`: 0x21 appends a parsed Extension,
      0x2C a parsed Image, any other byte is skipped, and only an empty read
      ends the loop, at the end of the file. The new objects are fresh. */
  /** The block loop of `read_from_stream`: 0x21 appends a parsed Extension,
      0x2C a parsed Image, any other byte is skipped, and only an empty read
      ends the loop, at the end of the file. The new objects are fresh;
      block `k` was found at `at[k]`. */
  method ReadBlocks(s: Stream, w: bool) returns (ok: bool, bs: seq<Block>, ghost R: set<object>, ghost at: seq<nat>)
    requires s.pos <= |s.content|
    modifies s`pos
    ensures s !in R && fresh(R)
    ensures ok == ParseBlocks(s.content, old(s.pos)).Some?
    ensures ok ==> BlocksIn(bs, R) && s.pos == |s.content| &&
                   BlocksValue(bs, R) == ParseBlocks(s.content, old(s.pos)).value
    ensures ok ==> AllFound(bs, R, s, w, s.content, old(s.pos), at)
  {
    ghost var c, d := s.content, s.pos;
    ghost var whole := ParseBlocks(c, s.pos);
    ghost var rest := whole;
    ghost var vals: seq<BlockV> := [];
    bs, at := [], [];
    R := {};
    if whole.Some? {
      assert [] + whole.value == whole.value;
    }
    while true
      invariant s.content == c && d <= s.pos <= |c|
      invariant rest == ParseBlocks(c, s.pos) && whole == GlueBlocks(vals, rest)
      invariant BlocksIn(bs, R) && BlocksValue(bs, R) == vals
      invariant Reaches(c, d, s.pos) && Between(c, d, s.pos) == vals
      invariant AllFound(bs, R, s, w, c, d, at)
      invariant s !in R && fresh(R)
      decreases |c| - s.pos
    {
      ghost var p0 := s.pos;
      var st, own := ScanStep(s, w);
      match st
      case AtEnd =>
        assert vals + [] == vals;
        return true, bs, R, at;
      case Failed =>
        return false, bs, R, at;
      case Skipped =>
        ReachStep(c, d, p0);
        assert vals + [] == vals;
        rest := ParseBlocks(c, s.pos);
      case Got(blk) =>
        ScanGrow(bs, R, own, s, w, c, d, at, blk, p0, s.pos, vals, whole);
        bs, R, vals, rest, at := bs + [blk], R + own, vals + [BlockValue(blk, own)], ParseBlocks(c, s.pos), at + [p0];
    }
  }

  /** One turn of the block loop that found block `b` at `p`, ending at `p'`:
      the blocks, their values, the blocks the scan found and where each was
      found all grow by that block. */
  lemma ScanGrow(bs: seq<Block>, R: set<object>, own: set<object>, s: Stream, w: bool, c: seq<byte>, d: nat,
                 at: seq<nat>, b: Block, p: nat, p': nat, vals: seq<BlockV>, whole: Option<seq<BlockV>>)
    requires BlocksIn(bs, R) && BlocksValue(bs, R) == vals && AllFound(bs, R, s, w, c, d, at)
    requires Reaches(c, d, p) && Between(c, d, p) == vals && whole == GlueBlocks(vals, ParseBlocks(c, p))
    requires p < |c| && ReadAt(b, own, s, w, c, p)
    requires ParseBlocks(c, p) == Prepend(BlockValue(b, own), ParseBlocks(c, p'))
    requires Step(c, p) == Some(([BlockValue(b, own)], p'))
    ensures var vals' := vals + [BlockValue(b, own)];
      BlocksIn(bs + [b], R + own) && BlocksValue(bs + [b], R + own) == vals' &&
      Reaches(c, d, p') && Between(c, d, p') == vals' && whole == GlueBlocks(vals', ParseBlocks(c, p')) &&
      AllFound(bs + [b], R + own, s, w, c, d, at + [p])
  {
    GlueStep(vals, BlockValue(b, own), ParseBlocks(c, p'));
    ReachStep(c, d, p);
    BlocksGrow(bs, R, own, b);
    FoundGrow(bs, R, own, s, w, c, d, at, b, p);
  }

  /** The blocks found so far stay found once the objects of one more block,
      found at `p`, join them. */
  lemma FoundGrow(bs: seq<Block>, R: set<object>, own: set<object>, s: Stream, w: bool, c: seq<byte>, d: nat,
                  at: seq<nat>, b: Block, p: nat)
    requires AllFound(bs, R, s, w, c, d, at)
    requires Reaches(c, d, p) && |Between(c, d, p)| == |bs| && ReadAt(b, own, s, w, c, p)
    ensures AllFound(bs + [b], R + own, s, w, c, d, at + [p])
  {
    AllFoundMono(bs, R, R + own, s, w, c, d, at);
    ReadAtMono(b, own, R + own, s, w, c, p);
    assert (bs + [b])[..|bs|] == bs && (at + [p])[..|at|] == at;
  }

  // ------------------------------------------------------------- filters

  /** The `extensions` view: the Extension objects of `bs`, in order. */
  function ExtensionsOf(bs: seq<Block>): seq<Extension>
  {
    if bs == [] then []
    else ExtensionsOf(bs[..|bs| - 1]) + (if bs[|bs| - 1].ExtBlock? then [bs[|bs| - 1].ext] else [])
  }

  /** The `images` view: the Image objects of `bs`, in order. */
  function ImagesOf(bs: seq<Block>): seq<Image>
  {
    if bs == [] then []
    else ImagesOf(bs[..|bs| - 1]) + (if bs[|bs| - 1].ImgBlock? then [bs[|bs| - 1].img] else [])
  }

  /** The two filters pick each block exactly once, by its kind. */
  lemma {:induction false} FilterCount(bs: seq<Block>)
    ensures |ExtensionsOf(bs)| + |ImagesOf(bs)| == |bs|
  {
    if bs != [] {
      FilterCount(bs[..|bs| - 1]);
    }
  }

  /** An Extension is listed by `extensions` exactly when it is one of the
      blocks, and likewise for images. */
  lemma {:induction false} FilterMembers(bs: seq<Block>)
    ensures forall e: Extension :: e in ExtensionsOf(bs) <==> ExtBlock(e) in bs
    ensures forall i: Image :: i in ImagesOf(bs) <==> ImgBlock(i) in bs
  {
    if bs != [] {
      var init := bs[..|bs| - 1];
      FilterMembers(init);
      assert bs == init + [bs[|bs| - 1]];
    }
  }

  /** The filters keep stream order: filtering a concatenation
      concatenates the filtered parts. */
  lemma {:induction false} FilterAppend(a: seq<Block>, b: seq<Block>)
    ensures ExtensionsOf(a + b) == ExtensionsOf(a) + ExtensionsOf(b)
    ensures ImagesOf(a + b) == ImagesOf(a) + ImagesOf(b)
    decreases |b|
  {
    if b == [] {
      assert a + b == a;
    } else {
      var init := b[..|b| - 1];
      FilterAppend(a, init);
      assert (a + b)[..|a + b| - 1] == a + init;
      assert (a + b)[|a + b| - 1] == b[|b| - 1];
    }
  }

  /** The filtered objects belong to the file's footprint. */
  lemma {:induction false} FilterOwned(bs: seq<Block>, R: set<object>)
    requires BlocksIn(bs, R)
    ensures forall k :: 0 <= k < |ExtensionsOf(bs)| ==> ExtensionsOf(bs)[k] in R
    ensures forall k :: 0 <= k < |ImagesOf(bs)| ==>
      var i := ImagesOf(bs)[k]; i in R && i.data != null && i.data in R && (i.lct != null ==> i.lct in R)
  {
    if bs != [] {
      var init := bs[..|bs| - 1];
      assert BlocksIn(init, R) by {
        forall k | 0 <= k < |init| ensures BlockIn(init[k], R) {
          assert init[k] == bs[k];
        }
      }
      FilterOwned(init, R);
      assert BlockIn(bs[|bs| - 1], R);
    }
  }

  // ------------------------------------------------------- screen fields

  /** The four screen descriptor fields whose offsets `read_from_stream`
      records. */
  datatype ScreenField = CanvasW | CanvasH | BkgCol | PixAspect

  /** Offset of each field from the start of the 7-byte descriptor. */
  function ScreenOffset(f: ScreenField): nat
  {
    match f
    case CanvasW => 0
    case CanvasH => 2
    case BkgCol => 5
    case PixAspect => 6
  }

  /** The offsets recorded when the descriptor starts at `p`. */
  function ScreenLocs(p: nat): map<ScreenField, nat>
  {
    map[CanvasW := p, CanvasH := p + 2, BkgCol := p + 5, PixAspect := p + 6]
  }

  /** What a setter packs: `struct.pack("<H", v)` for the canvas size,
      `struct.pack("<B", v)` for the other two; None is a struct.error. */
  function PackField(f: ScreenField, v: nat): Option<seq<byte>>
  {
    if f == CanvasW || f == CanvasH then
      if v < 0x1_0000 then Some(LE16(v)) else None
    else if v < 0x100 then Some([v]) else None
  }

  /** The value field `f` holds in the in-memory file `g`. */
  function ScreenValue(g: GifV, f: ScreenField): nat
  {
    match f
    case CanvasW => g.canvasW
    case CanvasH => g.canvasH
    case BkgCol => g.bkgCol
    case PixAspect => g.pixAspect
  }

  // ------------------------------------------------------------ GIFFile

  /** `BlocksBytes` of a prefix grows by one block at a time. */
  lemma BlocksBytesPrefix(c0: seq<byte>, vals: seq<BlockV>, i: nat, before: seq<byte>, after: seq<byte>)
    requires i < |vals| && before == c0 + BlocksBytes(vals[..i]) && after == before + BlockBytes(vals[i])
    ensures after == c0 + BlocksBytes(vals[..i + 1])
  {
    var q := vals[..i + 1];
    assert q[..|q| - 1] == vals[..i] && q[|q| - 1] == vals[i];
    AppendAssoc(c0, BlocksBytes(vals[..i]), BlockBytes(vals[i]));
  }

  /** A marker then a body appended to `c0` append the block's bytes. */
  lemma MarkedBlock(c0: seq<byte>, m: byte, body: seq<byte>, v: BlockV)
    requires BlockBytes(v) == [m] + body
    ensures (c0 + [m]) + body == c0 + BlockBytes(v)
  {
  }

  /** One block of the `recompile` loop: its marker, then its rebuild. */
  method WriteBlock(out: Stream, b: Block, ghost R: set<object>)
    requires BlockIn(b, R) && out !in R && out.pos == |out.content|
    modifies out
    ensures out.content == old(out.content) + BlockBytes(BlockValue(b, R)) && out.pos == |out.content|
  {
    ghost var c0, v := out.content, BlockValue(b, R);
    match b
    case ExtBlock(e) =>
      ghost var body := ExtensionBytes(e.Value());
      WriteAppend(out, [ExtensionMarker]);
      ghost var c1 := out.content;
      e.Rebuild(out);
      PatchAppend(c1, body);
      MarkedBlock(c0, ExtensionMarker, body, v);
    case ImgBlock(im) =>
      ghost var body := ImageBytes(im.Value());
      WriteAppend(out, [ImageMarker]);
      ghost var c1 := out.content;
      im.Rebuild(out);
      PatchAppend(c1, body);
      MarkedBlock(c0, ImageMarker, body, v);
  }

  /** The block loop of `recompile`: each block's marker followed by its
      rebuild, appended to the file. */
  method WriteBlocks(out: Stream, bs: seq<Block>, ghost R: set<object>, ghost vals: seq<BlockV>)
    requires BlocksIn(bs, R) && out !in R && out.pos == |out.content| && vals == BlocksValue(bs, R)
    modifies out
    ensures out.content == old(out.content) + BlocksBytes(vals)
    ensures out.pos == |out.content|
  {
    ghost var c0 := out.content;
    var i := 0;
    while i < |bs|
      invariant 0 <= i <= |bs|
      invariant out.content == c0 + BlocksBytes(vals[..i]) && out.pos == |out.content|
      invariant BlocksValue(bs, R) == vals
    {
      WriteNth(out, bs, R, i, c0, vals);
      i := i + 1;
    }
    assert vals[..i] == vals;
  }

  /** Turn `i` of the block loop. */
  method WriteNth(out: Stream, bs: seq<Block>, ghost R: set<object>, i: nat, ghost c0: seq<byte>, ghost vals: seq<BlockV>)
    requires BlocksIn(bs, R) && out !in R && i < |bs| && vals == BlocksValue(bs, R)
    requires out.content == c0 + BlocksBytes(vals[..i]) && out.pos == |out.content|
    modifies out
    ensures out.content == c0 + BlocksBytes(vals[..i + 1]) && out.pos == |out.content|
  {
    BlocksValueAt(bs, R, i);
    ghost var before := out.content;
    WriteBlock(out, bs[i], R);
    assert BlockValue(bs[i], R) == vals[i];
    BlocksBytesPrefix(c0, vals, i, before, out.content);
  }

  /** The header, version and screen descriptor reads of `read_from_stream`;
      `loc` is the position reached after the version, absent when fewer
      than 2 version bytes were read. */
  method ReadPreamble(s: Stream) returns (header: seq<byte>, version: seq<byte>, loc: Option<nat>, screen: seq<byte>)
    modifies s`pos
    ensures loc.Some? <==> old(s.pos) + 5 <= |s.content|
    ensures |screen| <= 7
    ensures loc.Some? ==> loc.value == Min(old(s.pos) + 6, |s.content|) && (|screen| == 7 <==> old(s.pos) + 13 <= |s.content|)
    ensures old(s.pos) + 13 <= |s.content| ==>
      header == s.content[old(s.pos)..old(s.pos) + 3] && version == s.content[old(s.pos) + 3..old(s.pos) + 6] &&
      screen == s.content[old(s.pos) + 6..old(s.pos) + 13] && s.pos == old(s.pos) + 13
  {
    header := s.Read(3);
    version := s.Read(3);
    if |version| < 2 {
      return header, version, None, [];
    }
    var p := s.Tell();
    loc := Some(p);
    screen := s.Read(7);
  }

  /** The global table of `read_from_stream`: a new table parsed from the
      file when bit 7 of `pkd` is set, none otherwise. */
  method ParseGlobalTable(pkd: byte, s: Stream, w: bool) returns (ok: bool, t: ColorTable?, ghost own: set<object>)
    modifies s`pos
    ensures fresh(own) && s !in own && (t != null ==> t in own)
    ensures ok == ParseOptTable(s.content, old(s.pos), pkd).Some?
    ensures ok ==> var (v, q) := ParseOptTable(s.content, old(s.pos), pkd).value;
      s.pos == q && (v.None? <==> t == null) && (v.Some? ==> t.Value() == v.value && TableFrom(t, s, w, old(s.pos)))
  {
    own := {};
    if pkd < 0x80 {
      return true, null, own;
    }
    t := new ColorTable();
    own := {t};
    ok := t.Parse(pkd % 8, s, w);
    if ok {
      assert [] + t.colors == t.colors;
    }
  }

  /** The part of `read_from_stream` after the screen descriptor: the
      global table, the data offset, the block scan, the end offset. */
  method ReadContents(s: Stream, w: bool, pkd: byte)
    returns (ok: bool, t: ColorTable?, off: nat, bs: seq<Block>, ghost R: set<object>, ghost at: seq<nat>,
             ghost tv: Option<ColorTableV>, ghost bv: seq<BlockV>)
    requires s.pos <= |s.content|
    modifies s`pos
    ensures fresh(R) && s !in R && (t != null ==> t in R)
    ensures ok == ParseContents(s.content, old(s.pos), pkd).Some?
    ensures ok ==> ParseContents(s.content, old(s.pos), pkd) == Some((tv, off, bv)) && s.pos == |s.content|
    ensures ok ==> BlocksIn(bs, R) && BlocksValue(bs, R) == bv
    ensures ok ==> (t == null <==> tv.None?) && (t != null ==> t.Value() == tv.value && TableFrom(t, s, w, old(s.pos)))
    ensures ok ==> AllFound(bs, R, s, w, s.content, off, at)
  {
    ghost var own;
    ghost var p0 := s.pos;
    tv, bv := None, [];
    ok, t, own := ParseGlobalTable(pkd, s, w);
    if !ok {
      return false, t, 0, [], own, [], tv, bv;
    }
    off := s.pos;
    var okB;
    ghost var R0;
    okB, bs, R0, at := ReadBlocks(s, w);
    R := R0 + own;
    if okB {
      BlocksValueMono(bs, R0, R);
      AllFoundMono(bs, R0, R, s, w, s.content, off, at);
      tv, bv := ParseContents(s.content, p0, pkd).value.0, ParseContents(s.content, p0, pkd).value.2;
    }
    ok := okB;
  }

  class GifFile {
    var blocks: seq<Block>
    var header: seq<byte>
    var version: seq<byte>
    var canvasW: u16
    var canvasH: u16
    var bkgCol: byte
    var pixAspect: byte
    var memlocs: map<ScreenField, nat>
    var writable: bool
    var stream: Stream?
    var gct: ColorTable?
    var dataOff: nat
    var dataEnd: nat
    /** The block objects and the global table. */
    ghost var Repr: set<object>

    constructor ()
      ensures blocks == [] && header == [] && version == [] && memlocs == map[] && Repr == {}
      ensures canvasW == 0 && canvasH == 0 && bkgCol == 0 && pixAspect == 0
      ensures !writable && stream == null && gct == null && dataOff == 0 && dataEnd == 0
    {
      blocks, header, version := [], [], [];
      canvasW, canvasH, bkgCol, pixAspect := 0, 0, 0, 0;
      memlocs := map[];
      writable := false;
      stream := null;
      gct := null;
      dataOff, dataEnd := 0, 0;
      Repr := {};
    }

    /** The blocks and the table are owned here, apart from the file, and a
        writable file has a stream. */
    ghost predicate Valid()
      reads this, Repr
    {
      BlocksIn(blocks, Repr) && (gct != null ==> gct in Repr) &&
      this !in Repr && stream !in Repr && (writable ==> stream != null)
    }

    function GctValue(): Option<ColorTableV>
      reads this`gct, gct
    {
      if gct == null then None else Some(gct.Value())
    }

    ghost function Value(): GifV
      requires Valid()
      reads this, Repr
    {
      GifV(header, version, canvasW, canvasH, bkgCol, pixAspect, GctValue(), BlocksValue(blocks, Repr))
    }

    function Extensions(): seq<Extension>
      reads this
    {
      ExtensionsOf(blocks)
    }

    function Images(): seq<Image>
      reads this
    {
      ImagesOf(blocks)
    }

    /** `read_from_stream(strm, writeable)` on a new GIFFile: 3 signature and
        3 version bytes (fewer than 2 version bytes fail), the four offsets
        from the position reached, the 7-byte screen descriptor (a short
        read fails), then the global table and the block scan. */
    method ReadFromStream(s: Stream, w: bool) returns (ok: bool, ghost at: seq<nat>)
      requires blocks == [] && gct == null && Repr == {}
      modifies this, s`pos
      ensures writable == w && stream == s
      ensures old(s.pos) + 5 <= |s.content| ==> memlocs == ScreenLocs(Min(old(s.pos) + 6, |s.content|))
      ensures old(s.pos) + 5 > |s.content| ==> memlocs == old(memlocs)
      ensures ok == ParseGif(s.content, old(s.pos)).Some?
      ensures ok ==> Valid() && fresh(Repr) && ParseGif(s.content, old(s.pos)) == Some(Value())
      ensures ok ==> dataOff == old(s.pos) + 13 + |OptTableBytes(GctValue())| && dataEnd == s.pos == |s.content|
      ensures ok ==> BlocksRead(s, w, old(s.pos), at)
    {
      ghost var c, p := s.content, s.pos;
      var h, v, loc, d := ReadPreamble(s);
      if loc.None? {
        writable, stream, header, version := w, s, h, v;
        return false, [];
      }
      if |d| < 7 {
        writable, stream, header, version, memlocs := w, s, h, v, ScreenLocs(loc.value);
        return false, [];
      }
      ok, at := ReadTail(s, w, h, v, ScreenLocs(loc.value), d, c, p);
    }

    /** What `read_from_stream(strm, writeable)` from `p` leaves in the
        objects it creates: the global table starts after the 13-byte
        header and screen descriptor, and block `k` was found at `at[k]`
        by the scan from the data offset; each keeps the stream and mode. */
    ghost predicate BlocksRead(s: Stream, w: bool, p: nat, at: seq<nat>)
      reads this`gct, this`blocks, this`Repr, this`dataOff, Repr, s
    {
      (gct != null ==> gct in Repr && TableFrom(gct, s, w, p + 13)) &&
      AllFound(blocks, Repr, s, w, s.content, dataOff, at)
    }

    /** `read_from_stream` once the first 13 bytes were read. */
    method ReadTail(s: Stream, w: bool, h: seq<byte>, v: seq<byte>, locs: map<ScreenField, nat>, d: seq<byte>,
                    ghost c: seq<byte>, ghost p: nat) returns (ok: bool, ghost at: seq<nat>)
      requires p + 13 <= |c| && s.content == c && s.pos == p + 13
      requires h == c[p..p + 3] && v == c[p + 3..p + 6] && d == c[p + 6..p + 13]
      modifies this, s`pos
      ensures writable == w && stream == s && memlocs == locs
      ensures ok == ParseGif(c, p).Some?
      ensures ok ==> Valid() && fresh(Repr) && ParseGif(c, p) == Some(Value())
      ensures ok ==> dataOff == p + 13 + |OptTableBytes(GctValue())| && dataEnd == s.pos == |c|
      ensures ok ==> BlocksRead(s, w, p, at)
    {
      var t, off, bs;
      ghost var R, tv, bv;
      ok, t, off, bs, R, at, tv, bv := ReadContents(s, w, d[4]);
      SetHead(w, s, h, v, locs, d);
      if !ok {
        return;
      }
      SetContents(t, off, bs, R, s.pos, s, w, p, at, tv, bv);
      GifFromParts(c, p, h, v, d, tv, off, bv);
    }

    /** The fields `read_from_stream` sets from the header, the version and
        the screen descriptor. */
    method SetHead(w: bool, s: Stream, h: seq<byte>, v: seq<byte>, locs: map<ScreenField, nat>, d: seq<byte>)
      requires |d| == 7
      modifies this`writable, this`stream, this`header, this`version, this`memlocs
      modifies this`canvasW, this`canvasH, this`bkgCol, this`pixAspect
      ensures writable == w && stream == s && header == h && version == v && memlocs == locs
      ensures canvasW == U16At(d, 0) && canvasH == U16At(d, 2) && bkgCol == d[5] && pixAspect == d[6]
    {
      writable, stream, header, version, memlocs := w, s, h, v, locs;
      canvasW, canvasH, bkgCol, pixAspect := U16At(d, 0), U16At(d, 2), d[5], d[6];
    }

    /** The fields `read_from_stream` sets from the table and block scan
        of stream `s`, read from `p` in mode `w`: the global table `t` with
        value `tv`, the blocks `bs` with values `bv`, block `k` found at
        `at[k]`, and where the blocks start and end. */
    method SetContents(t: ColorTable?, off: nat, bs: seq<Block>, ghost R: set<object>, end: nat,
                       ghost s: Stream, ghost w: bool, ghost p: nat, ghost at: seq<nat>,
                       ghost tv: Option<ColorTableV>, ghost bv: seq<BlockV>)
      requires BlocksIn(bs, R) && this !in R && (t != null ==> t in R) && BlocksValue(bs, R) == bv
      requires (t == null <==> tv.None?) && (t != null ==> t.Value() == tv.value && TableFrom(t, s, w, p + 13))
      requires AllFound(bs, R, s, w, s.content, off, at)
      modifies this`gct, this`blocks, this`Repr, this`dataOff, this`dataEnd
      ensures gct == t && blocks == bs && Repr == R && dataOff == off && dataEnd == end
      ensures BlocksIn(blocks, Repr) && BlocksValue(blocks, Repr) == bv && GctValue() == tv
      ensures BlocksRead(s, w, p, at)
    {
      SetFields(t, off, bs, R, end);
    }

    /** Stores what `SetContents` sets. */
    method SetFields(t: ColorTable?, off: nat, bs: seq<Block>, ghost R: set<object>, end: nat)
      modifies this`gct, this`blocks, this`Repr, this`dataOff, this`dataEnd
      ensures gct == t && blocks == bs && Repr == R && dataOff == off && dataEnd == end
    {
      blocks, Repr, dataOff, dataEnd, gct := bs, R, off, end, t;
    }

    /** `recompile()`: the stream is emptied and receives the header, the
        version, the screen descriptor from the fields, the global table,
        each block behind its marker, and the trailer. */
    method Recompile()
      requires Valid() && stream != null
      modifies stream
      ensures stream.content == GifBytes(old(Value())) && stream.pos == |stream.content|
    {
      ghost var v := Value();
      WriteHead();
      ghost var mid := stream.content;
      WriteBlocks(stream, blocks, Repr, v.blocks);
      ghost var pre := stream.content;
      WriteAppend(stream, [Trailer]);
      GifBytesOf(v, mid, pre, stream.content);
    }

    /** The part of `recompile` before the blocks: the file is emptied,
        then header, version, the screen descriptor with a packed byte from
        PackedFor, and the table. */
    method WriteHead()
      requires Valid() && stream != null
      modifies stream
      ensures stream.content == header + version +
        (LE16(canvasW) + LE16(canvasH) + [PackedFor(old(GctValue())), bkgCol, pixAspect]) + OptTableBytes(old(GctValue()))
      ensures stream.pos == |stream.content|
    {
      stream.Seek(0);
      stream.Truncate();
      var pkd: byte := 0;
      if gct != null {
        pkd := 0x80 + SizeBits(gct.ColorNum());
      }
      WriteAppend(stream, header);
      assert [] + header == header;
      WriteAppend(stream, version);
      WriteAppend(stream, LE16(canvasW) + LE16(canvasH) + [pkd, bkgCol, pixAspect]);
      if gct != null {
        ghost var c1 := stream.content;
        gct.Rebuild(stream);
        PatchAppend(c1, TableBytes(gct.Value()));
      }
    }

    /** The `canvas_width`/`canvas_height`/`bkg_color_index`/
        `pixel_aspect_ratio` setters: ValueError when read-only or no offset
        was recorded; struct.error for a value that does not fit (after the
        seek); otherwise the packed bytes overwrite the file at the recorded
        offset. The in-memory fields are left as they were. */
    method SetScreenField(f: ScreenField, v: nat) returns (r: Outcome)
      requires Valid()
      modifies stream
      ensures unchanged(this)
      ensures f !in memlocs || !writable ==> r == Fail(WriteProtected) && (stream != null ==> unchanged(stream))
      ensures f in memlocs && writable && PackField(f, v).None? ==>
        r == Fail(PackOverflow) && stream.content == old(stream.content) && stream.pos == memlocs[f]
      ensures f in memlocs && writable && PackField(f, v).Some? ==>
        r == Pass && stream.content == Patch(old(stream.content), memlocs[f], PackField(f, v).value) &&
        stream.pos == memlocs[f] + |PackField(f, v).value|
    {
      if f !in memlocs || !writable {
        return Fail(WriteProtected);
      }
      stream.Seek(memlocs[f]);
      var packed := PackField(f, v);
      if packed.None? {
        return Fail(PackOverflow);
      }
      stream.Write(packed.value);
      r := Pass;
    }
  }

  /** A write at the end of the file appends. */
  method WriteAppend(out: Stream, bs: seq<byte>)
    requires out.pos == |out.content|
    modifies out
    ensures out.content == old(out.content) + bs && out.pos == |out.content|
  {
    PatchAppend(out.content, bs);
    out.Write(bs);
  }

  /** What `recompile` writes, piece by piece, is GifBytes. */
  lemma GifBytesOf(v: GifV, mid: seq<byte>, pre: seq<byte>, fin: seq<byte>)
    requires mid == v.header + v.version + (LE16(v.canvasW) + LE16(v.canvasH) + [PackedFor(v.gct), v.bkgCol, v.pixAspect]) + OptTableBytes(v.gct)
    requires pre == mid + BlocksBytes(v.blocks) && fin == pre + [Trailer]
    ensures fin == GifBytes(v)
  {
  }

  /** A file whose first 13 bytes are `h`, `v` and the screen descriptor
      `d`, followed by parseable contents, parses to those pieces. */
  lemma GifFromParts(c: seq<byte>, p: nat, h: seq<byte>, v: seq<byte>, d: seq<byte>, t: Option<ColorTableV>, q: nat, bv: seq<BlockV>)
    requires p + 13 <= |c| && h == c[p..p + 3] && v == c[p + 3..p + 6] && d == c[p + 6..p + 13]
    requires ParseContents(c, p + 13, d[4]) == Some((t, q, bv))
    ensures ParseGif(c, p) == Some(GifV(h, v, U16At(d, 0), U16At(d, 2), d[5], d[6], t, bv))
  {
    assert d[0] == c[p + 6] && d[1] == c[p + 7] && d[2] == c[p + 8] && d[3] == c[p + 9];
  }

  /** Two `recompile` calls with nothing changed in between leave the
      stream with identical contents: the bytes of the file's value. */
  method RecompileTwice(g: GifFile) returns (first: seq<byte>, second: seq<byte>)
    requires g.Valid() && g.stream != null
    modifies g.stream
    ensures first == second == GifBytes(old(g.Value()))
  {
    g.Recompile();
    first := g.stream.content;
    g.Recompile();
    second := g.stream.content;
  }
}
