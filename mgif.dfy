/** The block objects of the library: Extension, ImageData and Image. Each
    is parsed from the position of the file it is handed, keeps that file
    for write-through of single fields, and rebuilds itself into any file. */
module MicroGif {
  import opened Bytes
  import opened Streams
  import opened GifFormat
  import opened Tables

  // ------------------------------------------------------------ Extension

  class Extension {
    var extLabel: byte
    var payload: Payload
    var origin: nat
    var writable: bool
    var strm: Stream?

    constructor ()
      ensures extLabel == 0 && payload == [] && origin == 0 && !writable && strm == null
    {
      extLabel := 0;
      payload := [];
      origin := 0;
      writable := false;
      strm := null;
    }

    ghost predicate Valid()
      reads this
    {
      writable ==> strm != null
    }

    function Value(): ExtensionV
      reads this
    {
      ExtensionV(extLabel, payload)
    }

    /** `parse(strm, writeable)`: the origin is the position after the 0x21
        marker; label and length byte must be present, the payload read may
        come up short, one more byte is consumed as the terminator. */
    method Parse(s: Stream, w: bool) returns (ok: bool)
      modifies this, s`pos
      ensures Valid() && origin == old(s.pos) && strm == s && writable == w
      ensures ok == ParseExtension(s.content, old(s.pos)).Some?
      ensures ok ==> var (e, q) := ParseExtension(s.content, old(s.pos)).value;
                     Value() == e && s.pos == q
    {
      origin := s.Tell();
      strm := s;
      writable := w;
      var b := s.Read(1);
      if |b| == 0 {
        return false;
      }
      extLabel := b[0];
      b := s.Read(1);
      if |b| == 0 {
        return false;
      }
      var leng := b[0];
      payload := s.Read(leng);
      var terminator := s.Read(1);
      ok := true;
    }

    /** `rebuild(strm)`: label, length byte, payload, and a 0x00 terminator. */
    method Rebuild(out: Stream)
      modifies out
      ensures out.content == Patch(old(out.content), old(out.pos), ExtensionBytes(Value()))
      ensures out.pos == old(out.pos) + |ExtensionBytes(Value())|
    {
      ghost var c, p := out.content, out.pos;
      var len: byte := |payload|;
      ghost var head: seq<byte> := [extLabel, len];
      out.Write([extLabel]);
      out.Write([len]);
      PatchTwice(c, p, [extLabel], [len]);
      assert [extLabel] + [len] == head;
      out.Write(payload);
      PatchTwice(c, p, head, payload);
      out.Write([0]);
      PatchTwice(c, p, head + payload, [0]);
    }

    /** The label setter: ValueError when read-only, struct.error for a value
        over 255 (after the seek); otherwise the byte at the origin and the
        in-memory label take the value. */
    method SetLabel(v: nat) returns (r: Outcome)
      requires Valid()
      modifies this`extLabel, strm
      ensures payload == old(payload)
      ensures !writable ==> r == Fail(WriteProtected) && extLabel == old(extLabel) && (strm != null ==> unchanged(strm))
      ensures writable && v >= 0x100 ==>
        r == Fail(PackOverflow) && extLabel == old(extLabel) && strm.content == old(strm.content) && strm.pos == origin
      ensures writable && v < 0x100 ==>
        r == Pass && extLabel == v && strm.content == Patch(old(strm.content), origin, [v]) && strm.pos == origin + 1
    {
      if !writable {
        return Fail(WriteProtected);
      }
      strm.Seek(origin);
      if v >= 0x100 {
        return Fail(PackOverflow);
      }
      strm.Write([v]);
      extLabel := v;
      r := Pass;
    }

    /** `write(origin, length, new_data)`: ValueError when read-only;
        otherwise every payload index in [o, o + length) that lies inside
        the payload takes `newData` at that same index, in memory and in the
        file at `origin + 2 + index`; indices past the payload are skipped.
        The first such index that `newData` does not reach raises
        IndexError, after the writes for the indices before it. */
    method Write(o: nat, length: nat, newData: seq<byte>) returns (r: Outcome)
      requires Valid()
      modifies this`payload, strm
      ensures extLabel == old(extLabel) && |payload| == |old(payload)|
      ensures !writable ==> r == Fail(WriteProtected) && payload == old(payload) && (strm != null ==> unchanged(strm))
      ensures writable ==> var e := Min(o + length, |payload|);
        (r == Pass <==> e <= o || e <= |newData|) && (r != Pass ==> r == Fail(OutOfRange))
      ensures writable ==> forall k :: 0 <= k < |payload| ==>
        payload[k] == if o <= k < Written(o, length, |payload|, |newData|) then newData[k] else old(payload)[k]
      ensures writable ==> var w := Written(o, length, |payload|, |newData|);
        if o < w then
          strm.content == Patch(old(strm.content), origin + 2 + o, newData[o..w]) && strm.pos == origin + 2 + w
        else
          strm.content == old(strm.content) && strm.pos == old(strm.pos)
    {
      if !writable {
        return Fail(WriteProtected);
      }
      var ok;
      payload, ok := WriteThrough(strm, origin + 2, payload, o, length, newData);
      r := if ok then Pass else Fail(OutOfRange);
    }
  }

  /** Where the writes of `Extension.write` stop: at the end of the range,
      the end of the payload, or the first index `new_data` does not reach. */
  function Written(o: nat, length: nat, size: nat, avail: nat): (r: nat)
    ensures r <= o + length && r <= size && r <= avail
    ensures r == o + length || r == size || r == avail
  {
    Min(Min(o + length, size), avail)
  }

  /** The loop of `Extension.write` over a payload `p` stored in the file at
      `base`: each index `strg` in [o, o + length) that lies inside the
      payload takes `nd[strg]`, and the same byte is written at
      `base + strg`, until an index `nd` does not reach stops the loop.
      Returns the updated payload and whether the loop ran to its end. */
  method WriteThrough(st: Stream, base: nat, p: seq<byte>, o: nat, length: nat, nd: seq<byte>)
    returns (q: seq<byte>, ok: bool)
    modifies st
    ensures |q| == |p|
    ensures var e := Min(o + length, |p|); ok <==> e <= o || e <= |nd|
    ensures forall k :: 0 <= k < |p| ==> q[k] == if o <= k < Written(o, length, |p|, |nd|) then nd[k] else p[k]
    ensures var w := Written(o, length, |p|, |nd|);
      if o < w then st.content == Patch(old(st.content), base + o, nd[o..w]) && st.pos == base + w
      else st.content == old(st.content) && st.pos == old(st.pos)
  {
    ghost var c0, pos0 := st.content, st.pos;
    ghost var done: seq<byte> := [];
    q := p;
    var tgt := o + base;
    var strg := o;
    var i := 0;
    while i < length
      invariant 0 <= i <= length && strg == o + i && tgt == base + o + i
      invariant |q| == |p| && Min(strg, |p|) <= if o < |nd| then |nd| else o
      invariant forall k :: 0 <= k < |p| ==> q[k] == if o <= k < strg then nd[k] else p[k]
      invariant o < Min(strg, |p|) ==> done == nd[o..Min(strg, |p|)]
      invariant o >= Min(strg, |p|) ==> done == []
      invariant st.content == Patch(c0, base + o, done)
      invariant st.pos == if done == [] then pos0 else base + o + |done|
    {
      if strg < |q| {
        if strg >= |nd| {
          ok := false;
          return;
        }
        q := q[strg := nd[strg]];
        ghost var cur := st.content;
        st.Seek(tgt);
        st.Write([nd[strg]]);
        done := WriteStep(c0, base, nd, o, strg, done, cur);
      }
      tgt := tgt + 1;
      strg := strg + 1;
      i := i + 1;
    }
    ok := true;
  }

  /** One more byte of `Extension.write` extends the single write of
      `done == nd[o..k]` at `base + o` to a write of `nd[o..k + 1]`. */
  lemma WriteStep(c0: seq<byte>, base: nat, nd: seq<byte>, o: nat, k: nat, done: seq<byte>, cur: seq<byte>)
    returns (done': seq<byte>)
    requires o <= k < |nd| && done == nd[o..k] && cur == Patch(c0, base + o, done)
    ensures done' == nd[o..k + 1] && Patch(cur, base + k, [nd[k]]) == Patch(c0, base + o, done')
  {
    done' := nd[o..k + 1];
    PatchTwice(c0, base + o, done, [nd[k]]);
    assert done + [nd[k]] == done';
  }

  // ------------------------------------------------------------ ImageData

  class ImageData {
    var origin: nat
    var chain: seq<SubBlock>
    var writable: bool
    var strm: Stream?
    var minCodeSize: byte

    constructor ()
      ensures origin == 0 && chain == [] && !writable && strm == null && minCodeSize == 0
    {
      origin := 0;
      chain := [];
      writable := false;
      strm := null;
      minCodeSize := 0;
    }

    function Value(): ImageDataV
      reads this
    {
      ImageDataV(minCodeSize, chain)
    }

    /** `parse(strm, writeable)`: the minimum code size byte, then
        (offset, length, bytes) for each nonzero length byte until a zero
        one; a missing length byte makes it fail. */
    method Parse(s: Stream, w: bool) returns (ok: bool)
      modifies this, s`pos
      ensures origin == old(s.pos) && strm == s && writable == w
      ensures ok == ParseImageData(s.content, old(s.pos)).Some?
      ensures ok ==> var (d, q) := ParseImageData(s.content, old(s.pos)).value;
                     minCodeSize == d.minCodeSize && chain == old(chain) + d.chain && s.pos == q
    {
      writable := w;
      strm := s;
      origin := s.Tell();
      var b := s.Read(1);
      if |b| == 0 {
        return false;
      }
      minCodeSize := b[0];
      var okC, blocks := ReadChain(s);
      chain := chain + blocks;
      ok := okC;
    }

    /** `rebuild(strm)`: the minimum code size, each (length, bytes), 0x00. */
    method Rebuild(out: Stream)
      modifies out
      ensures out.content == Patch(old(out.content), old(out.pos), ImageDataBytes(Value()))
      ensures out.pos == old(out.pos) + |ImageDataBytes(Value())|
    {
      ghost var c, p := out.content, out.pos;
      out.Write([minCodeSize]);
      var i := 0;
      while i < |chain|
        invariant 0 <= i <= |chain|
        invariant out.content == Patch(c, p, [minCodeSize] + ChainBytes(chain[..i]))
        invariant out.pos == p + 1 + |ChainBytes(chain[..i])|
      {
        var blk := chain[i];
        ghost var c1 := out.content;
        out.Write([blk.length]);
        out.Write(blk.bytes);
        ChainRebuildStep(c, p, minCodeSize, chain, i, c1, out.content);
        i := i + 1;
      }
      assert chain[..i] == chain;
      out.Write([0]);
      PatchTwice(c, p, [minCodeSize] + ChainBytes(chain), [0]);
    }
  }

  /** The sub-block loop of `ImageData.parse`: from the file position,
      each nonzero length byte is stored with its offset and the bytes read
      after it, until a zero length byte; a missing length byte fails. The
      blocks read so far are returned either way, as the source appends each
      one as soon as it is read. */
  method ReadChain(s: Stream) returns (ok: bool, blocks: seq<SubBlock>)
    requires s.pos <= |s.content|
    modifies s`pos
    ensures ok == ParseChain(s.content, old(s.pos)).Some?
    ensures ok ==> (blocks, s.pos) == ParseChain(s.content, old(s.pos)).value
  {
    ghost var c, o := s.content, s.pos;
    ghost var whole := ParseChain(c, o);
    ghost var rest := whole;
    blocks := [];
    GlueNil(whole);
    while true
      invariant s.content == c && s.pos <= |c|
      invariant rest == ParseChain(c, s.pos)
      invariant whole == Glue(blocks, rest)
      decreases |c| - s.pos
    {
      var org := s.Tell();
      var b := s.Read(1);
      if |b| == 0 {
        return false, blocks;
      }
      var lnn := b[0];
      if lnn == 0 {
        ChainEnds(c, org, blocks, rest);
        return true, blocks;
      }
      var dat := s.Read(lnn);
      var next := blocks + [SubBlock(org, lnn, dat)];
      rest := ChainStep(c, org, blocks, rest, dat, next, s.pos);
      blocks := next;
    }
  }

  /** A parse result with `acc` stored in front of it. */
  function Glue(acc: seq<SubBlock>, rest: Option<(seq<SubBlock>, nat)>): Option<(seq<SubBlock>, nat)>
  {
    if rest.Some? then Some((acc + rest.value.0, rest.value.1)) else None
  }

  lemma GlueNil(r: Option<(seq<SubBlock>, nat)>)
    ensures Glue([], r) == r
  {
    if r.Some? {
      assert [] + r.value.0 == r.value.0;
    }
  }

  /** Storing the sub-block at `p` moves it from the rest of the chain to
      the stored blocks. */
  lemma ChainStep(c: seq<byte>, p: nat, acc: seq<SubBlock>, rest: Option<(seq<SubBlock>, nat)>,
                  dat: seq<byte>, acc': seq<SubBlock>, q: nat) returns (r: Option<(seq<SubBlock>, nat)>)
    requires p < |c| && c[p] != 0 && rest == ParseChain(c, p)
    requires dat == Slice(c, p + 1, c[p]) && acc' == acc + [SubBlock(p, c[p], dat)] && q == p + 1 + |dat|
    ensures r == ParseChain(c, q) && Glue(acc, rest) == Glue(acc', r)
  {
    r := ParseChain(c, q);
    if r.Some? {
      assert acc + ([SubBlock(p, c[p], dat)] + r.value.0) == acc' + r.value.0;
    }
  }

  /** A zero length byte ends the chain with the stored blocks. */
  lemma ChainEnds(c: seq<byte>, p: nat, acc: seq<SubBlock>, rest: Option<(seq<SubBlock>, nat)>)
    requires p < |c| && c[p] == 0 && rest == ParseChain(c, p)
    ensures Glue(acc, rest) == Some((acc, p + 1))
  {
    var nxt: nat := p + 1;
    assert ParseChain(c, p) == Some(([], nxt));
    assert acc + [] == acc;
  }

  /** One iteration of the `rebuild` loop over the sub-blocks. */
  lemma ChainRebuildStep(c: seq<byte>, p: nat, m: byte, chain: seq<SubBlock>, i: nat, c1: seq<byte>, c2: seq<byte>)
    requires i < |chain|
    requires c1 == Patch(c, p, [m] + ChainBytes(chain[..i]))
    requires c2 == Patch(Patch(c1, p + 1 + |ChainBytes(chain[..i])|, [chain[i].length]),
                         p + 1 + |ChainBytes(chain[..i])| + 1, chain[i].bytes)
    ensures c2 == Patch(c, p, [m] + ChainBytes(chain[..i + 1]))
    ensures |ChainBytes(chain[..i + 1])| == |ChainBytes(chain[..i])| + 1 + |chain[i].bytes|
  {
    var pre := [m] + ChainBytes(chain[..i]);
    PatchTwice(c, p, pre, [chain[i].length]);
    PatchTwice(c, p, pre + [chain[i].length], chain[i].bytes);
    assert chain[..i + 1] == chain[..i] + [chain[i]];
    ChainBytesSnoc(chain[..i], chain[i]);
    assert pre + [chain[i].length] + chain[i].bytes == [m] + ChainBytes(chain[..i + 1]);
  }

  lemma {:induction false} ChainBytesSnoc(c: seq<SubBlock>, b: SubBlock)
    ensures ChainBytes(c + [b]) == ChainBytes(c) + [b.length] + b.bytes
    decreases |c|
  {
    if c == [] {
      assert [b][1..] == [];
    } else {
      assert (c + [b])[1..] == c[1..] + [b];
      ChainBytesSnoc(c[1..], b);
    }
  }

  // ---------------------------------------------------------------- Image

  /** The four descriptor fields whose offsets `Image.parse` records. */
  datatype ImageField = Left | Top | Width | Height

  /** Offset of each field from the image origin. */
  function FieldOffset(f: ImageField): nat
  {
    match f
    case Left => 0
    case Top => 2
    case Width => 4
    case Height => 6
  }

  /** The three writes of `Image.rebuild` make up one write of ImageBytes. */
  lemma ImageRebuildSteps(c: seq<byte>, p: nat, v: ImageV, c1: seq<byte>, c2: seq<byte>, c3: seq<byte>)
    requires c1 == Patch(c, p, DescriptorBytes(v))
    requires c2 == Patch(c1, p + 9, OptTableBytes(v.lct))
    requires c3 == Patch(c2, p + 9 + |OptTableBytes(v.lct)|, ImageDataBytes(v.data))
    ensures c3 == Patch(c, p, ImageBytes(v))
  {
    PatchTwice(c, p, DescriptorBytes(v), OptTableBytes(v.lct));
    PatchTwice(c, p, DescriptorBytes(v) + OptTableBytes(v.lct), ImageDataBytes(v.data));
  }

  /** The offsets `parse` records for an image whose descriptor starts at
      `o`. */
  function FieldLocs(o: nat): map<ImageField, nat>
  {
    map[Left := o, Top := o + 2, Width := o + 4, Height := o + 6]
  }

  /** Every field gets an offset, at its place in the descriptor. */
  lemma FieldLocsAt(o: nat, f: ImageField)
    ensures f in FieldLocs(o) && FieldLocs(o)[f] == o + FieldOffset(f)
  {
    match f
    case Left =>
    case Top =>
    case Width =>
    case Height =>
  }

  /** An image parses exactly when what follows its descriptor does, and
      is made of the descriptor fields and that. */
  lemma ImageFromBody(c: seq<byte>, o: nat)
    requires o + 9 <= |c|
    ensures var b := ParseImageBody(c, o + 9, c[o + 8]);
      ParseImage(c, o) ==
        if b.None? then None
        else Some((ImageV(U16At(c, o), U16At(c, o + 2), U16At(c, o + 4), U16At(c, o + 6), b.value.0, b.value.1), b.value.2))
  {
  }

  class Image {
    var left: u16
    var top: u16
    var width: u16
    var height: u16
    var lct: ColorTable?
    var origin: nat
    var writable: bool
    var strm: Stream?
    var memlocs: map<ImageField, nat>
    var data: ImageData?

    constructor ()
      ensures left == 0 && top == 0 && width == 0 && height == 0 && lct == null
      ensures origin == 0 && !writable && strm == null && memlocs == map[] && data == null
    {
      left, top, width, height := 0, 0, 0, 0;
      lct := null;
      origin := 0;
      writable := false;
      strm := null;
      memlocs := map[];
      data := null;
    }

    /** A writable image has a file to write to. */
    ghost predicate Valid()
      reads this
    {
      writable ==> strm != null
    }

    function Field(f: ImageField): u16
      reads this
    {
      match f
      case Left => left
      case Top => top
      case Width => width
      case Height => height
    }

    function Value(): ImageV
      requires data != null
      reads this, lct, data
    {
      ImageV(left, top, width, height, if lct == null then None else Some(lct.Value()), data.Value())
    }

    /** `parse(strm, writeable)`: the four field offsets are recorded from
        the origin before the 9-byte descriptor is unpacked (a short read
        fails); bit 7 of the packed byte brings a local table with size
        bits 0..2; the image data follows. A table is only replaced when the
        packed byte announces one. */
    method Parse(s: Stream, w: bool) returns (ok: bool)
      modifies this, s`pos
      ensures writable == w && origin == old(s.pos)
      ensures memlocs == FieldLocs(origin)
      ensures ok == ParseImage(s.content, old(s.pos)).Some?
      ensures ok ==> var (m, q) := ParseImage(s.content, old(s.pos)).value;
        Valid() && strm == s && s.pos == q &&
        left == m.left && top == m.top && width == m.width && height == m.height &&
        data != null && fresh(data) && data.Value() == m.data &&
        (m.lct.Some? ==> lct != null && fresh(lct) && lct.Value() == m.lct.value && TableFrom(lct, s, w, origin + 9)) &&
        (m.lct.None? ==> lct == old(lct))
    {
      writable := w;
      origin := s.Tell();
      memlocs := FieldLocs(origin);
      ok := ParseFields(s, w);
    }

    /** The part of `parse` after the offsets are recorded: the 9-byte
        descriptor unpacked little-endian (a short read fails), then the
        local table and the image data. */
    method ParseFields(s: Stream, w: bool) returns (ok: bool)
      modifies this`left, this`top, this`width, this`height, this`strm, this`lct, this`data, s`pos
      ensures ok == ParseImage(s.content, old(s.pos)).Some?
      ensures ok ==> var (m, q) := ParseImage(s.content, old(s.pos)).value;
        strm == s && s.pos == q &&
        left == m.left && top == m.top && width == m.width && height == m.height &&
        data != null && fresh(data) && data.Value() == m.data &&
        (m.lct.Some? ==> lct != null && fresh(lct) && lct.Value() == m.lct.value && TableFrom(lct, s, w, old(s.pos) + 9)) &&
        (m.lct.None? ==> lct == old(lct))
    {
      ghost var c, o := s.content, s.pos;
      var d := s.Read(9);
      if |d| < 9 {
        return false;
      }
      left, top, width, height := U16At(d, 0), U16At(d, 2), U16At(d, 4), U16At(d, 6);
      strm := s;
      ok := ParseBody(d[8], s, w);
      ImageFromBody(c, o);
    }

    /** The part of `parse` after the descriptor: the local table when
        `pkd` announces one, then a new ImageData parsed from the file. */
    method ParseBody(pkd: byte, s: Stream, w: bool) returns (ok: bool)
      modifies this`lct, this`data, s`pos
      ensures ok == ParseImageBody(s.content, old(s.pos), pkd).Some?
      ensures ok ==> var (t, d, e) := ParseImageBody(s.content, old(s.pos), pkd).value;
        s.pos == e && data != null && fresh(data) && data.Value() == d &&
        (t.Some? ==> lct != null && fresh(lct) && lct.Value() == t.value && TableFrom(lct, s, w, old(s.pos))) &&
        (t.None? ==> lct == old(lct))
    {
      var okT := ParseTable(pkd, s, w);
      if !okT {
        return false;
      }
      var dd := new ImageData();
      data := dd;
      ok := dd.Parse(s, w);
      assert [] + dd.chain == dd.chain;
    }

    /** The local-table step of `parse`: a new table parsed with the size
        bits of `pkd` when its bit 7 is set, nothing otherwise. */
    method ParseTable(pkd: byte, s: Stream, w: bool) returns (ok: bool)
      modifies this`lct, s`pos
      ensures ok == ParseOptTable(s.content, old(s.pos), pkd).Some?
      ensures ok ==> var (t, q) := ParseOptTable(s.content, old(s.pos), pkd).value;
        s.pos == q && (t.Some? ==> lct != null && fresh(lct) && lct.Value() == t.value && TableFrom(lct, s, w, old(s.pos))) &&
        (t.None? ==> lct == old(lct))
    {
      if pkd >= 0x80 {
        var t := new ColorTable();
        lct := t;
        ok := t.Parse(pkd % 8, s, w);
        assert [] + t.colors == t.colors;
      } else {
        ok := true;
      }
    }

    /** `rebuild(strm)`: the descriptor from the fields with a packed byte
        from PackedFor, the local table if any, the image data. */
    method Rebuild(out: Stream)
      requires data != null
      modifies out
      ensures out.content == Patch(old(out.content), old(out.pos), ImageBytes(Value()))
      ensures out.pos == old(out.pos) + |ImageBytes(Value())|
    {
      ghost var c, p, v := out.content, out.pos, Value();
      var pkd: byte := 0;
      if lct != null {
        pkd := 0x80 + SizeBits(lct.ColorNum());
      }
      var desc := LE16(left) + LE16(top) + LE16(width) + LE16(height) + [pkd];
      assert desc == DescriptorBytes(v);
      out.Write(desc);
      ghost var c1 := out.content;
      if lct != null {
        lct.Rebuild(out);
      }
      ghost var c2 := out.content;
      assert c2 == Patch(c1, p + |desc|, OptTableBytes(v.lct));
      data.Rebuild(out);
      assert out.content == Patch(c2, p + |desc| + |OptTableBytes(v.lct)|, ImageDataBytes(v.data));
      ImageRebuildSteps(c, p, v, c1, c2, out.content);
    }

    /** The `left`/`top`/`width`/`height` setters: ValueError when read-only
        or when no offset was recorded for the field; struct.error for a
        value over 0xFFFF (after the seek); otherwise 2 little-endian bytes
        at the recorded offset and the in-memory field take the value. */
    method SetField(f: ImageField, v: nat) returns (r: Outcome)
      requires Valid()
      modifies this`left, this`top, this`width, this`height, strm
      ensures f !in memlocs || !writable ==>
        r == Fail(WriteProtected) && unchanged(this) && (strm != null ==> unchanged(strm))
      ensures f in memlocs && writable && v >= 0x1_0000 ==>
        r == Fail(PackOverflow) && unchanged(this) &&
        strm.content == old(strm.content) && strm.pos == memlocs[f]
      ensures f in memlocs && writable && v < 0x1_0000 ==>
        r == Pass && Field(f) == v &&
        strm.content == Patch(old(strm.content), memlocs[f], LE16(v)) && strm.pos == memlocs[f] + 2
      ensures forall g :: g != f ==> Field(g) == old(Field(g))
    {
      if f !in memlocs || !writable {
        return Fail(WriteProtected);
      }
      strm.Seek(memlocs[f]);
      if v >= 0x1_0000 {
        return Fail(PackOverflow);
      }
      strm.Write(LE16(v));
      r := Pass;
      match f {
        case Left => left := v;
        case Top => top := v;
        case Width => width := v;
        case Height => height := v;
      }
    }
  }
}
