/** The color table object: parsed from the file position it is handed,
    keeping the file for write-through of single entries. */
module Tables {
  import opened Bytes
  import opened Streams
  import opened GifFormat

  /** A full triple read at `p + 3 * i` extends the table read so far. */
  lemma TriplesStep(c: seq<byte>, p: nat, i: nat, t: seq<byte>)
    requires t == Slice(c, p + 3 * i, 3) && |t| == 3
    ensures p + 3 * (i + 1) <= |c|
    ensures Triples(c, p, i + 1) == Triples(c, p, i) + [Rgb(t[0], t[1], t[2])]
  {
  }

  /** A short triple at `p + 3 * i`, before the last one, means the whole
      table does not fit. */
  lemma ShortTable(c: seq<byte>, p: nat, i: nat, n: nat, t: seq<byte>)
    requires i < n && t == Slice(c, p + 3 * i, 3) && |t| < 3
    ensures p + 3 * n > |c|
  {
  }

  class ColorTable {
    var colors: seq<Rgb>
    var writable: bool
    var entryCount: nat
    var origin: nat
    var strm: Stream?

    constructor ()
      ensures colors == [] && !writable && entryCount == 0 && origin == 0 && strm == null
    {
      colors := [];
      writable := false;
      entryCount := 0;
      origin := 0;
      strm := null;
    }

    /** A writable table has a file to write to, and the table holds as
        many triples as its entry count. */
    ghost predicate Valid()
      reads this
    {
      (writable ==> strm != null) && |colors| == entryCount
    }

    function Value(): ColorTableV
      reads this
    {
      ColorTableV(entryCount, colors)
    }

    /** `parse(size_num, strm, writeable)`: records the position as the
        origin and appends `2^(size_num + 1)` triples read from it; a short
        triple makes it fail. */
    method Parse(sizeNum: nat, s: Stream, w: bool) returns (ok: bool)
      modifies this, s`pos
      ensures writable == w && strm == s && origin == old(s.pos)
      ensures entryCount == Pow2(sizeNum + 1)
      ensures ok && old(colors) == [] ==> Valid()
      ensures ok == ParseColorTable(s.content, old(s.pos), sizeNum).Some?
      ensures ok ==> var (t, q) := ParseColorTable(s.content, old(s.pos), sizeNum).value;
                     colors == old(colors) + t.colors && s.pos == q
    {
      writable := w;
      entryCount := Pow2(1 + sizeNum);
      origin := s.Tell();
      strm := s;
      ghost var start := colors;
      ghost var c := s.content;
      var i := 0;
      while i < entryCount
        invariant 0 <= i <= entryCount && s.content == c
        invariant writable == w && strm == s && origin == old(s.pos) && entryCount == Pow2(sizeNum + 1)
        invariant s.pos == origin + 3 * i
        invariant i > 0 ==> s.pos <= |c|
        invariant colors == start + Triples(c, origin, i)
      {
        var t := s.Read(3);
        if |t| < 3 {
          ShortTable(c, origin, i, entryCount, t);
          ok := false;
          return;
        }
        TriplesStep(c, origin, i, t);
        colors := colors + [Rgb(t[0], t[1], t[2])];
        i := i + 1;
      }
      ok := true;
    }

    /** `rebuild(strm)`: writes the stored triples in order, 3 bytes each. */
    method Rebuild(out: Stream)
      modifies out
      ensures out.content == Patch(old(out.content), old(out.pos), TableBytes(Value()))
      ensures out.pos == old(out.pos) + 3 * |colors|
    {
      var i := 0;
      while i < |colors|
        invariant 0 <= i <= |colors|
        invariant out.content == Patch(old(out.content), old(out.pos), RgbBytes(colors[..i]))
        invariant out.pos == old(out.pos) + 3 * i
      {
        var c := colors[i];
        PatchTwice(old(out.content), old(out.pos), RgbBytes(colors[..i]), [c.r, c.g, c.b]);
        out.Write([c.r, c.g, c.b]);
        assert colors[..i + 1][..i] == colors[..i];
        i := i + 1;
      }
      assert colors[..i] == colors;
    }

    /** `get_color(index)`: the stored triple, IndexError past the end. */
    method GetColor(index: nat) returns (r: Result<Rgb>)
      ensures index < |colors| ==> r == Ok(colors[index])
      ensures index >= |colors| ==> r == Err(OutOfRange)
      ensures Valid() ==> (index < ColorNum() <==> r.Ok?)
    {
      if index < |colors| {
        r := Ok(colors[index]);
      } else {
        r := Err(OutOfRange);
      }
    }

    /** `set_color(index, value)`: ValueError when read-only, IndexError past
        the end, struct.error for a component over 255 (after the seek);
        otherwise the 3 bytes at `origin + 3 * index` are overwritten. The
        stored triples are not updated. */
    method SetColor(index: nat, value: (nat, nat, nat)) returns (r: Outcome)
      requires Valid()
      modifies strm
      ensures colors == old(colors) && entryCount == old(entryCount)
      ensures !writable ==> r == Fail(WriteProtected) && (strm != null ==> unchanged(strm))
      ensures writable && index >= |colors| ==> r == Fail(OutOfRange) && unchanged(strm)
      ensures writable ==> (index < ColorNum() <==> r != Fail(OutOfRange))
      ensures writable && index < |colors| ==>
        var (cr, cg, cb) := value;
        if cr < 0x100 && cg < 0x100 && cb < 0x100 then
          r == Pass && strm.content == Patch(old(strm.content), origin + 3 * index, [cr, cg, cb])
          && strm.pos == origin + 3 * index + 3
        else
          r == Fail(PackOverflow) && strm.content == old(strm.content) && strm.pos == origin + 3 * index
    {
      if !writable {
        return Fail(WriteProtected);
      }
      if index < |colors| {
        strm.Seek(origin + index * 3);
        var (cr, cg, cb) := value;
        if cr < 0x100 && cg < 0x100 && cb < 0x100 {
          strm.Write([cr, cg, cb]);
          r := Pass;
        } else {
          r := Fail(PackOverflow);
        }
      } else {
        r := Fail(OutOfRange);
      }
    }

    /** `color_num`: the entry count fixed by `parse`. */
    function ColorNum(): nat
      reads this
    {
      entryCount
    }
  }

  /** A table as `parse(size_num, strm, writeable)` leaves it: it keeps the
      stream and the mode it was parsed with and the position it starts at. */
  ghost predicate TableFrom(t: ColorTable, s: Stream, w: bool, o: nat)
    reads t
  {
    t.Valid() && t.strm == s && t.writable == w && t.origin == o
  }

  /** After `set_color`, `get_color` still answers the triple stored before
      the write: the write goes to the file only. */
  method SetThenGet(t: ColorTable, index: nat, value: (nat, nat, nat)) returns (before: Result<Rgb>, after: Result<Rgb>)
    requires t.Valid()
    modifies t.strm
    ensures before == after
    ensures index < |t.colors| <==> after.Ok?
  {
    before := t.GetColor(index);
    var _ := t.SetColor(index, value);
    after := t.GetColor(index);
  }
}
