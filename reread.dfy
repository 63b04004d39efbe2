/** `recompile` and `read_from_stream` on the same file, in both orders: a
    file whose value sits where a parse from offset 0 would put it is read
    back as the value that was written, and a file read and recompiled keeps
    its bytes exactly when they were in canonical form. */
module Rereads {
  import opened Streams
  import opened GifFormat
  import opened GifFiles
  import opened RoundTrips

  /** Recompiles `g` into its stream, rewinds it, and reads it into a new
      GIFFile. */
  method RecompileAndReread(g: GifFile) returns (h: GifFile)
    requires g.Valid() && g.stream != null && WellPlaced(g.Value())
    modifies g.stream
    ensures fresh(h) && h.Valid() && h.Value() == old(g.Value())
  {
    ghost var v := g.Value();
    var s := g.stream;
    g.Recompile();
    s.Seek(0);
    h := ReadBack(s, v);
  }

  /** Reading the bytes `recompile` writes for `v` from the start gives `v`. */
  method ReadBack(s: Stream, ghost v: GifV) returns (h: GifFile)
    requires WellPlaced(v) && s.content == GifBytes(v) && s.pos == 0
    modifies s`pos
    ensures fresh(h) && h.Valid() && h.Value() == v
  {
    h := new GifFile();
    GifRoundTrip(v);
    var ok, _ := h.ReadFromStream(s, false);
    assert ok;
  }

  /** `read_from_stream` from offset 0 followed by `recompile`: the file
      keeps its bytes exactly when its packed screen byte and every block
      after the global table are in the form `recompile` writes. */
  method ReadAndRecompile(s: Stream, w: bool) returns (ok: bool, h: GifFile)
    requires s.pos == 0
    modifies s
    ensures fresh(h) && ok == ParseGif(old(s.content), 0).Some?
    ensures ok ==> h.stream == s && s.content == GifBytes(ParseGif(old(s.content), 0).value)
    ensures ok ==> var g := ParseGif(old(s.content), 0).value;
      (s.content == old(s.content) <==>
       old(s.content)[10] == PackedFor(g.gct) && CanonicalBlocks(old(s.content), 13 + |OptTableBytes(g.gct)|))
  {
    h := new GifFile();
    ghost var c := s.content;
    ghost var at;
    ok, at := h.ReadFromStream(s, w);
    if ok {
      ghost var g := h.Value();
      h.Recompile();
      GifReparse(c, g);
    }
  }
}
