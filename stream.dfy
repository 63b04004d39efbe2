/** The seekable binary file every object of the library reads from and
    writes to: its contents and the current position. Only the calls the
    library makes are modelled: tell, seek, read, write and truncate(0). */
module Streams {
  import opened Bytes

  class Stream {
    var content: seq<byte>
    var pos: nat

    constructor (init: seq<byte>)
      ensures content == init && pos == 0
    {
      content := init;
      pos := 0;
    }

    method Tell() returns (p: nat)
      ensures p == pos
    {
      p := pos;
    }

    method Seek(p: nat)
      modifies this`pos
      ensures pos == p
    {
      pos := p;
    }

    /** `read(n)`: up to `n` bytes from the position, which advances past them. */
    method Read(n: nat) returns (r: seq<byte>)
      modifies this`pos
      ensures r == Slice(content, old(pos), n)
      ensures pos == old(pos) + |r|
    {
      r := Slice(content, pos, n);
      pos := pos + |r|;
    }

    /** `write(bs)` at the position, which advances past the written bytes. */
    method Write(bs: seq<byte>)
      modifies this
      ensures content == Patch(old(content), old(pos), bs)
      ensures pos == old(pos) + |bs|
    {
      content := Patch(content, pos, bs);
      pos := pos + |bs|;
    }

    /** `truncate(0)`: the contents are dropped, the position is kept. */
    method Truncate()
      modifies this`content
      ensures content == []
    {
      content := [];
    }
  }
}
