/** Byte-level vocabulary shared by the whole model: fixed-width integer
    types, little-endian packing, and the two views of a seekable file that
    every operation is specified against: reading a slice at a position and
    overwriting bytes at a position. */
module Bytes {

  type byte = x: int | 0 <= x < 0x100
  type u16 = x: int | 0 <= x < 0x1_0000
  type u32 = x: int | 0 <= x < 0x1_0000_0000

  datatype Option<T> = None | Some(value: T)

  /** The exceptions the library raises on purpose. */
  datatype Error =
    | WriteProtected   // ValueError: object parsed read-only, or offset never recorded
    | OutOfRange       // IndexError from a color table lookup
    | PackOverflow     // struct.error: a value does not fit its packed width

  datatype Outcome = Pass | Fail(error: Error)

  datatype Result<T> = Ok(value: T) | Err(error: Error)

  function Min(a: nat, b: nat): nat { if a <= b then a else b }

  function Zeros(n: nat): (r: seq<byte>)
    ensures |r| == n && forall i :: 0 <= i < n ==> r[i] == 0
  {
    if n == 0 then [] else Zeros(n - 1) + [0]
  }

  /** What `read(n)` returns when the file position is `p`: at most `n`
      bytes, fewer (possibly none) near or past the end. */
  function Slice(s: seq<byte>, p: nat, n: nat): (r: seq<byte>)
    ensures |r| == if p >= |s| then 0 else Min(n, |s| - p)
    ensures forall i :: 0 <= i < |r| ==> r[i] == s[p + i]
  {
    if p >= |s| then [] else s[p..Min(p + n, |s|)]
  }

  /** The file contents after writing one byte `b` at `i`: a write past
      the end first fills the gap with zero bytes. */
  function PatchByte(s: seq<byte>, i: nat, b: byte): (r: seq<byte>)
    ensures |r| == if i < |s| then |s| else i + 1
  {
    if i < |s| then s[i := b] else s + Zeros(i - |s|) + [b]
  }

  /** The file contents after seeking to `off` and writing `bs`, byte by
      byte; writing nothing changes nothing. */
  function Patch(s: seq<byte>, off: nat, bs: seq<byte>): seq<byte>
    decreases |bs|
  {
    if bs == [] then s else PatchByte(Patch(s, off, bs[..|bs| - 1]), off + |bs| - 1, bs[|bs| - 1])
  }

  /** The frame property of a write: exactly the bytes [off, off+|bs|)
      take the new values, every other byte keeps its old value (or is the
      zero fill), and the file grows only as far as the write reaches. */
  lemma {:induction false} PatchAt(s: seq<byte>, off: nat, bs: seq<byte>)
    ensures |Patch(s, off, bs)| == if bs == [] || off + |bs| <= |s| then |s| else off + |bs|
    ensures forall i :: off <= i < off + |bs| ==> Patch(s, off, bs)[i] == bs[i - off]
    ensures forall i :: 0 <= i < |s| && !(off <= i < off + |bs|) ==> Patch(s, off, bs)[i] == s[i]
    ensures bs != [] ==> forall i :: |s| <= i < off ==> Patch(s, off, bs)[i] == 0
    decreases |bs|
  {
    if bs != [] {
      PatchAt(s, off, bs[..|bs| - 1]);
    }
  }

  /** A write that fits in the file replaces exactly the bytes it covers,
      pointwise and as a splice of the old contents. */
  lemma PatchInside(s: seq<byte>, off: nat, bs: seq<byte>)
    requires off + |bs| <= |s|
    ensures |Patch(s, off, bs)| == |s|
    ensures forall i :: off <= i < off + |bs| ==> Patch(s, off, bs)[i] == bs[i - off]
    ensures forall i :: 0 <= i < |s| && !(off <= i < off + |bs|) ==> Patch(s, off, bs)[i] == s[i]
    ensures Patch(s, off, bs) == s[..off] + bs + s[off + |bs|..]
  {
    PatchAt(s, off, bs);
    var q := Patch(s, off, bs);
    var r := s[..off] + bs + s[off + |bs|..];
    assert |q| == |r|;
    forall i | 0 <= i < |r| ensures q[i] == r[i] {
      if i < off {
        assert q[i] == s[i];
      } else if i < off + |bs| {
        assert q[i] == bs[i - off];
      } else {
        assert q[i] == s[i];
      }
    }
  }

  /** Writing at the end of the file appends. */
  lemma {:induction false} PatchAppend(s: seq<byte>, bs: seq<byte>)
    ensures Patch(s, |s|, bs) == s + bs
    decreases |bs|
  {
    if bs != [] {
      PatchAppend(s, bs[..|bs| - 1]);
      assert s + bs == (s + bs[..|bs| - 1]) + [bs[|bs| - 1]];
    }
  }

  /** Two consecutive writes are one write of the concatenation. */
  lemma {:induction false} PatchTwice(s: seq<byte>, off: nat, a: seq<byte>, b: seq<byte>)
    ensures Patch(Patch(s, off, a), off + |a|, b) == Patch(s, off, a + b)
    decreases |b|
  {
    if b == [] {
      assert a + b == a;
    } else {
      PatchTwice(s, off, a, b[..|b| - 1]);
      assert (a + b)[..|a + b| - 1] == a + b[..|b| - 1];
    }
  }

  lemma AppendAssoc(a: seq<byte>, b: seq<byte>, c: seq<byte>)
    ensures (a + b) + c == a + (b + c)
  {
  }

  function LE16(v: u16): (r: seq<byte>)
    ensures |r| == 2
  {
    [v % 0x100, v / 0x100]
  }

  function U16At(s: seq<byte>, p: nat): u16
    requires p + 2 <= |s|
  {
    s[p] as int + 0x100 * s[p + 1] as int
  }

  lemma LE16RoundTrip(v: u16, s: seq<byte>, p: nat)
    requires p + 2 <= |s| && s[p..p + 2] == LE16(v)
    ensures U16At(s, p) == v
  {
    assert s[p] == LE16(v)[0] && s[p + 1] == LE16(v)[1];
  }

  /** Little-endian 32-bit packing, as two 16-bit halves. */
  function LE32(v: u32): (r: seq<byte>)
    ensures |r| == 4
  {
    LE16(v % 0x1_0000) + LE16(v / 0x1_0000)
  }

  function U32At(s: seq<byte>, p: nat): u32
    requires p + 4 <= |s|
  {
    U16At(s, p) as int + 0x1_0000 * U16At(s, p + 2) as int
  }

  lemma LE32RoundTrip(v: u32, s: seq<byte>, p: nat)
    requires p + 4 <= |s| && s[p..p + 4] == LE32(v)
    ensures U32At(s, p) == v
  {
    var lo, hi := v % 0x1_0000, v / 0x1_0000;
    assert s[p..p + 2] == LE16(lo) && s[p + 2..p + 4] == LE16(hi) by {
      assert s[p..p + 2] == s[p..p + 4][..2];
      assert s[p + 2..p + 4] == s[p..p + 4][2..];
    }
    LE16RoundTrip(lo, s, p);
    LE16RoundTrip(hi, s, p + 2);
  }

  /** The concatenation of a sequence of byte strings. */
  function Concat(parts: seq<seq<byte>>): (r: seq<byte>)
  {
    if parts == [] then [] else Concat(parts[..|parts| - 1]) + parts[|parts| - 1]
  }

  /** The position in `Concat(parts)` at which `parts[i]` starts. */
  function Offset(parts: seq<seq<byte>>, i: nat): nat
    requires i <= |parts|
  {
    |Concat(parts[..i])|
  }

  lemma {:induction false} ConcatAppend(a: seq<seq<byte>>, b: seq<seq<byte>>)
    ensures Concat(a + b) == Concat(a) + Concat(b)
    decreases |b|
  {
    if b == [] {
      assert a + b == a;
    } else {
      assert (a + b)[..|a + b| - 1] == a + b[..|b| - 1];
      ConcatAppend(a, b[..|b| - 1]);
    }
  }

  /** Part `i` sits exactly at [Offset(parts, i), Offset(parts, i + 1)), and
      the next part starts where this one ends. */
  lemma {:induction false} ConcatPart(parts: seq<seq<byte>>, i: nat)
    requires i < |parts|
    ensures Offset(parts, i + 1) == Offset(parts, i) + |parts[i]|
    ensures Offset(parts, i + 1) <= |Concat(parts)|
    ensures Concat(parts)[Offset(parts, i)..Offset(parts, i + 1)] == parts[i]
  {
    assert parts[..i + 1] == parts[..i] + [parts[i]];
    ConcatAppend(parts[..i], [parts[i]]);
    assert Concat([parts[i]]) == parts[i] by {
      var one: seq<seq<byte>> := [parts[i]];
      assert one[..0] == [];
    }
    assert parts == parts[..i + 1] + parts[i + 1..];
    ConcatAppend(parts[..i + 1], parts[i + 1..]);
  }
}
