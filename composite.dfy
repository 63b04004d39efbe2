/** The composite container: a count, a table of fixed-size records and
    the rebuilt bytes of the global table, every extension and every image
    of a GIF file, each record pointing at its item's bytes. */
module Composite {
  import opened Bytes
  import opened Streams
  import opened GifFormat
  import opened Tables
  import opened MicroGif
  import opened GifFiles

  const TableTag: byte := 0xCC
  const ExtTag: byte := 0xEE
  const ImgTag: byte := 0x11

  /** What `create` writes for every record before the real values are known. */
  const Placeholder: seq<byte> := [0x00, 0x00, 0x00, 0x00, 0x33, 0x33, 0x33, 0x33, 0x11, 0x22, 0x22]

  /** Width of one record: `struct.pack("<IIBH", ...)`. */
  const RecordSize: nat := 11

  /** An object the composite serialises. */
  datatype Item = TableItem(t: ColorTable) | ExtItem(e: Extension) | ImgItem(i: Image)

  /** One row of the data table: where the item's bytes start, how many
      there are, the kind tag, the index within its kind, and the item. */
  datatype Entry = Entry(origin: nat, length: nat, tag: byte, index: nat, item: Item)

  // ----------------------------------------------------------- pure layout

  function Repeat(b: seq<byte>, n: nat): (r: seq<byte>)
    ensures |r| == n * |b|
  {
    if n == 0 then [] else b + Repeat(b, n - 1)
  }

  /** A record's four values fit their packed widths. */
  predicate Fits(e: Entry)
  {
    e.origin < 0x1_0000_0000 && e.length < 0x1_0000_0000 && e.index < 0x1_0000
  }

  predicate AllFit(es: seq<Entry>)
  {
    forall k :: 0 <= k < |es| ==> Fits(es[k])
  }

  function RecordBytes(e: Entry): (r: seq<byte>)
    requires Fits(e)
    ensures |r| == RecordSize
  {
    LE32(e.origin) + LE32(e.length) + [e.tag] + LE16(e.index)
  }

  function RecordsBytes(es: seq<Entry>): (r: seq<byte>)
    requires AllFit(es)
    ensures |r| == RecordSize * |es|
  {
    if es == [] then [] else RecordsBytes(es[..|es| - 1]) + RecordBytes(es[|es| - 1])
  }

  /** The data table after the payload loop: entry `k` starts at `base` plus
      the bytes of the items before it and is as long as its own bytes. */
  function Recorded(es: seq<Entry>, base: nat, pay: seq<seq<byte>>): (r: seq<Entry>)
    requires |pay| == |es|
    ensures |r| == |es|
  {
    seq(|es|, k requires 0 <= k < |es| => es[k].(origin := base + Offset(pay, k), length := |pay[k]|))
  }

  /** The bytes of a finished composite file. */
  function CompositeBytes(es: seq<Entry>, pay: seq<seq<byte>>): seq<byte>
    requires AllFit(es) && |es| < 0x1_0000_0000
  {
    LE32(|es|) + RecordsBytes(es) + Concat(pay)
  }

  // --------------------------------------------------------- item objects

  /** The objects an item's rebuild reads belong to `R`. */
  ghost predicate ItemIn(it: Item, R: set<object>)
    reads R
  {
    match it
    case TableItem(t) => t in R
    case ExtItem(e) => e in R
    case ImgItem(i) => i in R && i.data != null && i.data in R && (i.lct != null ==> i.lct in R)
  }

  ghost predicate EntriesIn(es: seq<Entry>, R: set<object>)
    reads R
  {
    forall k :: 0 <= k < |es| ==> ItemIn(es[k].item, R)
  }

  /** The bytes an item's `rebuild` writes. */
  function ItemBytes(it: Item, R: set<object>): seq<byte>
    requires ItemIn(it, R)
    reads R
  {
    match it
    case TableItem(t) => TableBytes(t.Value())
    case ExtItem(e) => ExtensionBytes(e.Value())
    case ImgItem(i) => ImageBytes(i.Value())
  }

  function Payloads(es: seq<Entry>, R: set<object>): (r: seq<seq<byte>>)
    requires EntriesIn(es, R)
    reads R
    ensures |r| == |es|
  {
    if es == [] then [] else Payloads(es[..|es| - 1], R) + [ItemBytes(es[|es| - 1].item, R)]
  }

  lemma {:induction false} PayloadsAt(es: seq<Entry>, R: set<object>, k: nat)
    requires EntriesIn(es, R) && k < |es|
    ensures ItemIn(es[k].item, R) && Payloads(es, R)[k] == ItemBytes(es[k].item, R)
    decreases |es|
  {
    var init := es[..|es| - 1];
    if k < |init| {
      assert EntriesIn(init, R) by {
        forall j | 0 <= j < |init| ensures ItemIn(init[j].item, R) {
          assert init[j] == es[j];
        }
      }
      PayloadsAt(init, R, k);
      assert init[k] == es[k];
    }
  }

  // ------------------------------------------------------------- from_gif

  /** The rows `from_gif` appends: the global table if there is one, then
      every extension, then every image, each numbered within its kind. */
  function EntriesFor(gct: ColorTable?, exts: seq<Extension>, imgs: seq<Image>): seq<Entry>
  {
    (if gct == null then [] else [Entry(0, 0, TableTag, 0, TableItem(gct))]) + ExtEntries(exts) + ImgEntries(imgs)
  }

  function ExtEntries(exts: seq<Extension>): (r: seq<Entry>)
    ensures |r| == |exts|
  {
    seq(|exts|, k requires 0 <= k < |exts| => Entry(0, 0, ExtTag, k, ExtItem(exts[k])))
  }

  function ImgEntries(imgs: seq<Image>): (r: seq<Entry>)
    ensures |r| == |imgs|
  {
    seq(|imgs|, k requires 0 <= k < |imgs| => Entry(0, 0, ImgTag, k, ImgItem(imgs[k])))
  }

  /** How many rows of `es` carry `tag`. */
  function TagCount(es: seq<Entry>, tag: byte): nat
  {
    if es == [] then 0 else TagCount(es[..|es| - 1], tag) + (if es[|es| - 1].tag == tag then 1 else 0)
  }

  lemma {:induction false} TagCountAppend(a: seq<Entry>, b: seq<Entry>, tag: byte)
    ensures TagCount(a + b, tag) == TagCount(a, tag) + TagCount(b, tag)
    decreases |b|
  {
    if b == [] {
      assert a + b == a;
    } else {
      assert (a + b)[..|a + b| - 1] == a + b[..|b| - 1];
      TagCountAppend(a, b[..|b| - 1], tag);
    }
  }

  /** A run of rows all tagged `t` numbered 0, 1, 2, ... */
  lemma {:induction false} RunCount(es: seq<Entry>, t: byte, tag: byte)
    requires forall k :: 0 <= k < |es| ==> es[k].tag == t
    ensures TagCount(es, tag) == if t == tag then |es| else 0
    decreases |es|
  {
    if es != [] {
      RunCount(es[..|es| - 1], t, tag);
    }
  }

  /** Row `j` of a run tagged `t` that follows rows with no `t` tag: its
      index is the number of `t` rows before it. */
  lemma RunRow(pre: seq<Entry>, run: seq<Entry>, t: byte, j: nat)
    requires forall k :: 0 <= k < |run| ==> run[k].tag == t
    requires TagCount(pre, t) == 0 && j <= |run|
    ensures TagCount(pre + run[..j], t) == j
  {
    TagCountAppend(pre, run[..j], t);
    RunCount(run[..j], t, t);
  }

  /** Every row's index is the number of rows of its kind before it, and
      the table has one row per table, extension and image. */
  lemma EntriesNumbered(gct: ColorTable?, exts: seq<Extension>, imgs: seq<Image>)
    ensures var es := EntriesFor(gct, exts, imgs);
      |es| == (if gct == null then 0 else 1) + |exts| + |imgs| &&
      forall k :: 0 <= k < |es| ==> es[k].index == TagCount(es[..k], es[k].tag)
  {
    var tp: seq<Entry> := if gct == null then [] else [Entry(0, 0, TableTag, 0, TableItem(gct))];
    var xs, ms := ExtEntries(exts), ImgEntries(imgs);
    var es := EntriesFor(gct, exts, imgs);
    assert es == tp + xs + ms;
    RunCount(tp, TableTag, ExtTag);
    RunCount(tp, TableTag, ImgTag);
    RunCount(xs, ExtTag, ImgTag);
    TagCountAppend(tp, xs, ImgTag);
    forall k | 0 <= k < |es|
      ensures es[k].index == TagCount(es[..k], es[k].tag)
    {
      if k < |tp| {
        assert es[..k] == [];
      } else if k < |tp| + |xs| {
        var j := k - |tp|;
        assert es[..k] == tp + xs[..j];
        RunRow(tp, xs, ExtTag, j);
      } else {
        var j := k - |tp| - |xs|;
        assert es[..k] == (tp + xs) + ms[..j];
        RunRow(tp + xs, ms, ImgTag, j);
      }
    }
  }

  // ------------------------------------------------------------ sequences

  lemma {:induction false} RepeatSnoc(b: seq<byte>, n: nat)
    ensures Repeat(b, n) + b == Repeat(b, n + 1)
    decreases n
  {
    if n > 0 {
      RepeatSnoc(b, n - 1);
    }
  }

  /** Overwriting the slot right after `done` with as many bytes. */
  lemma ReplaceSlot(done: seq<byte>, slot: seq<byte>, rec: seq<byte>, rest: seq<byte>)
    requires |rec| == |slot|
    ensures Patch(done + slot + rest, |done|, rec) == done + rec + rest
  {
    var s := done + slot + rest;
    PatchInside(s, |done|, rec);
    assert s[..|done|] == done;
    assert s[|done| + |rec|..] == rest;
  }

  /** The record after `pre` overwrites the next placeholder. */
  lemma RecordStep(n: nat, pre: seq<Entry>, e: Entry, m: nat, pay: seq<byte>)
    requires AllFit(pre) && Fits(e) && n < 0x1_0000_0000
    ensures AllFit(pre + [e]) && |LE32(n) + RecordsBytes(pre)| == 4 + RecordSize * |pre|
    ensures Patch(LE32(n) + RecordsBytes(pre) + Repeat(Placeholder, m + 1) + pay, 4 + RecordSize * |pre|, RecordBytes(e)) ==
      LE32(n) + RecordsBytes(pre + [e]) + Repeat(Placeholder, m) + pay
  {
    var head, before := LE32(n), RecordsBytes(pre);
    var done := head + before;
    var rec := RecordBytes(e);
    var r1 := Repeat(Placeholder, m);
    assert Repeat(Placeholder, m + 1) == Placeholder + r1;
    AppendAssoc(done, Placeholder, r1);
    AppendAssoc(done + Placeholder, r1, pay);
    ReplaceSlot(done, Placeholder, rec, r1 + pay);
    var q := pre + [e];
    assert AllFit(q) by {
      forall k | 0 <= k < |q| ensures Fits(q[k]) {
        if k < |pre| {
          assert q[k] == pre[k];
        }
      }
    }
    assert q[..|q| - 1] == pre;
    assert RecordsBytes(q) == before + rec;
    AppendAssoc(head, before, rec);
    AppendAssoc(done + rec, r1, pay);
  }

  /** The slice of RecordsBytes holding record `k`. */
  lemma {:induction false} RecordsAt(es: seq<Entry>, k: nat)
    requires |es| < 0x1_0000_0000 && AllFit(es) && k < |es|
    ensures RecordsBytes(es)[RecordSize * k..RecordSize * k + RecordSize] == RecordBytes(es[k])
    decreases |es|
  {
    var init := es[..|es| - 1];
    assert AllFit(init) by {
      forall j | 0 <= j < |init| ensures Fits(init[j]) {
        assert init[j] == es[j];
      }
    }
    if k < |init| {
      RecordsAt(init, k);
      assert init[k] == es[k];
      assert RecordsBytes(es)[..RecordSize * |init|] == RecordsBytes(init);
    } else {
      assert RecordsBytes(es)[RecordSize * |init|..] == RecordBytes(es[k]);
    }
  }

  /** A record decodes to its four values. */
  lemma RecordDecode(e: Entry, s: seq<byte>, p: nat)
    requires Fits(e) && p + RecordSize <= |s| && s[p..p + RecordSize] == RecordBytes(e)
    ensures U32At(s, p) == e.origin && U32At(s, p + 4) == e.length
    ensures s[p + 8] == e.tag && U16At(s, p + 9) == e.index
  {
    var a, b, c := LE32(e.origin), LE32(e.length), LE16(e.index);
    var r := s[p..p + RecordSize];
    assert r == a + b + [e.tag] + c;
    forall j | 0 <= j < 4 ensures s[p + j] == a[j] && s[p + 4 + j] == b[j] {
      assert s[p + j] == r[j] && s[p + 4 + j] == r[4 + j];
    }
    assert s[p..p + 4] == a;
    assert s[p + 4..p + 8] == b;
    assert s[p + 9..p + 11] == c;
    assert s[p + 8] == r[8];
    LE32RoundTrip(e.origin, s, p);
    LE32RoundTrip(e.length, s, p + 4);
    LE16RoundTrip(e.index, s, p + 9);
  }

  /** Record `k` of the file `c` decodes to `e`'s origin, length, tag and
      index, and the bytes it points at are `bytes`. */
  predicate RecordPoints(c: seq<byte>, k: nat, e: Entry, bytes: seq<byte>)
  {
    4 + RecordSize * k + RecordSize <= |c| &&
    U32At(c, 4 + RecordSize * k) == e.origin && U32At(c, 8 + RecordSize * k) == e.length &&
    c[12 + RecordSize * k] == e.tag && U16At(c, 13 + RecordSize * k) == e.index &&
    e.origin + e.length <= |c| && c[e.origin..e.origin + e.length] == bytes
  }

  /** Record `k` of a finished composite decodes to row `k`. */
  lemma CompositeRecord(es: seq<Entry>, pay: seq<seq<byte>>, k: nat)
    requires |es| < 0x1_0000_0000 && AllFit(es) && k < |es|
    ensures var c := CompositeBytes(es, pay); var p := 4 + RecordSize * k;
      p + RecordSize <= |c| && U32At(c, p) == es[k].origin && U32At(c, p + 4) == es[k].length &&
      c[p + 8] == es[k].tag && U16At(c, p + 9) == es[k].index
  {
    var c := CompositeBytes(es, pay);
    var recs := RecordsBytes(es);
    var p := 4 + RecordSize * k;
    RecordsAt(es, k);
    assert c[p..p + RecordSize] == recs[RecordSize * k..RecordSize * k + RecordSize];
    RecordDecode(es[k], c, p);
  }

  /** The bytes item `k` was written to in a finished composite. */
  lemma CompositePayload(es: seq<Entry>, pay: seq<seq<byte>>, k: nat)
    requires |pay| == |es| < 0x1_0000_0000 && AllFit(es) && k < |es|
    ensures var c := CompositeBytes(es, pay); var o := 4 + RecordSize * |es| + Offset(pay, k);
      o + |pay[k]| <= |c| && c[o..o + |pay[k]|] == pay[k]
  {
    var c := CompositeBytes(es, pay);
    var head := LE32(|es|) + RecordsBytes(es);
    ConcatPart(pay, k);
    assert c[|head| + Offset(pay, k)..|head| + Offset(pay, k + 1)] == Concat(pay)[Offset(pay, k)..Offset(pay, k + 1)];
  }

  /** Record `k` of a finished composite and the bytes it points at. */
  lemma CompositeEntry(es: seq<Entry>, pay: seq<seq<byte>>, k: nat)
    requires |pay| == |es| < 0x1_0000_0000 && AllFit(es) && k < |es|
    requires es[k].origin == 4 + RecordSize * |es| + Offset(pay, k) && es[k].length == |pay[k]|
    ensures RecordPoints(CompositeBytes(es, pay), k, es[k], pay[k])
  {
    CompositeRecord(es, pay, k);
    CompositePayload(es, pay, k);
  }

  /** The finished composite describes itself: the count comes first, and
      record `k` decodes to the origin and length of item `k`'s bytes, its
      tag and its index, and those bytes are exactly item `k`'s. */
  lemma CompositeLayout(e0: seq<Entry>, pay: seq<seq<byte>>)
    requires |pay| == |e0| < 0x1_0000_0000
    requires AllFit(Recorded(e0, 4 + RecordSize * |e0|, pay))
    ensures var es := Recorded(e0, 4 + RecordSize * |e0|, pay);
      var c := CompositeBytes(es, pay);
      4 <= |c| && U32At(c, 0) == |es| &&
      forall k :: 0 <= k < |es| ==> es[k].tag == e0[k].tag && es[k].index == e0[k].index && RecordPoints(c, k, es[k], pay[k])
  {
    var n := |e0|;
    var es := Recorded(e0, 4 + RecordSize * n, pay);
    var c := CompositeBytes(es, pay);
    assert c[..4] == LE32(n);
    LE32RoundTrip(n, c, 0);
    forall k | 0 <= k < n
      ensures RecordPoints(c, k, es[k], pay[k])
    {
      CompositeEntry(es, pay, k);
    }
  }

  // ------------------------------------------------------------ the writer

  /** The placeholder loop of `create`. */
  method WritePlaceholders(out: Stream, n: nat)
    requires out.pos == |out.content|
    modifies out
    ensures out.content == old(out.content) + Repeat(Placeholder, n) && out.pos == |out.content|
  {
    ghost var c0 := out.content;
    var i := 0;
    while i < n
      invariant i <= n && out.content == c0 + Repeat(Placeholder, i) && out.pos == |out.content|
    {
      WriteAppend(out, Placeholder);
      RepeatSnoc(Placeholder, i);
      AppendAssoc(c0, Repeat(Placeholder, i), Placeholder);
      i := i + 1;
    }
  }

  /** The count and the placeholders `create` writes into the new file. */
  method WriteTableArea(out: Stream, n: nat)
    requires n < 0x1_0000_0000 && out.content == [] && out.pos == 0
    modifies out
    ensures out.content == LE32(n) + Repeat(Placeholder, n) && out.pos == |out.content|
  {
    WriteAppend(out, LE32(n));
    assert [] + LE32(n) == LE32(n);
    WritePlaceholders(out, n);
  }

  /** One item's `rebuild`, appended to the file. */
  method RebuildItem(out: Stream, it: Item, ghost R: set<object>, ghost bytes: seq<byte>)
    requires ItemIn(it, R) && out !in R && out.pos == |out.content| && bytes == ItemBytes(it, R)
    modifies out
    ensures out.content == old(out.content) + bytes && out.pos == |out.content|
  {
    ghost var c0 := out.content;
    match it {
      case TableItem(t) =>
        assert bytes == TableBytes(t.Value());
        t.Rebuild(out);
      case ExtItem(e) =>
        assert bytes == ExtensionBytes(e.Value());
        e.Rebuild(out);
      case ImgItem(i) =>
        assert bytes == ImageBytes(i.Value());
        i.Rebuild(out);
    }
    PatchAppend(c0, bytes);
  }

  /** The concatenation of a prefix grows by one part at a time. */
  lemma ConcatStep(c0: seq<byte>, pay: seq<seq<byte>>, i: nat, before: seq<byte>, after: seq<byte>)
    requires i < |pay| && before == c0 + Concat(pay[..i]) && after == before + pay[i]
    ensures after == c0 + Concat(pay[..i + 1])
  {
    var q := pay[..i + 1];
    assert q[..|q| - 1] == pay[..i] && q[|q| - 1] == pay[i];
    AppendAssoc(c0, Concat(pay[..i]), pay[i]);
  }

  /** The payload table after row `i` got its origin and length. */
  lemma RecordedStep(e0: seq<Entry>, base: nat, pay: seq<seq<byte>>, d: seq<Entry>, i: nat)
    requires |pay| == |e0| == |d| && i < |d|
    requires forall k :: 0 <= k < i ==> d[k] == Recorded(e0, base, pay)[k]
    requires forall k :: i <= k < |d| ==> d[k] == e0[k]
    ensures var d' := d[i := d[i].(origin := base + Offset(pay, i), length := |pay[i]|)];
      (forall k :: 0 <= k < i + 1 ==> d'[k] == Recorded(e0, base, pay)[k]) &&
      (forall k :: i + 1 <= k < |d| ==> d'[k] == e0[k])
  {
  }

  class GifComposite {
    var dataTable: seq<Entry>
    /** The objects the rows refer to. */
    ghost var Repr: set<object>

    constructor ()
      ensures dataTable == [] && Repr == {}
    {
      dataTable := [];
      Repr := {};
    }

    ghost predicate Valid()
      reads this, Repr
    {
      EntriesIn(dataTable, Repr) && this !in Repr
    }

    /** What the items rebuild to, in table order. */
    ghost function Contents(): seq<seq<byte>>
      requires Valid()
      reads this, Repr
    {
      Payloads(dataTable, Repr)
    }

    /** `from_gif(gif)`: appends a row for the global table (tag 0xCC), one
        per extension (0xEE) and one per image (0x11), in that order, each
        with origin and length 0 and its index within its kind. */
    method FromGif(g: GifFile)
      requires Valid() && g.Valid()
      modifies this
      ensures Valid()
      ensures dataTable == old(dataTable) + EntriesFor(g.gct, g.Extensions(), g.Images())
    {
      FilterOwned(g.blocks, g.Repr);
      if g.gct != null {
        AddRow(Entry(0, 0, TableTag, 0, TableItem(g.gct)), {g.gct});
      }
      AddExtensions(g.Extensions());
      AddImages(g.Images());
    }

    /** The extension loop of `from_gif`. */
    method AddExtensions(exts: seq<Extension>)
      requires Valid()
      modifies this
      ensures Valid() && dataTable == old(dataTable) + ExtEntries(exts)
    {
      ghost var d0 := dataTable;
      var extIndex := 0;
      for k := 0 to |exts|
        invariant Valid() && extIndex == k
        invariant dataTable == d0 + ExtEntries(exts)[..k]
      {
        AddRow(Entry(0, 0, ExtTag, extIndex, ExtItem(exts[k])), {exts[k]});
        assert ExtEntries(exts)[..k + 1] == ExtEntries(exts)[..k] + [ExtEntries(exts)[k]];
        extIndex := extIndex + 1;
      }
      assert ExtEntries(exts)[..|exts|] == ExtEntries(exts);
    }

    /** The image loop of `from_gif`. */
    method AddImages(imgs: seq<Image>)
      requires Valid() && forall k :: 0 <= k < |imgs| ==> imgs[k].data != null
      modifies this
      ensures Valid() && dataTable == old(dataTable) + ImgEntries(imgs)
    {
      ghost var d0 := dataTable;
      var imgIndex := 0;
      for k := 0 to |imgs|
        invariant Valid() && imgIndex == k
        invariant dataTable == d0 + ImgEntries(imgs)[..k]
      {
        var im := imgs[k];
        AddRow(Entry(0, 0, ImgTag, imgIndex, ImgItem(im)), if im.lct == null then {im, im.data} else {im, im.data, im.lct});
        assert ImgEntries(imgs)[..k + 1] == ImgEntries(imgs)[..k] + [ImgEntries(imgs)[k]];
        imgIndex := imgIndex + 1;
      }
      assert ImgEntries(imgs)[..|imgs|] == ImgEntries(imgs);
    }

    /** Appends one row whose objects are `own`. */
    method AddRow(e: Entry, ghost own: set<object>)
      requires Valid() && ItemIn(e.item, own) && this !in own
      modifies this
      ensures Valid() && dataTable == old(dataTable) + [e]
    {
      dataTable := dataTable + [e];
      Repr := Repr + own;
    }

    /** `create(path)`: a new file receives the row count, a placeholder per
        row, then each item's rebuild, recording where it starts and how
        long it is; then the records are written over the placeholders. A
        count or a record value too wide for its packed field stops it with
        struct.error. */
    method Create() returns (out: Stream, r: Outcome)
      requires Valid()
      modifies this`dataTable
      ensures fresh(out)
      ensures |old(dataTable)| >= 0x1_0000_0000 ==>
        r == Fail(PackOverflow) && dataTable == old(dataTable) && out.content == []
      ensures |old(dataTable)| < 0x1_0000_0000 ==>
        dataTable == Recorded(old(dataTable), 4 + RecordSize * |old(dataTable)|, old(Contents())) &&
        (r == Pass <==> AllFit(dataTable)) &&
        (r == Pass ==> out.content == CompositeBytes(dataTable, old(Contents())))
    {
      ghost var pay := Contents();
      out := new Stream([]);
      var n := |dataTable|;
      if n >= 0x1_0000_0000 {
        return out, Fail(PackOverflow);
      }
      WriteTableArea(out, n);
      assert out.pos == 4 + RecordSize * n by {
        assert |Placeholder| == RecordSize;
      }
      WritePayloads(out, pay);
      r := WriteRecords(out, pay);
    }

    /** The rebuild loop of `create`. */
    method WritePayloads(out: Stream, ghost pay: seq<seq<byte>>)
      requires Valid() && out !in Repr && out.pos == |out.content| && pay == Contents()
      modifies out, this`dataTable
      ensures out.content == old(out.content) + Concat(pay) && out.pos == |out.content|
      ensures dataTable == Recorded(old(dataTable), old(out.pos), pay)
    {
      ghost var c0, d0, base := out.content, dataTable, out.pos;
      var i := 0;
      while i < |dataTable|
        invariant i <= |dataTable| == |d0| && EntriesIn(d0, Repr) && Payloads(d0, Repr) == pay
        invariant out.content == c0 + Concat(pay[..i]) && out.pos == |out.content|
        invariant forall k :: 0 <= k < i ==> dataTable[k] == Recorded(d0, base, pay)[k]
        invariant forall k :: i <= k < |dataTable| ==> dataTable[k] == d0[k]
      {
        ghost var before := out.content;
        PayloadStep(out, d0, base, pay, i);
        ConcatStep(c0, pay, i, before, out.content);
        i := i + 1;
      }
      assert pay[..i] == pay;
    }

    /** Turn `i` of the rebuild loop: the item's rebuild is appended and
        row `i` records where it starts and how long it is. */
    method PayloadStep(out: Stream, ghost d0: seq<Entry>, ghost base: nat, ghost pay: seq<seq<byte>>, i: nat)
      requires |dataTable| == |d0| && i < |d0| && EntriesIn(d0, Repr) && Payloads(d0, Repr) == pay && out !in Repr
      requires out.pos == |out.content| == base + Offset(pay, i)
      requires forall k :: 0 <= k < i ==> dataTable[k] == Recorded(d0, base, pay)[k]
      requires forall k :: i <= k < |dataTable| ==> dataTable[k] == d0[k]
      modifies out, this`dataTable
      ensures |dataTable| == |d0| && out.content == old(out.content) + pay[i] && out.pos == |out.content|
      ensures forall k :: 0 <= k < i + 1 ==> dataTable[k] == Recorded(d0, base, pay)[k]
      ensures forall k :: i + 1 <= k < |dataTable| ==> dataTable[k] == d0[k]
    {
      ghost var d := dataTable;
      var origin := out.Tell();
      PayloadsAt(d0, Repr, i);
      RebuildItem(out, dataTable[i].item, Repr, pay[i]);
      var end := out.Tell();
      dataTable := dataTable[i := dataTable[i].(origin := origin, length := end - origin)];
      RecordedStep(d0, base, pay, d, i);
    }

    /** The record loop of `create`, from offset 4: each row packed over its
        placeholder, stopping at the first row that does not fit. */
    method WriteRecords(out: Stream, ghost pay: seq<seq<byte>>) returns (r: Outcome)
      requires |dataTable| < 0x1_0000_0000
      requires out.content == LE32(|dataTable|) + Repeat(Placeholder, |dataTable|) + Concat(pay)
      modifies out
      ensures r == Pass <==> AllFit(dataTable)
      ensures r == Pass ==> out.content == CompositeBytes(dataTable, pay)
    {
      out.Seek(4);
      var n := |dataTable|;
      var i := 0;
      while i < n
        invariant i <= n && AllFit(dataTable[..i]) && out.pos == 4 + RecordSize * i
        invariant out.content == LE32(n) + RecordsBytes(dataTable[..i]) + Repeat(Placeholder, n - i) + Concat(pay)
      {
        var ok := RecordAt(out, i, pay);
        if !ok {
          return Fail(PackOverflow);
        }
        i := i + 1;
      }
      assert dataTable[..i] == dataTable;
      r := Pass;
    }

    /** Turn `i` of the record loop: `struct.pack("<IIBH", ...)` of row `i`
        over its placeholder, or nothing when a value does not fit. */
    method RecordAt(out: Stream, i: nat, ghost pay: seq<seq<byte>>) returns (ok: bool)
      requires i < |dataTable| < 0x1_0000_0000 && AllFit(dataTable[..i]) && out.pos == 4 + RecordSize * i
      requires out.content == LE32(|dataTable|) + RecordsBytes(dataTable[..i]) + Repeat(Placeholder, |dataTable| - i) + Concat(pay)
      modifies out
      ensures ok == Fits(dataTable[i])
      ensures ok ==> AllFit(dataTable[..i + 1]) && out.pos == 4 + RecordSize * (i + 1)
      ensures ok ==> out.content == LE32(|dataTable|) + RecordsBytes(dataTable[..i + 1]) + Repeat(Placeholder, |dataTable| - i - 1) + Concat(pay)
    {
      var e := dataTable[i];
      if !(e.origin < 0x1_0000_0000 && e.length < 0x1_0000_0000 && e.index < 0x1_0000) {
        return false;
      }
      RecordStep(|dataTable|, dataTable[..i], e, |dataTable| - i - 1, Concat(pay));
      out.Write(RecordBytes(e));
      assert dataTable[..i + 1] == dataTable[..i] + [e];
      ok := true;
    }
  }
}
