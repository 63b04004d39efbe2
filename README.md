# microgiflib in Dafny

This project models microgiflib, a small Python library that reads a GIF file into a tree of
objects, lets a caller patch single fields in the file, and writes the whole file out again
in a form it calls recompile. GIFComposite re-packs the parsed pieces of a GIF into an
indexed container file.

The model has three layers.

- **Values** (`GifFormat`). There is one datatype per structure: a colour table, an
  extension, the image data sub-block chain, an image, a block and the whole file. Each
  structure also has:
  - a parser over the file contents from a position, returning the value and the position
    after it, or `None` where the library raises on a short read;
  - the bytes the structure's `rebuild` writes.
- **Objects** (`Tables`, `MicroGif`, `GifFiles`, `Composite`). ColorTable, Extension,
  ImageData, Image, GIFFile and GIFComposite are classes with the library's fields. In
  these classes:
  - `parse`, `rebuild`, the setters and `recompile` are methods;
  - each method is specified against the value layer, and its new state is stated
    outright;
  - the stream the library reads and writes is a `Stream` object with a byte sequence and
    a cursor (`Streams`). `read`, `write`, `seek`, `tell` and `truncate` behave as on a
    Python binary file, and a write past the end zero-fills the gap;
  - write-through setters patch the stream at the offset recorded during the parse, and
    fail with `WriteProtected` when the object was parsed read-only or the offset is
    unknown.
- **Round trips** (`RoundTrips`, `Rereads`). The colour table, the extension, the sub-block
  chain, the image data, the image descriptor, the image, the block list and the whole file
  each have two lemmas:
  - `…RoundTrip`: parsing the bytes a rebuild writes gives back the value;
  - `…Reparse`: conversely, a parsed value's rebuild bytes are the bytes it was read from
    exactly when those bytes are in canonical form. For the block list this is
    `CanonicalBlocks`; for the screen descriptor it is `ScreenReparse`.

  `GifRoundTrip` lifts the first direction to the whole file: `ParseGif(GifBytes(g), 0) ==
  Some(g)`. `GifReparse` lifts the second: a parsed file recompiles to its own bytes exactly
  when its packed screen byte is the recomputed one and its blocks are canonical. For the
  objects, `RecompileAndReread` recompiles the file, rewinds it and reads it with a new
  GIFFile, and the result has the same value. `ReadAndRecompile` reads a file and
  recompiles it; the stream keeps its bytes exactly under `GifReparse`'s condition.
- **Write-through** (`Frames`, `WriteThroughs`). A parse reads nothing before its start
  position. A parse that succeeds reads nothing at or after its end, only the file length.
  So the block scan of a file changes in exactly one block when a write lands inside that
  block's bytes and the block still parses to the same end (`BlockReplaced`,
  `GifBlockReplaced`). Every block of a parsed file sits at a position the scan reaches
  (`GifBlockAt`), so this covers every block. For each setter there are two lemmas:
  - what a parse of the patched file finds at the structure's own position: the structure
    with that one field changed (`ImageWriteThrough`, `LabelWriteThrough`,
    `PayloadWriteThrough`, `ColorWriteThrough`, `LocalColorWriteThrough`);
  - what reading the whole patched file from offset 0 gives: the same file with only that
    block, or the screen or the global table, changed (`ScreenWriteThrough`, `ImageInGif`,
    `LabelInGif`, `PayloadInGif`, `LocalColorInGif`, `GlobalColorInGif`).

  The methods beside them call the class setters:
  - the Image and Extension setters keep the object and its file in agreement;
  - the GIFFile setters and `set_color` change the file, so it no longer matches the
    unchanged object;
  - `OpenWritable` reads a writable file from offset 0 and records, for block `k`, where
    the scan found it. Each block and table object keeps the document's stream and mode,
    and its origin is where the file holds it. So a setter reached through block `j` of
    such a document changes the file read again in that one place only
    (`SetBlockImageField`, `SetBlockLabel`, `WriteBlockPayload`, `SetBlockColor`,
    `SetGlobalColor`).

The model follows the code. Where the library's code departs from the GIF89a layout, the
model does what the code does:

- An extension holds one sub-block. The byte after it is consumed as a terminator whatever
  its value.
- The block scan of `read_from_stream` handles markers as follows:
  - `0x21` starts an extension;
  - `0x2C` starts an image;
  - any other byte, the trailer `0x3B` included, is skipped;
  - the scan ends only at the end of the file.
- The GIFFile screen setters and `ColorTable.set_color` write the stream only. The
  in-memory fields keep their old values.
  - `Extension.write` and the Image setters do update their fields.
- When rebuilding, the packed byte puts the colour table's size bits in
  `int(math.sqrt(color_num) - 1) & 0b111` and leaves every other bit 0 except bit 7. The
  model writes this as `SizeBits(n) == (FloorSqrt(n) - 1) % 8`. The two agree for the
  entry counts a parse can give a table, 2 to 256. There the float `math.sqrt(n)` has the
  same integer part as the exact root, and `math.sqrt(n) - 1` is at least 0, so `int`
  truncates it to `FloorSqrt(n) - 1`. They do not agree for every `n`: from about `2^52`
  on, the float root of `n` just below a square rounds up to the next integer. For
  `n = 2^54 - 1` the library writes 7 and `SizeBits` gives 6. The model takes `math.sqrt`
  as exact (see Left out).
  - A table read with size bits `k` comes back with the same bits only for `k` in
    {0, 1, 3, 4, 7} (`CanonicalExponents`).
  - The round-trip lemmas therefore require canonical tables (`Canonical`, `WellPlaced`).
- `Extension.write` copies `new_data[i]` for each in-bounds absolute index `i`. A `new_data`
  shorter than that raises `IndexError` after the earlier bytes were written. `Write` models
  that as `Fail(OutOfRange)` with the partial patch.

Values the library packs with `struct.pack` are taken as naturals. A value too wide for its
field gives `Fail(PackOverflow)`; Python raises `struct.error` there. Lengths and offsets are
unbounded naturals. Bytes are the subset type `byte` of `int`.

## Model

| member | source | states |
|---|---|---|
| Tables.ColorTable.Parse | mgiflib/tables/__init__.py:11-18 | the entry count is 2^(size_num+1); the method succeeds exactly when that many triples are in the file; it appends those triples to the colours; the cursor ends after them |
| Tables.ColorTable.Rebuild | mgiflib/tables/__init__.py:20-22 | writes the three bytes of every colour at the cursor, in order, and advances by 3 per colour |
| Tables.ColorTable.GetColor | mgiflib/tables/__init__.py:24-28 | returns the colour at an index below the number of colours and `OutOfRange` otherwise; on a valid table (as many colours as color_num) it answers exactly for indices below color_num |
| Tables.ColorTable.SetColor | mgiflib/tables/__init__.py:29-36 | fails read-only before anything else; fails `OutOfRange` past the end with the stream unchanged; otherwise patches 3 bytes at origin+3*index; packing a component >= 256 fails after the seek; `OutOfRange` happens exactly for indices from color_num on; the in-memory colours never change |
| Tables.SetThenGet | mgiflib/tables/__init__.py:24-36 | `get_color` returns the same result before and after `set_color`; it is defined exactly for indices in range |
| MicroGif.Extension.Parse | mgiflib/__init__.py:47-54 | records origin, stream and mode; succeeds exactly when label and length bytes exist; the value is the label and the payload bytes read; the cursor also passes one terminator byte if present |
| MicroGif.Extension.Rebuild | mgiflib/__init__.py:56-60 | writes label, payload length, payload and a zero byte at the cursor and advances past them |
| MicroGif.Extension.SetLabel | mgiflib/__init__.py:17-23 | fails read-only with no change; a label >= 256 fails after the seek; otherwise patches one byte at the origin and sets the label; the payload is untouched |
| MicroGif.Extension.Write | mgiflib/__init__.py:33-45 | fails read-only with no change; for absolute payload indices from the `origin` argument up to the first of origin+length, payload size and new_data size, sets payload[k] := new_data[k] and patches the stream at origin+2+k; every other payload byte and the size stay as they were; the result is `OutOfRange` exactly when new_data ran out inside the range |
| MicroGif.Written | mgiflib/__init__.py:39-41 | the end of the written range is at most each of its three bounds and equals one of them |
| MicroGif.WriteThrough | mgiflib/__init__.py:37-45 | the copy loop: in-bounds indices below the first missing new_data index are copied and patched contiguously; the rest is unchanged; it fails exactly when new_data is exhausted in range |
| MicroGif.ImageData.Parse | mgiflib/__init__.py:74-84 | succeeds exactly when the chain is terminated before the end of the file; appends the sub-blocks (length-byte offset, length, bytes) the chain parser gives and stops after the zero byte |
| MicroGif.ReadChain | mgiflib/__init__.py:79-84 | the sub-block loop computes exactly the chain parser's result and end position |
| MicroGif.ImageData.Rebuild | mgiflib/__init__.py:85-90 | writes the minimum code size, each sub-block as length byte and data, then a zero byte |
| MicroGif.Image.Parse | mgiflib/__init__.py:153-166 | records the field offsets origin, +2, +4, +6; succeeds exactly when the image parser does; loads left/top/width/height; creates a local table exactly when packed bit 7 is set; the image data objects hold the parsed values |
| MicroGif.Image.Rebuild | mgiflib/__init__.py:168-176 | writes the 9-byte descriptor with the recomputed packed byte, the local table if present, then the image data |
| MicroGif.Image.SetField | mgiflib/__init__.py:124-151 | fails if the field's offset is unknown or the image is read-only; a value >= 65536 fails after the seek; otherwise patches the 2-byte little-endian value at the recorded offset and sets that field only |
| GifFiles.ScanStep | mgiflib/__init__.py:302-312 | one scan iteration: end of file, a failed read, a skipped byte, or a new block; each is tied to the block parser's result at the old and new positions; a new block's object keeps the stream and mode, has its origin one past the marker, an image records the field offsets origin, +2, +4, +6 and its local table starts at origin + 9 |
| GifFiles.ReadBlocks | mgiflib/__init__.py:300-313 | the scan loop succeeds exactly when the block parser does; the blocks' values are the parsed list and the cursor ends at the end of the file; block k was found at a position the scan reaches after k blocks, with its object as ScanStep leaves it |
| GifFiles.AllFoundAt | mgiflib/__init__.py:300-313 | what the block loop records of every block holds of block j in particular |
| GifFiles.ReadPreamble | mgiflib/__init__.py:287-294 | header and version are the first 3+3 bytes; the screen offsets are recorded once the version has the 2 bytes `_vernum` unpacks; the 7 descriptor bytes follow |
| GifFiles.GifFile.ReadFromStream | mgiflib/__init__.py:283-313 | records mode, stream and the screen offsets (+6, +8, +11, +12); succeeds exactly when the file parser does; the object's value is the parsed file; the data offset is after the global table and the data end is the end of the file; the global table keeps the stream and mode and starts 13 bytes after the start; every block is found as ReadBlocks says |
| GifFiles.FilterCount | mgiflib/__init__.py:196-201 | extensions and images together are as many as the blocks |
| GifFiles.FilterMembers | mgiflib/__init__.py:196-201 | an object is among the extensions (images) exactly when it is an extension (image) block |
| GifFiles.FilterAppend | mgiflib/__init__.py:196-201 | both filters distribute over concatenation, so they keep the block order |
| GifFiles.WriteBlocks | mgiflib/__init__.py:274-280 | appends each block's marker and rebuilt bytes in order |
| GifFiles.GifFile.WriteHead | mgiflib/__init__.py:264-272 | writes header, version, the screen descriptor with the recomputed packed byte, and the global table; the stream holds nothing else |
| GifFiles.GifFile.Recompile | mgiflib/__init__.py:260-281 | the stream's content becomes exactly the file's bytes for the current value, ending with 0x3B |
| GifFiles.RecompileTwice | mgiflib/__init__.py:260-281 | recompiling twice writes the same bytes both times |
| GifFiles.GifFile.SetScreenField | mgiflib/__init__.py:218-248 | fails if the offset is unknown or the file is read-only; an out-of-range value fails after the seek; otherwise patches 2 or 1 little-endian bytes at the recorded offset; the GIFFile's fields do not change |
| Composite.GifComposite.FromGif | mgiflib/__init__.py:320-332 | appends a 0xCC row for the global table if any, then one 0xEE row per extension and one 0x11 row per image, in block order |
| Composite.EntriesNumbered | mgiflib/__init__.py:320-332 | there is one row per table, extension and image; each row's index counts the earlier rows with the same tag |
| Composite.GifComposite.Create | mgiflib/__init__.py:334-347 | fails if the count does not fit in 32 bits; records each row's payload origin and length; succeeds exactly when every row fits its record; then the file is the count, the records and the concatenated payloads |
| Composite.CompositeLayout | mgiflib/__init__.py:334-347 | in the created file, the count at offset 0 is the number of rows; record k decodes to the row's origin, length, tag and index; the payload bytes sit at that origin with that length |
| Composite.CompositeRecord | mgiflib/__init__.py:345-347 | record k at 4+11k decodes to the row's four fields |
| GifFormat.FloorSqrtIsRoot | mgiflib/__init__.py:172 | the integer square root used for the size bits is the floor of the square root |
| RoundTrips.TableRoundTrip | mgiflib/tables/__init__.py:11-22 | a rebuilt table of 2^(k+1) colours parses back with size bits k |
| RoundTrips.TableReparse | mgiflib/tables/__init__.py:11-22 | a parsed table has 2^(k+1) colours and its rebuild bytes are the bytes it was read from |
| RoundTrips.SizeBitsOfPow2 | mgiflib/__init__.py:169-172 | the size bits the rebuild writes for 2, 4, ... 256 colours |
| RoundTrips.CanonicalExponents | mgiflib/__init__.py:162-172 | a table read with size bits k is rebuilt with the same bits exactly when k is 0, 1, 3, 4 or 7 |
| RoundTrips.OptTableRoundTrip | mgiflib/__init__.py:162-175 | an optional canonical table, rebuilt with its packed byte, parses back |
| RoundTrips.OptTableReparse | mgiflib/__init__.py:162-175 | a table is parsed exactly when bit 7 is set, and parsed bytes are the rebuild bytes |
| RoundTrips.ExtensionRoundTrip | mgiflib/__init__.py:47-60 | a rebuilt extension parses back to the same value and end |
| RoundTrips.ExtensionReparse | mgiflib/__init__.py:47-60 | a parsed extension's rebuild bytes equal the file bytes exactly when the payload was complete and the terminator byte was 0 |
| RoundTrips.ChainRoundTrip | mgiflib/__init__.py:79-90 | a rebuilt chain whose offsets match their positions parses back |
| RoundTrips.ChainReparse | mgiflib/__init__.py:79-90 | a parsed chain has nonzero lengths and offsets matching their positions; its rebuild bytes are the file bytes |
| RoundTrips.ImageDataRoundTrip | mgiflib/__init__.py:74-90 | rebuilt image data parses back |
| RoundTrips.ImageDataReparse | mgiflib/__init__.py:74-90 | parsed image data's rebuild bytes are the file bytes |
| RoundTrips.DescriptorRoundTrip | mgiflib/__init__.py:160-173 | the descriptor rebuild writes reads back as the same fields and packed byte |
| RoundTrips.DescriptorReparse | mgiflib/__init__.py:160-173 | a read descriptor is rebuilt byte for byte exactly when its packed byte is the recomputed one |
| RoundTrips.ImageRoundTrip | mgiflib/__init__.py:153-176 | a rebuilt image at its own position parses back |
| RoundTrips.ImageReparse | mgiflib/__init__.py:153-176 | a parsed image is rebuilt byte for byte exactly when its packed byte is the recomputed one |
| RoundTrips.BlockRoundTrip | mgiflib/__init__.py:301-312 | a marker and rebuilt block in front of a scannable rest scan as that block followed by the rest |
| RoundTrips.BlocksRoundTrip | mgiflib/__init__.py:274-312 | the blocks recompile writes, followed by the trailer, scan back to the same blocks |
| RoundTrips.GifRoundTrip | mgiflib/__init__.py:260-313 | the bytes recompile writes for a well-placed file parse back to that file |
| Rereads.ReadBack | mgiflib/__init__.py:283-313 | reading recompiled bytes from offset 0 gives a valid GIFFile with the written value |
| Rereads.RecompileAndReread | mgiflib/__init__.py:260-313 | recompile, seek 0 and read_from_stream into a new GIFFile reproduce the original value |
| RoundTrips.BlocksReparse | mgiflib/__init__.py:274-312 | the blocks the scan finds, rebuilt with their markers and the trailer, are the rest of the file exactly when that rest is canonical: each extension complete with a zero terminator, each image with the recomputed packed byte, and only the trailer after the last block |
| RoundTrips.ScreenRoundTrip | mgiflib/__init__.py:270-294 | the 7 screen bytes recompile writes read back as the same canvas size, background colour and aspect ratio, with the recomputed packed byte |
| RoundTrips.ScreenReparse | mgiflib/__init__.py:266-270 | a screen descriptor read at offset 6 packs back to its 7 bytes exactly when its packed byte is the recomputed one |
| RoundTrips.GifReparse | mgiflib/__init__.py:260-313 | a parsed file recompiles to exactly its own bytes if and only if its packed screen byte is the recomputed one and its blocks are canonical |
| Rereads.ReadAndRecompile | mgiflib/__init__.py:260-313 | read_from_stream from offset 0 then recompile: succeeds exactly when the file parses; the stream then holds the parsed file's bytes, and those equal the original bytes exactly under GifReparse's condition |
| WriteThroughs.ScreenFieldsAt | mgiflib/__init__.py:283-294 | the offsets read_from_stream records from offset 0 (6, 8, 11, 12) hold the packed canvas width, canvas height, background colour and aspect ratio of the parsed file |
| WriteThroughs.ScreenWriteThrough | mgiflib/__init__.py:218-248 | patching a screen field's packed value at its recorded offset and reading the file again gives the parsed file with that field changed and everything else equal |
| WriteThroughs.ImageFieldsAt | mgiflib/__init__.py:153-160 | the recorded offsets origin, +2, +4, +6 hold the little-endian left, top, width and height of the parsed image |
| WriteThroughs.ImageWriteThrough | mgiflib/__init__.py:124-166 | patching an image field at its recorded offset and parsing at the origin again gives the image with that field changed and the same end position |
| WriteThroughs.LabelWriteThrough | mgiflib/__init__.py:17-54 | patching the label byte at the origin and parsing again gives the new label, the same payload and the same end position |
| WriteThroughs.PayloadWriteThrough | mgiflib/__init__.py:33-54 | patching payload bytes at origin+2+o and parsing again gives the payload with exactly those bytes replaced |
| WriteThroughs.ColorWriteThrough | mgiflib/tables/__init__.py:11-36 | patching a triple at origin+3*index and parsing the table again gives the colours with entry index replaced |
| WriteThroughs.LocalColorWriteThrough | mgiflib/__init__.py:153-166 | patching a triple of an image's local table (stored after the 9-byte descriptor) and parsing the image again gives the image with that table entry replaced and the same end position |
| Frames.ExtensionPrefix | mgiflib/__init__.py:47-54 | an extension parse that ends at q gives the same result on every file of the same length that agrees from its start up to q |
| Frames.ChainPrefix | mgiflib/__init__.py:79-84 | a sub-block chain parse that ends at q reads nothing at or after q |
| Frames.ImagePrefix | mgiflib/__init__.py:153-166 | an image parse that ends at q (descriptor, local table, image data) reads nothing at or after q |
| Frames.ReachSplit | mgiflib/__init__.py:301-312 | the block scan from d is the blocks it finds before a position p it reaches, followed by the scan from p |
| Frames.BlockAt | mgiflib/__init__.py:301-312 | every block the scan finds is found at a reached position, after exactly as many blocks as its index |
| Frames.BlockReplaced | mgiflib/__init__.py:301-312 | a file differing only inside the block found at p, which now parses to another block with the same end, scans to the same blocks with that one replaced |
| Frames.GifBlockAt | mgiflib/__init__.py:283-313 | block j of a file read from offset 0 sits at a reached marker position: an image marker with the image parse after it, or an extension marker with the extension parse |
| Frames.GifBlockReplaced | mgiflib/__init__.py:283-313 | such a one-block change of a file read from offset 0 re-reads as the same file with block j replaced and everything else equal |
| WriteThroughs.DescriptorPatched | mgiflib/__init__.py:124-151 | patching one descriptor field changes that field's two bytes only: the other fields, the packed byte and everything after the descriptor are as before |
| WriteThroughs.ImageInGif | mgiflib/__init__.py:124-166 | patching a descriptor field of the image block found at p in a file read from offset 0 and reading the whole file again gives the file with only that field of that block changed; the block is block j, j being the number of blocks before p |
| WriteThroughs.LabelInGif | mgiflib/__init__.py:17-54 | patching the label of extension block j and reading the whole file again gives the file with only that label changed |
| WriteThroughs.PayloadInGif | mgiflib/__init__.py:33-54 | patching payload bytes of extension block j and reading the whole file again gives the file with only those payload bytes of block j replaced |
| WriteThroughs.PayloadInBlock | mgiflib/__init__.py:33-54 | such a patch lies inside the extension's bytes, and the extension there parses with those payload bytes replaced and the same end |
| WriteThroughs.LocalColorInBlock | mgiflib/__init__.py:153-166 | a set_color patch on an image's local table lies inside the image's bytes, and the image there parses with that entry replaced and the same end |
| WriteThroughs.LocalColorInGif | mgiflib/tables/__init__.py:29-36 | set_color's patch on the local table of image block j, re-read from offset 0, gives the file with only that entry of block j's table replaced |
| WriteThroughs.GlobalColorInGif | mgiflib/tables/__init__.py:29-36 | set_color's patch on the global table (entries from offset 13), re-read from offset 0, gives the file with only that entry of the global table replaced |
| WriteThroughs.OpenWritable | mgiflib/__init__.py:283-313 | a writable read from offset 0 that succeeds records the screen offsets of the descriptor at 6 and holds the parsed file; block k holds block k of the parsed file, sits where the scan found it, and every block and table object is writable into the same stream at its own origin |
| WriteThroughs.OpenedAt | mgiflib/__init__.py:300-313 | block j of such a document was found at a position the scan reaches after j blocks, and its object is as the block loop left it |
| WriteThroughs.SetBlockImageField | mgiflib/__init__.py:124-151 | an image setter on block j of a document read writable from offset 0: the file read again has only that field of block j changed and the object holds the new value; an overflowing value leaves the file as it was |
| WriteThroughs.SetBlockLabel | mgiflib/__init__.py:17-23 | the label setter on extension block j of such a document: the file read again has only that label changed and the object holds it; an overflowing label leaves the file as it was |
| WriteThroughs.WriteBlockPayload | mgiflib/__init__.py:33-45 | `write` on extension block j of such a document: the file read again has only the payload bytes `write` reached replaced in block j, also when it stops early, and the object holds the same payload |
| WriteThroughs.SetBlockColor | mgiflib/tables/__init__.py:29-36 | set_color on the local table of image block j of such a document: in range the file read again has only that entry of the table replaced, out of range it fails with the file unchanged; the document keeps its old value |
| WriteThroughs.SetGlobalColor | mgiflib/tables/__init__.py:29-36 | set_color on the global table of such a document: in range the file read again has only that entry replaced, out of range it fails with the file unchanged; the document keeps its old value |
| WriteThroughs.SetScreenAndReread | mgiflib/__init__.py:218-248 | a screen setter on such a file: re-reading the stream gives the file with the new field value; the GIFFile keeps the old value; an overflowing value leaves the file as it was |
| WriteThroughs.SetImageField | mgiflib/__init__.py:124-151 | an image setter keeps the image object and its file in agreement, with the field set to the new value in both |
| WriteThroughs.SetExtensionLabel | mgiflib/__init__.py:17-23 | the label setter keeps the extension object and its file in agreement, with the new label in both |
| WriteThroughs.WritePayload | mgiflib/__init__.py:33-45 | `write` keeps the extension object and its file in agreement, also when it stops early with `OutOfRange` |
| WriteThroughs.WrittenInSync | mgiflib/__init__.py:33-45 | the byte-by-byte result of `write` is the payload with indices o up to the end of the written range replaced, and the patched file parses to exactly that extension |
| WriteThroughs.SetTableColor | mgiflib/tables/__init__.py:29-36 | set_color in range: the table parsed again from the stream has the new triple at index, while the object's colours are unchanged; out of range: `OutOfRange` and the file parses as before |

## Left out

- File I/O. `read_from_path`, `open_gif_file`, `close_fle` and the `open(path, "wb")` inside
  `create` are not modelled.
  - `GifComposite.Create` returns a fresh in-memory stream instead of writing to `path`.
  - `recompile`'s `seek(0)` plus `truncate(0)` is modelled as a new empty content.
- `math.sqrt` on floats is modelled as the exact integer square root `FloorSqrt`, and the
  source's `int(math.sqrt(n) - 1)` as `FloorSqrt(n) - 1`. For the table sizes a parse can
  produce (2 to 256), `floor(math.sqrt(n))` is `FloorSqrt(n)`, because the
  float square root is correctly rounded and no perfect square lies within rounding distance.
- Exception types. A short read in a parser (`IndexError` on `read(1)[0]`, `struct.error` in
  unpack, `ValueError` when unpacking fewer than 3 colour bytes) becomes `None` or
  `ok == false`. The model does not say which exception it was.
- Object state after a failed parse is left unspecified. The library would leave a partly
  filled object.
- GifFile.ReadFromStream: it requires a fresh object, meaning no blocks and no global table
  yet. This is the only state in which the library uses it. A second call would append to
  the earlier block list; that case is not modelled. (`GifComposite.FromGif` has no such
  requirement: it appends its rows to whatever entries are already there.)
- The property wrappers themselves are not modelled.
  - Read-only getters are plain field reads.
  - The decorator names make the library's setters reachable only as `label_set`,
    `left_setter` and so on.
  - `bkg_color_index` and `pixel_aspect_ratio` read attributes that do not exist.
  - `Extension.read` is declared as a property with arguments and cannot be called.
- `_vernum`'s value is not kept, since it is never used. Its unpacking is reflected only in
  where `ReadPreamble` can fail: on a version shorter than 2 bytes.
- `_blocks` of GIFComposite is not modelled. It is never used.
- LZW data is not decoded. Sub-blocks are opaque bytes, as in the library.
- Negative indices are not modelled. Indices and offsets are naturals, so Python's negative
  indexing in `get_color`, `set_color` and `write` is not covered.
- Extension.Write: the payload is a mutable sequence. In the library `strm.read` returns
  immutable `bytes`, so item assignment would raise `TypeError`. The model follows the
  evident intent that the payload is patched.
- Types of argument values. Setter values and `new_data` are modelled as naturals and byte
  sequences, not arbitrary Python objects. `set_color`'s value is a triple.
- Tables.ColorTable.ColorNum: it has no contract. It returns the entry count.
- The document-level setters (`SetBlockImageField`, `SetBlockLabel`, `WriteBlockPayload`,
  `SetBlockColor`, `SetGlobalColor`) each cover one write on a document just read with
  `OpenWritable`. A second write on the same document is not covered, because after the
  first one the object and its file may no longer agree (the screen setters and set_color
  write the file only).
- Offsets recorded at parse time are not invalidated by a recompile, as in the library.
  `Recompile` leaves every recorded offset as it was, and nothing marks them stale.
