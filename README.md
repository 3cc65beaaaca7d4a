# uftwo UF2 block codec in Dafny

This project models the core of `uftwo`, a Rust library and command-line
tool for UF2 ("USB Flashing Format") files. A UF2 file is a sequence of
fixed 512-byte blocks. Each block carries a header, up to 476 bytes of
payload and magic numbers at both ends.

The model covers:

- the block itself: its layout, `Default`, `Block::new`, the validating
  parser `Block::from_bytes`, the flag bits, and the checksum record in the
  last 24 bytes of the payload;
- the extension-tag list that can follow the payload, and the cursor that
  walks it (`Extensions::next`, `ExtensionTag::from`);
- the two conversions of the `convert` command, with files replaced by
  byte sequences: `bin_to_uf2` (image to blocks) and `uf2_to_bin` (blocks
  back to bytes).

Files:

- `wrappers.dfy`: `Option` and `Result`.
- `arith.dfy`: division and carry lemmas for the flag and byte arithmetic.
- `seqs.dfy`: small sequence identities.
- `bytes.dfy`: bytes, u32 fields, little-endian order, `as u32`,
  `next_multiple_of(4)` and `copy_from_slice`.
- `block.dfy`: the block, its flags and its checksum record.
- `extensions.dfy`: the extension tags and the `Extensions` cursor.
- `convert.dfy`: the two conversions.

`Block` is `Copy` in the source, so it is a datatype here, and the
operations that change a block in place (`Block::new`, `set_checksum`, the
`copy_from_slice` into `data`) are methods that return the updated value.
The copy itself runs in place on an array (`Bytes.CopyFromSlice`). The
extension cursor updates its `start` field between calls, so it is a class.
The two conversion loops are methods with loop invariants. Each is proved
equal to a recursive function over the input, and the properties are proved
about that function.

The byte layout is stated explicitly. Each u32 field is four little-endian
bytes at its `#[repr(C)]` offset, and the payload sits at offsets 32 to 507.

## Model

| member | source | states |
|---|---|---|
| Uf2.Serialize | src/lib.rs:65-68 | A serialised block is exactly 512 bytes. |
| Uf2.SerializeLayout | src/lib.rs:36-63 | Each field sits at its `#[repr(C)]` offset in little-endian order. The header fields occupy 0..32 in declaration order, `data` occupies 32..508 and `magic_end` occupies 508..512. |
| Bytes.FromLeBytes | src/lib.rs:240-245 | Reading back the four little-endian bytes of a u32 gives that u32. |
| Bytes.LeBytesFrom | src/lib.rs:240-245 | Any four bytes are the little-endian bytes of the u32 they encode. |
| Bytes.Zeros | src/lib.rs:81 | The zeroed payload buffer has the requested length and only zero bytes. |
| Uf2.DefaultBlockLayout | src/lib.rs:70-85 | The default block is valid. It serialises to the three magic numbers at offsets 0, 4 and 508, with zeros everywhere else. The first four bytes are "UF2\n", as the test at src/lib.rs:329-331 checks. |
| Uf2.NewBlock | src/lib.rs:88-113 | Under the source's assertions, the new block has the magic numbers, the given index, block count and target address, and the data copied to the front of `data` with zeros after it. `data_len`, the flags and the family field stay zero. |
| Bytes.Overwrite | src/lib.rs:110 | Copying into a window of a buffer replaces exactly that window. The bytes before and after it are unchanged. |
| Bytes.CopyFromSlice | src/lib.rs:110 | The element-by-element copy into a fixed-size array leaves the array equal to `Overwrite` of its old contents. |
| Uf2.CopyIntoData | src/bin/uftwo/convert.rs:98 | Copying into a block's `data` changes `data` as `Overwrite` says and changes no other field. |
| Uf2.FromBytes | src/lib.rs:118-135 | `InputBuffer` exactly when the buffer is not 512 bytes. `MagicNumber` exactly when a 512-byte buffer has a wrong magic number at offset 0, 4 or 508. `PayloadSize` exactly when the magic numbers are right and the u32 at offset 16 exceeds 476. Any block returned is valid. |
| Uf2.FromBytesSerialize | src/lib.rs:118-135 | Parsing the serialisation of a block with correct magic and `data_len <= 476` gives that block back. |
| Uf2.FromBytesExact | src/lib.rs:134 | A block that parses serialises back to exactly the buffer it came from. |
| Uf2.MagicGate | src/lib.rs:124-128 | Changing any one of the three magic fields of a valid block's bytes to another value makes parsing fail with `MagicNumber`. |
| Uf2.PayloadSizeGate | src/lib.rs:130-132 | A block with correct magic and `data_len` of 477 fails to parse with `PayloadSize`. |
| Uf2.Insert | src/lib.rs:204-213 | Inserting named flag `f` sets its bit, stays within 32 bits, leaves every other named flag as it was, and does nothing if `f` was already set. |
| Uf2.GetChecksum | src/lib.rs:138-150 | The result is `None` exactly when the checksum flag (bit 0x4000) is clear. Otherwise it is the record whose 24 bytes are `data[452..476]`. |
| Uf2.ReadChecksum | src/lib.rs:185-189 | Reading a 24-byte slice as a checksum record and writing it back gives the same bytes. |
| Uf2.ReadChecksumBytes | src/lib.rs:185-194 | Writing a checksum record as 24 bytes and reading it back gives the same record. |
| Uf2.SetChecksum | src/lib.rs:153-158 | `data[452..476]` becomes the record's bytes. The rest of `data` and every other field, the flags included, stay unchanged. |
| Uf2.GetChecksumAfterSet | src/lib.rs:143-158 | After `set_checksum(c)` on a block whose checksum flag is set, `checksum()` returns `c`. |
| Uf2.DefaultChecksumGate | src/lib.rs:334-343 | A default block has no checksum. After inserting the checksum flag it has one. |
| Bytes.RoundUp4 | src/lib.rs:169 | `next_multiple_of(4)` is a multiple of four, not below its argument and less than four above it. |
| Bytes.RoundUp4Least | src/lib.rs:169 | `next_multiple_of(4)` is the least such multiple. |
| Uf2Extensions.ExtensionRegion | src/lib.rs:161-175 | The result is `None` exactly when the extension flag (bit 0x8000) is clear. Otherwise it is `data` from a multiple of four in `[data_len, data_len + 4)` to the end. |
| Uf2Extensions.BlockExtensions | src/lib.rs:166-175 | The result is `None` exactly without the extension flag. Otherwise it is a fresh cursor at offset 0 of that region. |
| Uf2Extensions.RegionStartAligned | src/lib.rs:169 | Payload sizes 0, 1, 2, 3 and 4 give region starts 0, 4, 4, 4 and 4. |
| Uf2Extensions.Extensions.FromBytes | src/lib.rs:235-237 | A new cursor is over the given bytes at offset 0. |
| Uf2Extensions.Le24 | src/lib.rs:240-245 | The three tag bytes with a zero byte added are the little-endian bytes of the tag value, which is below 2^24. |
| Uf2Extensions.Extensions.CurrentTag | src/lib.rs:239-247 | The tag at the cursor stands for the little-endian value of bytes `start+1..start+4` with a zero high byte. It is a named tag exactly when that value is one of the five known tags, and `Other` otherwise. |
| Uf2Extensions.TagFrom | src/lib.rs:311-322 | The tag maps back to its input value. It is `Other` exactly when the value is none of the five known tags. |
| Uf2Extensions.TagFromValue | src/lib.rs:311-322 | Every tag the conversion can produce is recovered from its own value. |
| Uf2Extensions.StepSpec | src/lib.rs:253-277 | A step yields nothing exactly when the cursor is at or past the end, the length byte is below 4, or the record would overrun the region. Otherwise it yields the tag from bytes 1..4 and the payload `[p+4, p+len)`. The tag is a named one exactly when its value is known, and `Other` otherwise. The cursor then moves strictly forward to the next multiple of four at or after `p+len`. |
| Uf2Extensions.Extensions.Next | src/lib.rs:253-277 | `next()` returns the record at the cursor and moves the cursor as one step of the walk says. At the end it returns `None` and leaves the cursor in place. The record returned followed by the rest of the walk is the whole walk from the old cursor. |
| Uf2Extensions.WalkInRegion | src/lib.rs:253-277 | The records of a walk, headers and payloads, fit in the region after the starting offset. So a walk yields at most a quarter as many records as the region has bytes. |
| Uf2Extensions.ExampleBlock | src/lib.rs:347-367 | The test block has the extension flag and payload size 0. |
| Uf2Extensions.ExampleWalk | src/lib.rs:346-384 | The walk over the test block's region yields semver "0.1.2" twice, then description "ACME Toaster mk3", then ends. |
| Uf2Extensions.BlockExtensionTest | src/lib.rs:346-384 | The same test through the cursor: four calls of `Next` return the two semver records, the description record and `None`. |
| Bytes.Wrap32 | src/bin/uftwo/convert.rs:95-96 | `as u32` is the identity below 2^32 and is congruent to its argument modulo 2^32. |
| Convert.NumChunks | src/bin/uftwo/convert.rs:82 | The block count is zero exactly for an empty image. It is the least number of 256-byte chunks that covers the image. |
| Convert.ChunkStart | src/bin/uftwo/convert.rs:84 | A chunk starts within the image. |
| Convert.Chunk | src/bin/uftwo/convert.rs:84 | Chunk `i` is nonempty, at most 256 bytes, and is the image between the starts of chunks `i` and `i+1`. |
| Convert.Blocks | src/bin/uftwo/convert.rs:84-98 | There is one block per chunk, and block `i` is the one the loop body builds for chunk `i`. |
| Convert.ChunkToBlock | src/bin/uftwo/convert.rs:85-98 | The loop body's field-by-field construction gives the block for chunk `index`. |
| Convert.ChunkBlockSpec | src/bin/uftwo/convert.rs:84-98 | Block `i` is valid. It is numbered `i` of `NumChunks`, both truncated to u32 and exact below 2^32. It has `data_len` equal to the chunk length (1 to 256), the chunk at the front of `data` and zeros after it, and the target address. With a family id it has that id and exactly the FamilyId flag. Without one, the flags and the family field are zero. |
| Convert.BlocksValid | src/bin/uftwo/convert.rs:84-98 | Every block the encoder builds passes `from_bytes`. |
| Convert.SerializeAll | src/bin/uftwo/convert.rs:100 | Writing `n` blocks writes `512 * n` bytes. |
| Convert.SerializeAllRecord | src/bin/uftwo/convert.rs:100 | Record `k` of the output is the serialisation of block `k`. |
| Convert.BinToUf2 | src/bin/uftwo/convert.rs:82-101 | The loop's output is the serialised blocks for chunks 0, 1, … in order. |
| Convert.EncodedRecords | src/bin/uftwo/convert.rs:82-101 | The output is `512 * ceil(n / 256)` bytes, and empty for an empty image. Record `i` parses back to exactly the block for chunk `i`. |
| Convert.ChunkPayloads | src/bin/uftwo/convert.rs:87-98 | The payloads (first `data_len` bytes of `data`) of the blocks from chunk `i` on, put together, are the image from chunk `i` on. |
| Convert.Uf2ToBin | src/bin/uftwo/convert.rs:125-139 | The read-parse-extend loop returns what `Decode` gives for the input. On success it counts one block per whole 512-byte record. |
| Convert.DecodeIgnoresTail | src/bin/uftwo/convert.rs:128-132 | Bytes after the last whole record do not affect the result. |
| Convert.DecodeOk | src/bin/uftwo/convert.rs:134 | Decoding succeeds exactly when every whole record parses. |
| Convert.DecodeFirstError | src/bin/uftwo/convert.rs:134 | A failed decode reports the `from_bytes` error of a record that fails, and every record before it parses. |
| Convert.DecodeLength | src/bin/uftwo/convert.rs:136 | A successful decode is as long as the sum of the records' `data_len` fields, so at most 476 bytes per record. |
| Convert.DecodeSerializeAll | src/bin/uftwo/convert.rs:136 | Decoding a sequence of valid serialised blocks succeeds. As written it collects the first `data_len` bytes of each whole record. The corrected decoder collects the first `data_len` bytes of each `data`. Both outputs have the same length. |
| Convert.DecodeEncodedLength | src/bin/uftwo/convert.rs:136 | Decoding a converted image as written succeeds and returns as many bytes as the image had. |
| Convert.DecodeEncodedCounterexample | src/bin/uftwo/convert.rs:136 | Converting the one-byte image `[7]` and decoding it as written gives `[0x55]`, the first byte of the magic number, not `[7]`. |
| Convert.DecodePayloadsEncoded | src/bin/uftwo/convert.rs:136 | With payload bytes instead of record bytes, decoding a converted image gives the image back. |

Some specification functions carry no contract of their own. The rows above
state their properties:
- `Uf2.DefaultBlock` models src/lib.rs:70-85.
- `Uf2.Reinterpret` models the field reads of `Block::ref_from` at src/lib.rs:119.
- `Uf2Extensions.Step` models one call of `next` at src/lib.rs:253-277.
- `Uf2Extensions.Walk` models the whole sequence of such calls.
- `Convert.ChunkBlock` models the loop body at src/bin/uftwo/convert.rs:85-98.
- `Convert.Encoded` models the output of `bin_to_uf2`.
- `Convert.Decode` models `uf2_to_bin` as written at src/bin/uftwo/convert.rs:125-139.
- `Convert.DecodePayloads` is its corrected form.

## Left out

- File I/O, `read_to_end`, `File::create`, `flush` and the progress messages of src/bin/uftwo/convert.rs are left out. Files are byte sequences, and write errors cannot occur.
- Host byte order: the model is little-endian, the order that the test at src/lib.rs:329-331 requires. The source writes and reads fields through `as_bytes` and `ref_from`, which use the host's order.
- Short reads in `uf2_to_bin` are left out. A `read` that returns fewer than 512 bytes before the end of the file would end the loop early. In the model every read returns as many bytes as remain, up to 512, so only the end of the input gives a short read.
- `Convert.Uf2ToBin` stays as written, because it is the conversion the program performs. It collects record bytes, not payload bytes. `Convert.DecodePayloads` is the corrected decoder (see Findings).
- The `Cmd` argument handling, output-path choice and `main` of src/bin/uftwo are not part of this model.
- `Display` for `BlockError`, the derives, and the `defmt` formatting are left out. They do not affect behaviour.
- The alignment check of `Block::ref_from` is left out. `InputBuffer` is modelled as "length is not 512", because memory alignment has no counterpart for a byte sequence.
- The out-of-bounds panic in `Extensions::next` is replaced by an end of walk. The source tests `start > data.len()`, so `start == data.len()` indexes past the end, and `start + len` is never checked against the region. `Uf2Extensions.Step` and `Uf2Extensions.Extensions.Next` end the walk in both cases.
- Uf2Extensions.ExtensionRegion: requires `data_len <= 476` when the extension flag is set. The source panics on the slice otherwise. Every block `from_bytes` returns meets this.
- Uf2.NewBlock: the source's `assert!`s are its requires, so the panics are not modelled.
- Uf2.Insert: covers `|=` of one named flag. The general bitflags union, intersection and complement are not used by the core and are left out.
- The checksum digest is carried as 16 opaque bytes. Nothing in the library computes or checks it.
- The `example_file` test reads a file from disk and is left out.

## Findings

Converting an image to UF2 and back is evidently meant to give the image back. The code as written does not.

| source | as written | input that shows it | evidently intended | confidence | as-written member | corrected member |
|---|---|---|---|---|---|---|
| src/bin/uftwo/convert.rs:136 | Each parsed record appends `buf[0..data_len]`, the first `data_len` bytes of the raw 512-byte record, starting at its magic number. | Convert the one-byte image `[7]` (target address 0, no family id), then convert it back. The result is `[0x55]`, not `[7]`. | Append `block.data[0..data_len]`, so that converting an image and converting it back gives the image. | high; not executed | Convert.DecodeEncodedCounterexample | Convert.DecodePayloadsEncoded |
