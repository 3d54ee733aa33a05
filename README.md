# LZo container decoder — a Dafny model of `processFile`

The tool unpacks "LZo" game-archive containers (`.CGO` / `.DGO` files). A container is a
12-byte little-endian header — the magic `0x426C5A6F`, the size of the decompressed output
and the size of the first block — followed by a stream of blocks. Each block is either
stored (a declared size of `0x8000` or more, always exactly `0x8000` bytes) or
LZO1x-compressed (a size from 1 to `0x7FFF`). After each block the input cursor is rounded
up to a multiple of 4, and the next block's 4-byte size is read there. `processFile`
(main.cpp) walks that stream into a zero-filled output buffer of the declared size. It
returns 2 on a bad magic and the decompressor's status on a decompression error. Otherwise it
writes the whole buffer and returns 0.

The project has two layers:

- **Specification** (`format.dfy`). Pure functions describe one decode. `Dispatch` is the
  block branch of one loop iteration, `Step` the whole iteration (dispatch, cursor advance,
  alignment, prefix read), `Walk` the loop and `Decode` the whole file.
- **Implementation** (`walker.dfy`). `ProcessFile` works the way the source does: an output
  `array` filled with zeros, the variables `blockInc`, `outShift` and `blockSize` updated
  step by step, the stored-block copy and the decompressor writing into the array in place,
  and the `while (block_inc % 4 != 0)` alignment loop. It is proved to return exactly
  `Decode(file, lzo)`.

Around the two layers sit the facts proved about them. `steps.dfy` gives one lemma per
branch and per quirk. `coverage.dfy` proves that bytes no block wrote stay 0. `packing.dfy`
defines an encoder for containers made only of compressed blocks (1 to `0x7FFF` bytes each)
and proves that decoding its output gives the blocks back. Stored blocks are outside that
round trip: because of the `out_shift` copy quirk below it would not hold for them. `names.dfy` covers the output-file naming and the `.CGO`/`.DGO` filter in
`main`. `bytes.dfy` holds the little-endian word codec and the buffer-write primitive.

The LZO1x decompressor is a parameter `lzo: seq<byte> -> LzoReply`. It is treated as a
deterministic black box that maps the compressed slice to a status (`LZO_E_OK` = 0 or a
negative error) and the bytes it wrote. Their count is the `decomp_size` it reports.

The model follows main.cpp, including these quirks:

- A block size of 0 does not end the walk. Neither branch runs, the cursor stays aligned,
  the next prefix is read 4 bytes later, and the loop ends only when `block_inc` reaches the
  input size (`Steps.ZeroSizeStep`).
- The header's third word is the size of the first block, whose payload starts at input
  offset 0.
- A stored block is copied from input offset `out_shift`, not `block_inc`, to output offset
  `out_shift`. `out_shift` does not advance, so the next block is written over it
  (`Steps.StoredBlock`).
- The 16-bit mask sits inside the `< 0x8000` branch, so it never changes a size
  (`Format.Mask16`).
- The source checks no bounds. The prefix read at main.cpp:100 is out of bounds once the
  aligned cursor lies within 4 bytes of the end of the input, and that read is undefined
  behaviour. After a compressed or zero-size block it ends at most 7 bytes past the input.
  After a stored block it can end up to 0x8003 bytes past it (`Steps.StoredPrefixOverRead`): the cursor moves by 0x8000
  while the copy reads at `out_shift`, so nothing checks that span. The model reads 0
  there. The value is never used, because the cursor then lies past the end and the loop
  stops (`Steps.PrefixPastEndEndsWalk`). Reads or writes of a block past its buffer are
  also undefined behaviour in the source. The model stops there with the outcomes
  `Truncated` and `Overflow`, which the source does not have.

## Model

| member | source | states |
|---|---|---|
| Bytes.ReadU32 | main.cpp:26 | the 4-byte little-endian word at an offset, least significant byte first, as a `u32`; `Bytes.ReadEncode` and `Bytes.EncodeRead` show it is a bijection between 4-byte fields and [0, 2^32) |
| Bytes.ReadEncode | main.cpp:26 | the little-endian word read from the 4 bytes an encoder stores for `x` is `x` (the read is the word codec's left inverse) |
| Bytes.EncodeRead | main.cpp:100 | any 4 bytes are the encoding of the word read from them, so every 4-byte field denotes exactly one value in [0, 2^32) |
| Bytes.Zeros | main.cpp:60-61 | the freshly `memset` output has the declared length and every byte is 0 |
| Bytes.Overwrite | main.cpp:73 | a write of `bytes` at `at` keeps the buffer length, puts `bytes[j - at]` at each covered offset and leaves every other byte unchanged |
| Format.ReturnCode | main.cpp:27-33 | `processFile` returns 0 exactly on success, 2 exactly on a bad magic, and a negative value exactly on a decompression error, namely the decompressor's own status |
| Format.Mask16 | main.cpp:79 | the mask result is at most 0x10000 and equals the size whenever the size is at most 0x10000, which every size reaching it is |
| Format.RoundUp4 | main.cpp:96-99 | the aligned cursor is a multiple of 4, not below the cursor and less than 4 past it |
| Format.PrefixAt | main.cpp:100 | the next block size read at the aligned cursor, and the model-only 0 when the 4 bytes run past the input; `Steps.PrefixPastEndEndsWalk` shows that value is never used |
| Format.Dispatch | main.cpp:70-93 | a dispatch stops only with a decompression error, a truncated read or an overflowing write; otherwise the buffer length is kept, the input cursor is to move at most 0x8000, and the output cursor stays inside the buffer |
| Format.Step | main.cpp:68-107 | after every completed iteration `block_inc` is a multiple of 4 and has grown by at least 4 (and less than 0x8008); the buffer length is unchanged and `out_shift` stays inside it |
| Format.Walk | main.cpp:68-107 | the loop never produces a bad-magic result, and on success its output has the length of the buffer it started from |
| Format.Start | main.cpp:39-66 | the loop's first state: `block_inc` and `out_shift` 0, the header's third word as the first block size, the zero-filled output of the declared size and no blocks logged |
| Format.Decode | main.cpp:22-41 | the decode is `BadMagic` exactly when the first word is not `0x426C5A6F`; on success the magic matched and exactly `out_filesize` (the header's second word) bytes are emitted |
| Steps.StoredBlock | main.cpp:70-73 | a size of at least 0x8000 copies input `[out_shift, out_shift + 0x8000)` to output `out_shift`, leaves `out_shift` unchanged and moves the input cursor by 0x8000 |
| Steps.StoredSizeIrrelevant | main.cpp:72 | any two declared sizes of at least 0x8000 make the same iteration: the size is clamped to 0x8000 |
| Steps.CompressedBlock | main.cpp:77-81 | a size in [1, 0x7FFF] hands the decompressor exactly `in[block_inc, block_inc + size)`, writes its bytes at `out_shift` and advances `out_shift` by their count |
| Steps.CompressedStep | main.cpp:77-101 | a compressed block's whole iteration: decompress at `out_shift`, round the cursor up past the payload, read the next prefix there and step past it |
| Steps.DecoderErrorAborts | main.cpp:82-92 | a non-OK decompressor status ends the whole decode at once with that status and no output |
| Steps.StepAdvances | main.cpp:95-101 | after a block the cursor becomes `RoundUp4(block_inc + size) + 4` and the next size is the word at `RoundUp4(block_inc + size)` |
| Steps.AlignedIsRoundUp | main.cpp:96-99 | the alignment loop can stop only at `RoundUp4`: no multiple of 4 lies between a cursor and its rounding |
| Steps.ZeroSizeStep | main.cpp:77 | a size of 0 writes nothing and does not end the walk: the next prefix is read at the aligned cursor and the cursor moves on by 4 |
| Steps.FiveByteBlock | main.cpp:95-101 | after a 5-byte block 3 padding bytes are skipped: the next prefix is read 8 bytes after the block's start and the cursor ends 12 bytes after it |
| Steps.PrefixPastEndEndsWalk | main.cpp:100-101 | when the next prefix does not fit in the input, the walk ends successfully with the output as it stands |
| Steps.StoredPrefixOverRead | main.cpp:95-100 | after a stored block from an aligned cursor inside the input, the cursor moves by exactly 0x8004 and the prefix read ends at most 0x8003 bytes past the input |
| Steps.StoredPrefixOverReadReached | main.cpp:95-100 | the 0x8003 over-read is reached by a 0x8001-byte input with a stored block at cursor 0x8000 |
| Steps.StepFitsU32 | main.cpp:95-101 | with a payload of at most `MaxPayload` bytes, an iteration from an aligned cursor inside the input keeps `block_inc` below 2^32 |
| Steps.MaxPayloadTight | main.cpp:95-101 | with one byte more payload, a stored block at the last aligned cursor takes `block_inc` to 2^32, where the `u32` wraps |
| Steps.WalkNext | main.cpp:68 | an iteration that completes leaves the rest of the decode to the loop from the new state |
| Steps.WalkHalt | main.cpp:91 | an iteration that stops is the result of the whole decode |
| Walker.WriteAt | main.cpp:73 | writing into the output array in place leaves exactly `Overwrite` of its old contents |
| Walker.DispatchBlock | main.cpp:70-93 | the imperative block branch, run on the output array, does what `Dispatch` specifies, including its stops |
| Walker.AlignUp | main.cpp:96-99 | the `while (block_inc % 4 != 0) block_inc++` loop ends at `RoundUp4(block_inc)` |
| Walker.Iterate | main.cpp:69-106 | one loop iteration over the variables and the array is the specified `Step`: the same stop outcome, or the same next state |
| Walker.ProcessFile | main.cpp:12-117 | the imperative decoder returns exactly `Decode(file, lzo)` |
| Coverage.OverwriteAccounted | main.cpp:73 | one more logged write keeps every nonzero output byte covered by a logged block |
| Coverage.DispatchAccounted | main.cpp:70-93 | a block dispatch keeps the output accounted for by the block log |
| Coverage.WalkAccounted | main.cpp:68-107 | on success every logged block lies in the output and every nonzero byte was written by a logged block |
| Coverage.DecodeAccounted | main.cpp:109 | on success exactly `out_filesize` bytes are written, and any byte no block wrote is still 0 |
| Packing.ChunkLayout | main.cpp:95-101 | a block, its padding and a word laid out from an aligned cursor put the word at the next 4-byte boundary after the block |
| Packing.BodyLayout | main.cpp:95-101 | in a packed body the first block sits at the cursor, the next size at the aligned end of it, and the rest of the body after that |
| Packing.FirstBlockStep | main.cpp:77-101 | one iteration over a packed body decompresses its first block and leaves the cursor aligned at the remaining body with its first size loaded |
| Packing.WalkBody | main.cpp:68-107 | walking a packed body writes the blocks' decompressed bytes one after another from the output cursor, and succeeds |
| Packing.PackHeader | main.cpp:22-41 | a packed container's header reads back as the magic, the declared output size and the first block's size |
| Packing.RoundTrip | main.cpp:60-109 | decoding a packed container of accepted blocks gives their decompressed bytes in order, then zeros up to the declared size |
| Packing.IdentityScenario | main.cpp:80 | a one-block container decoded with a decompressor that returns its input reproduces the block |
| Names.LastIndex | main.cpp:173 | the last occurrence of a character: it is there and none follows it, or the character does not occur |
| Names.IsContainerFile | main.cpp:173 | the directory filter: the extension of the path's file name is `.CGO` or `.DGO`; `Names.ContainerFileIff` characterises it |
| Names.FileName | main.cpp:173 | the file name is the suffix of the path after its last `/`: it contains no `/` and is either the whole path or preceded by a `/` |
| Names.Extension | main.cpp:173 | the extension is empty exactly for `.`, `..` and names with no `.` after their first character; otherwise it is the proper suffix from the last `.` on |
| Names.OutputName | main.cpp:181 | an output path exists exactly for paths of 3 or more characters; it is the input with `U` at the fourth-last position |
| Names.OutputNameInverse | main.cpp:220 | removing the inserted character gives back the input path |
| Names.ContainerFileIff | main.cpp:173 | a file name passes the filter exactly when it ends in `.CGO` or `.DGO` and is at least 5 characters long |
| Names.FourthLastNotDot | main.cpp:173 | a path whose fourth-last character is not `.` is skipped |
| Names.OutputTail | main.cpp:181 | a path ending in `.` and three characters gets an output path ending in `.U` and the same three characters |
| Names.OutputSkipped | main.cpp:181 | the output of a container file ends in `.UCGO` or `.UDGO`, and a later pass over the directory skips it |

## Left out

- File handling (seeking, `tellg`, reading and closing the streams, writing the output file) is not modelled: the container is a `seq<byte>` already in memory, and a successful `Wrote` outcome carries the bytes that would be written.
- The 4-bytes-at-a-time fill of the input buffer (main.cpp:48-55) can write up to 3 bytes past it when the payload length is not a multiple of 4; the model reads the payload exactly.
- A file shorter than 4 bytes decodes to the model-only `Truncated` outcome. In the source the magic read at main.cpp:25 fails and the magic is built from indeterminate bytes of `new char[4]`, which is undefined behaviour.
- A file of 4 to 11 bytes whose magic is right also decodes to `Truncated`. In the source the reads at main.cpp:36 and main.cpp:41 only fail the stream, but `in_filesize` has wrapped at main.cpp:19, so `new char[in_filesize]` at main.cpp:47 throws `std::bad_alloc`. Nothing catches it, so the program terminates; in directory mode that ends the whole batch. A file of 4 to 11 bytes with a wrong magic gives `BadMagic`, as the source's `return 2` does.
- Walker.ProcessFile: requires the payload to be at most `MaxPayload` = `0xFFFF_7FFC` bytes, the largest payload for which the source's 32-bit `block_inc` cannot wrap (`Steps.StepFitsU32`); larger files are not covered. In the source, with a 64-bit `lzo_uint`, a payload of 2^32 bytes or more never fails `block_inc < in_filesize`, and a payload from `0xFFFF_7FFD` bytes up to 2^32 can wrap `block_inc` back near 0 after a stored block (`Steps.MaxPayloadTight`); either way the walk may then end only through a decoder error or a crash.
- The LZO1x algorithm, `lzo_init` and the version strings are not modelled: the decompressor is a parameter. The non-safe `lzo1x_decompress` ignores the incoming `decomp_size`, so the variable never being reset between blocks has no effect in the model.
- Format.PrefixAt: treats an out-of-bounds prefix read as harmless (it yields 0) and lets the walk end with `Wrote`. The source reads up to 0x8003 bytes past the input buffer there (after a stored block), which is undefined behaviour and may fault; the model does not capture a fault.
- The decompressor is given the whole declared block, and a block whose declared size runs past the input stops with `Truncated`. miniLZO's `lzo1x_decompress` reads only up to its end-of-stream marker; when that marker lies inside the input it returns `LZO_E_INPUT_NOT_CONSUMED` (-8) without reading past the buffer, so the source can return -8 where the model says `Truncated`. A decompressor given only a slice cannot express this.
- The decompressor writing past the output buffer is not modelled as a partial write: the model stops with `Overflow` before any byte of that block is written.
- Logging through `sprintf` and the log file is left out; the `blocks` list in `Wrote` records the copied and decompressed blocks that the log would report.
- Heap allocation and `delete[]` are left out.
- Command-line parsing and `std::filesystem` directory iteration are left out, apart from the name derivation and the extension filter. Names.FileName splits on `/` only: Windows separators and root names are not modelled.
- Names.OutputName: counts characters, while `std::string::insert(length() - 3, "U")` counts bytes. For a path whose last three characters are not all single-byte (ASCII) in its encoding, the source inserts the `U` at a different position than the model. After the `.CGO`/`.DGO` filter the tail is ASCII, so the model is exact there; in single-file mode, with an arbitrary path, it is not.
- The decompressor is a function of its input slice only. miniLZO's non-safe `lzo1x_decompress` does not check look-behind distances, so a malformed stream could copy from output bytes before `out + out_shift` (earlier blocks' output). The model does not capture that dependence on the buffer's earlier contents.
- The exit status of `main` in single-file mode is `processFile`'s return value truncated by the platform; only `processFile`'s own return value (`Format.ReturnCode`) is modelled.
