# RLE codec and container, modelled in Dafny

This project models the core of a byte-oriented run-length-encoding tool,
`src/rle.c`:

- the block codec: `rle_compress` and `rle_decompress`;
- the growable output buffer behind them: `ensure_capacity` and the
  `out_buf`/`out_size`/`out_cap` triple;
- the 64-bit little-endian helpers `write_le64` and `read_le64`;
- the file container: header building, mode selection and header checks
  inside `rle_compress_file` and `rle_decompress_file`, without the file
  reading and writing.

The encoded stream is a list of blocks. A control byte with the high bit
set starts a run block: `(ctrl & 0x7F) + 1` copies of the next byte. A
control byte with the high bit clear starts a literal block: the next
`ctrl + 1` bytes, verbatim. The encoder scans greedily. Where two or more
equal bytes start, it emits a run of up to 128 of them. Otherwise it emits
a literal of up to 128 bytes, which ends before the next byte that starts
a run.

The container is a 22-byte header followed by a payload:

- "RLEC", then version 1;
- a flags byte, whose bit 0 means the payload is RLE;
- the original length and the payload length, each as a little-endian
  64-bit value.

The RLE payload is chosen exactly when the encoded stream is non-empty and
strictly shorter than the input. Otherwise the input is stored as is.

Modules:

- `Bytes`: bytes, `SIZE_MAX`, `Option`/`Result`, `Repeat` (what `memset`
  writes).
- `Buffer`: the doubling rule of `ensure_capacity` as a function
  (`GrownCapacity`), and the class `ByteBuffer`, whose methods update an
  array in place.
- `LittleEndian`: `ToLE`/`FromLE` and the methods `WriteLE64` (into an
  array at an offset) and `ReadLE64`.
- `RleFormat`: blocks as values, their byte layout, the decoder's parse
  (`ParseBlocks`, `Decode`), the encoder's greedy choice (`NextBlock`,
  `EncodeFrom`, `Encoded`), and the properties relating them.
- `Codec`: the imperative `Compress` and `Decompress`, with their inner
  scans and block writers, each proved against the `RleFormat` functions.
- `Container`: the container as functions (`Packed`, `Unpacked`) and as
  methods (`Pack`, `Unpack`) proved equal to them, with the round trip and
  the rejection properties.
- `Examples`: the inputs of `tests/test_rle.c` and the blocks and
  container mode they get.

An RLE container that records an original length of 0 is accepted with
empty output whenever its payload is malformed or decodes to nothing: a
failed decode gives length 0, which matches the recorded 0
(src/rle.c:226-229; `Container.UnpackIgnoresPayloadOfEmpty`). A payload
that decodes to some bytes is rejected, since their number is not the
recorded 0 (src/rle.c:229; `Container.UnpackRejectsNonEmptyForEmpty`).

## Model

| member | source | states |
|---|---|---|
| Buffer.GrownCapacity | src/rle.c:25-29 | the doubling loop's result: present iff `needed` fits in SIZE_MAX (or is already met); then it is at least `needed` and the start, at most SIZE_MAX, below `2*needed` unless no doubling happened, and either SIZE_MAX or the start times some power of two |
| Buffer.Doubled | src/rle.c:27 | one doubling step never passes SIZE_MAX, strictly grows a non-zero capacity until it saturates at SIZE_MAX, and at most doubles it |
| Buffer.ByteBuffer.constructor | src/rle.c:38-39 | the buffer starts with no bytes and no capacity |
| Buffer.ByteBuffer.EnsureCapacity | src/rle.c:23-35 | success iff the capacity is already enough or `needed` fits in SIZE_MAX; the contents never change; on success the capacity is at least `needed`; when it had to grow, the new array is fresh and its length is `GrownCapacity` of the start, which is 64 for a buffer with no capacity and the current capacity otherwise |
| Buffer.ByteBuffer.Push | src/rle.c:62-63 | the contents gain exactly one byte at the end, in the same array |
| Buffer.ByteBuffer.Fill | src/rle.c:113-114 | the contents gain exactly `n` copies of `v` |
| Buffer.ByteBuffer.Append | src/rle.c:127-129 | the contents gain exactly `src[from..from+n]` |
| LittleEndian.ToLE | src/rle.c:12-14 | `write_le64` as a function: `n` bytes, least significant first; its meaning is pinned by `ToLEByte`, `FromToLE` and `ToFromLE` |
| LittleEndian.FromLE | src/rle.c:16-20 | `read_le64` as a function: the value of `n` bytes is below `256^n`; `FromToLE` and `ToFromLE` make it the inverse of `ToLE` |
| LittleEndian.ToLEByte | src/rle.c:13 | byte `k` of the little-endian form of `v` is `(v >> 8k) & 0xFF` |
| LittleEndian.FromToLE | src/rle.c:12-20 | reading back the bytes written for `v` gives `v`, for every `v` below `256^n` |
| LittleEndian.ToFromLE | src/rle.c:12-20 | writing back the value read from any bytes gives those bytes |
| LittleEndian.FromLESnoc | src/rle.c:18 | adding byte `k` adds it times `256^k`, which is what OR-ing in `in[k] << 8k` does |
| LittleEndian.WriteLE64 | src/rle.c:12-14 | the eight bytes at the offset become the little-endian form of `v`; the rest of the array is unchanged |
| LittleEndian.ReadLE64 | src/rle.c:16-20 | the result is the value of the eight bytes at the offset, and is below 2^64 |
| RleFormat.IsRunControl | src/rle.c:100 | the `ctrl & 0x80` test, written as `ctrl >= 0x80`; `ControlBitsAgree` proves the two agree |
| RleFormat.ControlLength | src/rle.c:101 | every control byte announces a block length of 1 to 128 |
| RleFormat.ControlBitsAgree | src/rle.c:61 | `ctrl & 0x80` is the run test, `(ctrl & 0x7F) + 1` is a run's length, and `0x80 OR (len - 1)` is `0x80 + len - 1` |
| RleFormat.Serialize | src/rle.c:61-63 | every block takes at least two bytes; its control byte announces its length and has the high bit set exactly for a run |
| RleFormat.HeadLength | src/rle.c:99-116 | the block at the front of a stream takes between 2 and 129 bytes |
| RleFormat.HeadBlock | src/rle.c:99-130 | the block read from the front of a stream lays out as exactly the bytes it was read from |
| RleFormat.Expand | src/rle.c:113-114 | what a block appends to the output (`memset` of a run, `memcpy` of a literal): exactly `Count(b)` bytes |
| RleFormat.ExpandAll | src/rle.c:98-131 | the output of a list of blocks, one after another; `DecodedLength` ties its length to the announced lengths and `EncodeFromFaithful` to the encoder's input |
| RleFormat.ParseBlocks | src/rle.c:93-134 | the decoder's reading of a stream into blocks, `None` for a block cut short; `ParseIffSerialize` pins it as the inverse of the block layout |
| RleFormat.Decode | src/rle.c:93-134 | the decoded stream, or `None` for a malformed one; `CodecRoundTrip`, `DecodedLength` and `DecodeRejectsCutBlock` state its meaning |
| RleFormat.Encoded | src/rle.c:37-91 | the stream `rle_compress` returns is empty exactly for the empty input and at most twice as long as the input; `CodecRoundTrip` decodes it back |
| RleFormat.Count | src/rle.c:51 | every block stands for 1 to 128 bytes |
| RleFormat.RunLength | src/rle.c:50-53 | the run scan gives 1 to 128 and stays in the input; it gives 2 or more exactly where a run of two equal bytes starts |
| RleFormat.RunLengthMaximal | src/rle.c:50-53 | all bytes the run covers equal its first, and it stops at 128, at the end of the input, or before a different byte |
| RleFormat.LiteralLength | src/rle.c:66-77 | the literal scan takes 1 to 128 bytes and stays in the input |
| RleFormat.LiteralLengthStops | src/rle.c:66-77 | no byte after the first of a literal starts a run, and the literal stops at 128, at the end of the input, or before a byte that starts a run |
| RleFormat.NextBlock | src/rle.c:49-87 | the block chosen at `i` is well formed (a run covers at least two bytes) and stays in the input |
| RleFormat.NextStart | src/rle.c:64 | the next block starts after `i` and no later than the end of the input |
| RleFormat.NextBlockExpands | src/rle.c:54-87 | the block chosen at `i` stands for exactly the next input bytes |
| RleFormat.EncodeFrom | src/rle.c:48-88 | the encoder emits no more blocks than there are bytes left |
| RleFormat.EncodedFrom | src/rle.c:48-88 | the stream for `x[i..]` is empty iff nothing is left, and at most twice as long as what is left |
| RleFormat.EncodeFromWellFormed | src/rle.c:54-64 | every run the encoder emits has length 2 to 128, so its control byte is `0x80 OR (len - 1)` with the high bit set |
| RleFormat.EncodeFromFaithful | src/rle.c:48-88 | the blocks the encoder emits for `x[i..]` expand back to `x[i..]` |
| RleFormat.EncodedFromBlocks | src/rle.c:48-88 | the bytes the encoder writes are the layout of the blocks it chooses |
| RleFormat.EncodeStopsBeforeRuns | src/rle.c:70-77 | no literal block holds two equal neighbouring bytes, and each ends on a byte that differs from the first byte of the next block |
| RleFormat.LiteralInside | src/rle.c:70-77 | the literal block at `i` has no two equal neighbouring bytes |
| RleFormat.LiteralBoundary | src/rle.c:71-74 | a literal block's last byte differs from the first byte of the block after it |
| RleFormat.ParseBlock | src/rle.c:99-130 | the decoder reads a block's layout back as that block, then goes on with the rest |
| RleFormat.ParseSerialize | src/rle.c:93-134 | the decoder reads the layout of any list of blocks back as exactly those blocks |
| RleFormat.SerializeParse | src/rle.c:93-134 | every stream the decoder accepts is the layout of the blocks it reads, consumed to the last byte |
| RleFormat.ParseIffSerialize | src/rle.c:93-134 | the decoder yields `bs` from `s` iff `s` is the layout of `bs` |
| RleFormat.DecodedLength | src/rle.c:101-116 | a decoded stream is as long as the sum of the lengths its control bytes announce |
| RleFormat.RejectedAfterBlocks | src/rle.c:98-131 | whole blocks in front of a malformed stream leave it malformed |
| RleFormat.DecodeRejectsCutBlock | src/rle.c:102-106 | a stream ending inside a block (a run without its value, or a literal short of its bytes), after any whole blocks, is rejected |
| RleFormat.CutBlockRejected | src/rle.c:117-121 | every strict prefix of one block's layout is rejected |
| RleFormat.CodecRoundTrip | src/rle.c:37-134 | decoding the encoder's output gives back the input, for every input |
| RleFormat.EncodedBlocksShape | src/rle.c:37-91 | the encoded stream is the layout of well-formed blocks whose literals stop before runs |
| Codec.MeasureRun | src/rle.c:50-53 | the loop computes `RunLength(x, i)` |
| Codec.MeasureLiteral | src/rle.c:66-77 | the loop, with its inner run scan, computes `LiteralLength(x, i)` |
| Codec.EmitRun | src/rle.c:56-63 | succeeds iff the capacity allows two more bytes; then appends exactly the run block's two bytes; on failure the contents are unchanged |
| Codec.EmitLiteral | src/rle.c:78-86 | succeeds iff the capacity allows `1 + n` more bytes; then appends exactly the literal block's bytes; on failure the contents are unchanged |
| Codec.EmitBlock | src/rle.c:49-87 | appends the layout of `NextBlock(x, i)` and returns `NextStart(x, i)`; fails only when those bytes cannot fit, and then leaves the contents unchanged |
| Codec.EmitStep | src/rle.c:62-86 | writing the next block moves it from what is left to write to what is written |
| Codec.TooLong | src/rle.c:56-60 | a block that does not fit in SIZE_MAX bytes means the whole stream does not fit |
| Codec.EncodeStep | src/rle.c:48-89 | one pass keeps "written bytes, then the stream of the rest, is the whole stream", or shows the stream exceeds SIZE_MAX |
| Codec.Compress | src/rle.c:37-91 | the output is the encoded stream of the input when it fits in SIZE_MAX bytes, and empty otherwise; empty input gives empty output |
| Codec.ResumeStart | src/rle.c:93-97 | before anything is written, what is left to produce is the decoded stream, when it fits |
| Codec.ResumeHead | src/rle.c:99-130 | reading the front block moves what it stands for from the unread stream to the output |
| Codec.ResumeRun | src/rle.c:100-114 | reading a run block appends `ControlLength` copies of its value byte |
| Codec.ResumeLiteral | src/rle.c:115-129 | reading a literal block appends the `ctrl + 1` bytes after its control byte |
| Codec.ResumeCut | src/rle.c:102-121 | a block cut short by the end of the stream leaves no result at all |
| Codec.DecodeBlock | src/rle.c:99-130 | one pass keeps the final result unchanged; when it fails, the stream has no result |
| Codec.DecodeRun | src/rle.c:100-114 | the run branch keeps the final result, and fails only for a missing value byte or an output beyond SIZE_MAX |
| Codec.DecodeLiteral | src/rle.c:115-130 | the literal branch keeps the final result, and fails only for a literal past the end or an output beyond SIZE_MAX |
| Codec.Decompress | src/rle.c:93-134 | succeeds iff the stream is well formed and its output fits in SIZE_MAX bytes, and then returns the decoded stream |
| Container.FlagBitAgrees | src/rle.c:214 | `flags & 0x01` is set iff `flags` is odd |
| Container.Header | src/rle.c:185-189 | the header is 22 bytes: magic, version 1, flags, then the two lengths as little-endian 64-bit values |
| Container.Compressed | src/rle.c:168-170 | the compressor's result is empty iff the input is empty or its stream exceeds SIZE_MAX, and otherwise decodes to the input |
| Container.Packed | src/rle.c:162-198 | packing fails iff the input is non-empty and compresses to nothing; a container is 22 bytes plus a payload no longer than the input |
| Container.DecodedOrEmpty | src/rle.c:226 | a non-empty result is the decoded payload, and a decoding that succeeds and fits in SIZE_MAX bytes is the result |
| Container.Unpacked | src/rle.c:200-233 | on success the container has the right length, magic and version, and the output has the recorded original length and is the payload (stored) or its decoding (RLE); conversely, a container passing the header checks is accepted in stored mode when the recorded lengths agree, and in RLE mode exactly when `DecodedOrEmpty` of the payload (the decoding, or nothing when decoding fails) has the recorded length, which it then is |
| Container.HeaderChecked | src/rle.c:205-211 | the header passes iff the container is at least 22 bytes with the right magic, version and total length; "too short" iff it is under 22 bytes; on success the result is the recorded original length |
| Container.UnpackedPayload | src/rle.c:213-232 | on success the output has length `orig` and is the payload (stored) or its decoding (RLE); stored mode succeeds iff `orig` is the payload length; RLE mode succeeds exactly when `DecodedOrEmpty(payload)` has length `orig`, and then returns it, so it succeeds with the decoding whenever the payload decodes to `orig` bytes |
| Container.ContainerFields | src/rle.c:182-191 | every field reads back from a laid-out container: magic, version, flags, both lengths and the payload |
| Container.HeaderFields | src/rle.c:182-191 | a sequence whose fields are those of a container is that container |
| Container.UnpackContainer | src/rle.c:205-211 | a laid-out container passes the header checks, and its result depends on flags, original length and payload only |
| Container.UnpackStored | src/rle.c:214-222 | every stored container whose two lengths agree unpacks to its payload |
| Container.UnpackRle | src/rle.c:225-230 | every RLE container whose payload decodes to `t`, recording the length of `t`, unpacks to `t` |
| Container.AcceptedIsLaidOut | src/rle.c:182-211 | every container unpacking accepts is its own header followed by its payload, as packing lays one out |
| Container.UnpackPack | src/rle.c:162-233 | unpacking a packed container gives back the input |
| Container.PackSucceeds | src/rle.c:168-170 | packing succeeds for every input up to half of SIZE_MAX |
| Container.PackLayout | src/rle.c:173-191 | the packed container has magic and version; its flag is 0x01 iff the stream is non-empty and shorter than the input, else 0; the length fields hold the input and payload lengths; the payload is the stream or the input |
| Container.UnpackRejectsTruncated | src/rle.c:205-211 | every strict prefix of a packed container is rejected |
| Container.CutRejected | src/rle.c:205-211 | every strict prefix of a container whose payload length field matches is rejected |
| Container.PackEmpty | src/rle.c:168-191 | the empty input packs to the bare stored header with both lengths 0, which unpacks to nothing |
| Container.UnpackIgnoresPayloadOfEmpty | src/rle.c:226-229 | every RLE container recording length 0 whose payload is malformed unpacks to nothing |
| Container.UnpackIgnoresCutLiteral | src/rle.c:226-229 | the RLE container recording length 0 with the malformed payload `[0x05]` unpacks to nothing |
| Container.UnpackRejectsNonEmptyForEmpty | src/rle.c:229 | every RLE container recording length 0 whose payload decodes to some bytes (at most SIZE_MAX) is rejected |
| Container.Pack | src/rle.c:162-198 | the method's result is `Packed(x)` |
| Container.Lay | src/rle.c:182-191 | the array built is the header followed by the payload |
| Container.WriteHeader | src/rle.c:185-189 | the first 22 bytes become the header, and the bytes after them are unchanged |
| Container.Unpack | src/rle.c:200-233 | the method's result is `Unpacked(c)` |
| Container.CheckHeader | src/rle.c:205-211 | the checks, with the length sum taken mod 2^64 as in C, give `HeaderChecked(c)` |
| Container.LengthCheckExact | src/rle.c:211 | for a container of at least 22 bytes, the 64-bit sum `22 + payload_size` matches its length only when the unbounded sum does |
| Container.UnpackPayload | src/rle.c:213-232 | the method's result is `UnpackedPayload(flags, orig, payload)` |
| Examples.ConstantBlock | tests/test_rle.c:54-61 | in a stretch of equal bytes the encoder emits a run of what is left, cut at 128 |
| Examples.LongRunSplits | tests/test_rle.c:54-61 | 400 equal bytes encode as three runs of 128 and a run of 16 |
| Examples.LongRunEncoded | tests/test_rle.c:54-61 | those blocks are the eight bytes `FF v FF v FF v 8F v` |
| Examples.LongRunIsCompressed | tests/test_rle.c:54-61 | the container for 400 equal bytes uses RLE mode |
| Examples.LiteralsThenRun | tests/test_rle.c:40-46 | the test input: bytes 0..63, then 192 copies of 0xAA |
| Examples.LiteralsThenRunBlocks | tests/test_rle.c:40-46 | that input encodes as one literal of 64 bytes, a run of 128 and a run of 64 |
| Examples.LiteralsThenRunLength | tests/test_rle.c:40-46 | its encoded stream is 69 bytes |
| Examples.LiteralsThenRunIsCompressed | tests/test_rle.c:40-46 | its container uses RLE mode |
| Examples.Alternating | tests/test_rle.c:48-52 | the test input: 257 bytes alternating 0xFF and 0x00 |
| Examples.AlternatingBlocks | tests/test_rle.c:48-52 | that input encodes as literals of 128, 128 and 1 bytes |
| Examples.AlternatingLength | tests/test_rle.c:48-52 | its encoded stream is 260 bytes |
| Examples.AlternatingIsStored | tests/test_rle.c:48-52 | its container stores the input as is |

## Left out

- File I/O is not modelled: `read_entire_file`, `write_entire_file`, the paths, and the I/O error codes of `rle_compress_file` and `rle_decompress_file`. The container functions take and return byte sequences.
- src/main.c and the command-line interface are not part of this model.
- Failure of `malloc` and `realloc` is not modelled; allocation always succeeds. The only capacity failure modelled is the doubling saturating at SIZE_MAX below the request.
- Buffer.ByteBuffer.EnsureCapacity: `needed` is an unbounded number. In C, `out_size + len` is a `size_t` sum that could wrap around before the call; the model instead fails when the request exceeds SIZE_MAX.
- Container.Pack: the `size_t` sum `total_len = 22 + payload_len` is not wrapped; it could only wrap for inputs within 22 bytes of SIZE_MAX.
- Container.Unpack: stored mode writes the output file before the size check and reports failure afterwards; with no I/O in the model, only the verdict is kept.
- Container.Unpacked: C returns -1 for every failure; the model names each reason with an `Error` value.
- Codec.Decompress: C returns 0 both for a failure and for an empty result. The model returns `None` or `Some`, and `Container.DecodedOrEmpty` reproduces the collapse where `rle_decompress_file` depends on it.
- Codec.Compress: on failure C frees the partial buffer and returns 0; the model returns the empty sequence. Freeing memory is not modelled.
- LittleEndian.ReadLE64: `v |= in[i] << 8i` is modelled as adding `in[i] * 256^i`. They are equal because each byte lands above the bits already set, but that equality is not proved at the bit level.
- LittleEndian.WriteLE64: `v >> 8i` is modelled as dividing by 256 `i` times (`ShiftBytes`).
- Output parameters such as `uint8_t **out_buf` are modelled as returned sequences, so aliasing between input and output is not modelled.
