# Stupedama image codec in Dafny

Stupedama converts memory images between two text formats:

- Intel HEX (`.hex`): records of the form `:` followed by hex digits, each
  carrying a count, a 16-bit address, a type, a payload and a checksum.
- The Verilog-style `.vhx` layout: one line per chunk of 64 or 128 bits,
  with the words of each chunk written in reverse order.

An image is a `Payload`: a start address and a run of bytes. This project
models the codec in `src/payload.rs` and the argument validators and the
format dispatch in `src/main.rs`. It proves:

- the decoders and writers against specification functions;
- both round trips, hex and vhx;
- the layout facts the source relies on.

Layout, one module per file:

| file | module | models |
|---|---|---|
| bytes.dfy | `Bytes` | `u8`, `Result`/`Option`, the bit operations and the big-endian conversions of the source |
| hex.dfy | `Hex` | the `hex` crate's `encode`, `encode_upper` and `decode` |
| checksum.dfy | `Checksum` | `hex_checksum` |
| memory_map.dfy | `MemoryMap` | `memory_map.sort()`, the gap-filling fold and the endianness step of `from_hex` |
| hex_read.dfy | `HexRead` | the record parser and the line loop of `from_hex`, and the decoder as methods |
| words.dfy | `Words` | word and chunk reordering shared by readers and writers |
| vhx_read.dfy | `VhxRead` | `from_vhx` |
| hex_write.dfy | `HexWrite` | `write_hex` |
| vhx_write.dfy | `VhxWrite` | `write_vhx` |
| render.dfy | `Render` | `impl Display for Payload` |
| hex_round_trip.dfy | `HexRoundTrip` | `from_hex` after `write_hex` |
| round_trip.dfy | `RoundTrip` | `from_vhx` after `write_vhx` |
| args.dfy | `Args` | `legal_u32`, `legal_u8`, `legal_hex_or_decimal`, `legal_file_type`, `legal_chunk_size` and the extension dispatch in `main` |

### How the model is built

- **Input and output.** Files are text. A reader receives the file's lines, as
  `str::lines` yields them, or its whole text for vhx. A writer returns the
  lines it would write.
- **Errors and panics.** `from_hex` fails in two ways:
  - **Returned errors.** These become variants of `HexRead.DecodeError`
    carrying the content of the message: hex decode error, checksum mismatch,
    or wrong address-record length.
  - **Panics.** Each place where the source panics becomes a distinct variant,
    checked in the order the source reaches them: an empty line, a line that
    decodes to no bytes, a header shorter than four bytes, a count larger
    than the record, and the word-alignment `assert!` in little-endian mode.
- **Machine integers.** `usize` is treated as 64 bits. The casts
  `as u32`, `as u8` and `u32::to_be_bytes` are written out as reductions
  modulo 2^32, 2^8 and so on. `<<` and `|` are written out on naturals, with
  `Bytes.BitOr`.
- **Imperative parts.** The decoder loop, the payload assembly, the chunk
  reversal of `from_vhx` and both writers are methods with loops, each proved
  equal to a specification function. The properties are proved about those
  functions.

An Intel HEX record has at least five bytes: count, two address bytes,
type and checksum. The code does not check this length. It compares the
checksum first (src/payload.rs:33-42) and reads the header afterwards
(src/payload.rs:44-46). So a record of one to three bytes whose checksum
does not hold, such as `:0102`, gets the returned checksum-mismatch error.
Such a record whose checksum holds panics on the header read. A four-byte
record whose checksum holds and whose count fits before the checksum is
accepted, and its type byte is also its checksum byte. The model does the
same: see `HexRead.ParseRecord` and `HexRead.ParseRecordPanics`.

## Model

| member | source | states |
|---|---|---|
| Checksum.HexChecksum | src/payload.rs:221-223 | the checksum brings the byte sum of the record to 0 modulo 256, and is the unique byte that does so |
| Checksum.WrappingSum | src/payload.rs:222 | the `wrapping_add` fold is the byte sum modulo 256 |
| Checksum.Complement | src/payload.rs:222 | `^ 0xff` on a byte is `255 - x` |
| Checksum.ChecksumValid | src/payload.rs:33-37 | the included checksum equals the computed one exactly when the whole record sums to 0 modulo 256 |
| Checksum.ComplementUnique | src/payload.rs:221-223 | a byte completes a sum to 0 modulo 256 exactly when it is the two's complement of the sum |
| Checksum.ChecksumAppended | src/payload.rs:197 | a record with its checksum appended sums to 0 modulo 256 |
| Hex.Decode | src/payload.rs:28-29 | decoding succeeds exactly on even-length all-hex-digit text, gives half as many bytes, and reports odd length before bad characters |
| Hex.DecodeFrom | src/payload.rs:28-29 | decoding from a position fails exactly when a non-digit follows; the reported character is the first one and stands at the reported index |
| Hex.DecodeAt | src/payload.rs:28-29 | decoded byte k is 16 times the value of digit 2k plus the value of digit 2k+1 |
| Hex.DecodeEncode | src/payload.rs:209 | lower-case encoding is decoded back to the same bytes |
| Hex.DecodeEncodeUpper | src/payload.rs:175-176 | upper-case encoding is decoded back to the same bytes |
| Hex.EncodeLowerDigits | src/payload.rs:230 | `hex::encode` writes only lower-case hex digits |
| Hex.EncodeUpperDigits | src/payload.rs:199 | `hex::encode_upper` writes only upper-case hex digits |
| Hex.EncodeAppend | src/payload.rs:213-214 | encoding a concatenation is concatenating the encodings |
| Hex.EncodeWithAt | src/payload.rs:199 | the two digits of byte i are its high and low nibble |
| HexRead.ParseRecord | src/payload.rs:31-47 | an accepted record has a valid checksum and a count that fits; its header is the first four bytes and its payload is the last `count` bytes before the checksum. A checksum error is reported exactly when the checksum does not match, with the computed and included values. Every other failure is one of the header panics |
| HexRead.ParseRecordChecksum | src/payload.rs:33-42 | a checksum error happens exactly when the record's byte sum is not 0 modulo 256 |
| HexRead.ParseRecordFields | src/payload.rs:44-47 | a well-formed record parses to count, big-endian base address, type and payload |
| HexRead.ParseRecordPanics | src/payload.rs:31-47 | a record with no bytes is the empty-record panic; one of one to three bytes whose checksum holds is the short-header panic; one whose checksum holds and whose count reaches past the checksum is the count panic |
| HexRead.ParseLine | src/payload.rs:27-30 | an empty line is the empty-line panic; a decode error is reported exactly when the text after the first character does not decode; otherwise the decoded bytes are parsed |
| HexRead.ParseLineDigits | src/payload.rs:28 | the first character is dropped whatever it is, and the rest is parsed |
| HexRead.DataAddressSum | src/payload.rs:53-56 | while the segment part stays below 2^16, shifting the linear register up 16 bits and or-ing in the segment part is `ela * 2^16 + 16 * esa + base + offset` |
| HexRead.ApplyRecord | src/payload.rs:49-81 | the scan stops exactly on an end-of-file record, leaving the state unchanged; it fails exactly on an address record whose count is not 2; only data records extend the memory map, and only by appending; registers stay 16-bit; unknown record types change nothing |
| HexRead.DataRecordPlacement | src/payload.rs:50-60 | a data record is accepted and appends one pair per payload byte after the existing pairs, which stay; byte i sits at `(ela << 16) OR (16 * esa + base + i)`, which is `ela * 2^16 + 16 * esa + base + i` while the segment part stays below 2^16 and plain `16 * esa + base + i` when no linear address is set |
| HexRead.SegmentOverlapsLinear | src/payload.rs:53-56 | past 2^16 the segment part overlaps the linear bits and the OR merges rather than adds: linear address 1 with segment 0x1000 puts offset 0 at 0x1_0000 |
| HexRead.AddressRecordSetsRegister | src/payload.rs:62-79 | an address record with two payload bytes sets the segment or linear register to their big-endian value and leaves the other register and the memory map alone |
| HexRead.ScanPrefix | src/payload.rs:27-82 | scanning a file is scanning a prefix and carrying its state on to the rest |
| HexRead.ChecksumMismatchReported | src/payload.rs:37-42 | the first line with a wrong checksum makes the decoder fail with that line's number and both checksum values |
| HexRead.EndOfFileStopsScan | src/payload.rs:61 | at an end-of-file record the decoder assembles what it has collected, and lines after it make no difference |
| HexRead.EndOfFileIgnoresRest | src/payload.rs:61 | the scan result does not depend on the lines after an end-of-file record |
| HexRead.EndOfFileStep | src/payload.rs:61 | an end-of-file line stops the scan with the state unchanged |
| HexRead.ScanAdvance | src/payload.rs:27-82 | a line that keeps the scan running hands its state to the next line |
| HexRead.ScanHalts | src/payload.rs:27-82 | a line that stops or fails the scan is the scan's result |
| HexRead.ScanStates | src/payload.rs:27-82 | a chain of per-line states, ending in a stopping line, is the scan's result |
| HexRead.PushData | src/payload.rs:51-59 | the push loop appends exactly the record's pairs to the memory map |
| HexRead.ActOnRecord | src/payload.rs:49-81 | the `match` on the record type computes the record's effect on the scan |
| HexRead.ScanLine | src/payload.rs:28-81 | one pass of the loop body: parse the line and act on its record |
| HexRead.ScanFile | src/payload.rs:22-82 | the `for` loop over the lines, with `break` and early error returns, computes the scan of the whole file |
| HexRead.BuildImage | src/payload.rs:84-124 | sort, fold and endianness step compute the assembled image, and fail only on the alignment assertion |
| HexRead.FromHex | src/payload.rs:16-130 | the decoder computes the hex image of its lines |
| MemoryMap.SortEntries | src/payload.rs:84 | `memory_map.sort()` returns a sorted permutation of the pairs |
| MemoryMap.InsertPermutation | src/payload.rs:84 | insertion adds exactly the one pair to the multiset |
| MemoryMap.InsertSorted | src/payload.rs:84 | insertion keeps a sequence sorted |
| MemoryMap.SortedUnique | src/payload.rs:84 | two sorted permutations of the same pairs are equal, so the result does not depend on the sorting algorithm |
| MemoryMap.SortSorted | src/payload.rs:84 | sorting sorted pairs changes nothing |
| MemoryMap.SortDistinct | src/payload.rs:84 | pairs with distinct addresses sort into strictly increasing addresses |
| MemoryMap.FoldAccumulates | src/payload.rs:96-112 | the fold appends to its accumulator and does not read it |
| MemoryMap.FoldLayout | src/payload.rs:96-112 | folding strictly increasing pairs lays each byte at its address offset and fills every other position |
| MemoryMap.DenseLayout | src/payload.rs:86-112 | the raw image spans from the lowest to the highest address; each pair's byte is at its offset and every unlisted address holds the fill value |
| MemoryMap.LaidOutPermutation | src/payload.rs:84 | the layout does not depend on the order of the collected pairs |
| MemoryMap.AssembleLayout | src/payload.rs:84-112 | with distinct addresses, the big-endian image starts at the lowest collected address and ends at the highest one; every collected byte is at its address and every other byte is the fill value |
| MemoryMap.AssembleEmpty | src/payload.rs:86-93 | with no collected pair the image starts at address 0 and is empty, in either byte order |
| MemoryMap.AssembleKeepsOverlap | src/payload.rs:96-112 | two pairs at one address are not merged: the fold sees a gap of 0, keeps both bytes in sorted order and the image grows by one byte |
| MemoryMap.AssembleEndianness | src/payload.rs:114-124 | the little-endian image reverses each word of the big-endian one, and fails exactly when that image is not whole words |
| Words.ReverseEachWord | src/payload.rs:117-121 | reversing each word keeps the whole words and drops a trailing partial word |
| Words.ReverseEachWordAt | src/payload.rs:117-121 | byte j of word w becomes byte 3 - j of the same word |
| Words.ReverseEachWordAppend | src/payload.rs:117-121 | the word reversal works word by word over a concatenation |
| Words.ReverseEachWordInvolution | src/payload.rs:189-195 | reversing each word twice gives the bytes back, so `write_hex` undoes the little-endian read |
| Words.ReverseWords | src/payload.rs:156-158 | reversing the word order of a chunk keeps its whole words |
| Words.ReverseWordsAt | src/payload.rs:156-158 | word w of the result is word n - 1 - w of the chunk, byte order kept |
| Words.ReverseWordsAppend | src/payload.rs:156-158 | reversing the word order of a concatenation swaps and reverses the parts |
| Words.ReverseWordsInvolution | src/payload.rs:213 | reversing the word order twice gives the chunk back |
| Words.ReverseChunkWordsLength | src/payload.rs:155 | whole chunks are kept and a trailing partial chunk is dropped |
| Words.ReverseChunkWordsInvolution | src/payload.rs:155-159 | reversing the words in every chunk twice gives the bytes back |
| Words.ReverseChunkWordsAppend | src/payload.rs:155-159 | chunks are reordered independently of each other |
| Words.ReverseChunkWordsOne | src/payload.rs:155-159 | a single chunk is reordered by reversing its word order |
| Words.ReverseChunkWordsExtend | src/payload.rs:155-159 | one more chunk appends its reversed words to the result |
| Words.ReverseChunkWordsAt | src/payload.rs:155-159 | byte j of word w in chunk c comes from word n - 1 - w of the same chunk |
| Words.ReverseChunkWordsChunk | src/payload.rs:155-159 | each chunk of the result is the reversal of the matching input chunk |
| Words.ReverseChunkWordsIndex | src/payload.rs:155-159 | byte k of the result is the input byte at the mirrored index |
| Words.ReverseChunkWordsMirrors | src/payload.rs:153-159 | the reordered image has the same length, and every byte comes from the mirrored index within its chunk |
| Words.EncodedWords | src/payload.rs:206-210 | one eight-digit string per whole word, a trailing partial word dropped |
| Words.EncodedWordsAt | src/payload.rs:206-210 | string i is the hex encoding of word i |
| Words.EncodedWordsAppend | src/payload.rs:206-210 | the word strings of a concatenation are the concatenated word strings |
| VhxRead.HexDigitsOnly | src/payload.rs:138-140 | the filter keeps only hex digits |
| VhxRead.HexDigitsOnlyKeeps | src/payload.rs:138-140 | no hex digit is lost, and text of digits only passes unchanged |
| VhxRead.HexDigitsOnlyAppend | src/payload.rs:138-140 | filtering a concatenation is concatenating the filtered parts |
| VhxRead.ChunkBytes | src/payload.rs:144-146 | a chunk is at least one word and a whole number of words |
| VhxRead.VhxDecodeOnlyOddLength | src/payload.rs:135-142 | after the filter, the only possible decode error is odd length, and it happens exactly when an odd number of digits remains |
| VhxRead.VhxImageOutcome | src/payload.rs:135-151 | the reader succeeds exactly when the digits are even in number and their bytes fill whole chunks |
| VhxRead.VhxImageLayout | src/payload.rs:153-164 | the image keeps the given start address and length, and each byte is the decoded byte at the mirrored index in its chunk |
| VhxRead.ReverseChunks | src/payload.rs:153-159 | the nested loop computes the chunk-wise word reversal |
| VhxRead.FromVhx | src/payload.rs:132-165 | the reader computes the vhx image of its text |
| HexWrite.RecordLineDecodes | src/payload.rs:199 | a written line is `:` followed by twice as many digits as the record has bytes, and decodes back to the record |
| HexWrite.ExtendedAddressRecord | src/payload.rs:168-170 | the first record is an extended linear address record with two payload bytes holding bits 16 to 31 of the start address as a `u32` |
| HexWrite.ExtendedAddressLineRecord | src/payload.rs:168-178 | the first line is that record with a checksum that brings its sum to 0 |
| HexWrite.Group | src/payload.rs:182 | `chunks(16)`: each group is the next at most 16 bytes, and only the last may be shorter |
| HexWrite.WordPayload | src/payload.rs:189-195 | a group's payload keeps its whole words |
| HexWrite.WordPayloadExtend | src/payload.rs:189-195 | each whole word adds its four bytes, reversed in little-endian mode |
| HexWrite.WordPayloadWhole | src/payload.rs:189 | `chunks_exact` ignores a trailing partial word |
| HexWrite.GroupCount | src/payload.rs:182 | the number of groups is the least k with 16k at or above the image length |
| HexWrite.GroupExists | src/payload.rs:182 | group k exists exactly when 16k is below the image length |
| HexWrite.DataRecordLayout | src/payload.rs:183-197 | a data record holds the group length, the low 16 bits of the group's address, type 0, the word payload, and the checksum of all of these |
| HexWrite.DataRecordFields | src/payload.rs:183-197 | the same fields, with the record summing to 0 modulo 256 |
| HexWrite.PartialWordCountMismatch | src/payload.rs:184-195 | for a group with a partial word, the count field claims more bytes than the record carries |
| HexWrite.HexLinesShape | src/payload.rs:167-203 | the output is the address line, then one line per 16 bytes rounded up, then the end-of-file line |
| HexWrite.EndOfFileLineRecord | src/payload.rs:202 | the end-of-file line is a type-1 record with no data and a valid checksum |
| HexWrite.WriteHex | src/payload.rs:167-203 | the writer's loop produces the lines the model describes |
| HexWrite.WriteExtendedAddressLine | src/payload.rs:168-178 | the writer's first line is the address line |
| HexWrite.WriteDataLine | src/payload.rs:182-199 | the loop body writes data line k |
| HexWrite.WriteDataRecord | src/payload.rs:183-197 | building a record in a vector and pushing its checksum gives the data record |
| VhxWrite.WriteVhx | src/payload.rs:205-218 | the nested loop writes the vhx text of the image |
| VhxWrite.ChunkLinesStep | src/payload.rs:212-217 | each chunk becomes its words in reverse order, followed by a newline |
| VhxWrite.ConcatReversedEncoded | src/payload.rs:212-215 | joining a chunk's word strings in reverse is encoding the chunk with its word order reversed |
| VhxWrite.ChunkLinesEncoded | src/payload.rs:206-215 | the lines from word strings are the lines from the chunk bytes |
| VhxWrite.ChunkDigitsCount | src/payload.rs:212 | there is one line per whole chunk |
| VhxWrite.ChunkDigitsLines | src/payload.rs:212-215 | every line has eight lower-case digits per word of a chunk |
| VhxWrite.ChunkDigitsConcat | src/payload.rs:212-215 | the lines together are the encoding of the chunk-wise word-reversed image |
| VhxWrite.VhxLinesShape | src/payload.rs:205-218 | one line per whole chunk, of fixed width, spelling the chunk-wise word-reversed image |
| Render.RenderLines | src/payload.rs:233-240 | one output line per group of four whole words |
| Render.JoinWordsAt | src/payload.rs:237 | eight-character words joined with spaces stand at every ninth column |
| Render.LineAddress | src/payload.rs:234-239 | each line starts with the eight-digit address of its first word, truncated to 32 bits, followed by `": "` |
| Render.RenderLineAddress | src/payload.rs:234-239 | a line's first eight characters decode to its 32-bit address |
| Render.RenderLineWord | src/payload.rs:237-239 | word k of a line stands at column 10 + 9k |
| Render.WordInGroup | src/payload.rs:233 | word w is word w mod 4 of group w / 4 |
| Render.WordShown | src/payload.rs:225-244 | every whole word is shown, in order: word w is on line w / 4 at column 10 + 9 (w mod 4) |
| HexRoundTrip.HexImageOfHexLines | src/payload.rs:16-203 | reading back what `write_hex` writes, with the same endianness and any fill value, gives the same image, for images that fit one 64 KiB segment |
| HexRoundTrip.WordPayloadWritten | src/payload.rs:189-195 | a word-aligned group's payload is the matching slice of the written byte order |
| HexRoundTrip.RecordLineParses | src/payload.rs:28-47 | a written data or address line parses back to the record it carries |
| HexRoundTrip.ExtendedAddressStep | src/payload.rs:71-79 | the written address line sets the linear register to bits 16 to 31 of the start address |
| HexRoundTrip.DataLineStep | src/payload.rs:50-60 | data line k places the next group's bytes at consecutive addresses after the previous groups |
| HexRoundTrip.ScanDataLines | src/payload.rs:27-82 | scanning the data lines and the end-of-file line collects every written byte at its address |
| HexRoundTrip.AssemblePlaced | src/payload.rs:84-124 | bytes placed at consecutive addresses assemble back to the image |
| HexRoundTrip.PlacedDense | src/payload.rs:96-112 | consecutive addresses need no fill |
| RoundTrip.TextDigits | src/payload.rs:138-140 | the filter on the written vhx text removes exactly the newlines |
| RoundTrip.VhxRoundTrip | src/payload.rs:132-218 | reading back what `write_vhx` writes, with the same chunk size and start address, gives the same image when it is whole chunks |
| RoundTrip.VhxRoundTripTruncates | src/payload.rs:132-218 | in general the round trip gives the image cut down to its whole chunks |
| RoundTrip.VhxLinesWholeChunks | src/payload.rs:212 | a trailing partial chunk does not change what is written |
| RoundTrip.ChunkDigitsPrefix | src/payload.rs:212 | the lines come from the whole chunks alone |
| Args.LegalHexOrDecimal | src/main.rs:47-63 | the validator computes the hex-or-decimal value, through the shift loop |
| Args.ShiftInBytes | src/main.rs:52-56 | the shift-and-or loop computes the big-endian value of the bytes modulo 2^64 |
| Args.ShiftInByte | src/main.rs:54-55 | one step of the loop, a shift by 8 bits and an or with the byte, is `v * 256 + b` modulo 2^64 |
| Args.HexArgumentExact | src/main.rs:48-58 | with at most eight bytes of digits, a `0x` argument stands for their exact big-endian value |
| Args.BareHexPrefix | src/main.rs:48-58 | the bare argument `0x` is accepted as 0 |
| Args.MalformedHexArgument | src/main.rs:48-50 | a `0x` argument with an odd digit count or a non-digit is rejected with the hexadecimal message |
| Args.UpperCasePrefixRejected | src/main.rs:59-61 | a `0X` prefix is not recognised, and the argument is rejected as a number |
| Args.DecimalStringValue | src/main.rs:60 | a decimal numeral reads back as its value |
| Args.ParseDecimalString | src/main.rs:60 | a decimal numeral parses as a `usize` exactly when it is below 2^64 |
| Args.BigEndianValueOf32 | src/main.rs:52-56 | the four big-endian bytes of a value stand for it modulo 2^32 |
| Args.StartAddressHexArgument | src/main.rs:39-41 | `legal_u32` on `0x` followed by eight digits is the 32-bit value they spell |
| Args.HexArgumentOfBytes | src/main.rs:47-58 | any `0x` argument of at most eight bytes is their big-endian value |
| Args.DecimalArgumentTruncated | src/main.rs:39-45 | `legal_u8` and `legal_u32` truncate a decimal value to 8 and 32 bits |
| Args.ChunkSizeAccepted | src/main.rs:78-87 | a decimal chunk size is accepted exactly when it is 64 or 128, and is returned unchanged |
| Args.AcceptedChunkSizeUsable | src/main.rs:78-87 | an accepted chunk size is the parsed value of the argument and is 64 or 128: a whole number of 32-bit words, so `from_vhx` gets chunks of 8 or 16 bytes and cannot divide by zero |
| Args.FileTypeDispatches | src/main.rs:65-76 | a path is accepted exactly when `main` can dispatch on its extension, and is returned unchanged; no extension gives the no-extension message |

## Left out

- File I/O. `fs::read_to_string`, `File::create`, `writeln!` and their
  errors are not modelled. A reader takes the file's lines (hex) or its text
  (vhx). A writer returns its lines (hex) or its text (vhx). The file name
  in the error messages is dropped.
- `str::lines` is not modelled. The hex reader starts from the lines it
  yields.
- The `clap` command-line parser, `Cli` and the rest of `main`: default
  values, `Endianness` parsing, and printing when no output is given.
  The validators and the extension dispatch are modelled. `Path::extension`
  is passed in as an `Option`.
- UTF-8. A string is a sequence of characters. `&line[1..]` on a line whose
  first character is several bytes long would panic in Rust. The model
  drops that character instead.
- The `Formatter` and `std::fmt::Result`: `Render.RenderLines` gives the
  lines `fmt` writes, and write errors are not modelled.
- `usize` is taken as 64 bits. Addresses in `from_hex` stay below 2^33,
  so no `usize` arithmetic there can overflow, and addresses are natural
  numbers.
- VhxWrite.WriteVhx: requires a chunk size of at least 32 bits. A smaller
  one makes `chunks_exact(0)` panic in the source, and `legal_chunk_size`
  only lets 64 and 128 through (see `Args.AcceptedChunkSizeUsable`).
- VhxRead.FromVhx: requires a chunk size of at least 32 bits. A smaller one
  divides by zero in the source. `legal_chunk_size` only lets 64 and 128
  through (see `Args.AcceptedChunkSizeUsable`).
- HexRoundTrip.HexImageOfHexLines: holds only for a non-empty image of whole
  words, with a 32-bit start address, that does not cross a 64 KiB boundary.
  `write_hex` writes a single extended linear address record and 16-bit
  sub-addresses, so a larger image wraps its addresses when read back. An
  image with a partial word is written with a count that does not match the
  payload (`HexWrite.PartialWordCountMismatch`).
- RoundTrip.VhxRoundTrip: holds for images of whole chunks. For other
  images, `RoundTrip.VhxRoundTripTruncates` states what comes back.
- The error messages of `from_hex` and `from_vhx` are modelled as error
  values carrying the message's data, not as formatted strings. The
  validators in `Args` keep their exact messages.
