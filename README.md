# Kernelcache extraction: LZSS decoder and "complzss" container

This project models the core of a tool that extracts a compressed kernel
image. The image is a byte buffer that holds:

- a 24-byte big-endian `CompressionHeader` starting at the ASCII tag
  "complzss";
- an LZSS stream that starts one byte before the first 64-bit Mach-O magic
  `CF FA ED FE`.

The model has seven modules: a base module, three for src/lzss.rs (`Lzss`,
`LzssProperties`, `LzssHistory`) and three for src/lib.rs (`Search`,
`Header`, `Extract`):

- `Base` (`base.dfy`) defines bytes, the fixed-width unsigned integers, and
  `Option` and `Result`.
- `Lzss` (`lzss.dfy`) models `decode_block_content`. It has two parts:
  - A reference decoder over values. `Copy` is the back-reference copy loop.
    `Token` decodes one token once the flag register is settled. `Step` is
    one iteration of the `loop`. `Run` iterates until the loop breaks or a
    read fails. `Decode` is the whole call.
  - The decoder as src/lzss.rs writes it. `DecodeBlockContent` runs a
    `while` loop over a 4113-cell `array` ring, with the same breaks in the
    same places. It reads the input through a cursor and appends to the
    output. It is proved to return exactly what `Decode` describes: the
    count, the appended bytes and the number of bytes consumed.
- `LzssProperties` (`lzss_properties.dfy`) proves lemmas about `Decode` and
  its parts:
  - the budget and end-of-input behaviour;
  - the flag-register schedule;
  - overlapping back-references;
  - independence from bytes beyond the budget;
  - a literal-only round trip.
- `LzssHistory` (`lzss_history.dfy`) proves that between iterations the ring
  holds the output written so far: the cell `d` places behind the cursor is
  the byte `d` places from the end of the output, or a space. From this, a
  back-reference writes bytes that each repeat the output byte a fixed
  distance back. Two concrete streams are worked through: a literal followed
  by an overlapping back-reference, and an input exactly as long as the
  budget that still fails.
- `Search` (`search.dfy`) models `find_subsequence` and characterises it as
  the first occurrence.
- `Header` (`header.dfy`) models the big-endian `CompressionHeader` layout,
  with `Unpack`/`Pack` round trips.
- `Extract` (`extract.dfy`) models `extract_from_buf`. It is a result
  function `Extract` plus a method `ExtractFromBuf` that calls the imperative
  decoder. Lemmas cover each error path and the success case.

Notes on how the Rust code is read:

- The bitwise operations on the flag register and on the back-reference
  bytes act on non-negative values. They are written as the equivalent
  arithmetic:

  - `flags >>= 1` is `/ 2`;
  - testing `flags & 0x100` is `/ 0x100 % 2`;
  - OR-ing `0xff00` into a byte is `+ 0xff00`;
  - `& (N - 1)` is `% N`.

- The decoder's reader is an input sequence plus a cursor. Every successful
  `read_u8` is followed by `block_read += 1`, so the cursor is always
  `block_read`. Reading at the end of the input is the `UnexpectedEof`
  error.
- The writer is a `Vec<u8>`. It only ever grows and its writes never fail.
  When a read fails, the bytes already written stay in it, and the model
  keeps them too (`Decoded.written`).
- `extract_from_buf` at src/lib.rs:73 calls `lzss::lzss_decode_block_content`.
  The function defined at src/lzss.rs:6 is `decode_block_content`. The model
  treats them as the same function.
- `macho_loc - 1` at src/lib.rs:74 underflows when the Mach-O magic is at
  offset 0. In Rust that is a panic. The model makes it the distinct
  failure `MachOAtStart`.
- `find_subsequence` is only called with non-empty literal needles. Since
  `windows(0)` panics, the model requires a non-empty needle.

## Model

| member | source | states |
|---|---|---|
| Lzss.InitialState | src/lzss.rs:15-20 | The loop starts with every ring cell holding 0x20, the cursor at N - F = 4078, nothing read and nothing written; the state satisfies the loop invariant `Valid`. |
| Lzss.MatchOffset | src/lzss.rs:53 | The offset of a back-reference `i, j` is below 4096; its low byte is `i` and its high nibble is the high nibble of `j`. |
| Lzss.MatchLength | src/lzss.rs:54-56 | A back-reference copies `(j & 0xf) + 3` bytes, always between 3 and 18. |
| Lzss.Copy | src/lzss.rs:56-64 | The copy loop keeps the cursor below 4096 and the cells past 4096 untouched, leaves the flags and the bytes read alone, and appends exactly one byte per remaining iteration, only appending. |
| Lzss.Token | src/lzss.rs:38-78 | One token keeps the invariant and only appends output. A token that continues read at least one byte and stayed within the budget. A break leaves the read count at the budget or one past it, and one past it only by emitting that byte as a literal. An end-of-input failure has consumed all of an input no longer than the budget and wrote nothing for the token; an input exactly as long as the budget can fail this way, at a literal read. |
| Lzss.Step | src/lzss.rs:22-78 | The same guarantees for a whole iteration, including the flag-byte read. |
| Lzss.Run | src/lzss.rs:22-79 | The loop always ends by a break or a failed read; it keeps the invariant, only appends, and reads at most one byte past the budget; an overshoot ends with the emitted literal `inp[block_size]`; a failure has read all of an input no longer than the budget. |
| Lzss.Decode | src/lzss.rs:6-82 | A successful call returns the number of bytes it wrote. |
| Lzss.CopyMatch | src/lzss.rs:56-64 | The in-place copy loop over the ring array leaves the ring, the cursor and the output exactly as `Copy` describes, and counts `len` bytes written. |
| Lzss.DecodeToken | src/lzss.rs:38-78 | The in-place token decoding leaves the ring array, cursor, read count and output as `Token` describes, and reports its break or read failure as `Token` does. |
| Lzss.DecodeBlockContent | src/lzss.rs:6-82 | The imperative decoder returns `Decode`'s result, appends exactly `Decode`'s bytes to `out`, and consumes exactly `Decode`'s count of input bytes; a success count equals the number of bytes appended. |
| LzssProperties.ZeroBudget | src/lzss.rs:22-27 | With a zero budget the decoder reads nothing, writes nothing and returns 0. |
| LzssProperties.Budget | src/lzss.rs:22-81 | The decoder consumes at most block_size + 1 bytes and never more than the input. A success stops at the budget or one past it; one past it means the last byte written is `inp[block_size]`. A failure consumed all of an input no longer than the budget. Input shorter than the budget always fails and input longer never does; input exactly as long as the budget can fail (see `LzssHistory.ExactBudgetCanFail`). |
| LzssProperties.OvershootStartsAtBudget | src/lzss.rs:66-74 | An iteration that reads past the budget started exactly at it, with flag bits left and a literal bit next. |
| LzssProperties.ReachingBudgetIsBackReference | src/lzss.rs:38-78 | An iteration that reaches the budget without breaking decoded a back-reference of at least three bytes. |
| LzssProperties.BreakEmitsAtMostTheLiteral | src/lzss.rs:28-74 | An iteration that breaks writes nothing, or only the literal whose read ended it. |
| LzssProperties.FlagByteAtBudget | src/lzss.rs:28-33 | A flag byte read with one byte of budget left is consumed; the loop then breaks with no refill and no output. |
| LzssProperties.OffsetByteAtBudget | src/lzss.rs:43-48 | The first byte of a back-reference read with one byte of budget left is consumed; the loop then breaks with nothing written. |
| LzssProperties.AtBudget | src/lzss.rs:23-74 | With the budget used up, reads are refused before a flag byte and before a back-reference; only a pending literal is still read, and written out, or its read fails at the end of the input. |
| LzssProperties.LiteralStored | src/lzss.rs:66-77 | A literal is always written out. It is stored at the cursor, which advances modulo 4096, exactly when the budget is not reached after it; otherwise the ring and cursor are unchanged and the loop breaks. |
| LzssProperties.StepWithoutRefill | src/lzss.rs:23-38 | Unfolding helper for `Step`: with flag bits left, an iteration shifts the register and decodes one token. |
| LzssProperties.StepWithRefill | src/lzss.rs:23-38 | Unfolding helper for `Step`: with the register exhausted and budget to spare, an iteration reads a flag byte, loads `b` OR `0xff00` and decodes one token. |
| LzssProperties.TokenBackReference | src/lzss.rs:43-64 | Unfolding helper for `Token`: a back-reference whose two bytes are within the budget and the input copies MatchLength(j) bytes from MatchOffset(i, j) after consuming both bytes. |
| LzssProperties.TokenLiteral | src/lzss.rs:65-77 | Unfolding helper for `Token`: a literal read with budget left after it is written out, stored at the cursor, and the cursor advances modulo 4096; the loop goes on. |
| LzssProperties.RunUnfold | src/lzss.rs:22-79 | Unfolding helper for `Run`: the loop runs one iteration, then goes on exactly when that iteration did not break or fail. |
| LzssProperties.StepOnPrefix | src/lzss.rs:22-78 | On a prefix of the input, an iteration runs out of input or does exactly what it does on the whole input. |
| LzssProperties.RunOnPrefix | src/lzss.rs:22-79 | The same for the rest of the loop; the output on a prefix is a prefix of the output on the whole input. |
| LzssProperties.Truncated | src/lzss.rs:6-82 | Decoding a truncated input writes a prefix of what the whole input decodes to, and a successful decoding of it is the whole input's decoding. |
| LzssProperties.IgnoresInputBeyondBudget | src/lzss.rs:6-82 | Two inputs that agree on their first block_size + 1 bytes decode identically. |
| LzssProperties.ShiftedRefill | src/lzss.rs:23-35 | After `m` shifts of `b` OR `0xff00`, the register is `b >> m` plus the sentinel `0xff00 >> m`, and `b >> m` is below `0x100 >> m`. |
| LzssProperties.FlagByteSchedule | src/lzss.rs:23-38 | A refilled flag byte `b` serves eight tokens. After 1 to 7 shifts no new flag byte is read, and the token kind is bit `m` of `b` (set means literal). After the eighth shift a new flag byte is read. |
| LzssProperties.SentinelBits | src/lzss.rs:23-38 | Below eight shifts the sentinel keeps bit 8 set, and the token bit is the flag byte's own bit; after eight shifts bit 8 is clear. |
| LzssProperties.AllOnesShifted | src/lzss.rs:23-35 | The flag byte 0xff shifted `k` times is `(0x100 >> k) - 1`: every remaining flag bit says literal. |
| LzssProperties.FirstIterationReadsFlags | src/lzss.rs:17-24 | The first iteration reads a flag byte. |
| LzssProperties.OverlappingCopyRepeats | src/lzss.rs:56-64 | A back-reference whose source starts one cell behind the cursor repeats that one byte for its whole length, because the copy re-reads what it has just stored. |
| LzssProperties.CopyFromUniformRing | src/lzss.rs:56-64 | A copy out of a ring whose cells all hold one value writes only that value and keeps the ring uniform. |
| LzssProperties.FirstBackReferenceIsPadding | src/lzss.rs:15-64 | When the first token is a back-reference, it decodes to MatchLength(j) spaces whatever its offset: offsets into history never written are not rejected. |
| LzssProperties.LiteralToken | src/lzss.rs:66-77 | Within a literal-only stream, a literal token writes the next data byte and continues, or breaks on the last byte. |
| LzssProperties.LiteralGroupStart | src/lzss.rs:23-77 | In a literal-only stream, an iteration that starts a group reads the all-ones flag byte and then the group's first literal. |
| LzssProperties.LiteralMidGroup | src/lzss.rs:23-77 | In a literal-only stream, an iteration inside a group takes the next flag bit and decodes the next literal. |
| LzssProperties.LiteralIteration | src/lzss.rs:22-79 | In a literal-only stream, one loop iteration emits the next data byte; the loop then ends with the last byte, or goes on one literal further. |
| LzssProperties.RunLiterals | src/lzss.rs:22-79 | From any point of a literal-only stream, the loop writes the rest of the data and stops at the end of the input. |
| LzssProperties.LiteralRoundTrip | src/lzss.rs:6-82 | Data encoded as literals only, in groups of eight behind a 0xff flag byte and decoded with the encoding's length as budget, comes back unchanged; the count is the data's length and the whole encoding is consumed. |
| LzssHistory.Distance | src/lzss.rs:53-57 | How far a ring offset lies behind the cursor: between 1 and 4096, and the offset plus it is the cursor modulo 4096. |
| LzssHistory.InitialHistory | src/lzss.rs:15-20 | The all-0x20 ring is the history of an empty output: every cell behind the cursor reads as a space. |
| LzssHistory.StoreHistory | src/lzss.rs:62-63 | Storing a written byte at the cursor and advancing the cursor modulo 4096 keeps the 4096 cells behind it equal to the last 4096 output bytes. |
| LzssHistory.TokenContinues | src/lzss.rs:38-78 | A token lets the loop go on only when its bytes are in the input and the budget is not reached after them: one byte for a literal, two for a back-reference. |
| LzssHistory.StepContinues | src/lzss.rs:23-36 | An iteration that reads a flag byte lets the loop go on only when the flag byte is in the input and at least two bytes of budget are left at its start. |
| LzssHistory.LiteralHistory | src/lzss.rs:65-77 | A literal with budget left after it extends the output by that byte and keeps the ring the output's history. |
| LzssHistory.CopyBack | src/lzss.rs:56-64 | A whole copy of `len` bytes from a ring offset writes exactly `len` bytes, each repeating the output byte the offset's distance behind the cursor, and keeps the history. |
| LzssHistory.CopyHistory | src/lzss.rs:56-64 | The copy loop of a back-reference keeps the ring the output's history. |
| LzssHistory.CopyReproduces | src/lzss.rs:56-64 | A copy from `d` cells behind the cursor writes, byte by byte, the output byte `d` places back, counting bytes this copy already wrote, so an overlapping source repeats a pattern. |
| LzssHistory.TokenHistory | src/lzss.rs:38-78 | A token after which the loop goes on keeps the ring the output's history; the literal stored at src/lzss.rs:76 is the byte just written. |
| LzssHistory.StepHistory | src/lzss.rs:22-78 | An iteration after which the loop goes on keeps the ring the output's history. |
| LzssHistory.Reached | src/lzss.rs:22-79 | The state at the loop head after `n` iterations, when the loop runs that long; it keeps the invariant and extends the output. |
| LzssHistory.RunHistory | src/lzss.rs:22-79 | From a state whose ring is the output's history, every later loop head has it too. |
| LzssHistory.DecodeHistory | src/lzss.rs:15-79 | At every loop head the decoder reaches, the ring holds the output written so far, spaces before its start. |
| LzssHistory.BackReferenceCopiesBack | src/lzss.rs:43-64 | At such a loop state, a back-reference with both bytes inside the budget writes MatchLength(j) bytes, each equal to the output byte Distance(r, offset) places before it, and keeps the history. |
| LzssHistory.MixedStream | src/lzss.rs:22-81 | The stream 01 41 EE F0 with budget 4 (a literal 'A', then a back-reference one cell behind the cursor of length 3) decodes to "AAAA", returns 4 and consumes all 4 bytes. |
| LzssHistory.MixedFirst | src/lzss.rs:23-36 | First iteration of that stream: the flag byte 0x01 is read and the literal 'A' is written and stored at the cursor. |
| LzssHistory.MixedSecond | src/lzss.rs:43-64 | Second iteration: `EE F0` copies three bytes from the cell just behind the cursor, so the output becomes "AAAA", consuming all 4 bytes. |
| LzssHistory.MixedThird | src/lzss.rs:38-41 | Third iteration: the next flag bit is clear and the budget is spent, so the loop breaks with nothing more written. |
| LzssHistory.ExactBudgetCanFail | src/lzss.rs:66-67 | The stream 05 41 EE F0 with budget 4 fails with the end-of-input error although it is exactly as long as the budget: the literal after the back-reference is read without a budget check. |
| LzssHistory.ExactFirst | src/lzss.rs:23-36 | First iteration of that stream: the flag byte 0x05 is read, then the literal 'A'. |
| LzssHistory.ExactSecond | src/lzss.rs:43-51 | Second iteration: `EE F0` is a back-reference, read with the budget checked after the first byte only, leaving 4 bytes read. |
| LzssHistory.ExactThird | src/lzss.rs:65-67 | Third iteration: the flag bit is set and the literal read finds no input, which is the end-of-input error. |
| Search.FindSubsequence | src/lib.rs:35-42 | The result is `Some` exactly when the needle occurs, including `None` when it is longer than the haystack; `Some(p)` is an occurrence and no earlier index is one. |
| Search.FindFrom | src/lib.rs:39-41 | Trying windows from index `i` on finds the first occurrence at or after `i`, or reports that none exists. |
| Header.BeValueOfBytes | src/lib.rs:18-26 | Reading back the big-endian encoding of a value gives the value. |
| Header.BeBytesOfValue | src/lib.rs:18-26 | Encoding the big-endian value of a byte string gives the string back. |
| Header.Unpack | src/lib.rs:18-26 | The tag is bytes 0..8, `unknown` bytes 8..12, `uncompressed_size` bytes 12..16, `compressed_size` bytes 16..20 and `unknown1` bytes 20..24, each read big-endian. |
| Header.Pack | src/lib.rs:18-26 | A packed header is 24 bytes long. |
| Header.UnpackPack | src/lib.rs:18-26 | Unpacking a packed header gives it back. |
| Header.PackUnpack | src/lib.rs:18-26 | Every 24 bytes are the packing of the header they unpack to. |
| Header.TagOfComplzss | src/lib.rs:59-61 | A header that starts with "complzss" has the tag value 0x636f6d706c7a7373. |
| Extract.Validate | src/lib.rs:78-91 | After decoding, the result is `Ok` exactly when the decoder returned the declared uncompressed size, and then it is the decoded bytes; a decoder error is wrapped unchanged, and any other count is a size mismatch. |
| Extract.Extract | src/lib.rs:44-104 | The functional model of `extract_from_buf`: an error found before decoding is returned as is, and a success has exactly the declared uncompressed size. |
| Extract.ExtractFromBuf | src/lib.rs:44-104 | The method, which calls the imperative decoder, returns exactly `Extract(buf)`. |
| Extract.NoCompMagicIff | src/lib.rs:98-103 | The missing-magic error occurs exactly when "complzss" occurs nowhere in the buffer. |
| Extract.TooSmallIff | src/lib.rs:53-58 | With "complzss" first at `p`, the too-small error occurs exactly when fewer than 24 bytes start at `p`. |
| Extract.FirstOccurrenceUnique | src/lib.rs:35-42 | The first occurrence is unique, and `find_subsequence` returns it. |
| Extract.MachOSearch | src/lib.rs:69-97 | With a complete header, the no-Mach-O error occurs exactly when the magic occurs nowhere. The underflow case occurs exactly when the magic is at offset 0, because the search starts at 0, not after the header. |
| Extract.Locate | src/lib.rs:45-74 | The checks before decoding succeed only with a Mach-O position past offset 0, so the decoder's start `macho_loc - 1` exists. |
| Extract.LocateFound | src/lib.rs:45-74 | With "complzss" first at `p` and room for the header, and the Mach-O magic first at `m > 0`, the checks pass with the header unpacked from `buf[p..p+24]` and start position `m`. |
| Extract.LocateSound | src/lib.rs:45-74 | Conversely, passing the checks means both magics were found, the header fits and the Mach-O magic is past offset 0. |
| Extract.HeaderSizes | src/lib.rs:59-61 | The header copied out of the buffer gives `uncompressed_size` from buffer bytes p+12..p+16 and `compressed_size` from p+16..p+20, big-endian. |
| Extract.DecodeStep | src/lib.rs:73-91 | The decoder runs on the buffer from one byte before the first Mach-O magic, with header bytes 16..20 as the budget. A decoder error is passed through. A count other than header bytes 12..16 is a size mismatch. Otherwise the result is exactly the decoded bytes. |
| Extract.Success | src/lib.rs:59-86 | A success found both magics, the Mach-O magic past offset 0, and a complete header tagged "complzss". Its result has exactly the declared uncompressed size and is the decoder's output. |

## Left out

- `extract_from_file` (src/lib.rs:28-33) and the command-line program in src/bin: file and console I/O.
- The `println!` progress messages and `ByteSize` formatting (src/lib.rs:62-67, 70): they do not affect any result.
- The `mem::size_of` check and its panic (src/lib.rs:46-52): the header layout is fixed, so its size is the constant 24.
- The internals of the `packed_struct` and `byteorder` crates: only their big-endian byte layout is modelled. `unpack` on exactly 24 bytes cannot fail, so its `unwrap` is not modelled.
- `Vec::with_capacity` (src/lib.rs:71-72): it is only an allocation hint.
- The `std::io::Error` values: errors are a datatype with one constructor per message. The decoder's EOF error is `UnexpectedEof`, and `extract_from_buf` wraps it as `DecodeFailed`.
- Write errors from `out.write_u8(b)?` (src/lzss.rs:59, 69): the writer is a `Vec<u8>`, which never fails.
- Lzss.DecodeBlockContent: `block_read` and `block_written` are `u64` counters, modelled as unbounded naturals. They cannot overflow for any input that fits in memory.
- Lzss.DecodeBlockContent: the `dyn Read`/`dyn Write` trait objects are a byte sequence with a cursor and an appended sequence. The input buffer is a read-only sequence, so the `&mut Vec<u8>` parameter of `extract_from_buf` is never modified.
- Lzss.DecodeBlockContent: the loop body's token decoding and copy loop are the separate methods `DecodeToken` and `CopyMatch`. Each still works in place on the same ring array.
- Extract.ExtractFromBuf: the `macho_loc - 1` underflow panic is the error value `MachOAtStart`, not an abort.
- A round trip through an LZSS encoder with back-references: no encoder is part of the code modelled. What a back-reference decodes to is stated per token (`LzssHistory.BackReferenceCopiesBack`) and worked through on a concrete mixed stream; the round trip is proved for literal-only encodings (`LzssProperties.LiteralRoundTrip`).
- Block-format (`bvx2`) decompression, the kpp/`__IMAGEEND` secondary payload and Mach-O symbol counting: they are not part of the extraction path modelled here.
