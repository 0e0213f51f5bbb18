# hash-proto fingerprint core in Dafny

This project models the checksum at the heart of the `hash` command-line tool. The tool prints a
64-character fingerprint for every file it is given.

- **The accumulator** (`struct Hash`) holds eight 32-bit lanes that wrap around. It starts from a
  fixed seed. `transform` adds a block of eight words to it lane by lane, modulo 2^32.
  `to_string` writes each lane as eight lower-case hex digits, in index order.
- **The file loop** (`plop_file`) reuses one 32-byte buffer and never clears it. On every
  non-empty read it decodes the whole buffer as eight little-endian words and folds them into
  the accumulator. The first read that returns no bytes ends the loop, and the accumulator is
  then rendered.

The project has five modules:

- `Words` (`words.dfy`): bytes, 32-bit words, wrapping addition, and the little-endian
  conversion between a 32-byte block and eight words, with its inverse.
- `Hex` (`hex.dfy`): the `{:08x}` rendering, and a parser that inverts it. The parser exists
  only to state that the rendering loses nothing.
- `Accumulator` (`accumulator.dfy`): `Hash` as a class with a `hash` field updated in place.
  - `Hash::new`, `conv`, `add` and `to_string` keep their index loops.
  - A ghost history `Folded` records every block added so far.
  - `Valid()` ties the lanes to `FoldBlocks(Seed, Folded)`.
  - Lemmas about `FoldBlocks` give the per-lane closed form and show that the order of blocks
    does not matter.
- `FileFingerprint` (`fingerprint.dfy`): the `plop_file` loop as a method over an `array<U8>`
  buffer.
  - The file is represented by the sequence of chunks its successive reads deliver. Each chunk
    is 0 to 32 bytes.
  - The `Fingerprint` function is the specification the loop is proved against.
  - Lemmas characterise the stale-buffer behaviour and the empty file.
- `Permutations` (`seqs.dfy`): removing one element from a sequence, and splitting a
  permutation at its last element. Both inductions over reordered blocks use it.

The stale-buffer behaviour is reproduced as the code has it. After a read of n < 32 bytes,
buffer bytes n..31 still hold what earlier reads left there, and they are folded too.
`ShortReadKeepsStaleBytes` and `BufferLastWriter` state this exactly. The model covers short
reads anywhere in the file, not only at its end: `Read::read` may return fewer bytes than
asked at any point.

## Model

| member | source | states |
|---|---|---|
| Words.WrapAdd | src/main.rs:52 | `Wrapping<u32>` addition: the result is (a + b) mod 2^32, which is either a + b or a + b - 2^32 |
| Words.DecodeLittleEndian | src/main.rs:145-153 | the base-256 digits of word i, lowest first, are buffer bytes 4i, 4i+1, 4i+2 and 4i+3 (`u32::from_le_bytes`) |
| Words.WordBytesRoundTrip | src/main.rs:147-152 | writing a decoded word back as little-endian bytes gives the four bytes it came from |
| Words.BytesWordRoundTrip | src/main.rs:147-152 | decoding the little-endian bytes of a word gives the word back |
| Words.EncodeDecode | src/main.rs:145-153 | re-encoding a decoded 32-byte block gives back the block |
| Words.DecodeEncode | src/main.rs:145-153 | decoding the encoding of eight words gives back the words |
| Words.DecodeInjective | src/main.rs:145-153 | two different buffers never decode to the same eight words |
| Hex.DigitValue | src/main.rs:62 | a character has a digit value iff it is one of 0-9a-f, and that value's digit is the character |
| Hex.DigitRoundTrip | src/main.rs:62 | the lower-case digit of d < 16 reads back as d |
| Hex.ParseHexDigits | src/main.rs:62 | parsing the n lowest hex digits of v gives v mod 16^n |
| Hex.HexDigitsParse | src/main.rs:62 | a digit string that parses re-renders to itself at its own width, so zero padding is kept |
| Hex.Hex8Parse | src/main.rs:62 | `{:08x}` of a 32-bit word has 8 characters and parses back to the word |
| Hex.Hex8Digits | src/main.rs:62 | `{:08x}` writes a word's eight hex digits, most significant first |
| Hex.RenderShape | src/main.rs:59-65 | rendering n words gives 8n lower-case hex characters, and characters 8i..8i+8 are word i padded to eight digits |
| Hex.FingerprintShape | src/main.rs:59-65 | `to_string` of the eight lanes is 64 characters from 0-9a-f, and characters 8i..8i+8 are lane i |
| Hex.ParseGroupsRender | src/main.rs:59-65 | splitting a rendering into 8-digit groups and parsing them gives back the words |
| Hex.RenderParseGroups | src/main.rs:59-65 | a string that splits into parsable 8-digit groups is the rendering of those words |
| Hex.ParseRender | src/main.rs:59-65 | parsing a fingerprint gives back the lanes it was rendered from |
| Hex.RenderParse | src/main.rs:59-65 | a string that parses as a fingerprint is 64 lower-case hex characters and is the rendering of what it parses to |
| Hex.RenderInjective | src/main.rs:59-65 | two different accumulator states never render to the same fingerprint |
| Accumulator.Hash.constructor | src/main.rs:19-36 | the lanes are the eight seed words in their listed order, and no block has been folded |
| Accumulator.Conv | src/main.rs:39-45 | `conv` converts the words to lanes unchanged, index by index |
| Accumulator.Add | src/main.rs:46-55 | `add` returns the lane-wise wrapping sum of its two arguments |
| Accumulator.Hash.Transform | src/main.rs:37-58 | the new lanes are the block added to the old lanes lane by lane, the block is appended to the history, and the lanes remain the seed with the whole history folded in |
| Accumulator.Hash.ToString | src/main.rs:59-65 | the result is the lanes rendered `{:08x}` in index order, 64 characters long |
| Accumulator.TransformLane | src/main.rs:52-57 | lane i after `transform` is (old lane i + word i) mod 2^32 and depends on no other lane of the old state |
| Accumulator.TransformCommutes | src/main.rs:37-58 | transforming with a then b gives the same state as b then a |
| Accumulator.FoldBlocksLane | src/main.rs:37-58 | after folding any sequence of blocks, lane i is (seed lane i + the sum of the blocks' word i) mod 2^32 |
| Accumulator.LaneTotalPermutation | src/main.rs:51-53 | a lane's total over the blocks depends only on which blocks were folded, not on their order |
| Accumulator.FoldBlocksPermutation | src/main.rs:37-58 | folding any permutation of the same blocks gives the same state |
| Accumulator.SeedRendering | src/main.rs:22-25 | the seed renders to e3b0c442 98fc1c14 9afbf4c8 996fb924 27ae41e4 649b934c a495991b 7852b855, concatenated |
| FileFingerprint.OverwriteSplice | src/main.rs:141-143 | the buffer after a read is the read's bytes followed by the old buffer from the read's length on |
| FileFingerprint.ReadInto | src/main.rs:141-143 | `read` returns the chunk's length, and the buffer becomes the chunk followed by the old bytes past it |
| FileFingerprint.DecodeBlock | src/main.rs:145-153 | the decoding loop returns the little-endian decoding of the whole 32-byte buffer |
| FileFingerprint.LeadingNonEmpty | src/main.rs:140-158 | the number of reads the loop consumes: every one of them is non-empty, and the next one, if any, is empty |
| FileFingerprint.PlopFile | src/main.rs:138-159 | `transform` is called once per leading non-empty read, with the decoded buffer after that read, in order, and the printed fingerprint is the seed with those blocks folded in, rendered |
| FileFingerprint.EmptyFileFingerprint | src/main.rs:138-159 | when the first read is empty, no block is folded and the fingerprint is the rendered seed |
| FileFingerprint.BlockIsBuffer | src/main.rs:139-154 | the k-th block handed to `transform` is the decoding of the buffer as it stands after the k-th read |
| FileFingerprint.BlockBytes | src/main.rs:139-154 | re-encoding the k-th block gives exactly the buffer bytes after the k-th read |
| FileFingerprint.FirstReadBlock | src/main.rs:139-154 | the first block is the zeroed buffer with the first read's bytes written over its front |
| FileFingerprint.ShortReadKeepsStaleBytes | src/main.rs:139-154 | block k+1 is the bytes of block k with read k+1 written over the front, because nothing clears the buffer between reads, so bytes past a short read are stale and are folded again |
| FileFingerprint.BufferLastWriter | src/main.rs:139-143 | each buffer byte is that of the latest read long enough to reach it, or 0 when no read has reached it |
| FileFingerprint.FullReadsBlocks | src/main.rs:139-154 | when every read is a full 32 bytes, each block is exactly the decoding of its own read |
| FileFingerprint.ReorderFullBlocks | src/main.rs:140-154 | a file read in full 32-byte blocks has the same fingerprint whatever order those blocks come in |

## Left out

- `main`, `help`, `plop`, `plop_path` and `plop_dir` are not modelled. They cover argument
  handling, usage text, thread fan-out and join, directory traversal and the access-denied
  message. All of these are I/O and concurrency around the checksum.
- `File::open`, `BufReader` and `Read::read` are not modelled as I/O. Each read is the next
  chunk of 0..32 bytes from a given sequence, and a read past the end of that sequence returns
  no bytes, as at end of file. Read errors and the `expect` panics on them are out of scope: the
  model assumes every read succeeds.
- A reader that never returns 0 bytes, such as a character device like `/dev/zero` that
  `plop_path` hands to `plop_file`, makes the loop run forever. Such input is outside the
  model: the reads are a finite sequence, so `PlopFile` always terminates.
- `println!` in `plop_file`: `PlopFile` returns the fingerprint instead of printing it next to
  the path.
- `Wrapping<u32>` is not a separate type. Lanes are integers in 0..2^32, and the wrap-around is
  written out in `WrapAdd`.
- Rust arrays passed and returned by value (`[u32; 8]`, `[Wrapping<u32>; 8]`) are sequences in
  the model. Locals filled index by index (the lanes in `Hash::new`, the results of `conv` and
  `add`, and `data` in `plop_file`) are arrays, copied out as sequences at the end.
- The `Hex` parser has no counterpart in the source. It exists only to state that `to_string`
  can be inverted, and therefore that it is injective.
