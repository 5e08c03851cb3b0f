# gift: a Dafny model of a nom-based GIF metadata parser

This project models the parsing core of `gift`, a Rust GIF parser built on
`nom` 4 parser combinators. Every parser is a pure function. It maps a byte
slice either to a decoded value and the unconsumed remainder, or to a failure.
The model covers these parts of the GIF89a specification:

- data sub-block chains (sections 15 and 16);
- the graphic control extension (section 23);
- the image descriptor (section 20) and image data (section 22);
- the plain text (25), application (26) and comment (24) extensions;
- the block dispatcher `block`;
- colour-table sizing (sections 18, 19 and 21);
- the logical screen header (sections 17 and 18): signature, version, screen
  size, packed field and global colour table.

Modules, one per source concept:

- `Nom`: the combinator semantics the parsers rely on, stated as assumptions
  because `nom`'s own source is not part of this model:
  - a result is `Done(value, rest)`, `Error(at, kind)` or `Incomplete(needed)`;
  - `tag!` gives `Error` on a differing byte and `Incomplete` on a proper prefix
    of the tag;
  - `take!(n)`, `le_u8` and `le_u16` give `Incomplete(n)`, `Incomplete(1)` and
    `Incomplete(2)` on short input;
  - `opt!` turns an `Error` into `None` and keeps an `Incomplete`;
  - `alt!` tries the next alternative, on the original input, only after an
    `Error`, and gives `Error(input, Alt)` when all of them fail that way;
  - `do_parse!` is Dafny's `:-` over this result type.

  Bytes are integers in `0..255`; `u16` values are integers in `0..65535`.
- `Gift`: the decoded records (`GIF`, `GIFVersion`, the blocks). Borrowed
  slices become the byte sequences they view.
- `Subblocks`: `non_empty_subblock` and `data_subblocks` (src/parser/subblocks.rs),
  with a reference definition of a complete chain, `IsChain`, and a chain
  encoder.
- `ColorTable`: the `cond!(p & 0x80 != 0, take!(3 * (1 << ((p & 7) + 1))))`
  colour table shared by the header and the graphic block.
- `Blocks`: the block parsers of src/parser/blocks.rs. Lines 23-114 of
  src/parser/mod.rs are the same text as blocks.rs lines 7-98, so the one
  model covers both.
- `BlockEncoding`: the block layout written as encoders, and the theorem that
  `block` succeeds exactly on an encoded well-formed block. It also shows that
  the four alternatives exclude one another.
- `Parser`: `get_version`, `version`, `gif` and `parse_gif` of src/parser/mod.rs.
- `ParserSnapshot`: the older src/parser.rs. Its `gif` reads the single bytes
  with `take!(1)`; it is proved equal to `Parser`'s on every input.
- `HeaderSnapshot`: the older src/parser/header.rs, with its own `Version`
  enumeration. It is proved equal to `Parser`'s `version` up to renaming the
  enumeration.
- `SubblocksAsWritten`: src/parser/subblocks.rs exactly as written, including
  its two defects (see Findings).

`gif` stops after the header. The source has no loop over blocks, and the model
adds none.

## Model

| member | source | states |
|---|---|---|
| Nom.TagBytes | src/parser/blocks.rs:9 | `tag!` succeeds exactly when the input starts with the tag, and consumes it; it asks for the whole tag on a proper prefix; otherwise `Error(input, Tag)` |
| Nom.Take | src/parser/subblocks.rs:12 | `take!(n)`: the first `n` bytes and the rest when at least `n` remain, `Incomplete(n)` otherwise; never `Error` |
| Nom.LeU8 | src/parser/subblocks.rs:10 | `le_u8`: the first byte and the rest, `Incomplete(1)` on empty input; never `Error` |
| Nom.LeU16 | src/parser/blocks.rs:12 | two bytes, low byte first; `Incomplete(2)` on shorter input, never `Error` |
| Nom.Opt | src/parser/blocks.rs:55 | `opt!`: a success becomes `Some`, an `Error` becomes `None` on the untouched input, `Incomplete` is kept |
| Nom.OrElse | src/parser/blocks.rs:100 | one step of `alt!`: the next alternative is consulted only after an `Error`; a success or an `Incomplete` of the earlier one is final |
| Nom.AltChoice | src/parser/blocks.rs:100 | `alt!`: `Error(input, Alt)` exactly when every alternative fails with `Error`; otherwise the result, success or `Incomplete`, is the first alternative that does not fail with `Error` |
| Nom.AltChoiceReordered | src/parser/blocks.rs:100 | for alternatives that exclude one another, any rearrangement gives the same success or `Error` |
| Nom.BitOperations | src/parser/blocks.rs:59-60 | the model's bit-7 test and low-three-bits value are the source's `& 0x80 != 0` and `& 0b111` on the byte |
| Subblocks.ParseNonEmptySubblock | src/parser/subblocks.rs:9-15 | a zero length byte is `Error(input, Custom(0))`, not `Incomplete`; for `n > 0` with `n + 1` bytes present, exactly the first `n + 1` bytes, length byte included, and the rest untouched; otherwise `Incomplete(n + 1)` (`Incomplete(1)` on empty input) |
| Subblocks.NonEmptySubblockExamples | src/parser/subblocks.rs:35-51 | the four unit-test vectors of `non_empty_subblock`, with their exact results |
| Subblocks.ScanChain | src/parser/subblocks.rs:18-22 | the scan loop ends at an offset within the input where no non-empty chunk starts; that offset is the sum of the chunk sizes stepped over (`SkipChunks`) |
| Subblocks.SkipFromIsSkipChunks | src/parser/subblocks.rs:18-22 | the loop started at offset `i`, stepping `i += n + 1` while a chunk can be taken, stops at `i` plus the chunk bytes of the input from `i` |
| Subblocks.ParseDataSubblocks | src/parser/subblocks.rs:17-29 | never `Incomplete`; on success the span is a non-empty prefix of the input ending in 0, and the remainder is everything after it; every failure is `Error(input, Custom(0))` |
| Subblocks.DataSubblocksAcceptsChains | src/parser/subblocks.rs:17-29 | `data_subblocks` returns span `p` and remainder `r` exactly when `p` is a complete chain (reference definition `IsChain`) and the input is `p + r` |
| Subblocks.SkipChunksOfChain | src/parser/subblocks.rs:18-22 | on a complete chain followed by anything, the loop index lands on the chain's terminating 0 |
| Subblocks.ScanEndsOnChain | src/parser/subblocks.rs:20-26 | where the loop stops on a 0, the bytes up to it form a complete chain: the index only ever sits on chunk boundaries |
| Subblocks.EncodeChainIsChain | src/parser/subblocks.rs:18-26 | chunks of lengths L1..Lk encode to a complete chain of ΣLi + k + 1 bytes |
| Subblocks.ChainRoundTrip | src/parser/subblocks.rs:17-29 | encoding chunks of 1..255 bytes and scanning the result consumes exactly ΣLi + k + 1 bytes, returns the encoding as the span and leaves what followed |
| Subblocks.Chunks | src/parser/subblocks.rs:17-29 | every complete chain is the encoding of a list of 1..255-byte chunks (the inverse of the encoder) |
| Subblocks.DataSubblocksTerminatorExamples | src/parser/subblocks.rs:55-62 | a lone `[0]` consumes one byte: `[0]` and `[0, 1, 2, 3]` leave `[]` and `[1, 2, 3]` |
| Subblocks.DataSubblocksChunkExamples | src/parser/subblocks.rs:64-80 | the three chained unit-test vectors, with their spans and remainders |
| Subblocks.DataSubblocksTruncatedExample | src/parser/subblocks.rs:82-86 | a truncated chunk `[5, 6]` is `Error([5, 6], Custom(0))` |
| ColorTable.TableSize | src/parser/blocks.rs:57-61 | a table is announced exactly when bit 7 is set, of 3·2^((p&7)+1) bytes, one of 6, 12, …, 768 |
| ColorTable.Pow2IsShift | src/parser/blocks.rs:60 | the model's power of two is the source's `1 << k` for every shift `k` the three-bit field allows, without overflow in 16 bits |
| ColorTable.ParseColorTable | src/parser/mod.rs:125-128 | with bit 7 set, the next `TableSize` bytes, or `Incomplete` with that size if fewer remain; with bit 7 clear, `None` and nothing consumed; never `Error` |
| ColorTable.ColorTableEncoding | src/parser/mod.rs:125-128 | the table parser returns `t` and `r` exactly when `t` is present iff announced, has the announced size, and the input is `t`'s bytes then `r` |
| Blocks.ParseGraphicControlExtension | src/parser/blocks.rs:7-22 | succeeds exactly on `21 F9`, five field bytes and a `00`, consuming 8 bytes; the delay is little-endian; the byte-size field is not checked; a non-zero eighth byte is a `Tag` error there; input that differs from `21 F9` within its length is `Error(input, Tag)`; a proper prefix of `21 F9` is `Incomplete(2)` |
| Blocks.ParseImageDescriptor | src/parser/blocks.rs:24-40 | succeeds exactly on `2C` and 9 more bytes, consuming 10; left, top, width and height are little-endian in that order; a different first byte is `Error(input, Tag)` |
| Blocks.ParseImageData | src/parser/blocks.rs:42-51 | one code-size byte and then a chain; trailing bytes are the remainder; `Incomplete` only on empty input |
| Blocks.ParseGraphicBlock | src/parser/blocks.rs:53-70 | a success is a graphic block whose descriptor starts after the optional extension; an extension cut short is `Incomplete`; a descriptor tag mismatch is `Error(at, Tag)` at the descriptor |
| Blocks.ParseImage | src/parser/blocks.rs:56-68 | after the optional extension: a success keeps that extension and starts with the separator `2C`; a separator mismatch is `Error(at, Tag)` where the descriptor was expected; the failures after the separator are Blocks.ImageShortDescriptor, Blocks.ImageShortTable and Blocks.ImageAfterTable |
| Blocks.ImageShortDescriptor | src/parser/blocks.rs:56 | empty input, or a separator followed by fewer than 9 descriptor bytes, is `Incomplete` |
| Blocks.ImageShortTable | src/parser/blocks.rs:57-61 | a complete descriptor whose announced local table is cut short is `Incomplete` with the whole table's size |
| Blocks.ImageAfterTable | src/parser/blocks.rs:42-62 | after the descriptor and its table: no byte left is `Incomplete(1)` for the code size; otherwise the image succeeds exactly when a chain follows the code-size byte, and fails with `Error(at, Custom(0))` at that chain otherwise |
| Blocks.GraphicBlockIsImage | src/parser/blocks.rs:53-70 | once the optional extension is settled (read, or absent with an `Error`), `graphic_block` gives exactly what the rest of its `do_parse!` gives on the input after the extension |
| Blocks.GraphicBlockSteps | src/parser/blocks.rs:53-70 | a graphic block is the four `do_parse!` steps, in order: optional extension, descriptor, colour table chosen by the descriptor's packed field, image data |
| Blocks.ParsePlainTextBlock | src/parser/blocks.rs:72-82 | the extension is `Some` exactly when a well-formed one precedes the tag; the text span is the chain after `21 01`; after the optional extension, a mismatch of `21 01` is `Error(at, Tag)`, a proper prefix of it is `Incomplete(2)`, and a bad chain after it is `Error(at, Custom(0))` where the chain starts |
| Blocks.ParseApplicationExtension | src/parser/blocks.rs:84-90 | succeeds exactly on `21 FF` followed by a chain; the payload is the input from offset 2 through the terminator; a tag mismatch is `Error(input, Tag)`; `Incomplete(2)` exactly on a proper prefix of the tag; a bad chain after the tag is `Error(input[2..], Custom(0))` |
| Blocks.ParseCommentExtension | src/parser/blocks.rs:92-98 | succeeds exactly on `21 FE` followed by a chain; the payload is the input from offset 2 through the terminator; a tag mismatch is `Error(input, Tag)`; `Incomplete(2)` exactly on a proper prefix of the tag; a bad chain after the tag is `Error(input[2..], Custom(0))` |
| Blocks.ParseBlock | src/parser/blocks.rs:100 | a success is one of the four alternatives; a failure with `Error` is `Error(input, Alt)`; the ordered-choice statement is Blocks.BlockIsFirstNonError |
| Blocks.BlockIsAltChoice | src/parser/blocks.rs:100 | `block` is `alt!` over the four parsers in the source's order |
| Blocks.BlockIsFirstNonError | src/parser/blocks.rs:100 | whenever `block` does not fail with `Error`, its result is the first of graphic block, plain text, application and comment that does not fail with `Error` |
| Blocks.ShortIntroducerIsIncomplete | src/parser/blocks.rs:100 | the one-byte input `21` asks for two bytes: the graphic block's `opt!` keeps the `Incomplete` and `alt!` stops there |
| BlockEncoding.GraphicControlExtensionEncoding | src/parser/blocks.rs:7-22 | the extension parser returns `g` and `r` exactly when the input is `g`'s 8-byte encoding followed by `r` |
| BlockEncoding.ImageDescriptorEncoding | src/parser/blocks.rs:24-40 | the descriptor parser returns `d` and `r` exactly when the input is `d`'s 10-byte encoding followed by `r` |
| BlockEncoding.ImageDataComplete | src/parser/blocks.rs:42-51 | a code size byte, a complete chain and any remainder parse as that image data with that remainder |
| BlockEncoding.ImageDataSound | src/parser/blocks.rs:42-51 | what `image_data` reads is a code size byte followed by a complete chain |
| BlockEncoding.ImageDataEncoding | src/parser/blocks.rs:42-51 | the image data parser returns `d` and `r` exactly when the input is the code size, a complete chain and `r` |
| BlockEncoding.GraphicBlockSound | src/parser/blocks.rs:53-70 | what `graphic_block` reads is the encoding of a well-formed graphic block: the local table is present iff announced and sized 3·2^((p&7)+1) |
| BlockEncoding.GraphicBlockComplete | src/parser/blocks.rs:53-70 | every encoded well-formed graphic block, with or without a control extension, is read back with its remainder |
| BlockEncoding.GraphicBlockEncoding | src/parser/blocks.rs:53-70 | `graphic_block` returns `Done(b, r)` exactly when `b` is a well-formed graphic block and the input is its encoding followed by `r` |
| BlockEncoding.TextBlockSound | src/parser/blocks.rs:72-82 | what `plain_text_block` reads is an optional encoded extension, `21 01` and a complete chain |
| BlockEncoding.TextBlockComplete | src/parser/blocks.rs:72-82 | every encoded well-formed text block is read back with its remainder |
| BlockEncoding.TextBlockEncoding | src/parser/blocks.rs:72-82 | `plain_text_block` returns `Done(b, r)` exactly when `b` is a well-formed text block and the input is its encoding followed by `r` |
| BlockEncoding.TaggedChainEncoding | src/parser/blocks.rs:84-98 | a two-byte tag followed by a chain is read exactly when the input is the tag, a complete chain and the remainder |
| BlockEncoding.AlternativeEncoding | src/parser/blocks.rs:53-98 | each alternative succeeds exactly on the encoding of a well-formed block of its own kind |
| BlockEncoding.GraphicBlockExcludes | src/parser/blocks.rs:26 | once a graphic block is read, the other three alternatives fail with `Error` (an image separator after the optional extension is no `21`) |
| BlockEncoding.PlainTextBlockExcludes | src/parser/blocks.rs:75 | once a text block is read, the other three alternatives fail with `Error` |
| BlockEncoding.ApplicationExtensionExcludes | src/parser/blocks.rs:86 | once an application extension is read, the other three fail with `Error` |
| BlockEncoding.CommentExtensionExcludes | src/parser/blocks.rs:94 | once a comment extension is read, the other three fail with `Error` |
| BlockEncoding.AlternativesExclusive | src/parser/blocks.rs:100 | at most one alternative of `block` succeeds on any input, and then all others fail with `Error` |
| BlockEncoding.BlockEncodingTheorem | src/parser/blocks.rs:100 | `block` returns `b` and `r` exactly when `b` is well formed and the input is `b`'s encoding followed by `r` |
| BlockEncoding.BlockRoundTrip | src/parser/blocks.rs:100 | parsing the encoding of a well-formed block, with anything after it, gives the block and that remainder |
| BlockEncoding.BlockErrorMeansAllError | src/parser/blocks.rs:100 | `block` fails with `Error` only when every alternative does |
| BlockEncoding.BlockOrderIrrelevant | src/parser/blocks.rs:100 | any rearrangement of the alternatives gives the same success or `Error` as the source's order |
| BlockEncoding.IncompleteDependsOnOrder | src/parser/blocks.rs:100 | on a lone control extension the graphic block asks for 1 more byte and the text block for 2, so which `Incomplete` is reported depends on the order |
| BlockEncoding.GraphicControlExtensionExample | src/parser/blocks.rs:106-120 | the unit test: delay bytes `64 00` decode to 100, 8 bytes consumed |
| BlockEncoding.ImageDescriptorExample | src/parser/blocks.rs:122-137 | the unit test: left 1, top 2, width 5, height 6, packed `0x81`, 10 bytes consumed |
| BlockEncoding.ImageDataExample | src/parser/blocks.rs:140-151 | the first unit test: code size 1, the chain after it as the span, nothing left over |
| BlockEncoding.ImageDataRemainderExample | src/parser/blocks.rs:153-163 | the second unit test: code size 3, bytes 1..9 as the span, `[1, 2, 3]` left over |
| BlockEncoding.GraphicBlockExample | src/parser/blocks.rs:166-219 | the unit test: extension `Some(4, 0, 0, 0)`, a 10 by 10 descriptor, no local table, code size 2 and the 24-byte chain |
| BlockEncoding.PlainTextBlockExample | src/parser/blocks.rs:221-237 | the unit test: no extension, the text span is the input from offset 2 |
| BlockEncoding.ApplicationExtensionExample | src/parser/blocks.rs:239-249 | the unit test: the payload is the input from offset 2 |
| BlockEncoding.CommentExtensionExample | src/parser/blocks.rs:251-260 | the unit test: the payload is the input from offset 2 |
| BlockEncoding.TrailerIsNoBlock | src/parser/blocks.rs:100 | the trailer byte `3B` is `Error(input, Alt)`: `block` recognises no trailer |
| Parser.GetVersion | src/parser/mod.rs:13-19 | total; `Ok` exactly for `"87a"` and `"89a"`, and then the version whose bytes they are |
| Parser.GetVersionInverse | src/parser/mod.rs:13-19 | `get_version` gives `v` exactly on `v`'s three bytes |
| Parser.ParseSignature | src/parser/mod.rs:118 | consumes exactly `"GIF"`; asks for 3 bytes on a proper prefix; otherwise `Error(input, Tag)` |
| Parser.ParseVersion | src/parser/mod.rs:21 | accepts exactly `"87a"` and `"89a"`, consuming 3 bytes; `Incomplete` on a proper prefix of either; otherwise `Error(input, Alt)` |
| Parser.HeaderLayout | src/parser/mod.rs:116-136 | `gif` succeeds exactly when 13 fixed bytes carry the signature and a known version and the table is complete; version, width, height and table come from offsets 3, 6, 8 and 13, the table chosen by the byte at offset 10 |
| Parser.ParseGifHeader | src/parser/mod.rs:116-136 | input that differs from `GIF` within its length is `Error(input, Tag)`; a proper prefix of `GIF` is `Incomplete(3)`; a success consumed at least the 13 fixed bytes, which start with `GIF`; the full characterisation is Parser.HeaderLayout |
| Parser.FixedFieldsNeeded | src/parser/mod.rs:116-124 | no header is read from fewer than 13 bytes, a wrong signature or an unknown version |
| Parser.HeaderRejectsSignature | src/parser/mod.rs:118 | an input that differs from `"GIF"` within its length is `Error(input, Tag)` |
| Parser.HeaderRejectsVersion | src/parser/mod.rs:119 | an unknown version is `Error(input after "GIF", Alt)` |
| Parser.HeaderTableCutShort | src/parser/mod.rs:125-144 | a global table cut short makes `gif` ask for the whole table and `parse_gif` return `Err` |
| Parser.ParseGif | src/parser/mod.rs:138-145 | `Ok` exactly when `gif` succeeds, with its header; every failure collapses to `Err` |
| Parser.HeaderRoundTrip | src/parser/mod.rs:116-136 | encoding a header with a well-formed table, any packed low bits and any background and aspect bytes, then parsing, gives the header and the remainder back |
| Parser.HeaderSound | src/parser/mod.rs:116-136 | what `gif` reads is the encoding of its result with the input's packed, background and aspect bytes |
| Parser.ParseGifIgnoresTrailing | src/parser/mod.rs:138-145 | bytes after a readable header do not change `parse_gif` |
| Parser.ParseGifIgnoresBackgroundAndAspect | src/parser/mod.rs:122-134 | the background index and aspect ratio (offsets 11 and 12) are read and discarded |
| Parser.SignatureAndVersionExamples | src/parser.rs:56-82 | the unit tests: `"GIF89a"` leaves `"89a"`, `"blablabla"` is a `Tag` error at its start, both versions parse, `"12a"` is an `Alt` error |
| Parser.MinimalHeaderExample | src/parser/mod.rs:116-145 | a 13-byte GIF89a header of a 10 by 10 screen without a table parses to that header |
| ParserSnapshot.TakeOneIsLeU8 | src/parser.rs:23-25 | `take!(1)` and `le_u8` succeed and fail alike, and the slice holds the byte `le_u8` reads |
| ParserSnapshot.ParseGifHeader | src/parser.rs:16-36 | the older `gif`: input that differs from `GIF` within its length is `Error(input, Tag)`; a proper prefix of `GIF` is `Incomplete(3)`; a success consumed at least 13 bytes starting with `GIF`; equality with the current `gif` is ParserSnapshot.GifSnapshotsAgree |
| ParserSnapshot.GifSnapshotsAgree | src/parser.rs:16-36 | the older `gif` gives the same result as the current one on every input, failures included |
| ParserSnapshot.ParseGif | src/parser.rs:38-45 | `Ok` exactly when the older `gif` succeeds, with its header; failures collapse to `Err` |
| ParserSnapshot.ParseGifSnapshotsAgree | src/parser.rs:38-45 | the two `parse_gif` snapshots agree on every input |
| HeaderSnapshot.AsGifVersion | src/parser/header.rs:2-6 | the local `Version` maps to the `GIFVersion` of the same name |
| HeaderSnapshot.GetVersion | src/parser/header.rs:10-16 | total; `"87a"` gives GIF87a, `"89a"` gives GIF89a, anything else `Err` |
| HeaderSnapshot.GetVersionSnapshotsAgree | src/parser/header.rs:10-16 | the local `get_version` succeeds where the current one does, with the same version |
| HeaderSnapshot.ParseVersion | src/parser/header.rs:18 | succeeds exactly when the first three bytes are a version `get_version` accepts, consuming them; `Incomplete` exactly on a proper prefix of `87a` or `89a`; every other failure is `Error(input, Alt)` |
| HeaderSnapshot.VersionSnapshotsAgree | src/parser/header.rs:18 | the local `version` gives the current one's result, failures included, after renaming the enumeration |
| HeaderSnapshot.VersionExamples | src/parser/header.rs:35-48 | the unit tests: both versions consume 3 bytes; `"12a"` is `Error(input, Alt)` |
| SubblocksAsWritten.WrappingSuccessor | src/parser/subblocks.rs:12 | the `u8` sum `n + 1` of a release build is `(n + 1) mod 256` |
| SubblocksAsWritten.NextOffsetAsWritten | src/parser/subblocks.rs:20-21 | one loop step as written: the index never moves backwards or past the end, stays put exactly on a length byte of 255, and is absent only where the chain stops |
| SubblocksAsWritten.ScanAsWritten | src/parser/subblocks.rs:20-22 | the loop as written, within a budget: when it ends, it ends inside the input at an index where the chain stops |
| SubblocksAsWritten.DataSubblocksAsWritten | src/parser/subblocks.rs:17-29 | `data_subblocks` as written never returns `Incomplete`; a success is a non-empty prefix ending in the terminator byte, followed by the rest; its only failure is `Error(input, Custom(0))` |
| SubblocksAsWritten.NonEmptySubblockAsWritten | src/parser/subblocks.rs:12 | with the `u8` addition, a length byte of 255 takes zero bytes and leaves the input untouched |
| SubblocksAsWritten.NonEmptySubblockAgrees | src/parser/subblocks.rs:9-15 | for every other input, the code as written and the corrected parser agree |
| SubblocksAsWritten.NextOffsetIsLoopStep | src/parser/subblocks.rs:20-21 | one iteration of the loop as written moves the index by the length of the slice `non_empty_subblock` returns, and the loop ends where that call fails; on a length byte of 255 the index stays, elsewhere it steps over one chunk as the corrected scan does |
| SubblocksAsWritten.ScanStallsOnFullChunk | src/parser/subblocks.rs:20-22 | once the index reaches a length byte of 255, no number of iterations ends the loop |
| SubblocksAsWritten.ScanAsWrittenStopsLikeSkipChunks | src/parser/subblocks.rs:20-22 | whenever the loop as written ends, it ends where the corrected scan does |
| SubblocksAsWritten.ScanAsWrittenFinishes | src/parser/subblocks.rs:20-22 | without a 255 byte, the loop ends within one iteration per input byte |
| SubblocksAsWritten.DataSubblocksAsWrittenAgrees | src/parser/subblocks.rs:17-29 | when the code as written returns, it returns the corrected result; it panics only where the corrected scan runs to the end of the input |
| SubblocksAsWritten.DataSubblocksAsWrittenAwayFromFullChunks | src/parser/subblocks.rs:17-29 | without a 255 byte, the code as written panics exactly where the scan runs to the end, and otherwise returns the corrected result |
| SubblocksAsWritten.FullFirstChunkNeverEnds | src/parser/subblocks.rs:12-22 | an input starting with a length byte of 255 never gets out of the loop |
| SubblocksAsWritten.FullChunkExample | src/parser/subblocks.rs:12-22 | a well-formed chain with one 255-byte chunk: the corrected parser takes all 257 bytes, the code as written never returns |
| SubblocksAsWritten.EndOfInputExamples | src/parser/subblocks.rs:24-28 | `[]` and `[1, 7]` make the code as written index past the end; the corrected parser gives `Error(input, Custom(0))` |

## Left out

- `nom` itself: its macros and primitives are stated as the assumed semantics in `Nom`, not derived from its source.
- Error contexts: a failure keeps nom's position and kind (`Tag`, `Alt`, `MapRes`, `Custom(0)`), but not the `Context` wrapper or the `Needed::Unknown` case, which these parsers never produce.
- src/lib.rs: its `GIF` has no `global_color_table` and it declares no `Block`. The model follows the parser snapshots, which do use both, and takes only the shape of `GIFVersion` from src/lib.rs.
- src/parser/tests.rs: it repeats the unit tests of src/parser/blocks.rs and src/parser.rs, which are modelled where they first appear. The fixture tests (src/parser/tests.rs:182-195, src/parser.rs:85-98) read a file that is not part of this model.
- A container loop over blocks, the trailer, LZW decompression and flattening sub-blocks into a payload: the source has none of them (`block` is never called by `gif`).
- Rust panics are modelled as an explicit `Panics` outcome in `SubblocksAsWritten`, and only there. The corrected `Subblocks.ParseDataSubblocks` reports `Error(input, Custom(0))` where the source indexes past the end. This keeps `data_subblocks` free of `Incomplete`.
- SubblocksAsWritten.NonEmptySubblockAsWritten: models the release build, where `255 + 1` wraps to 0. A debug build panics on the addition instead, and no outcome for that is modelled.
- SubblocksAsWritten.ScanAsWritten: the unbounded loop runs on a `fuel` budget. Non-termination is stated as "out of fuel for every budget", not as divergence.
- SubblocksAsWritten.ScanAsWrittenFinishes: requires that no byte of the input is 255. That is sufficient but not necessary: a 255 inside a chunk's data is harmless.
- Blocks.ParseImage: its own contract states only the result's shape and the separator mismatch. Its other outcomes are Blocks.ImageShortDescriptor, Blocks.ImageShortTable and Blocks.ImageAfterTable, kept as lemmas so that the many proofs about `graphic_block` do not carry them.
- Blocks.ParseGraphicBlock: its own contract states only the result's shape and two failures. Its successes are characterised by BlockEncoding.BlockEncodingTheorem together with BlockEncoding.AlternativeEncoding. Its failures after the extension follow from Blocks.GraphicBlockIsImage, which reduces it to `image`, together with Blocks.ImageShortDescriptor, Blocks.ImageShortTable and Blocks.ImageAfterTable.
- BlockEncoding.BlockOrderIrrelevant: covers successes and `Error` only. An `Incomplete` can change with the order, as BlockEncoding.IncompleteDependsOnOrder shows.
- The `signature` parsers of src/parser.rs:4 and src/parser/header.rs:8 are the same `tag!("GIF")` as the inline tag at src/parser/mod.rs:118. All three are modelled once, as Parser.ParseSignature.
- Parser.ParseGifHeader: its own contract states only the signature failures and the length of a success; the full statement is Parser.HeaderLayout.
- ParserSnapshot.ParseGifHeader: its own contract states only the signature failures and the length of a success; its relation to the current parser is ParserSnapshot.GifSnapshotsAgree.
- Parser.ParseVersion: the `map_res!` failure `Error(input, MapRes)` is in the model but cannot occur, because `alt!` only lets the two known versions through.

## Findings

| source | as written | input that shows it | evidently intended | confidence | as-written member | corrected member |
|---|---|---|---|---|---|---|
| src/parser/subblocks.rs:12 | `n + 1` is computed in `u8` before `take!` widens it; at 255 it wraps to 0 in a release build (a debug build panics), so zero bytes are taken and the scan loop at line 20 never advances | a chain with one full chunk: `FF`, 255 data bytes, `00` | take `n + 1` = 256 bytes, so that the chain is read whole | high; not executed | SubblocksAsWritten.FullChunkExample | Subblocks.ParseNonEmptySubblock |
| src/parser/subblocks.rs:25 | `input[i]` has no bounds check; it panics when the scan stops at the end of the input | `[]`, and `[1, 7]` (a chunk that ends exactly at the end of the input) | report a parse failure, `Error(input, Custom(0))` | high; not executed | SubblocksAsWritten.EndOfInputExamples | Subblocks.ParseDataSubblocks |
