# flaccid: the FLAC container parser in Dafny

This project models the container decoder of `flaccid`, the class `FlacParser`
and the bit layouts it reads, and proves what it computes. The parser reads:
- the four signature bytes `fLaC`;
- the metadata blocks one after the other (block header, then a payload
  decoder chosen by the block type, then a seek to the end of the block);
- the first STREAMINFO, SEEKTABLE and VORBIS_COMMENT blocks, each looked up
  in the block list;
- the first four bytes of the first audio frame header, whose sync code and
  reserved bits it checks.

The layouts are those of RFC 9639 (FLAC):
- the metadata block header (section 8.1);
- STREAMINFO (section 8.2);
- padding (section 8.3);
- the seek table (section 8.5);
- the Vorbis comment (section 8.6);
- the frame header (section 9.1).

The open file is modelled as its whole content, a `seq<byte>`, plus an
absolute cursor. `read(n)`, `tell()` and `seek()` become operations on that
cursor.

Modules, in dependency order:

- `Errors` (errors.dfy): `Result`, `Option`, and a `Parsed` value paired with
  the cursor after it. It also holds the error kinds that end a parse: each
  exception the original raises becomes one of them.
- `Bytes` (bytes.dfy): the byte type and big-endian and little-endian
  integers with their encoders. It has the two kinds of read:
  - `ReadExact`, the ctypes read that fails on a short buffer;
  - `ReadUpTo`, the file's `read(n)`, which returns fewer bytes at the end
    of the file.
  The predicate `At` says that some bytes occur in the file at an offset.
- `Utf8` (utf8.dfy): the strict UTF-8 decoder applied by
  `bytes.decode('utf-8')`, an encoder, and the proof that each inverts the
  other.
- `Layouts` (layouts.dfy): the four fixed bit layouts. Each has a decoder
  written with explicit shifts and masks, an encoder, and round trips in
  both directions.
- `Decoder` (decoder.dfy): what each parser method computes, as a pure
  function of the file content and the cursor it starts at. Each function
  gives the value returned or the exception raised, and the cursor left
  behind.
- `Encoder` (encoder.dfy): how a file the parser reads back is laid out. It
  proves that each decoder, run where an encoding is stored, returns what
  was encoded and stops where the encoding ends. This goes up to the whole
  file.
- `Parser` (parser.dfy): the class `FlacParser`, whose fields are the
  parser's attributes. Its methods follow the original step by step: loops
  stay loops, and the cursor and the block list are updated in place. Each
  method's postcondition ties its result and its new cursor to the
  corresponding `Decoder` function.

Where a stricter reading of the format and the code part ways, the model
follows the code:
- The signature check only reports, and it compares only the bytes it got.
  Four bytes other than `fLaC` leave `magicOk` false, and parsing carries on
  after them. A read cut short by the end of the file, even an empty one, is
  compared only as far as it goes and can leave `magicOk` true. The parse
  then fails with Truncated at the first block header.
- A seek table whose length is not a multiple of 18 is not rejected. It
  holds `length / 18` points, and the remaining bytes are skipped by the seek
  to the block end.
- A block type without a payload decoder (2, 5, 6, 127) raises before the
  seek to the block end. The loop then stops with the cursor just after that
  block's header, and the frame header is read from there.
- Block types 7..126 are not members of the type enumeration. The lookup
  fails, which is an error rather than the end of the loop.
- Frame headers starting `FF F8` and `FF F9` pass: the last bit of the
  second byte is the blocking strategy. `FF FA` and `FF FB` fail on the
  first reserved bit. The checks run in this order: sync code, then
  reserved1, then reserved2.
- STREAMINFO is always read as 34 bytes, whatever the header length says.
  The cursor is then moved to the end of the block as the header gives it.

## Model

| member | source | states |
|---|---|---|
| Bytes.ReadExact | flaccid/__init__.py:205-207 | a fixed-size read succeeds exactly when `n` bytes are left from the cursor, and otherwise fails with Truncated |
| Bytes.ReadUpTo | flaccid/__init__.py:228 | `read(n)` returns at most `n` bytes, and fewer only when the read reaches the end of the file |
| Bytes.ReadUpToIsSlice | flaccid/__init__.py:228 | `read(n)` is the slice of the file from the cursor on, cut at `n` bytes, and empty past the end |
| Bytes.ToUint32Le | flaccid/__init__.py:227 | the four little-endian bytes of a 32-bit length read back as that length |
| Bytes.Uint32Le | flaccid/__init__.py:227 | four bytes of a `c_uint32` hold a value below 2^32 (least significant byte first) |
| Bytes.ToUint32LeOfUint32Le | flaccid/__init__.py:227 | four bytes are recovered from the 32-bit value they store: the little-endian reading is injective |
| Bytes.BigEndianOfToBigEndian | flaccid/__init__.py:18-24 | a big-endian field written in `k` bytes reads back as its value |
| Bytes.ToBigEndianOfBigEndian | flaccid/__init__.py:18-24 | `k` bytes read big-endian hold a value below 256^k that writes back to the same bytes |
| Utf8.DecodeOfEncode | flaccid/__init__.py:228 | the UTF-8 encoding of any text decodes back to that text |
| Utf8.Decode | flaccid/__init__.py:228 | whatever decodes is exactly the encoding of the text it decodes to, so only well-formed UTF-8 decodes |
| Utf8.DecodeIsInverse | flaccid/__init__.py:233 | decoding yields `t` if and only if the bytes are the encoding of `t` |
| Layouts.DecodeBlockHeader | flaccid/__init__.py:18-24 | a decoded block header has a type below 128 and a length below 2^24 |
| Layouts.BlockHeaderRoundTrip | flaccid/__init__.py:18-24 | packing (last flag, type, length) into 4 bytes and unpacking gives the same three fields |
| Layouts.BlockHeaderBytesRoundTrip | flaccid/__init__.py:200-203 | every 4 header bytes are the packing of the header they decode to |
| Layouts.DecodeStreamInfo | flaccid/__init__.py:36-48 | each decoded STREAMINFO field is below 2 to the power of its width (16, 16, 24, 24, 20, 3, 5, 36, 64, 64) |
| Layouts.PackedWordFields | flaccid/__init__.py:42-45 | sample rate, channel code, bits-per-sample code and total samples packed into one 64-bit word unpack to themselves |
| Layouts.StreamInfoRoundTrip | flaccid/__init__.py:36-48 | packing the ten STREAMINFO fields into 34 bytes and decoding gives the same fields |
| Layouts.StreamInfoBytesRoundTrip | flaccid/__init__.py:36-48 | every 34 bytes are the packing of the STREAMINFO they decode to |
| Layouts.DecodeSeekPoint | flaccid/__init__.py:58-63 | a decoded seek point has two fields below 2^64 and a sample count below 2^16 |
| Layouts.SeekPointRoundTrip | flaccid/__init__.py:58-63 | an 18-byte seek point decodes back to the point that was written |
| Layouts.SeekPointBytesRoundTrip | flaccid/__init__.py:58-63 | every 18 bytes are the packing of the seek point they decode to |
| Layouts.DecodeFrameHeaderRaw | flaccid/__init__.py:84-97 | each decoded frame header field fits its width (14, 1, 1, 4, 4, 4, 3, 1 bits) |
| Layouts.FrameHeaderRawRoundTrip | flaccid/__init__.py:84-97 | the eight frame header fields packed into 4 bytes unpack to themselves |
| Layouts.FrameHeaderRawBytesRoundTrip | flaccid/__init__.py:84-97 | every 4 bytes are the packing of the frame header fields they decode to |
| Layouts.FrameHeaderSyncBytes | flaccid/__init__.py:84-97 | the sync code is 0x3FFE if and only if the bytes start FF F8..FB; reserved1 is 0 if and only if bit 1 of the second byte is clear; reserved2 is 0 if and only if the fourth byte is even |
| Decoder.BlockTypeOf | flaccid/__init__.py:6-15 | the type lookup succeeds with the member whose value is the code, and fails exactly for codes 7..126 |
| Decoder.ReadUint32 | flaccid/__init__.py:227 | a 32-bit length read succeeds exactly when four bytes are left, and gives a value below 2^32 |
| Decoder.ReadText | flaccid/__init__.py:227-228 | a string read fails only with Truncated or InvalidUtf8, and moves the cursor at least past the 4-byte length |
| Decoder.ReadTextIsStored | flaccid/__init__.py:227-228 | a read string's UTF-8 form is exactly what `read(length)` returned after the length, shorter than the length only where the file ends, and the cursor stops right after it; the read fails with Truncated exactly when fewer than four bytes are left, and with InvalidUtf8 exactly when the bytes read do not decode |
| Decoder.UserCommentsAt | flaccid/__init__.py:230-234 | reading `count` comments gives exactly `count` strings, or fails only with Truncated or InvalidUtf8 |
| Decoder.UserCommentsStep | flaccid/__init__.py:231-234 | comment `count` is read where the first `count - 1` end and appended to them; an error in either read is the loop's error |
| Decoder.UserCommentsErrorPersists | flaccid/__init__.py:231-234 | once a comment read fails, reading more comments fails with the same error |
| Decoder.VorbisCommentAt | flaccid/__init__.py:223-235 | a decoded Vorbis comment block is a Vorbis comment, has consumed at least 8 bytes, and fails only with Truncated or InvalidUtf8 |
| Decoder.VorbisCommentSteps | flaccid/__init__.py:227-235 | the block is the vendor string, then a count read where it ends, then that many comments read after the count, with the first error aborting |
| Decoder.SeekPointsAt | flaccid/__init__.py:216-220 | reading `count` seek points succeeds exactly when 18 * `count` bytes are left, gives exactly `count` points, and otherwise fails with Truncated |
| Decoder.SeekPointsAtIndex | flaccid/__init__.py:218-220 | the `k`-th point read is the one decoded from the 18 bytes at offset 18 * `k` of the table: points come in file order |
| Decoder.SeekPointsSnoc | flaccid/__init__.py:218-220 | the point read at the end of the first `count - 1` points is appended after them |
| Decoder.PayloadAt | flaccid/__init__.py:243-255 | a decoded payload matches its header's type; padding keeps exactly the header length, and a seek table holds length / 18 points; only types other than 0, 1, 3 and 4 are unsupported |
| Decoder.BlockAt | flaccid/__init__.py:257-268 | a decoded block's header is the decoding of the 4 bytes at the cursor, its payload matches the type, and the cursor ends at header start + 4 + length whatever the payload decoder read |
| Decoder.BlockAtOfParts | flaccid/__init__.py:257-268 | a readable header of an enumerated type followed by a payload that decodes is read back as that block, with the cursor at the block end |
| Decoder.BlocksFrom | flaccid/__init__.py:117-127 | the block loop returns blocks whose payloads match their types, none flagged last except possibly the final one; an unsupported type never surfaces as an error |
| Decoder.BlocksFromLast | flaccid/__init__.py:126-127 | a block flagged last ends the loop with that block |
| Decoder.BlocksFromCons | flaccid/__init__.py:118-121 | a block not flagged last is followed in the list by the blocks the loop reads after its end |
| Decoder.BlocksFromOfStored | flaccid/__init__.py:117-127 | blocks stored back to back, only the last flagged last, are returned by the loop in order, and the cursor stops at the end of the last |
| Decoder.BlocksFromOfStoredAll | flaccid/__init__.py:117-127 | the loop from the first stored block returns them all and stops where the last ends |
| Decoder.BlocksFromStopsAtUnsupported | flaccid/__init__.py:122-124 | a block of type 2, 5, 6 or 127 ends the loop with nothing appended for it and the cursor just after its header |
| Decoder.BlocksFromFailsAtReserved | flaccid/__init__.py:117-127 | a block whose type code is 7..126 makes the loop fail with ReservedBlockType of that code: the enumeration lookup at line 260 raises, and the loop catches only NotImplementedError |
| Decoder.BlocksFromFailsAtEnd | flaccid/__init__.py:200-203 | a block header cut short by the end of the file makes the loop fail with Truncated |
| Decoder.BlocksFromOfBlockError | flaccid/__init__.py:118-124 | any error of a block other than a type without a decoder aborts the loop with that error |
| Decoder.FirstOfTypeIsFirst | flaccid/__init__.py:156-161 | the lookup returns None if and only if no block has the type, and otherwise a block of that type with none of the type before it |
| Decoder.FirstOfType | flaccid/__init__.py:156-161 | a block the lookup returns is in the list and has the type asked for |
| Decoder.FirstOfTypeFromIsFirst | flaccid/__init__.py:158-160 | the scan from index `i` finds the first block of the type at or after `i`, or none |
| Decoder.ValidateHeader | flaccid/__init__.py:103-107 | the header passes if and only if both reserved bits are 0; reserved1 is reported before reserved2 |
| Decoder.FrameHeaderAt | flaccid/__init__.py:148-154 | an accepted frame header has the sync code 0x3FFE and both reserved bits 0 |
| Decoder.FrameHeaderAtBytes | flaccid/__init__.py:148-154 | the frame header is accepted if and only if its bytes start FF F8 or FF F9 and the fourth byte is even; a bad sync code is reported first, then reserved1 (FF FA, FF FB), then reserved2; a short read is Truncated |
| Decoder.MagicMatchesIsPrefix | flaccid/__init__.py:192-198 | the signature comparison accepts exactly the prefixes of `fLaC`, a short or empty read included |
| Decoder.ParseFlac | flaccid/__init__.py:111-138 | a parse that succeeds has type-consistent blocks and a frame header with the sync code; an unsupported type never makes the parse fail |
| Decoder.ParseFlacOfBlocksError | flaccid/__init__.py:117-127 | an error in the block loop is the parse's error |
| Decoder.ParseFlacOfFrameError | flaccid/__init__.py:138 | after a successful block loop, an error in the frame header check is the parse's error |
| Decoder.ParseFlacOfShortFile | flaccid/__init__.py:111-127 | a file that ends within the four signature bytes fails with Truncated |
| Decoder.ParseFlacOfParts | flaccid/__init__.py:111-138 | a successful parse is the magic flag, the blocks of the loop, the three lookups over them, and the checked frame header read where the loop stopped |
| Encoder.ReadUint32OfEncode | flaccid/__init__.py:227 | a stored 32-bit little-endian word reads back as its value |
| Encoder.ReadTextOfEncode | flaccid/__init__.py:227-228 | a stored length-prefixed string reads back as itself, with the cursor just after it |
| Encoder.UserCommentsOfReads | flaccid/__init__.py:230-234 | comments read one after the other from consecutive offsets are returned in that order |
| Encoder.UserCommentsOfEncode | flaccid/__init__.py:230-234 | stored comments read back as the same list, in order, ending where their encoding ends |
| Encoder.VorbisCommentOfEncode | flaccid/__init__.py:223-235 | a stored Vorbis comment block reads back as its vendor string and its comments, ending where the block ends |
| Encoder.SeekPointsOfEncode | flaccid/__init__.py:209-221 | a stored seek table reads back as its points, in order |
| Encoder.PayloadOfEncode | flaccid/__init__.py:243-255 | a stored payload is decoded back by the decoder its header's type selects |
| Encoder.BlockAtOfEncode | flaccid/__init__.py:257-268 | a stored block reads back as itself, with the cursor at its end |
| Encoder.BlocksFromOfEncode | flaccid/__init__.py:117-127 | stored blocks, only the last flagged last, are read back by the loop as the same list, ending where they end |
| Encoder.MagicMatchesExactly | flaccid/__init__.py:192-198 | four bytes pass the signature comparison if and only if they are `fLaC` |
| Encoder.ParseFlacOfLayout | flaccid/__init__.py:111-138 | a file holding a signature, the encoded blocks and an accepted frame header from its first byte parses to those blocks, the three lookups over them and that header |
| Encoder.ParseFlacOfEncode | flaccid/__init__.py:111-138 | a written file followed by any audio parses back to its blocks, the first block of each looked-up type and its frame header; the signature only sets the magic flag |
| Parser.FlacParser.constructor | flaccid/__init__.py:111-113 | the parser holds the file with its cursor at the start and no blocks yet |
| Parser.FlacParser.Read | flaccid/__init__.py:228 | `read(n)` returns the bytes `ReadUpTo` gives and advances the cursor by their number |
| Parser.FlacParser.ReadExactly | flaccid/__init__.py:205-207 | the ctypes read returns what `ReadExact` gives and, on success, advances the cursor by the size |
| Parser.FlacParser.ParseMagic | flaccid/__init__.py:192-198 | the magic flag says whether the bytes read match the signature byte for byte, and the cursor advances past them |
| Parser.FlacParser.ParseMetadataHeader | flaccid/__init__.py:200-203 | the header is read if and only if four bytes are left, is the decoding of those bytes, and advances the cursor by 4; otherwise Truncated |
| Parser.FlacParser.ParseSeekTable | flaccid/__init__.py:209-221 | the loop returns the seek table `PayloadAt` gives, or its Truncated error, and on success leaves the cursor where `PayloadAt` ends |
| Parser.FlacParser.ReadUint32Le | flaccid/__init__.py:227 | the length read is `ReadUint32` at the cursor, and moves the cursor by 4 |
| Parser.FlacParser.ReadString | flaccid/__init__.py:227-228 | the string read is `ReadText` at the cursor, and on success the cursor ends where `ReadText` ends |
| Parser.FlacParser.ReadUserComments | flaccid/__init__.py:230-234 | the comment loop returns `UserCommentsAt`, its first error included, and on success leaves the cursor where `UserCommentsAt` ends |
| Parser.FlacParser.ParseVorbisComment | flaccid/__init__.py:223-235 | the method returns `VorbisCommentAt` at the cursor and on success leaves the cursor where `VorbisCommentAt` ends |
| Parser.FlacParser.ParsePadding | flaccid/__init__.py:237-241 | padding keeps the header length, reads nothing, and matches its header |
| Parser.FlacParser.ParseDataForMetadataHeader | flaccid/__init__.py:243-255 | the dispatch returns `PayloadAt`'s payload or error, on success with `PayloadAt`'s cursor; an unsupported type leaves the cursor unmoved |
| Parser.FlacParser.ParseMetadataBlock | flaccid/__init__.py:257-268 | the method returns `BlockAt`'s block or error; on success the cursor is at the block end; an unsupported type leaves the cursor after the header |
| Parser.FlacParser.GetMetadataBlockWithType | flaccid/__init__.py:156-161 | the scan returns the first block of the type in list order, or None |
| Parser.FlacParser.ParseFrameHeader | flaccid/__init__.py:148-154 | the check returns `FrameHeaderAt` at the cursor: the header, or the first failed check in sync, reserved1, reserved2 order; when four bytes are left the cursor moves past them |
| Parser.FlacParser.ParseMetadataBlocks | flaccid/__init__.py:116-127 | the loop returns `BlocksFrom`'s block list or error; on success the parser's block list is that list and the cursor is where `BlocksFrom` stops |
| Parser.FlacParser.Parse | flaccid/__init__.py:111-138 | the constructor's work succeeds exactly when `ParseFlac` does, fails with its error otherwise, and on success leaves the attributes equal to the container `ParseFlac` builds |

## Left out

- The ctypes machinery (`sizeof`, `from_buffer`, `BigEndianStructure`) is not modelled. The layouts are the bit layouts of RFC 9639, unpacked explicitly. ctypes bit fields do not straddle their storage units, so its structures can differ in size from the 4, 34 and 18 bytes read here.
- The `c_uint32` lengths of the Vorbis comment (flaccid/__init__.py:227-232) are read in the machine's native byte order in the original. The model reads them little-endian, as RFC 9639 section 8.6 requires.
- Printing is left out: the progress messages (flaccid/__init__.py:123, 128, 198, 260-262) and the dump functions (flaccid/__init__.py:163-190). Three consequences of it are not modelled:
  - The dump functions dereference the looked-up blocks, so a file without a STREAMINFO, seek table or Vorbis comment block raises AttributeError there.
  - The prints at flaccid/__init__.py:139-146 read attributes that `FrameHeader` does not have.
  - The original constructor therefore raises after the frame header check even on a valid file. The model returns the parse result instead.
- Parser.FlacParser.Parse: the original's constructor does the parsing. The model splits this in two: the constructor stores the file, and `Parse` does the work. `Parse` returns the checked frame header, which the original keeps only in a local variable.
- Parser.FlacParser.ReadExactly: requires a positive size. Every ctypes read in the source has one (4, 18 or 34 bytes).
- The module-level opening of `Bombtrack.flac` (flaccid/__init__.py:270-272) is left out, and so is the file object itself. A file's content is a parameter, and `read`, `tell` and `seek` act on a cursor into it.
- The `wrong header passed` guards (flaccid/__init__.py:211-212, 225-226, 239-240) are preconditions. The dispatch never violates them.
- The `sizeof(MetadataSeekPoint) != 18` check (flaccid/__init__.py:214-215) is about the ctypes structure. It cannot fail for the 18-byte layout modelled here.
- Audio frames after the first frame header's four bytes are not decoded, nor are the frame header's codes mapped to rates or sizes. The original does neither.
