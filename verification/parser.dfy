/**
 * The parser object: it owns a cursor into the file and, as it goes, the
 * list of decoded metadata blocks. Every method is proved to do what the
 * corresponding function of the Decoder module says, from the cursor it
 * starts at.
 */
module Parser {
  import opened Errors
  import opened Bytes
  import opened Utf8
  import opened Layouts
  import opened Decoder

  class FlacParser {
    /** The content of the opened file. */
    const flac: seq<byte>
    /** The file's current offset, as `tell()` reports it. */
    var pos: nat
    /** Whether the signature bytes matched; a mismatch is only reported. */
    var magicOk: bool
    var metadataBlocks: seq<MetadataBlock>
    var streamInfo: Option<MetadataBlock>
    var seekTable: Option<MetadataBlock>
    var vorbisComments: Option<MetadataBlock>

    /** Takes the opened file, its cursor at the start; `Parse` then does the work. */
    constructor (file: seq<byte>)
      ensures flac == file && pos == 0 && metadataBlocks == []
      ensures streamInfo == None && seekTable == None && vorbisComments == None
    {
      flac := file;
      pos := 0;
      magicOk := false;
      metadataBlocks := [];
      streamInfo, seekTable, vorbisComments := None, None, None;
    }

    // ------------------------------------------------------------ the file object

    /** `read(n)`: up to `n` bytes, fewer only at the end of the file. */
    method Read(n: nat) returns (s: seq<byte>)
      modifies this`pos
      ensures s == ReadUpTo(flac, old(pos), n)
      ensures pos == old(pos) + |s|
    {
      ReadUpToIsSlice(flac, pos, n);
      if pos >= |flac| {
        s := [];
      } else if pos + n <= |flac| {
        s := flac[pos..pos + n];
      } else {
        s := flac[pos..];
      }
      pos := pos + |s|;
    }

    /** `read_ctype_from_file`: a read whose short result the ctypes layout rejects. */
    method ReadExactly(n: nat) returns (r: Result<seq<byte>>)
      requires n > 0
      modifies this`pos
      ensures r == ReadExact(flac, old(pos), n)
      ensures r.Ok? ==> pos == old(pos) + n
    {
      ReadUpToIsSlice(flac, pos, n);
      var s := Read(n);
      if |s| < n {
        return Err(Truncated);
      }
      return Ok(s);
    }

    // ------------------------------------------------------------ magic and headers

    /** `parse_magic`: compares the (up to) four bytes read with "fLaC". */
    method ParseMagic()
      modifies this`pos, this`magicOk
      ensures magicOk == MagicMatches(ReadUpTo(flac, old(pos), |MAGIC|))
      ensures pos == old(pos) + |ReadUpTo(flac, old(pos), |MAGIC|)|
    {
      var magic := Read(|MAGIC|);
      magicOk := true;
      for i := 0 to |magic|
        invariant pos == old(pos) + |magic|
        invariant magicOk == forall j | 0 <= j < i :: magic[j] == MAGIC[j]
      {
        if magic[i] != MAGIC[i] {
          magicOk := false;
        }
      }
    }

    /** `parse_metadata_header`: the four header bytes, unpacked. */
    method ParseMetadataHeader() returns (r: Result<MetadataBlockHeader>)
      modifies this`pos
      ensures r.Ok? <==> old(pos) + BLOCK_HEADER_SIZE <= |flac|
      ensures r.Ok? ==> r.value == DecodeBlockHeader(flac[old(pos)..old(pos) + BLOCK_HEADER_SIZE])
      ensures r.Ok? ==> pos == old(pos) + BLOCK_HEADER_SIZE
      ensures r.Err? ==> r.error == Truncated
    {
      var b :- ReadExactly(BLOCK_HEADER_SIZE);
      return Ok(DecodeBlockHeader(b));
    }

    // ------------------------------------------------------------ payload decoders

    /** `parse_seektable`: length / 18 seek points, read one after the other. */
    method ParseSeekTable(header: MetadataBlockHeader) returns (r: Result<MetadataBlockData>)
      requires header.blockType == SeekTable.Value()
      modifies this`pos
      ensures r == DropCursor(PayloadAt(flac, old(pos), header))
      ensures r.Ok? ==> pos == PayloadAt(flac, old(pos), header).value.next
    {
      var count := header.length / SEEKPOINT_SIZE;
      ghost var start := pos;
      var points: seq<MetadataSeekPoint> := [];
      for i := 0 to count
        invariant pos == start + SEEKPOINT_SIZE * i
        invariant SeekPointsAt(flac, start, i) == Ok(points)
      {
        var b := ReadExactly(SEEKPOINT_SIZE);
        if b.Err? {
          assert SeekPointsAt(flac, start, i + 1).Err?;
          assert SeekPointsAt(flac, start, count).Err?;
          return Err(b.error);
        }
        points := points + [DecodeSeekPoint(b.value)];
      }
      return Ok(SeekTableData(points));
    }

    /** A 32-bit little-endian length or count. */
    method ReadUint32Le() returns (r: Result<nat>)
      modifies this`pos
      ensures r == ReadUint32(flac, old(pos))
      ensures r.Ok? ==> pos == old(pos) + 4
    {
      ghost var p := pos;
      var b :- ReadExactly(4);
      assert b == [flac[p], flac[p + 1], flac[p + 2], flac[p + 3]];
      return Ok(Uint32Le(b));
    }

    /** A 32-bit length, then that many bytes (fewer at the end of the file) decoded as UTF-8. */
    method ReadString() returns (r: Result<Text>)
      modifies this`pos
      ensures r == DropCursor(ReadText(flac, old(pos)))
      ensures r.Ok? ==> pos == ReadText(flac, old(pos)).value.next
    {
      var n :- ReadUint32Le();
      var bytes := Read(n);
      match Decode(bytes)
      case None =>
        return Err(InvalidUtf8);
      case Some(t) =>
        return Ok(t);
    }

    /** The comment loop of `parse_vorbis_comment`: `count` strings, kept in order. */
    method ReadUserComments(count: nat) returns (r: Result<seq<Text>>)
      modifies this`pos
      ensures r == DropCursor(UserCommentsAt(flac, old(pos), count))
      ensures r.Ok? ==> pos == UserCommentsAt(flac, old(pos), count).value.next
    {
      ghost var first := pos;
      var comments: seq<Text> := [];
      for i := 0 to count
        invariant UserCommentsAt(flac, first, i) == Ok(Parsed(comments, pos))
      {
        var comment := ReadString();
        UserCommentsStep(flac, first, i + 1);
        if comment.Err? {
          UserCommentsErrorPersists(flac, first, i + 1, count);
          return Err(comment.error);
        }
        comments := comments + [comment.value];
      }
      return Ok(comments);
    }

    /** `parse_vorbis_comment`: vendor string, comment count, then the comments in order. */
    method ParseVorbisComment(header: MetadataBlockHeader) returns (r: Result<MetadataBlockData>)
      requires header.blockType == VorbisComment.Value()
      modifies this`pos
      ensures r == DropCursor(VorbisCommentAt(flac, old(pos)))
      ensures r.Ok? ==> pos == VorbisCommentAt(flac, old(pos)).value.next
    {
      VorbisCommentSteps(flac, pos);
      var vendor := ReadString();
      if vendor.Err? {
        return Err(vendor.error);
      }
      var count := ReadUint32Le();
      if count.Err? {
        return Err(count.error);
      }
      var comments := ReadUserComments(count.value);
      if comments.Err? {
        return Err(comments.error);
      }
      return Ok(VorbisCommentData(vendor.value, comments.value));
    }

    /** `parse_padding`: keeps only the length; reads nothing. */
    method ParsePadding(header: MetadataBlockHeader) returns (d: MetadataBlockData)
      requires header.blockType == Padding.Value()
      ensures Consistent(MetadataBlock(header, d))
      ensures PayloadAt(flac, pos, header) == Ok(Parsed(d, pos))
    {
      return PaddingData(header.length);
    }

    /** `parse_data_for_metadata_header`: dispatch on the block type. */
    method ParseDataForMetadataHeader(header: MetadataBlockHeader) returns (r: Result<MetadataBlockData>)
      modifies this`pos
      ensures r == DropCursor(PayloadAt(flac, old(pos), header))
      ensures r.Ok? ==> pos == PayloadAt(flac, old(pos), header).value.next
      ensures r.Err? && r.error.UnsupportedBlockType? ==> pos == old(pos)
    {
      if header.blockType == StreamInfo.Value() {
        var b :- ReadExactly(STREAMINFO_SIZE);
        return Ok(StreamInfoData(DecodeStreamInfo(b)));
      } else if header.blockType == SeekTable.Value() {
        r := ParseSeekTable(header);
      } else if header.blockType == VorbisComment.Value() {
        assert PayloadAt(flac, pos, header) == VorbisCommentAt(flac, pos);
        r := ParseVorbisComment(header);
      } else if header.blockType == Padding.Value() {
        var d := ParsePadding(header);
        return Ok(d);
      } else {
        return Err(UnsupportedBlockType(header.blockType));
      }
    }

    /**
     * `parse_metadata_block`: header, type lookup, payload, then a seek to
     * the end of the block as the header declares it.
     */
    method ParseMetadataBlock() returns (r: Result<MetadataBlock>)
      modifies this`pos
      ensures r == DropCursor(BlockAt(flac, old(pos)))
      ensures r.Ok? ==> pos == BlockAt(flac, old(pos)).value.next
      ensures r.Err? && r.error.UnsupportedBlockType? ==> pos == old(pos) + BLOCK_HEADER_SIZE
    {
      var header :- ParseMetadataHeader();
      var blockEnd := pos + header.length;
      if BlockTypeOf(header.blockType).None? {
        return Err(ReservedBlockType(header.blockType));
      }
      var data :- ParseDataForMetadataHeader(header);
      pos := blockEnd;
      return Ok(MetadataBlock(header, data));
    }

    /** `get_metadata_block_with_type`: a scan of the block list, first match wins. */
    method GetMetadataBlockWithType(blockType: MetadataBlockType) returns (r: Option<MetadataBlock>)
      ensures r == FirstOfType(metadataBlocks, blockType.Value())
    {
      for i := 0 to |metadataBlocks|
        invariant FirstOfType(metadataBlocks, blockType.Value()) == FirstOfTypeFrom(metadataBlocks, blockType.Value(), i)
      {
        if metadataBlocks[i].header.blockType == blockType.Value() {
          return Some(metadataBlocks[i]);
        }
      }
      return None;
    }

    /** `parse_frame_header`: four bytes, the sync code, then the reserved bits. */
    method ParseFrameHeader() returns (r: Result<FrameHeaderRaw>)
      modifies this`pos
      ensures r == FrameHeaderAt(flac, old(pos))
      ensures old(pos) + FRAME_HEADER_SIZE <= |flac| ==> pos == old(pos) + FRAME_HEADER_SIZE
    {
      var b :- ReadExactly(FRAME_HEADER_SIZE);
      var raw := DecodeFrameHeaderRaw(b);
      if raw.syncCode != SYNC_CODE {
        return Err(BadSyncCode(raw.syncCode));
      }
      return ValidateHeader(raw);
    }

    // ------------------------------------------------------------ the constructor's work

    /**
     * The block loop of the constructor: blocks are appended until one is
     * flagged last; a block type without a decoder stops the loop, and any
     * other error aborts.
     */
    method ParseMetadataBlocks() returns (r: Result<seq<MetadataBlock>>)
      modifies this`pos, this`metadataBlocks
      ensures r == DropCursor(BlocksFrom(flac, old(pos)))
      ensures r.Ok? ==> metadataBlocks == r.value && pos == BlocksFrom(flac, old(pos)).value.next
    {
      ghost var first := pos;
      metadataBlocks := [];
      PrependNothing(BlocksFrom(flac, first));
      while true
        invariant Prepend(metadataBlocks, BlocksFrom(flac, pos)) == BlocksFrom(flac, first)
        decreases if pos <= |flac| then |flac| - pos else 0
      {
        ghost var here := pos;
        var block := ParseMetadataBlock();
        if block.Err? {
          if block.error.UnsupportedBlockType? {
            assert BlocksFrom(flac, here) == Ok(Parsed([], pos));
            assert metadataBlocks + [] == metadataBlocks;
            break;
          }
          return Err(block.error);
        }
        ghost var before := metadataBlocks;
        metadataBlocks := metadataBlocks + [block.value];
        if block.value.header.isLastBlock {
          assert BlocksFrom(flac, here) == Ok(Parsed([block.value], pos));
          break;
        }
        assert Prepend([block.value], BlocksFrom(flac, pos)) == BlocksFrom(flac, here);
        PrependTwice(before, [block.value], BlocksFrom(flac, pos));
      }
      assert BlocksFrom(flac, first) == Ok(Parsed(metadataBlocks, pos));
      return Ok(metadataBlocks);
    }

    /**
     * The body of the parser's constructor: the magic check, the block loop,
     * the three lookups and the check of the first frame header.
     */
    method Parse() returns (r: Result<FrameHeaderRaw>)
      modifies this`pos, this`magicOk, this`metadataBlocks, this`streamInfo, this`seekTable, this`vorbisComments
      ensures var c := ParseFlac(flac, old(pos));
        && (r.Ok? <==> c.Ok?)
        && (r.Err? ==> r.error == c.error)
        && (r.Ok? ==> c.value == Container(magicOk, metadataBlocks, streamInfo, seekTable, vorbisComments, r.value))
    {
      ghost var start := pos;
      ParseMagic();
      ghost var blocksAt := pos;
      var blocks := ParseMetadataBlocks();
      if blocks.Err? {
        ParseFlacOfBlocksError(flac, start, blocksAt);
        return Err(blocks.error);
      }
      ghost var next := pos;
      streamInfo := GetMetadataBlockWithType(StreamInfo);
      seekTable := GetMetadataBlockWithType(SeekTable);
      vorbisComments := GetMetadataBlockWithType(VorbisComment);
      r := ParseFrameHeader();
      if r.Err? {
        ParseFlacOfFrameError(flac, start, blocksAt, metadataBlocks, next);
      } else {
        ParseFlacOfParts(flac, start, blocksAt, metadataBlocks, next, magicOk, streamInfo, seekTable, vorbisComments, r.value);
      }
    }
  }
}
