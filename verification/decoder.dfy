/**
 * What the FLAC parser computes, as functions of the file content `data` and
 * an absolute cursor `pos`. Each function mirrors one method of the parser:
 * it says what the method returns (or which exception it raises) and where
 * it leaves the cursor.
 */
module Decoder {
  import opened Errors
  import opened Bytes
  import opened Utf8
  import opened Layouts

  // ---------------------------------------------------------------- block types

  /** The members of the block type enumeration; codes 7..126 have none. */
  datatype MetadataBlockType =
    StreamInfo | Padding | Application | SeekTable | VorbisComment | CueSheet | Picture | Invalid
  {
    function Value(): nat {
      match this
      case StreamInfo => 0
      case Padding => 1
      case Application => 2
      case SeekTable => 3
      case VorbisComment => 4
      case CueSheet => 5
      case Picture => 6
      case Invalid => 127
    }
  }

  /** The enumeration lookup `MetadataBlockType(code)`: None where Python raises ValueError. */
  function BlockTypeOf(code: nat): (t: Option<MetadataBlockType>)
    ensures t.Some? ==> t.value.Value() == code
    ensures t.None? <==> 7 <= code && code != 127
  {
    if code == 0 then Some(StreamInfo)
    else if code == 1 then Some(Padding)
    else if code == 2 then Some(Application)
    else if code == 3 then Some(SeekTable)
    else if code == 4 then Some(VorbisComment)
    else if code == 5 then Some(CueSheet)
    else if code == 6 then Some(Picture)
    else if code == 127 then Some(Invalid)
    else None
  }

  // ---------------------------------------------------------------- decoded blocks

  /** The decoded payload of a block, one variant per payload decoder. */
  datatype MetadataBlockData =
    | StreamInfoData(info: MetadataBlockStreamInfo)
    | PaddingData(length: nat)
    | SeekTableData(seekPoints: seq<MetadataSeekPoint>)
    | VorbisCommentData(vendorString: Text, userComments: seq<Text>)

  datatype MetadataBlock = MetadataBlock(header: MetadataBlockHeader, data: MetadataBlockData)

  /**
   * A block's payload is the one its header's type calls for: padding keeps
   * exactly the header's length and a seek table holds length / 18 points.
   */
  predicate Consistent(b: MetadataBlock) {
    match b.data
    case StreamInfoData(_) => b.header.blockType == StreamInfo.Value()
    case PaddingData(n) => b.header.blockType == Padding.Value() && n == b.header.length
    case SeekTableData(points) =>
      b.header.blockType == SeekTable.Value() && |points| == b.header.length / SEEKPOINT_SIZE
    case VorbisCommentData(_, _) => b.header.blockType == VorbisComment.Value()
  }

  // ---------------------------------------------------------------- Vorbis comment

  /**
   * A 32-bit length or count of a Vorbis comment block: the four bytes at
   * `pos`, least significant first, or a truncation when fewer are left.
   */
  function ReadUint32(data: seq<byte>, pos: nat): (r: Result<nat>)
    ensures r.Ok? <==> pos + 4 <= |data|
    ensures r.Ok? ==> r.value < 0x1_0000_0000
    ensures r.Err? ==> r.error == Truncated
  {
    if pos + 4 <= |data| then
      Ok(Uint32Le([data[pos], data[pos + 1], data[pos + 2], data[pos + 3]]))
    else Err(Truncated)
  }

  /**
   * A length-prefixed string: a 32-bit length, then `read(length)` decoded as
   * UTF-8. The read may come back short at the end of the file; the string is
   * then what was there.
   */
  function ReadText(data: seq<byte>, pos: nat): (r: Result<Parsed<Text>>)
    ensures r.Ok? ==> pos + 4 <= r.value.next
    ensures r.Err? ==> r.error in {Truncated, InvalidUtf8}
  {
    var n :- ReadUint32(data, pos);
    var bytes := ReadUpTo(data, pos + 4, n);
    match Decode(bytes)
    case None => Err(InvalidUtf8)
    case Some(t) => Ok(Parsed(t, pos + 4 + |bytes|))
  }

  /**
   * What a string read means in the file: its UTF-8 form is exactly what
   * `read(length)` returned after the length, which is shorter than the
   * length only where the file ends, and the cursor stops right after it.
   * It fails with Truncated exactly when the length itself is cut short, and
   * with InvalidUtf8 exactly when the bytes read are not well-formed UTF-8.
   */
  lemma {:induction false} ReadTextIsStored(data: seq<byte>, pos: nat)
    ensures ReadText(data, pos).Ok? ==>
      var t := ReadText(data, pos).value;
      && ReadUint32(data, pos).Ok? && At(data, pos + 4, Encode(t.value))
      && Encode(t.value) == ReadUpTo(data, pos + 4, ReadUint32(data, pos).value)
      && (|Encode(t.value)| < ReadUint32(data, pos).value ==> |data| <= t.next)
      && t.next == pos + 4 + |Encode(t.value)|
    ensures ReadText(data, pos) == Err(Truncated) <==> pos + 4 > |data|
    ensures ReadText(data, pos) == Err(InvalidUtf8) <==>
      pos + 4 <= |data| && Decode(ReadUpTo(data, pos + 4, ReadUint32(data, pos).value)).None?
  {
    if pos + 4 <= |data| {
      var n := ReadUint32(data, pos).value;
      var bytes := ReadUpTo(data, pos + 4, n);
      if Decode(bytes).Some? {
        ReadUpToIsSlice(data, pos + 4, n);
        AtIsSlice(data, pos + 4, bytes);
      }
    }
  }

  /** The first `count` user comments starting at `pos`, in stored order. */
  function UserCommentsAt(data: seq<byte>, pos: nat, count: nat): (r: Result<Parsed<seq<Text>>>)
    ensures r.Ok? ==> |r.value.value| == count && pos + 4 * count <= r.value.next
    ensures r.Err? ==> r.error in {Truncated, InvalidUtf8}
    decreases count
  {
    if count == 0 then Ok(Parsed([], pos))
    else
      match UserCommentsAt(data, pos, count - 1)
      case Err(e) => Err(e)
      case Ok(earlier) =>
        match ReadText(data, earlier.next)
        case Err(e) => Err(e)
        case Ok(comment) => Ok(Parsed(earlier.value + [comment.value], comment.next))
  }

  /** One more comment: the ones before it, then one string where they end. */
  lemma {:induction false} UserCommentsStep(data: seq<byte>, pos: nat, count: nat)
    requires count > 0
    ensures var earlier := UserCommentsAt(data, pos, count - 1);
      && (earlier.Err? ==> UserCommentsAt(data, pos, count) == Err(earlier.error))
      && (earlier.Ok? ==>
        var comment := ReadText(data, earlier.value.next);
        && (comment.Err? ==> UserCommentsAt(data, pos, count) == Err(comment.error))
        && (comment.Ok? ==>
              UserCommentsAt(data, pos, count)
              == Ok(Parsed(earlier.value.value + [comment.value.value], comment.value.next))))
  {
  }

  /** The comment read where the comments `init` end is appended to them. */
  lemma {:induction false} UserCommentsSnoc(data: seq<byte>, pos: nat, count: nat, init: seq<Text>, last: Text,
                                           all: seq<Text>, p1: nat, p2: nat)
    requires count > 0 && UserCommentsAt(data, pos, count - 1) == Ok(Parsed(init, p1))
    requires ReadText(data, p1) == Ok(Parsed(last, p2)) && all == init + [last]
    ensures UserCommentsAt(data, pos, count) == Ok(Parsed(all, p2))
  {
  }

  /** Once reading the comments fails, reading more of them fails the same way. */
  lemma {:induction false} UserCommentsErrorPersists(data: seq<byte>, pos: nat, i: nat, count: nat)
    requires i <= count && UserCommentsAt(data, pos, i).Err?
    ensures UserCommentsAt(data, pos, count) == UserCommentsAt(data, pos, i)
    decreases count
  {
    if count > i {
      UserCommentsErrorPersists(data, pos, i, count - 1);
      UserCommentsStep(data, pos, count);
    }
  }

  /** `parse_vorbis_comment`: vendor string, comment count, then that many comments. */
  function VorbisCommentAt(data: seq<byte>, pos: nat): (r: Result<Parsed<MetadataBlockData>>)
    ensures r.Ok? ==> r.value.value.VorbisCommentData? && pos + 8 <= r.value.next
    ensures r.Err? ==> r.error in {Truncated, InvalidUtf8}
  {
    match ReadText(data, pos)
    case Err(e) => Err(e)
    case Ok(vendor) =>
      match ReadUint32(data, vendor.next)
      case Err(e) => Err(e)
      case Ok(count) =>
        match UserCommentsAt(data, vendor.next + 4, count)
        case Err(e) => Err(e)
        case Ok(comments) => Ok(Parsed(VorbisCommentData(vendor.value, comments.value), comments.next))
  }

  /** `VorbisCommentAt` once the vendor string and the count have been read. */
  lemma {:induction false} VorbisCommentSteps(data: seq<byte>, pos: nat)
    ensures ReadText(data, pos).Err? ==> VorbisCommentAt(data, pos) == Err(ReadText(data, pos).error)
    ensures ReadText(data, pos).Ok? ==>
      var vendor := ReadText(data, pos).value;
      var count := ReadUint32(data, vendor.next);
      && (count.Err? ==> VorbisCommentAt(data, pos) == Err(count.error))
      && (count.Ok? ==>
        var comments := UserCommentsAt(data, vendor.next + 4, count.value);
        && (comments.Err? ==> VorbisCommentAt(data, pos) == Err(comments.error))
        && (comments.Ok? ==>
              VorbisCommentAt(data, pos)
              == Ok(Parsed(VorbisCommentData(vendor.value, comments.value.value), comments.value.next))))
  {
  }

  // ---------------------------------------------------------------- seek table

  /**
   * `count` seek points read one after the other from `pos`, each from its
   * own 18-byte read; the first short read is a truncation.
   */
  function SeekPointsAt(data: seq<byte>, pos: nat, count: nat): (r: Result<seq<MetadataSeekPoint>>)
    ensures r.Ok? <==> count == 0 || pos + SEEKPOINT_SIZE * count <= |data|
    ensures r.Ok? ==> |r.value| == count
    ensures r.Err? ==> r.error == Truncated
    decreases count
  {
    if count == 0 then Ok([])
    else
      var init :- SeekPointsAt(data, pos, count - 1);
      var b :- ReadExact(data, pos + SEEKPOINT_SIZE * (count - 1), SEEKPOINT_SIZE);
      Ok(init + [DecodeSeekPoint(b)])
  }

  /** The `k`-th seek point is decoded from the 18 bytes at `pos + 18 * k`. */
  lemma {:induction false} SeekPointsAtIndex(data: seq<byte>, pos: nat, count: nat, k: nat)
    requires SeekPointsAt(data, pos, count).Ok? && k < count
    ensures pos + SEEKPOINT_SIZE * k + SEEKPOINT_SIZE <= |data|
    ensures SeekPointsAt(data, pos, count).value[k]
      == DecodeSeekPoint(data[pos + SEEKPOINT_SIZE * k..pos + SEEKPOINT_SIZE * k + SEEKPOINT_SIZE])
    decreases count
  {
    if k < count - 1 {
      SeekPointsAtInit(data, pos, count, k);
      SeekPointsAtIndex(data, pos, count - 1, k);
    } else {
      SeekPointsAtLast(data, pos, count, k);
    }
  }

  /** Reading one more seek point keeps the ones before it. */
  lemma {:induction false} SeekPointsAtInit(data: seq<byte>, pos: nat, count: nat, k: nat)
    requires SeekPointsAt(data, pos, count).Ok? && k < count - 1
    ensures SeekPointsAt(data, pos, count - 1).Ok?
    ensures SeekPointsAt(data, pos, count).value[k] == SeekPointsAt(data, pos, count - 1).value[k]
  {
  }

  /** The last seek point read comes from the last 18 bytes of the table. */
  lemma {:induction false} SeekPointsAtLast(data: seq<byte>, pos: nat, count: nat, k: nat)
    requires SeekPointsAt(data, pos, count).Ok? && k == count - 1
    ensures pos + SEEKPOINT_SIZE * k + SEEKPOINT_SIZE <= |data|
    ensures SeekPointsAt(data, pos, count).value[k]
      == DecodeSeekPoint(data[pos + SEEKPOINT_SIZE * k..pos + SEEKPOINT_SIZE * k + SEEKPOINT_SIZE])
  {
  }

  /** The seek point read where the first `count - 1` points end is appended to them. */
  lemma {:induction false} SeekPointsSnoc(data: seq<byte>, pos: nat, count: nat, init: seq<MetadataSeekPoint>, b: seq<byte>)
    requires count > 0 && SeekPointsAt(data, pos, count - 1) == Ok(init)
    requires ReadExact(data, pos + SEEKPOINT_SIZE * (count - 1), SEEKPOINT_SIZE) == Ok(b)
    ensures SeekPointsAt(data, pos, count) == Ok(init + [DecodeSeekPoint(b)])
  {
  }

  // ---------------------------------------------------------------- blocks

  /**
   * `parse_data_for_metadata_header`: the payload decoder chosen by the block
   * type, run at `pos` (the end of the header), and the cursor it stops at.
   * Decoders read from the file, not from the block: STREAMINFO always reads
   * 34 bytes and a Vorbis comment reads what its lengths say, whatever the
   * header length is. Padding reads nothing.
   */
  function PayloadAt(data: seq<byte>, pos: nat, h: MetadataBlockHeader): (r: Result<Parsed<MetadataBlockData>>)
    ensures r.Ok? ==> Consistent(MetadataBlock(h, r.value.value))
    ensures r.Err? && r.error.UnsupportedBlockType? ==> h.blockType !in {0, 1, 3, 4}
  {
    if h.blockType == StreamInfo.Value() then
      var b :- ReadExact(data, pos, STREAMINFO_SIZE);
      Ok(Parsed(StreamInfoData(DecodeStreamInfo(b)), pos + STREAMINFO_SIZE))
    else if h.blockType == SeekTable.Value() then
      var count := h.length / SEEKPOINT_SIZE;
      var points :- SeekPointsAt(data, pos, count);
      Ok(Parsed(SeekTableData(points), pos + SEEKPOINT_SIZE * count))
    else if h.blockType == VorbisComment.Value() then
      VorbisCommentAt(data, pos)
    else if h.blockType == Padding.Value() then
      Ok(Parsed(PaddingData(h.length), pos))
    else
      Err(UnsupportedBlockType(h.blockType))
  }

  /**
   * `parse_metadata_block`: a header at `pos`, the type lookup, the payload,
   * then a seek to the end of the block: the cursor ends at `pos + 4 + length`
   * however many bytes the payload decoder consumed.
   */
  function BlockAt(data: seq<byte>, pos: nat): (r: Result<Parsed<MetadataBlock>>)
    ensures r.Ok? ==> pos + BLOCK_HEADER_SIZE <= |data|
    ensures r.Ok? ==> r.value.value.header == DecodeBlockHeader(data[pos..pos + BLOCK_HEADER_SIZE])
    ensures r.Ok? ==> r.value.next == pos + BLOCK_HEADER_SIZE + r.value.value.header.length
    ensures r.Ok? ==> Consistent(r.value.value)
  {
    match ReadExact(data, pos, BLOCK_HEADER_SIZE)
    case Err(e) => Err(e)
    case Ok(hb) =>
      var h := DecodeBlockHeader(hb);
      if BlockTypeOf(h.blockType).None? then Err(ReservedBlockType(h.blockType))
      else
        match PayloadAt(data, pos + BLOCK_HEADER_SIZE, h)
        case Err(e) => Err(e)
        case Ok(payload) => Ok(Parsed(MetadataBlock(h, payload.value), pos + BLOCK_HEADER_SIZE + h.length))
  }

  /**
   * The block loop: blocks are decoded and appended in order until one has
   * its last-block flag set; a block type without a decoder ends the loop
   * before anything is appended for it, leaving the cursor just after its
   * header. Any other error aborts.
   */
  function BlocksFrom(data: seq<byte>, pos: nat): (r: Result<Parsed<seq<MetadataBlock>>>)
    ensures r.Ok? ==> forall i | 0 <= i < |r.value.value| - 1 :: !r.value.value[i].header.isLastBlock
    ensures r.Ok? ==> forall i | 0 <= i < |r.value.value| :: Consistent(r.value.value[i])
    ensures r.Err? ==> !r.error.UnsupportedBlockType?
    decreases if pos <= |data| then |data| - pos else 0
  {
    match BlockAt(data, pos)
    case Err(UnsupportedBlockType(_)) => Ok(Parsed([], pos + BLOCK_HEADER_SIZE))
    case Err(e) => Err(e)
    case Ok(Parsed(b, next)) =>
      if b.header.isLastBlock then Ok(Parsed([b], next))
      else
        var rest :- BlocksFrom(data, next);
        Ok(Parsed([b] + rest.value, rest.next))
  }

  /** The loop's result once `blocks` have already been appended. */
  function Prepend(blocks: seq<MetadataBlock>, r: Result<Parsed<seq<MetadataBlock>>>): Result<Parsed<seq<MetadataBlock>>> {
    match r
    case Ok(p) => Ok(Parsed(blocks + p.value, p.next))
    case Err(e) => Err(e)
  }

  lemma {:induction false} PrependNothing(r: Result<Parsed<seq<MetadataBlock>>>)
    ensures Prepend([], r) == r
  {
    if r.Ok? {
      assert [] + r.value.value == r.value.value;
    }
  }

  lemma {:induction false} PrependTwice(a: seq<MetadataBlock>, b: seq<MetadataBlock>, r: Result<Parsed<seq<MetadataBlock>>>)
    ensures Prepend(a, Prepend(b, r)) == Prepend(a + b, r)
  {
    if r.Ok? {
      assert a + (b + r.value.value) == a + b + r.value.value;
    }
  }

  /**
   * A block is its decoded header and the payload decoded after it; the
   * cursor skips `length` bytes, to `next`.
   */
  lemma {:induction false} BlockAtOfParts(data: seq<byte>, pos: nat, b: MetadataBlock, next: nat)
    requires ReadExact(data, pos, BLOCK_HEADER_SIZE).Ok?
    requires DecodeBlockHeader(ReadExact(data, pos, BLOCK_HEADER_SIZE).value) == b.header
    requires BlockTypeOf(b.header.blockType).Some?
    requires PayloadAt(data, pos + BLOCK_HEADER_SIZE, b.header).Ok?
    requires PayloadAt(data, pos + BLOCK_HEADER_SIZE, b.header).value.value == b.data
    requires next == pos + BLOCK_HEADER_SIZE + b.header.length
    ensures BlockAt(data, pos) == Ok(Parsed(b, next))
  {
    assert b == MetadataBlock(b.header, b.data);
  }

  /** A block flagged last ends the loop with itself. */
  lemma {:induction false} BlocksFromLast(data: seq<byte>, pos: nat, b: MetadataBlock, next: nat)
    requires BlockAt(data, pos) == Ok(Parsed(b, next)) && b.header.isLastBlock
    ensures BlocksFrom(data, pos) == Ok(Parsed([b], next))
  {
  }

  /** A block not flagged last is followed by the blocks the loop reads after it. */
  lemma {:induction false} BlocksFromCons(data: seq<byte>, pos: nat, b: MetadataBlock, next: nat, rest: seq<MetadataBlock>, end: nat)
    requires BlockAt(data, pos) == Ok(Parsed(b, next)) && !b.header.isLastBlock
    requires BlocksFrom(data, next) == Ok(Parsed(rest, end))
    ensures BlocksFrom(data, pos) == Ok(Parsed([b] + rest, end))
  {
  }

  /** A suffix of a list is its first element followed by the rest. */
  lemma {:induction false} SuffixCons(blocks: seq<MetadataBlock>, i: nat)
    requires i < |blocks|
    ensures blocks[i..] == [blocks[i]] + blocks[i + 1..]
    ensures i == |blocks| - 1 ==> blocks[i..] == [blocks[i]]
  {
  }

  /**
   * Blocks stored one after the other, block `k` read back at `offs[k]` and
   * ending at `offs[k + 1]`, with only the last one flagged last: the loop
   * started at block `i` returns exactly the blocks from `i` on, in order,
   * and stops at the end of the last.
   */
  lemma {:induction false} BlocksFromOfStored(data: seq<byte>, blocks: seq<MetadataBlock>, offs: seq<nat>, i: nat)
    requires |offs| == |blocks| + 1 && i < |blocks|
    requires forall k {:trigger BlockAt(data, offs[k])} | 0 <= k < |blocks| ::
      BlockAt(data, offs[k]) == Ok(Parsed(blocks[k], offs[k + 1]))
    requires forall i | 0 <= i < |blocks| :: blocks[i].header.isLastBlock <==> i == |blocks| - 1
    ensures BlocksFrom(data, offs[i]) == Ok(Parsed(blocks[i..], offs[|blocks|]))
    decreases |blocks| - i
  {
    SuffixCons(blocks, i);
    if i == |blocks| - 1 {
      BlocksFromLast(data, offs[i], blocks[i], offs[i + 1]);
    } else {
      BlocksFromOfStored(data, blocks, offs, i + 1);
      BlocksFromCons(data, offs[i], blocks[i], offs[i + 1], blocks[i + 1..], offs[|blocks|]);
    }
  }

  /** The loop run from the first of the stored blocks returns them all and stops at `end`, where the last ends. */
  lemma {:induction false} BlocksFromOfStoredAll(data: seq<byte>, pos: nat, blocks: seq<MetadataBlock>, offs: seq<nat>, end: nat)
    requires |offs| == |blocks| + 1 && |blocks| > 0 && offs[0] == pos && offs[|blocks|] == end
    requires forall k {:trigger BlockAt(data, offs[k])} | 0 <= k < |blocks| ::
      BlockAt(data, offs[k]) == Ok(Parsed(blocks[k], offs[k + 1]))
    requires forall i | 0 <= i < |blocks| :: blocks[i].header.isLastBlock <==> i == |blocks| - 1
    ensures BlocksFrom(data, pos) == Ok(Parsed(blocks, end))
  {
    BlocksFromOfStored(data, blocks, offs, 0);
    assert blocks[0..] == blocks;
  }

  /**
   * A block of a known type without a payload decoder (application, cue
   * sheet, picture, invalid) ends the loop: nothing is appended for it and
   * the cursor stays just after its header.
   */
  lemma {:induction false} BlocksFromStopsAtUnsupported(data: seq<byte>, pos: nat)
    requires pos + BLOCK_HEADER_SIZE <= |data|
    requires DecodeBlockHeader(data[pos..pos + BLOCK_HEADER_SIZE]).blockType in {2, 5, 6, 127}
    ensures BlocksFrom(data, pos) == Ok(Parsed([], pos + BLOCK_HEADER_SIZE))
  {
  }

  /**
   * A block whose type code is not in the enumeration (7..126) makes the
   * loop fail: the lookup raises before the payload is read, and the loop
   * catches only the error of a type without a decoder.
   */
  lemma {:induction false} BlocksFromFailsAtReserved(data: seq<byte>, pos: nat)
    requires pos + BLOCK_HEADER_SIZE <= |data|
    requires 7 <= DecodeBlockHeader(data[pos..pos + BLOCK_HEADER_SIZE]).blockType < 127
    ensures BlocksFrom(data, pos)
      == Err(ReservedBlockType(DecodeBlockHeader(data[pos..pos + BLOCK_HEADER_SIZE]).blockType))
  {
    assert ReadExact(data, pos, BLOCK_HEADER_SIZE) == Ok(data[pos..pos + BLOCK_HEADER_SIZE]);
  }

  /** A block header cut short by the end of the file makes the loop fail with Truncated. */
  lemma {:induction false} BlocksFromFailsAtEnd(data: seq<byte>, pos: nat)
    requires pos + BLOCK_HEADER_SIZE > |data|
    ensures BlocksFrom(data, pos) == Err(Truncated)
  {
  }

  /** Any error of a block other than a type without a decoder aborts the loop with that error. */
  lemma {:induction false} BlocksFromOfBlockError(data: seq<byte>, pos: nat)
    requires BlockAt(data, pos).Err? && !BlockAt(data, pos).error.UnsupportedBlockType?
    ensures BlocksFrom(data, pos) == Err(BlockAt(data, pos).error)
  {
  }

  /** `get_metadata_block_with_type`: the first block of the given type, in list order. */
  function FirstOfType(blocks: seq<MetadataBlock>, code: nat): (r: Option<MetadataBlock>)
    ensures r.Some? ==> r.value in blocks && r.value.header.blockType == code
  {
    FirstOfTypeFromIsFirst(blocks, code, 0);
    FirstOfTypeFrom(blocks, code, 0)
  }

  /** The scan of `FirstOfType`, from index `i` on. */
  function FirstOfTypeFrom(blocks: seq<MetadataBlock>, code: nat, i: nat): Option<MetadataBlock>
    requires i <= |blocks|
    decreases |blocks| - i
  {
    if i == |blocks| then None
    else if blocks[i].header.blockType == code then Some(blocks[i])
    else FirstOfTypeFrom(blocks, code, i + 1)
  }

  /** The scan from `i` finds the first block at or after `i` of the type, and nothing if there is none. */
  lemma {:induction false} FirstOfTypeFromIsFirst(blocks: seq<MetadataBlock>, code: nat, i: nat)
    requires i <= |blocks|
    ensures var r := FirstOfTypeFrom(blocks, code, i);
      && (r.None? <==> forall k | i <= k < |blocks| :: blocks[k].header.blockType != code)
      && (r.Some? ==> exists k | i <= k < |blocks| ::
            blocks[k] == r.value && blocks[k].header.blockType == code
            && forall j | i <= j < k :: blocks[j].header.blockType != code)
    decreases |blocks| - i
  {
    if i < |blocks| && blocks[i].header.blockType != code {
      FirstOfTypeFromIsFirst(blocks, code, i + 1);
    }
  }

  /**
   * The lookup returns nothing exactly when no block has the type, and
   * otherwise a block of that type with none of the type before it.
   */
  lemma {:induction false} FirstOfTypeIsFirst(blocks: seq<MetadataBlock>, code: nat)
    ensures var r := FirstOfType(blocks, code);
      && (r.None? <==> forall k | 0 <= k < |blocks| :: blocks[k].header.blockType != code)
      && (r.Some? ==> exists k | 0 <= k < |blocks| ::
            blocks[k] == r.value && blocks[k].header.blockType == code
            && forall j | 0 <= j < k :: blocks[j].header.blockType != code)
  {
    FirstOfTypeFromIsFirst(blocks, code, 0);
  }

  // ---------------------------------------------------------------- frame header

  /** `FrameHeader.validate_header`: reserved1 is checked before reserved2. */
  function ValidateHeader(f: FrameHeaderRaw): (r: Result<FrameHeaderRaw>)
    ensures r.Ok? <==> f.reserved1 == 0 && f.reserved2 == 0
    ensures r.Ok? ==> r.value == f
    ensures r.Err? ==> r.error == if f.reserved1 != 0 then Reserved1Set else Reserved2Set
  {
    if f.reserved1 != 0 then Err(Reserved1Set)
    else if f.reserved2 != 0 then Err(Reserved2Set)
    else Ok(f)
  }

  /** `parse_frame_header`: four bytes, the sync code check, then `validate_header`. */
  function FrameHeaderAt(data: seq<byte>, pos: nat): (r: Result<FrameHeaderRaw>)
    ensures r.Ok? ==> r.value.syncCode == SYNC_CODE && r.value.reserved1 == 0 && r.value.reserved2 == 0
  {
    var b :- ReadExact(data, pos, FRAME_HEADER_SIZE);
    var f := DecodeFrameHeaderRaw(b);
    if f.syncCode != SYNC_CODE then Err(BadSyncCode(f.syncCode))
    else ValidateHeader(f)
  }

  /**
   * The frame header check on the bytes themselves: accepted exactly when
   * they start FF F8 or FF F9 and the fourth byte is even. Anything but
   * FF F8..FB is a bad sync code, reported before a reserved bit; FF FA and
   * FF FB set the first reserved bit, reported before the second.
   */
  lemma {:induction false} FrameHeaderAtBytes(data: seq<byte>, pos: nat)
    ensures pos + FRAME_HEADER_SIZE > |data| ==> FrameHeaderAt(data, pos) == Err(Truncated)
    ensures pos + FRAME_HEADER_SIZE <= |data| ==>
      (FrameHeaderAt(data, pos).Ok? <==>
         data[pos] == 0xFF && (data[pos + 1] == 0xF8 || data[pos + 1] == 0xF9) && data[pos + 3] % 2 == 0)
    ensures pos + FRAME_HEADER_SIZE <= |data| && (data[pos] != 0xFF || data[pos + 1] < 0xF8 || data[pos + 1] > 0xFB) ==>
      FrameHeaderAt(data, pos).Err? && FrameHeaderAt(data, pos).error.BadSyncCode?
    ensures pos + FRAME_HEADER_SIZE <= |data| && data[pos] == 0xFF && (data[pos + 1] == 0xFA || data[pos + 1] == 0xFB) ==>
      FrameHeaderAt(data, pos) == Err(Reserved1Set)
    ensures pos + FRAME_HEADER_SIZE <= |data| && data[pos] == 0xFF && (data[pos + 1] == 0xF8 || data[pos + 1] == 0xF9)
              && data[pos + 3] % 2 == 1
            ==> FrameHeaderAt(data, pos) == Err(Reserved2Set)
  {
    if pos + FRAME_HEADER_SIZE <= |data| {
      var b := data[pos..pos + FRAME_HEADER_SIZE];
      assert ReadExact(data, pos, FRAME_HEADER_SIZE) == Ok(b);
      assert b[0] == data[pos] && b[1] == data[pos + 1] && b[3] == data[pos + 3];
      FrameHeaderSyncBytes(b);
    }
  }

  // ---------------------------------------------------------------- the whole parse

  /** "fLaC" */
  const MAGIC: seq<byte> := [0x66, 0x4C, 0x61, 0x43]

  /**
   * `parse_magic` compares the bytes it got with the signature, only as many
   * as it got; a mismatch is reported and parsing carries on.
   */
  predicate MagicMatches(m: seq<byte>) {
    |m| <= |MAGIC| && forall i | 0 <= i < |m| :: m[i] == MAGIC[i]
  }

  /**
   * The comparison accepts exactly the prefixes of the signature: a read cut
   * short by the end of the file, even an empty one, still matches.
   */
  lemma {:induction false} MagicMatchesIsPrefix(m: seq<byte>)
    ensures MagicMatches(m) <==> |m| <= |MAGIC| && m == MAGIC[..|m|]
  {
    if |m| <= |MAGIC| && m == MAGIC[..|m|] {
      forall i | 0 <= i < |m|
        ensures m[i] == MAGIC[i]
      {
        assert MAGIC[..|m|][i] == MAGIC[i];
      }
    }
  }

  /** What a successful parse leaves in the parser, with the checked first frame header. */
  datatype Container = Container(
    magicOk: bool,
    metadataBlocks: seq<MetadataBlock>,
    streamInfo: Option<MetadataBlock>,
    seekTable: Option<MetadataBlock>,
    vorbisComments: Option<MetadataBlock>,
    frameHeader: FrameHeaderRaw)

  /**
   * The parser's constructor, on a file whose cursor is at `start`: magic,
   * the block loop, the three lookups, the frame header.
   */
  function ParseFlac(data: seq<byte>, start: nat): (r: Result<Container>)
    ensures r.Ok? ==> forall i | 0 <= i < |r.value.metadataBlocks| :: Consistent(r.value.metadataBlocks[i])
    ensures r.Ok? ==> r.value.frameHeader.syncCode == SYNC_CODE
    ensures r.Err? ==> !r.error.UnsupportedBlockType?
  {
    var magic := ReadUpTo(data, start, |MAGIC|);
    match BlocksFrom(data, start + |magic|)
    case Err(e) => Err(e)
    case Ok(Parsed(blocks, next)) =>
      match FrameHeaderAt(data, next)
      case Err(e) => Err(e)
      case Ok(frame) =>
        Ok(Container(
          MagicMatches(magic),
          blocks,
          FirstOfType(blocks, StreamInfo.Value()),
          FirstOfType(blocks, SeekTable.Value()),
          FirstOfType(blocks, VorbisComment.Value()),
          frame))
  }

  /**
   * `ParseFlac` fails as the block loop does when the loop fails. In this and
   * the next two lemmas `blocksAt`, where the loop starts, is fixed by a
   * precondition; it is there for the verifier (see `Bytes.ReadExactOfAt`).
   */
  lemma {:induction false} ParseFlacOfBlocksError(data: seq<byte>, start: nat, blocksAt: nat)
    requires blocksAt == start + |ReadUpTo(data, start, |MAGIC|)|
    requires BlocksFrom(data, blocksAt).Err?
    ensures ParseFlac(data, start) == Err(BlocksFrom(data, blocksAt).error)
  {
  }

  /** `ParseFlac` fails as the frame header check does when the block loop has succeeded. */
  lemma {:induction false} ParseFlacOfFrameError(data: seq<byte>, start: nat, blocksAt: nat, blocks: seq<MetadataBlock>, next: nat)
    requires blocksAt == start + |ReadUpTo(data, start, |MAGIC|)|
    requires BlocksFrom(data, blocksAt) == Ok(Parsed(blocks, next))
    requires FrameHeaderAt(data, next).Err?
    ensures ParseFlac(data, start) == Err(FrameHeaderAt(data, next).error)
  {
  }

  /** `ParseFlac` once the block loop and the frame header check have succeeded: the parts, assembled. */
  lemma {:induction false} ParseFlacOfParts(data: seq<byte>, start: nat, blocksAt: nat, blocks: seq<MetadataBlock>, next: nat,
                         magicOk: bool, streamInfo: Option<MetadataBlock>, seekTable: Option<MetadataBlock>,
                         vorbisComments: Option<MetadataBlock>, frame: FrameHeaderRaw)
    requires blocksAt == start + |ReadUpTo(data, start, |MAGIC|)|
    requires magicOk == MagicMatches(ReadUpTo(data, start, |MAGIC|))
    requires BlocksFrom(data, blocksAt) == Ok(Parsed(blocks, next))
    requires streamInfo == FirstOfType(blocks, StreamInfo.Value())
    requires seekTable == FirstOfType(blocks, SeekTable.Value())
    requires vorbisComments == FirstOfType(blocks, VorbisComment.Value())
    requires FrameHeaderAt(data, next) == Ok(frame)
    ensures ParseFlac(data, start) == Ok(Container(magicOk, blocks, streamInfo, seekTable, vorbisComments, frame))
  {
  }

  /**
   * A file that ends within the signature bytes fails with Truncated: the
   * signature check only reports, and the first block header is then cut
   * short.
   */
  lemma {:induction false} ParseFlacOfShortFile(data: seq<byte>, start: nat)
    requires |data| < start + |MAGIC|
    ensures ParseFlac(data, start) == Err(Truncated)
  {
    ReadUpToIsSlice(data, start, |MAGIC|);
    var blocksAt := start + |ReadUpTo(data, start, |MAGIC|)|;
    BlocksFromFailsAtEnd(data, blocksAt);
  }
}
