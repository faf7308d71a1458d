/**
 * The writing side of the container: how a FLAC file that the parser reads
 * back is laid out. Each encoder is the partner of one decoder of the
 * Decoder module, and each lemma here says that the decoder, run on the
 * encoding wherever it sits in the file, returns exactly what was encoded
 * and stops where the encoding ends. A position parameter (`next`, `end`)
 * that a precondition fixes to the end of an encoding is there for the
 * verifier, as explained at `Bytes.ReadExactOfAt`.
 */
module Encoder {
  import opened Errors
  import opened Bytes
  import opened Utf8
  import opened Layouts
  import opened Decoder

  // ---------------------------------------------------------------- concatenation

  /** Byte strings written one after the other. */
  function Concat(pieces: seq<seq<byte>>): (b: seq<byte>)
    decreases |pieces|
  {
    if pieces == [] then [] else Concat(pieces[..|pieces| - 1]) + pieces[|pieces| - 1]
  }

  /** Where each piece starts when the pieces are written from `pos` on, and where the last ends. */
  function Offsets(pos: nat, pieces: seq<seq<byte>>): (offs: seq<nat>)
    ensures |offs| == |pieces| + 1
  {
    seq(|pieces| + 1, k requires 0 <= k <= |pieces| => pos + |Concat(pieces[..k])|)
  }

  /** Writing `a` then `b` is writing their pieces one after the other. */
  lemma {:induction false} ConcatAppend(a: seq<seq<byte>>, b: seq<seq<byte>>)
    ensures Concat(a + b) == Concat(a) + Concat(b)
    decreases |b|
  {
    if b == [] {
      assert a + b == a;
    } else {
      var init := b[..|b| - 1];
      assert (a + b)[..|a + b| - 1] == a + init;
      ConcatAppend(a, init);
    }
  }

  /** Where the concatenation is stored, piece `k` is stored at its offset. */
  lemma {:induction false} ConcatPiece(data: seq<byte>, pos: nat, pieces: seq<seq<byte>>, k: nat)
    requires At(data, pos, Concat(pieces)) && k < |pieces|
    ensures At(data, Offsets(pos, pieces)[k], pieces[k])
    ensures Offsets(pos, pieces)[k + 1] == Offsets(pos, pieces)[k] + |pieces[k]|
  {
    var before, after := pieces[..k], pieces[k + 1..];
    assert pieces[..k + 1] == before + [pieces[k]];
    assert pieces == before + [pieces[k]] + after;
    assert Concat([pieces[k]]) == pieces[k] by {
      assert [pieces[k]][..0] == [];
    }
    ConcatAppend(before, [pieces[k]]);
    ConcatAppend(before + [pieces[k]], after);
    AtConcat(data, pos, Concat(before) + pieces[k], Concat(after));
    AtConcat(data, pos, Concat(before), pieces[k]);
  }

  /**
   * Where the concatenation is stored, each piece is stored at its offset;
   * the offsets run from `pos` to the end of the concatenation.
   */
  lemma {:induction false} ConcatSplit(data: seq<byte>, pos: nat, pieces: seq<seq<byte>>) returns (offs: seq<nat>)
    requires At(data, pos, Concat(pieces))
    ensures |offs| == |pieces| + 1
    ensures offs[0] == pos && offs[|pieces|] == pos + |Concat(pieces)|
    ensures forall k {:trigger At(data, offs[k], pieces[k])} | 0 <= k < |pieces| ::
      At(data, offs[k], pieces[k]) && offs[k + 1] == offs[k] + |pieces[k]|
  {
    offs := Offsets(pos, pieces);
    assert pieces[..0] == [];
    assert pieces[..|pieces|] == pieces;
    forall k | 0 <= k < |pieces|
      ensures At(data, offs[k], pieces[k])
      ensures offs[k + 1] == offs[k] + |pieces[k]|
    {
      ConcatPiece(data, pos, pieces, k);
    }
  }

  // ---------------------------------------------------------------- Vorbis comment

  /** A string whose UTF-8 form fits a 32-bit length. */
  predicate ValidText(t: Text) {
    |Encode(t)| < 0x1_0000_0000
  }

  /** A 32-bit length, least significant byte first, then the UTF-8 bytes. */
  function EncodeText(t: Text): (b: seq<byte>)
    requires ValidText(t)
    ensures |b| == 4 + |Encode(t)|
  {
    ToUint32Le(|Encode(t)|) + Encode(t)
  }

  /** A length-prefixed string reads back as itself. */
  lemma {:induction false} ReadTextOfEncode(data: seq<byte>, pos: nat, t: Text, next: nat)
    requires ValidText(t) && At(data, pos, EncodeText(t)) && next == pos + |EncodeText(t)|
    ensures ReadText(data, pos) == Ok(Parsed(t, next))
  {
    TextParts(data, pos, t);
    DecodeOfEncode(t);
    ReadTextOfParts(data, pos, |Encode(t)|, t, next);
  }

  /** Where a length-prefixed string is stored, the length reads back and so do its bytes. */
  lemma {:induction false} TextParts(data: seq<byte>, pos: nat, t: Text)
    requires ValidText(t) && At(data, pos, EncodeText(t))
    ensures ReadUint32(data, pos) == Ok(|Encode(t)|)
    ensures ReadUpTo(data, pos + 4, |Encode(t)|) == Encode(t)
  {
    AtConcat(data, pos, ToUint32Le(|Encode(t)|), Encode(t));
    ReadUint32OfEncode(data, pos, |Encode(t)|);
    AtIsReadUpTo(data, pos + 4, Encode(t));
  }

  /** A stored 32-bit word reads back as its value. */
  lemma {:induction false} ReadUint32OfEncode(data: seq<byte>, pos: nat, n: nat)
    requires n < 0x1_0000_0000 && At(data, pos, ToUint32Le(n))
    ensures ReadUint32(data, pos) == Ok(n)
  {
    ReadExactOfAt(data, pos, ToUint32Le(n), pos);
  }

  /** A length that can be read, followed by that many bytes that decode, is a string read. */
  lemma {:induction false} ReadTextOfParts(data: seq<byte>, pos: nat, n: nat, t: Text, end: nat)
    requires ReadUint32(data, pos) == Ok(n) && |ReadUpTo(data, pos + 4, n)| == n
    requires Decode(ReadUpTo(data, pos + 4, n)) == Some(t) && end == pos + 4 + n
    ensures ReadText(data, pos) == Ok(Parsed(t, end))
  {
  }

  /** The comments' encodings, in order. */
  function CommentPieces(cs: seq<Text>): (pieces: seq<seq<byte>>)
    requires forall i | 0 <= i < |cs| :: ValidText(cs[i])
    ensures |pieces| == |cs|
    ensures forall i | 0 <= i < |cs| :: pieces[i] == EncodeText(cs[i])
  {
    seq(|cs|, i requires 0 <= i < |cs| => EncodeText(cs[i]))
  }

  /** The user comments, one length-prefixed string after the other. */
  function EncodeComments(cs: seq<Text>): seq<byte>
    requires forall i | 0 <= i < |cs| :: ValidText(cs[i])
  {
    Concat(CommentPieces(cs))
  }

  /** Comments read back one after the other from the offsets they were read at. */
  lemma {:induction false} UserCommentsOfReads(data: seq<byte>, cs: seq<Text>, offs: seq<nat>, m: nat)
    requires m <= |cs| && |offs| == |cs| + 1
    requires forall k {:trigger ReadText(data, offs[k])} | 0 <= k < |cs| ::
      ReadText(data, offs[k]) == Ok(Parsed(cs[k], offs[k + 1]))
    ensures UserCommentsAt(data, offs[0], m) == Ok(Parsed(cs[..m], offs[m]))
    decreases m
  {
    if m > 0 {
      UserCommentsOfReads(data, cs, offs, m - 1);
      assert ReadText(data, offs[m - 1]) == Ok(Parsed(cs[m - 1], offs[m]));
      assert cs[..m - 1] + [cs[m - 1]] == cs[..m];
      UserCommentsSnoc(data, offs[0], m, cs[..m - 1], cs[m - 1], cs[..m], offs[m - 1], offs[m]);
    }
  }

  /** Each stored comment reads back as itself and ends where the next starts. */
  lemma {:induction false} CommentsReadAt(data: seq<byte>, cs: seq<Text>, offs: seq<nat>)
    requires forall i | 0 <= i < |cs| :: ValidText(cs[i])
    requires |offs| == |cs| + 1
    requires forall k {:trigger At(data, offs[k], EncodeText(cs[k]))} | 0 <= k < |cs| ::
      At(data, offs[k], EncodeText(cs[k])) && offs[k + 1] == offs[k] + |EncodeText(cs[k])|
    ensures forall k {:trigger ReadText(data, offs[k])} | 0 <= k < |cs| ::
      ReadText(data, offs[k]) == Ok(Parsed(cs[k], offs[k + 1]))
  {
    forall k | 0 <= k < |cs|
      ensures ReadText(data, offs[k]) == Ok(Parsed(cs[k], offs[k + 1]))
    {
      ReadTextOfEncode(data, offs[k], cs[k], offs[k + 1]);
    }
  }

  /** Where encoded comments are stored, each reads back as itself, one after the other. */
  lemma {:induction false} CommentOffsets(data: seq<byte>, pos: nat, cs: seq<Text>) returns (offs: seq<nat>)
    requires forall i | 0 <= i < |cs| :: ValidText(cs[i])
    requires At(data, pos, EncodeComments(cs))
    ensures |offs| == |cs| + 1 && offs[0] == pos && offs[|cs|] == pos + |EncodeComments(cs)|
    ensures forall k {:trigger ReadText(data, offs[k])} | 0 <= k < |cs| ::
      ReadText(data, offs[k]) == Ok(Parsed(cs[k], offs[k + 1]))
  {
    var pieces := CommentPieces(cs);
    offs := ConcatSplit(data, pos, pieces);
    forall k | 0 <= k < |cs|
      ensures At(data, offs[k], EncodeText(cs[k])) && offs[k + 1] == offs[k] + |EncodeText(cs[k])|
    {
      assert pieces[k] == EncodeText(cs[k]);
    }
    CommentsReadAt(data, cs, offs);
  }

  /** Encoded comments read back in their stored order; the read ends at `end`, where the encoding ends. */
  lemma {:induction false} UserCommentsOfEncode(data: seq<byte>, pos: nat, cs: seq<Text>, end: nat)
    requires forall i | 0 <= i < |cs| :: ValidText(cs[i])
    requires At(data, pos, EncodeComments(cs)) && end == pos + |EncodeComments(cs)|
    ensures UserCommentsAt(data, pos, |cs|) == Ok(Parsed(cs, end))
  {
    var offs := CommentOffsets(data, pos, cs);
    UserCommentsOfReads(data, cs, offs, |cs|);
    assert cs[..|cs|] == cs;
  }

  /** The contents of a Vorbis comment block that can be written. */
  predicate ValidVorbisComment(vendor: Text, cs: seq<Text>) {
    ValidText(vendor) && |cs| < 0x1_0000_0000 && forall i | 0 <= i < |cs| :: ValidText(cs[i])
  }

  /** Vendor string, 32-bit comment count, then the comments (section 8.6 of RFC 9639). */
  function EncodeVorbisComment(vendor: Text, cs: seq<Text>): (b: seq<byte>)
    requires ValidVorbisComment(vendor, cs)
    ensures |b| >= 8
  {
    EncodeText(vendor) + ToUint32Le(|cs|) + EncodeComments(cs)
  }

  /**
   * Where a Vorbis comment block is stored: its vendor string, then at
   * `countAt` the count, then the comments, which end where the block ends.
   */
  lemma {:induction false} VorbisCommentLayout(data: seq<byte>, pos: nat, vendor: Text, cs: seq<Text>, end: nat)
    returns (countAt: nat)
    requires ValidVorbisComment(vendor, cs) && At(data, pos, EncodeVorbisComment(vendor, cs))
    requires end == pos + |EncodeVorbisComment(vendor, cs)|
    ensures At(data, pos, EncodeText(vendor)) && countAt == pos + |EncodeText(vendor)|
    ensures At(data, countAt, ToUint32Le(|cs|))
    ensures At(data, countAt + 4, EncodeComments(cs)) && end == countAt + 4 + |EncodeComments(cs)|
  {
    AtConcat3(data, pos, EncodeText(vendor), ToUint32Le(|cs|), EncodeComments(cs));
    countAt := pos + |EncodeText(vendor)|;
  }

  /** The vendor string, the count and the comments, each stored where the layout puts it, read back. */
  lemma {:induction false} VorbisCommentReads(data: seq<byte>, pos: nat, vendor: Text, cs: seq<Text>, countAt: nat, end: nat)
    requires ValidVorbisComment(vendor, cs)
    requires At(data, pos, EncodeText(vendor)) && countAt == pos + |EncodeText(vendor)|
    requires At(data, countAt, ToUint32Le(|cs|))
    requires At(data, countAt + 4, EncodeComments(cs)) && end == countAt + 4 + |EncodeComments(cs)|
    ensures ReadText(data, pos) == Ok(Parsed(vendor, countAt))
    ensures ReadUint32(data, countAt) == Ok(|cs|)
    ensures UserCommentsAt(data, countAt + 4, |cs|) == Ok(Parsed(cs, end))
  {
    ReadTextOfEncode(data, pos, vendor, countAt);
    ReadUint32OfEncode(data, countAt, |cs|);
    UserCommentsOfEncode(data, countAt + 4, cs, end);
  }

  /** A vendor string, a count and that many comments read one after the other form a Vorbis comment block. */
  lemma {:induction false} VorbisCommentOfParts(data: seq<byte>, pos: nat, vendor: Text, cs: seq<Text>, countAt: nat, end: nat)
    requires ReadText(data, pos) == Ok(Parsed(vendor, countAt))
    requires ReadUint32(data, countAt) == Ok(|cs|)
    requires UserCommentsAt(data, countAt + 4, |cs|) == Ok(Parsed(cs, end))
    ensures VorbisCommentAt(data, pos) == Ok(Parsed(VorbisCommentData(vendor, cs), end))
  {
  }

  /** A Vorbis comment block reads back as its vendor string and comments. */
  lemma {:induction false} VorbisCommentOfEncode(data: seq<byte>, pos: nat, vendor: Text, cs: seq<Text>, end: nat)
    requires ValidVorbisComment(vendor, cs) && At(data, pos, EncodeVorbisComment(vendor, cs))
    requires end == pos + |EncodeVorbisComment(vendor, cs)|
    ensures VorbisCommentAt(data, pos) == Ok(Parsed(VorbisCommentData(vendor, cs), end))
  {
    var countAt := VorbisCommentLayout(data, pos, vendor, cs, end);
    VorbisCommentReads(data, pos, vendor, cs, countAt, end);
    VorbisCommentOfParts(data, pos, vendor, cs, countAt, end);
  }

  // ---------------------------------------------------------------- seek table

  /** The seek points, 18 bytes each, in table order. */
  function EncodeSeekTable(points: seq<MetadataSeekPoint>): (b: seq<byte>)
    requires forall i | 0 <= i < |points| :: ValidSeekPoint(points[i])
    ensures |b| == SEEKPOINT_SIZE * |points|
    decreases |points|
  {
    if points == [] then []
    else EncodeSeekTable(points[..|points| - 1]) + EncodeSeekPoint(points[|points| - 1])
  }

  /** A stored seek table reads back as its points, as many as were written. */
  lemma {:induction false} SeekPointsOfEncode(data: seq<byte>, pos: nat, points: seq<MetadataSeekPoint>)
    requires forall i | 0 <= i < |points| :: ValidSeekPoint(points[i])
    requires At(data, pos, EncodeSeekTable(points))
    ensures SeekPointsAt(data, pos, |points|) == Ok(points)
    decreases |points|
  {
    if points != [] {
      var init, last := points[..|points| - 1], points[|points| - 1];
      assert init + [last] == points;
      assert |init| == |points| - 1;
      SeekTableSplit(data, pos, points);
      SeekPointsOfEncode(data, pos, init);
      SeekPointRoundTrip(last);
      SeekPointsSnoc(data, pos, |points|, init, EncodeSeekPoint(last));
    }
  }

  /** Where a seek table is stored, so are the points before the last, and the last is the last 18 bytes. */
  lemma {:induction false} SeekTableSplit(data: seq<byte>, pos: nat, points: seq<MetadataSeekPoint>)
    requires forall i | 0 <= i < |points| :: ValidSeekPoint(points[i])
    requires points != [] && At(data, pos, EncodeSeekTable(points))
    ensures At(data, pos, EncodeSeekTable(points[..|points| - 1]))
    ensures ReadExact(data, pos + SEEKPOINT_SIZE * (|points| - 1), SEEKPOINT_SIZE)
      == Ok(EncodeSeekPoint(points[|points| - 1]))
  {
    var init, last := points[..|points| - 1], points[|points| - 1];
    ReadExactAfter(data, pos, EncodeSeekTable(init), EncodeSeekPoint(last),
      pos + SEEKPOINT_SIZE * (|points| - 1), SEEKPOINT_SIZE);
  }

  // ---------------------------------------------------------------- blocks

  /** A payload whose fields fit their layouts. */
  predicate WritablePayload(d: MetadataBlockData) {
    match d
    case StreamInfoData(si) => ValidStreamInfo(si)
    case PaddingData(_) => true
    case SeekTableData(points) => forall i | 0 <= i < |points| :: ValidSeekPoint(points[i])
    case VorbisCommentData(vendor, cs) => ValidVorbisComment(vendor, cs)
  }

  /** The payload bytes; padding is written as zero bytes. */
  function EncodePayload(d: MetadataBlockData): seq<byte>
    requires WritablePayload(d)
  {
    match d
    case StreamInfoData(si) => EncodeStreamInfo(si)
    case PaddingData(n) => seq(n, _ => 0)
    case SeekTableData(points) => EncodeSeekTable(points)
    case VorbisCommentData(vendor, cs) => EncodeVorbisComment(vendor, cs)
  }

  /** A stored payload is decoded back by the decoder its header's type selects. */
  lemma {:induction false} PayloadOfEncode(data: seq<byte>, pos: nat, h: MetadataBlockHeader, d: MetadataBlockData)
    requires Consistent(MetadataBlock(h, d)) && WritablePayload(d) && At(data, pos, EncodePayload(d))
    ensures PayloadAt(data, pos, h).Ok? && PayloadAt(data, pos, h).value.value == d
  {
    match d
    case StreamInfoData(si) =>
      ReadExactOfAt(data, pos, EncodeStreamInfo(si), pos);
      StreamInfoRoundTrip(si);
    case PaddingData(_) =>
    case SeekTableData(points) =>
      SeekPointsOfEncode(data, pos, points);
    case VorbisCommentData(vendor, cs) =>
      VorbisCommentOfEncode(data, pos, vendor, cs, pos + |EncodeVorbisComment(vendor, cs)|);
  }

  /** A block a writer can emit: a header that fits, and a length that is exactly its payload's. */
  predicate WritableBlock(b: MetadataBlock) {
    Consistent(b) && ValidBlockHeader(b.header) && WritablePayload(b.data)
    && b.header.length == |EncodePayload(b.data)|
  }

  /** The block header, then the payload. */
  function EncodeBlock(b: MetadataBlock): (bytes: seq<byte>)
    requires WritableBlock(b)
    ensures |bytes| == BLOCK_HEADER_SIZE + b.header.length
  {
    EncodeBlockHeader(b.header) + EncodePayload(b.data)
  }

  /** A stored block reads back as itself, and the cursor ends where it ends. */
  lemma {:induction false} BlockAtOfEncode(data: seq<byte>, pos: nat, b: MetadataBlock, next: nat)
    requires WritableBlock(b) && At(data, pos, EncodeBlock(b)) && next == pos + |EncodeBlock(b)|
    ensures BlockAt(data, pos) == Ok(Parsed(b, next))
  {
    AtConcat(data, pos, EncodeBlockHeader(b.header), EncodePayload(b.data));
    ReadExactOfAt(data, pos, EncodeBlockHeader(b.header), pos);
    BlockHeaderRoundTrip(b.header);
    PayloadOfEncode(data, pos + BLOCK_HEADER_SIZE, b.header, b.data);
    BlockAtOfParts(data, pos, b, next);
  }

  /** The metadata of a file a writer can emit: every block writable, and only the last flagged last. */
  predicate WritableBlocks(blocks: seq<MetadataBlock>) {
    && |blocks| > 0
    && (forall i {:trigger WritableBlock(blocks[i])} | 0 <= i < |blocks| :: WritableBlock(blocks[i]))
    && (forall i | 0 <= i < |blocks| :: blocks[i].header.isLastBlock <==> i == |blocks| - 1)
  }

  /** The encodings of the blocks, in list order. */
  function BlockPieces(blocks: seq<MetadataBlock>): (pieces: seq<seq<byte>>)
    requires forall i {:trigger WritableBlock(blocks[i])} | 0 <= i < |blocks| :: WritableBlock(blocks[i])
    ensures |pieces| == |blocks|
    ensures forall i {:trigger pieces[i]} | 0 <= i < |blocks| :: pieces[i] == EncodeBlock(blocks[i])
  {
    seq(|blocks|, i requires 0 <= i < |blocks| => EncodeBlock(blocks[i]))
  }

  /** The metadata blocks, one after the other. */
  function EncodeBlocks(blocks: seq<MetadataBlock>): seq<byte>
    requires forall i {:trigger WritableBlock(blocks[i])} | 0 <= i < |blocks| :: WritableBlock(blocks[i])
  {
    Concat(BlockPieces(blocks))
  }

  /** Each stored block reads back as itself and ends where the next starts. */
  lemma {:induction false} BlocksReadAt(data: seq<byte>, blocks: seq<MetadataBlock>, offs: seq<nat>)
    requires forall i {:trigger WritableBlock(blocks[i])} | 0 <= i < |blocks| :: WritableBlock(blocks[i])
    requires |offs| == |blocks| + 1
    requires forall k {:trigger At(data, offs[k], EncodeBlock(blocks[k]))} | 0 <= k < |blocks| ::
      At(data, offs[k], EncodeBlock(blocks[k])) && offs[k + 1] == offs[k] + |EncodeBlock(blocks[k])|
    ensures forall k {:trigger BlockAt(data, offs[k])} | 0 <= k < |blocks| ::
      BlockAt(data, offs[k]) == Ok(Parsed(blocks[k], offs[k + 1]))
  {
    forall k | 0 <= k < |blocks|
      ensures BlockAt(data, offs[k]) == Ok(Parsed(blocks[k], offs[k + 1]))
    {
      BlockAtOfEncode(data, offs[k], blocks[k], offs[k + 1]);
    }
  }

  /** Where encoded blocks are stored, each reads back as itself, one after the other. */
  lemma {:induction false} BlockOffsets(data: seq<byte>, pos: nat, blocks: seq<MetadataBlock>) returns (offs: seq<nat>)
    requires forall i {:trigger WritableBlock(blocks[i])} | 0 <= i < |blocks| :: WritableBlock(blocks[i])
    requires At(data, pos, EncodeBlocks(blocks))
    ensures |offs| == |blocks| + 1 && offs[0] == pos && offs[|blocks|] == pos + |EncodeBlocks(blocks)|
    ensures forall k {:trigger BlockAt(data, offs[k])} | 0 <= k < |blocks| ::
      BlockAt(data, offs[k]) == Ok(Parsed(blocks[k], offs[k + 1]))
  {
    var pieces := BlockPieces(blocks);
    offs := ConcatSplit(data, pos, pieces);
    forall k | 0 <= k < |blocks|
      ensures At(data, offs[k], EncodeBlock(blocks[k])) && offs[k + 1] == offs[k] + |EncodeBlock(blocks[k])|
    {
      assert pieces[k] == EncodeBlock(blocks[k]);
    }
    BlocksReadAt(data, blocks, offs);
  }

  /** The block loop, run where the blocks are stored, returns exactly those blocks and stops at their end. */
  lemma {:induction false} BlocksFromOfEncode(data: seq<byte>, pos: nat, blocks: seq<MetadataBlock>, end: nat)
    requires WritableBlocks(blocks) && At(data, pos, EncodeBlocks(blocks))
    requires end == pos + |EncodeBlocks(blocks)|
    ensures BlocksFrom(data, pos) == Ok(Parsed(blocks, end))
  {
    var offs := BlockOffsets(data, pos, blocks);
    BlocksFromOfStoredAll(data, pos, blocks, offs, end);
  }

  // ---------------------------------------------------------------- the whole file

  /** A first frame header the parser accepts. */
  predicate WritableFrameHeader(f: FrameHeaderRaw) {
    ValidFrameHeaderRaw(f) && f.syncCode == SYNC_CODE && f.reserved1 == 0 && f.reserved2 == 0
  }

  /** Four signature bytes, the metadata blocks, the first frame header. */
  function EncodeFlac(magic: seq<byte>, blocks: seq<MetadataBlock>, f: FrameHeaderRaw): seq<byte>
    requires |magic| == |MAGIC| && WritableBlocks(blocks) && WritableFrameHeader(f)
  {
    magic + EncodeBlocks(blocks) + EncodeFrameHeaderRaw(f)
  }

  /**
   * The parser on a file that holds a signature, the encoded blocks and an
   * encoded first frame header back to back from its first byte.
   */
  lemma {:induction false} ParseFlacOfLayout(data: seq<byte>, magic: seq<byte>, blocks: seq<MetadataBlock>, f: FrameHeaderRaw, frameAt: nat)
    requires |magic| == |MAGIC| && WritableBlocks(blocks) && WritableFrameHeader(f)
    requires At(data, 0, magic) && At(data, |MAGIC|, EncodeBlocks(blocks))
    requires frameAt == |MAGIC| + |EncodeBlocks(blocks)| && At(data, frameAt, EncodeFrameHeaderRaw(f))
    ensures ParseFlac(data, 0) == Ok(Container(
      magic == MAGIC,
      blocks,
      FirstOfType(blocks, StreamInfo.Value()),
      FirstOfType(blocks, SeekTable.Value()),
      FirstOfType(blocks, VorbisComment.Value()),
      f))
  {
    AtIsReadUpTo(data, 0, magic);
    MagicMatchesExactly(magic);
    BlocksFromOfEncode(data, |MAGIC|, blocks, frameAt);
    ReadExactOfAt(data, frameAt, EncodeFrameHeaderRaw(f), frameAt);
    FrameHeaderRawRoundTrip(f);
    ParseFlacOfParts(data, 0, |MAGIC|, blocks, frameAt, magic == MAGIC,
      FirstOfType(blocks, StreamInfo.Value()), FirstOfType(blocks, SeekTable.Value()),
      FirstOfType(blocks, VorbisComment.Value()), f);
  }

  /**
   * A file laid out as the writer lays it out parses back to its blocks,
   * the first block of each looked-up type and its first frame header,
   * whatever audio follows. The signature is only reported: a file with
   * other signature bytes parses just the same, with `magicOk` false.
   */
  lemma {:induction false} ParseFlacOfEncode(magic: seq<byte>, blocks: seq<MetadataBlock>, f: FrameHeaderRaw, audio: seq<byte>)
    requires |magic| == |MAGIC| && WritableBlocks(blocks) && WritableFrameHeader(f)
    ensures ParseFlac(EncodeFlac(magic, blocks, f) + audio, 0) == Ok(Container(
      magic == MAGIC,
      blocks,
      FirstOfType(blocks, StreamInfo.Value()),
      FirstOfType(blocks, SeekTable.Value()),
      FirstOfType(blocks, VorbisComment.Value()),
      f))
  {
    var body, frame := EncodeBlocks(blocks), EncodeFrameHeaderRaw(f);
    AtThree(magic, body, frame, audio);
    ParseFlacOfLayout(magic + body + frame + audio, magic, blocks, f, |MAGIC| + |body|);
  }

  /** Four bytes match the signature exactly when they are the signature. */
  lemma {:induction false} MagicMatchesExactly(magic: seq<byte>)
    requires |magic| == |MAGIC|
    ensures MagicMatches(magic) <==> magic == MAGIC
  {
    if MagicMatches(magic) {
      assert forall i | 0 <= i < |MAGIC| :: magic[i] == MAGIC[i];
    }
  }
}
