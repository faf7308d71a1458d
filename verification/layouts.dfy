/**
 * The fixed big-endian bit layouts of the FLAC container (RFC 9639): the
 * metadata block header (section 8.1), STREAMINFO (section 8.2), the seek
 * point (section 8.5) and the leading fields of a frame header (section 9.1).
 * Each layout has a decoder from its bytes, an encoder back to them, and
 * round trips in both directions. Fields are unpacked with explicit shifts
 * and masks (division and remainder by powers of two); the channel count
 * and bits-per-sample fields are kept as stored, without adding one.
 */
module Layouts {
  import opened Bytes

  // ---------------------------------------------------------------- block header

  /** METADATA_BLOCK_HEADER: a last-block flag, a 7-bit type and a 24-bit payload length. */
  datatype MetadataBlockHeader = MetadataBlockHeader(isLastBlock: bool, blockType: nat, length: nat)

  const BLOCK_HEADER_SIZE: nat := 4

  predicate ValidBlockHeader(h: MetadataBlockHeader) {
    h.blockType < 0x80 && h.length < 0x100_0000
  }

  /** Bit 31 is the last-block flag, bits 30..24 the type, bits 23..0 the length. */
  function DecodeBlockHeader(b: seq<byte>): (h: MetadataBlockHeader)
    requires |b| == BLOCK_HEADER_SIZE
    ensures ValidBlockHeader(h)
  {
    PowersOf256();
    BigEndianBound(b[1..4]);
    MetadataBlockHeader(b[0] >= 0x80, b[0] as nat % 0x80, BigEndian(b[1..4]))
  }

  function EncodeBlockHeader(h: MetadataBlockHeader): (b: seq<byte>)
    requires ValidBlockHeader(h)
    ensures |b| == BLOCK_HEADER_SIZE
  {
    PowersOf256();
    [((if h.isLastBlock then 0x80 else 0) + h.blockType) as byte] + ToBigEndian(h.length, 3)
  }

  /** Decoding inverts packing of the three header fields. */
  lemma {:induction false} BlockHeaderRoundTrip(h: MetadataBlockHeader)
    requires ValidBlockHeader(h)
    ensures DecodeBlockHeader(EncodeBlockHeader(h)) == h
  {
    PowersOf256();
    BigEndianOfToBigEndian(h.length, 3);
    assert EncodeBlockHeader(h)[1..4] == ToBigEndian(h.length, 3);
  }

  /** Every 4 bytes are the packing of the header they decode to. */
  lemma {:induction false} BlockHeaderBytesRoundTrip(b: seq<byte>)
    requires |b| == BLOCK_HEADER_SIZE
    ensures EncodeBlockHeader(DecodeBlockHeader(b)) == b
  {
    ToBigEndianOfBigEndian(b[1..4]);
    assert b == [b[0]] + b[1..4];
  }

  // ---------------------------------------------------------------- STREAMINFO

  /**
   * METADATA_BLOCK_STREAMINFO: 16, 16, 24, 24, 20, 3, 5, 36, 64 and 64 bits,
   * big-endian, 272 bits in all. The channel and bits-per-sample fields are
   * the raw stored codes.
   */
  datatype MetadataBlockStreamInfo = MetadataBlockStreamInfo(
    minBlockSize: nat,
    maxBlockSize: nat,
    minFrameSize: nat,
    maxFrameSize: nat,
    sampleRateHz: nat,
    numChannels: nat,
    bitsPerSample: nat,
    totalSampleCount: nat,
    md5Low: nat,
    md5High: nat)

  const STREAMINFO_SIZE: nat := 34

  /** Every field fits its declared width. */
  predicate ValidStreamInfo(si: MetadataBlockStreamInfo) {
    && si.minBlockSize < 0x1_0000
    && si.maxBlockSize < 0x1_0000
    && si.minFrameSize < 0x100_0000
    && si.maxFrameSize < 0x100_0000
    && si.sampleRateHz < 0x10_0000
    && si.numChannels < 0x8
    && si.bitsPerSample < 0x20
    && si.totalSampleCount < 0x10_0000_0000
    && si.md5Low < 0x1_0000_0000_0000_0000
    && si.md5High < 0x1_0000_0000_0000_0000
  }

  // Bytes 10..17 hold sample rate (20 bits), channels (3), bits per sample (5)
  // and total samples (36) as one 64-bit big-endian word.

  function PackedWord(sampleRateHz: nat, numChannels: nat, bitsPerSample: nat, totalSampleCount: nat): nat {
    ((sampleRateHz * 0x8 + numChannels) * 0x20 + bitsPerSample) * 0x10_0000_0000 + totalSampleCount
  }

  function DecodeStreamInfo(b: seq<byte>): (si: MetadataBlockStreamInfo)
    requires |b| == STREAMINFO_SIZE
    ensures ValidStreamInfo(si)
  {
    PowersOf256();
    BigEndianBound(b[0..2]);
    BigEndianBound(b[2..4]);
    BigEndianBound(b[4..7]);
    BigEndianBound(b[7..10]);
    BigEndianBound(b[10..18]);
    BigEndianBound(b[18..26]);
    BigEndianBound(b[26..34]);
    var w := BigEndian(b[10..18]);
    MetadataBlockStreamInfo(
      BigEndian(b[0..2]), BigEndian(b[2..4]), BigEndian(b[4..7]), BigEndian(b[7..10]),
      w / 0x1000_0000_0000, w / 0x200_0000_0000 % 0x8, w / 0x10_0000_0000 % 0x20, w % 0x10_0000_0000,
      BigEndian(b[18..26]), BigEndian(b[26..34]))
  }

  function EncodeStreamInfo(si: MetadataBlockStreamInfo): (b: seq<byte>)
    requires ValidStreamInfo(si)
    ensures |b| == STREAMINFO_SIZE
  {
    PowersOf256();
    ToBigEndian(si.minBlockSize, 2) + ToBigEndian(si.maxBlockSize, 2)
    + ToBigEndian(si.minFrameSize, 3) + ToBigEndian(si.maxFrameSize, 3)
    + ToBigEndian(PackedWord(si.sampleRateHz, si.numChannels, si.bitsPerSample, si.totalSampleCount), 8)
    + ToBigEndian(si.md5Low, 8) + ToBigEndian(si.md5High, 8)
  }

  lemma {:induction false} PackedWordFields(sr: nat, ch: nat, bps: nat, total: nat)
    requires sr < 0x10_0000 && ch < 0x8 && bps < 0x20 && total < 0x10_0000_0000
    ensures var w := PackedWord(sr, ch, bps, total);
      w < 0x1_0000_0000_0000_0000
      && w / 0x1000_0000_0000 == sr && w / 0x200_0000_0000 % 0x8 == ch
      && w / 0x10_0000_0000 % 0x20 == bps && w % 0x10_0000_0000 == total
  {
    var w := PackedWord(sr, ch, bps, total);
    assert w / 0x10_0000_0000 == (sr * 0x8 + ch) * 0x20 + bps;
    assert w / 0x200_0000_0000 == sr * 0x8 + ch;
  }

  lemma {:induction false} PackedWordOfFields(w: nat)
    requires w < 0x1_0000_0000_0000_0000
    ensures PackedWord(w / 0x1000_0000_0000, w / 0x200_0000_0000 % 0x8,
                       w / 0x10_0000_0000 % 0x20, w % 0x10_0000_0000) == w
  {
    assert w / 0x200_0000_0000 == (w / 0x1000_0000_0000) * 0x8 + w / 0x200_0000_0000 % 0x8;
    assert w / 0x10_0000_0000 == (w / 0x200_0000_0000) * 0x20 + w / 0x10_0000_0000 % 0x20;
  }

  /** Decoding inverts packing of all ten STREAMINFO fields. */
  lemma {:induction false} StreamInfoRoundTrip(si: MetadataBlockStreamInfo)
    requires ValidStreamInfo(si)
    ensures DecodeStreamInfo(EncodeStreamInfo(si)) == si
  {
    PowersOf256();
    var b := EncodeStreamInfo(si);
    var w := PackedWord(si.sampleRateHz, si.numChannels, si.bitsPerSample, si.totalSampleCount);
    PackedWordFields(si.sampleRateHz, si.numChannels, si.bitsPerSample, si.totalSampleCount);
    BigEndianOfToBigEndian(si.minBlockSize, 2);
    BigEndianOfToBigEndian(si.maxBlockSize, 2);
    BigEndianOfToBigEndian(si.minFrameSize, 3);
    BigEndianOfToBigEndian(si.maxFrameSize, 3);
    BigEndianOfToBigEndian(w, 8);
    BigEndianOfToBigEndian(si.md5Low, 8);
    BigEndianOfToBigEndian(si.md5High, 8);
    assert b[0..2] == ToBigEndian(si.minBlockSize, 2);
    assert b[2..4] == ToBigEndian(si.maxBlockSize, 2);
    assert b[4..7] == ToBigEndian(si.minFrameSize, 3);
    assert b[7..10] == ToBigEndian(si.maxFrameSize, 3);
    assert b[10..18] == ToBigEndian(w, 8);
    assert b[18..26] == ToBigEndian(si.md5Low, 8);
    assert b[26..34] == ToBigEndian(si.md5High, 8);
  }

  /** Every 34 bytes are the packing of the STREAMINFO they decode to. */
  lemma {:induction false} StreamInfoBytesRoundTrip(b: seq<byte>)
    requires |b| == STREAMINFO_SIZE
    ensures EncodeStreamInfo(DecodeStreamInfo(b)) == b
  {
    PowersOf256();
    var si := DecodeStreamInfo(b);
    var w := BigEndian(b[10..18]);
    PackedWordOfFields(w);
    assert PackedWord(si.sampleRateHz, si.numChannels, si.bitsPerSample, si.totalSampleCount) == w;
    StreamInfoSlices(b);
  }

  /** The 34 bytes are their seven big-endian fields, each re-encoded at its width. */
  lemma {:induction false} StreamInfoSlices(b: seq<byte>)
    requires |b| == STREAMINFO_SIZE
    ensures BigEndian(b[0..2]) < Pow256(2) && BigEndian(b[2..4]) < Pow256(2)
    ensures BigEndian(b[4..7]) < Pow256(3) && BigEndian(b[7..10]) < Pow256(3)
    ensures BigEndian(b[10..18]) < Pow256(8)
    ensures BigEndian(b[18..26]) < Pow256(8) && BigEndian(b[26..34]) < Pow256(8)
    ensures b == ToBigEndian(BigEndian(b[0..2]), 2) + ToBigEndian(BigEndian(b[2..4]), 2)
        + ToBigEndian(BigEndian(b[4..7]), 3) + ToBigEndian(BigEndian(b[7..10]), 3)
        + ToBigEndian(BigEndian(b[10..18]), 8)
        + ToBigEndian(BigEndian(b[18..26]), 8) + ToBigEndian(BigEndian(b[26..34]), 8)
  {
    ToBigEndianOfBigEndian(b[0..2]);
    ToBigEndianOfBigEndian(b[2..4]);
    ToBigEndianOfBigEndian(b[4..7]);
    ToBigEndianOfBigEndian(b[7..10]);
    ToBigEndianOfBigEndian(b[10..18]);
    ToBigEndianOfBigEndian(b[18..26]);
    ToBigEndianOfBigEndian(b[26..34]);
    SliceConcat(b, 0, 2, 4);
    SliceConcat(b, 0, 4, 7);
    SliceConcat(b, 0, 7, 10);
    SliceConcat(b, 0, 10, 18);
    SliceConcat(b, 0, 18, 26);
    SliceConcat(b, 0, 26, 34);
    assert b == b[0..34];
  }

  // ---------------------------------------------------------------- seek point

  /** A seek point: 64-bit first sample, 64-bit byte offset, 16-bit sample count. */
  datatype MetadataSeekPoint = MetadataSeekPoint(firstSampleNumber: nat, targetOffset: nat, targetNumSamples: nat)

  const SEEKPOINT_SIZE: nat := 18

  predicate ValidSeekPoint(p: MetadataSeekPoint) {
    p.firstSampleNumber < 0x1_0000_0000_0000_0000 && p.targetOffset < 0x1_0000_0000_0000_0000
    && p.targetNumSamples < 0x1_0000
  }

  function DecodeSeekPoint(b: seq<byte>): (p: MetadataSeekPoint)
    requires |b| == SEEKPOINT_SIZE
    ensures ValidSeekPoint(p)
  {
    PowersOf256();
    BigEndianBound(b[0..8]);
    BigEndianBound(b[8..16]);
    BigEndianBound(b[16..18]);
    MetadataSeekPoint(BigEndian(b[0..8]), BigEndian(b[8..16]), BigEndian(b[16..18]))
  }

  function EncodeSeekPoint(p: MetadataSeekPoint): (b: seq<byte>)
    requires ValidSeekPoint(p)
    ensures |b| == SEEKPOINT_SIZE
  {
    PowersOf256();
    ToBigEndian(p.firstSampleNumber, 8) + ToBigEndian(p.targetOffset, 8) + ToBigEndian(p.targetNumSamples, 2)
  }

  lemma {:induction false} SeekPointRoundTrip(p: MetadataSeekPoint)
    requires ValidSeekPoint(p)
    ensures DecodeSeekPoint(EncodeSeekPoint(p)) == p
  {
    PowersOf256();
    var b := EncodeSeekPoint(p);
    BigEndianOfToBigEndian(p.firstSampleNumber, 8);
    BigEndianOfToBigEndian(p.targetOffset, 8);
    BigEndianOfToBigEndian(p.targetNumSamples, 2);
    assert b[0..8] == ToBigEndian(p.firstSampleNumber, 8);
    assert b[8..16] == ToBigEndian(p.targetOffset, 8);
    assert b[16..18] == ToBigEndian(p.targetNumSamples, 2);
  }

  lemma {:induction false} SeekPointBytesRoundTrip(b: seq<byte>)
    requires |b| == SEEKPOINT_SIZE
    ensures EncodeSeekPoint(DecodeSeekPoint(b)) == b
  {
    ToBigEndianOfBigEndian(b[0..8]);
    ToBigEndianOfBigEndian(b[8..16]);
    ToBigEndianOfBigEndian(b[16..18]);
    assert b == b[0..8] + b[8..16] + b[16..18];
  }

  // ---------------------------------------------------------------- frame header

  /**
   * The first 32 bits of a frame header: 14-bit sync code, reserved bit,
   * blocking strategy bit, 4-bit block size code, 4-bit sample rate code,
   * 4-bit channel code, 3-bit sample size code, reserved bit.
   */
  datatype FrameHeaderRaw = FrameHeaderRaw(
    syncCode: nat,
    reserved1: nat,
    blockingStrategy: nat,
    blockSize: nat,
    sampleRate: nat,
    channel: nat,
    sampleSize: nat,
    reserved2: nat)

  const FRAME_HEADER_SIZE: nat := 4

  /** 0b11111111111110 */
  const SYNC_CODE: nat := 0x3FFE

  predicate ValidFrameHeaderRaw(f: FrameHeaderRaw) {
    f.syncCode < 0x4000 && f.reserved1 < 2 && f.blockingStrategy < 2 && f.blockSize < 0x10
    && f.sampleRate < 0x10 && f.channel < 0x10 && f.sampleSize < 0x8 && f.reserved2 < 2
  }

  function DecodeFrameHeaderRaw(b: seq<byte>): (f: FrameHeaderRaw)
    requires |b| == FRAME_HEADER_SIZE
    ensures ValidFrameHeaderRaw(f)
  {
    FrameHeaderRaw(
      b[0] as nat * 0x40 + b[1] as nat / 0x4, b[1] as nat / 0x2 % 0x2, b[1] as nat % 0x2,
      b[2] as nat / 0x10, b[2] as nat % 0x10,
      b[3] as nat / 0x10, b[3] as nat / 0x2 % 0x8, b[3] as nat % 0x2)
  }

  function EncodeFrameHeaderRaw(f: FrameHeaderRaw): (b: seq<byte>)
    requires ValidFrameHeaderRaw(f)
    ensures |b| == FRAME_HEADER_SIZE
  {
    [ (f.syncCode / 0x40) as byte,
      (f.syncCode % 0x40 * 0x4 + f.reserved1 * 0x2 + f.blockingStrategy) as byte,
      (f.blockSize * 0x10 + f.sampleRate) as byte,
      (f.channel * 0x10 + f.sampleSize * 0x2 + f.reserved2) as byte ]
  }

  /** The sync code is 0x3FFE exactly when the header starts FF F8..FB; F8 and F9 leave reserved1 clear. */
  lemma {:induction false} FrameHeaderSyncBytes(b: seq<byte>)
    requires |b| == FRAME_HEADER_SIZE
    ensures DecodeFrameHeaderRaw(b).syncCode == SYNC_CODE <==> b[0] == 0xFF && 0xF8 <= b[1] <= 0xFB
    ensures DecodeFrameHeaderRaw(b).reserved1 == 0 <==> b[1] % 4 < 2
    ensures DecodeFrameHeaderRaw(b).reserved2 == 0 <==> b[3] % 2 == 0
  {
  }

  lemma {:induction false} FrameHeaderRawRoundTrip(f: FrameHeaderRaw)
    requires ValidFrameHeaderRaw(f)
    ensures DecodeFrameHeaderRaw(EncodeFrameHeaderRaw(f)) == f
  {
    var e := EncodeFrameHeaderRaw(f);
    var b0, b1, b2, b3 := e[0] as nat, e[1] as nat, e[2] as nat, e[3] as nat;
    DigitSplit(f.syncCode / 0x40, f.syncCode % 0x40, 0x40);
    DigitSplit(f.syncCode % 0x40, f.reserved1 * 0x2 + f.blockingStrategy, 0x4);
    DigitSplit(f.syncCode % 0x40 * 0x2 + f.reserved1, f.blockingStrategy, 0x2);
    DigitSplit(f.syncCode % 0x40, f.reserved1, 0x2);
    DigitSplit(f.blockSize, f.sampleRate, 0x10);
    DigitSplit(f.channel, f.sampleSize * 0x2 + f.reserved2, 0x10);
    DigitSplit(f.channel * 0x8 + f.sampleSize, f.reserved2, 0x2);
    DigitSplit(f.channel, f.sampleSize, 0x8);
    assert b1 / 0x2 == f.syncCode % 0x40 * 0x2 + f.reserved1;
    assert b3 / 0x2 == f.channel * 0x8 + f.sampleSize;
  }

  lemma {:induction false} FrameHeaderRawBytesRoundTrip(b: seq<byte>)
    requires |b| == FRAME_HEADER_SIZE
    ensures EncodeFrameHeaderRaw(DecodeFrameHeaderRaw(b)) == b
  {
    var f := DecodeFrameHeaderRaw(b);
    var e := EncodeFrameHeaderRaw(f);
    var b0, b1, b3 := b[0] as nat, b[1] as nat, b[3] as nat;
    DigitSplit(b0, b1 / 0x4, 0x40);
    assert f.syncCode % 0x40 == b1 / 0x4;
    ThreeFields(b1, 0x4, 0x2);
    assert e[1] as nat == b1;
    ThreeFields(b3, 0x10, 0x8);
    assert e[3] as nat == b3;
  }

  /** A byte is its high bits, `k` middle codes of two bits' width each, and its low bit. */
  lemma {:induction false} ThreeFields(x: nat, high: nat, k: nat)
    requires (high, k) in {(0x4, 0x2), (0x10, 0x8)} && x < 0x100
    ensures x / high * high + x / 0x2 % k * 0x2 + x % 0x2 == x
  {
    if high == 0x4 {
      assert x / 0x2 == x / 0x4 * 0x2 + x / 0x2 % 0x2;
    } else {
      assert x / 0x2 == x / 0x10 * 0x8 + x / 0x2 % 0x8;
    }
  }

  /** A number written as a high part and a low digit in base `k` gives both back. */
  lemma {:induction false} DigitSplit(hi: nat, lo: nat, k: nat)
    requires k in {0x2, 0x4, 0x8, 0x10, 0x40} && lo < k
    ensures (hi * k + lo) / k == hi && (hi * k + lo) % k == lo
  {
    if k == 0x2 {
    } else if k == 0x4 {
    } else if k == 0x8 {
    } else if k == 0x10 {
    } else {
    }
  }
}
