/** Object, file and segment metadata, and the gate every object layout must pass. */
module Metadata {
  import opened Words
  import opened Sums
  import Utf8

  const MAX_SOURCE_SYMBOLS_PER_BLOCK: int := 56403
  const MAX_OBJECT_BYTES: int := 0x200_0000     // 32 MiB
  const MAX_ORIGINAL_BYTES: int := 0x1000_0000  // 256 MiB
  const MAX_TOTAL_SOURCE_SYMBOLS: int := 524_288
  const MIN_SYMBOL_SIZE: int := 64
  const MAX_SYMBOL_SIZE: int := 65_528

  const COMPRESSION_NONE: u8 := 0

  /** The 12 wire bytes of the object transmission information. */
  type Oti = b: Bytes | |b| == 12 witness Zeros(12)

  datatype SourceBlockMeta = SourceBlockMeta(sbn: u32, numSourceSymbols: u32, blockLength: u64)

  datatype ObjectMeta = ObjectMeta(
    transferLength: u64,
    symbolSize: u32,
    otiBytes: Oti,
    blocks: seq<SourceBlockMeta>)

  datatype FileMeta = FileMeta(
    filename: Utf8.Utf8String,
    originalSize: u64,
    crc32: u32,
    compression: u8,
    compressedSize: u64,
    compressedSizeKnown: bool,
    crc32Known: bool)

  const NO_FILE_META: FileMeta := FileMeta([], 0, 0, COMPRESSION_NONE, 0, false, false)

  type Digest = b: Bytes | |b| == 32 witness Zeros(32)

  datatype SegmentMeta = SegmentMeta(
    rootSessionId: u128,
    segmentIndex: u32,
    segmentCount: u32,
    originalOffset: u64,
    rootOriginalSize: u64,
    rootSha256: Digest,
    rawSha256: Digest)

  datatype DescriptorInfo = DescriptorInfo(meta: ObjectMeta, fileMeta: FileMeta, segment: Option<SegmentMeta>)

  predicate ConfigOk(symbolSize: u32)
  {
    MIN_SYMBOL_SIZE <= symbolSize <= MAX_SYMBOL_SIZE && symbolSize % 8 == 0
  }

  /** The layout of sections 3.3.2 and 3.3.3 of RFC 6330. */
  function OtiTransferLength(o: Oti): nat { Unbe(o[0..5]) }
  function OtiSymbolSize(o: Oti): nat { Unbe(o[6..8]) }
  function OtiSourceBlocks(o: Oti): nat { o[8] }
  function OtiSubBlocks(o: Oti): nat { Unbe(o[9..11]) }
  function OtiAlignment(o: Oti): nat { o[11] }

  /** Source symbols per block. */
  function Ks(blocks: seq<SourceBlockMeta>): (s: seq<nat>)
    ensures |s| == |blocks|
  {
    seq(|blocks|, i requires 0 <= i < |blocks| => blocks[i].numSourceSymbols)
  }

  function TotalK(blocks: seq<SourceBlockMeta>): nat { Sum(Ks(blocks)) }

  predicate OtiAgrees(m: ObjectMeta)
  {
    && OtiSymbolSize(m.otiBytes) == m.symbolSize
    && OtiTransferLength(m.otiBytes) == m.transferLength
    && OtiSubBlocks(m.otiBytes) > 0
    && OtiAlignment(m.otiBytes) > 0
    && m.symbolSize % OtiAlignment(m.otiBytes) == 0
    && OtiSubBlocks(m.otiBytes) <= m.symbolSize / OtiAlignment(m.otiBytes)
    && m.otiBytes[5] == 0
    && OtiSourceBlocks(m.otiBytes) == |m.blocks|
  }

  predicate BlockOk(m: ObjectMeta, i: nat)
    requires i < |m.blocks|
  {
    && m.blocks[i].sbn == i
    && 0 < m.blocks[i].numSourceSymbols <= MAX_SOURCE_SYMBOLS_PER_BLOCK
    && m.blocks[i].blockLength == m.blocks[i].numSourceSymbols * m.symbolSize
  }

  /** What `ObjectMeta::validate` accepts. */
  predicate ValidMeta(m: ObjectMeta)
  {
    && ConfigOk(m.symbolSize)
    && OtiAgrees(m)
    && 0 < m.transferLength <= MAX_OBJECT_BYTES
    && 0 < |m.blocks| <= 255
    && (forall i :: 0 <= i < |m.blocks| ==> BlockOk(m, i))
    && TotalK(m.blocks) <= MAX_TOTAL_SOURCE_SYMBOLS
    && TotalK(m.blocks) * m.symbolSize <= MAX_OBJECT_BYTES + m.symbolSize * |m.blocks|
    && m.transferLength <= TotalK(m.blocks) * m.symbolSize
  }

  /** The block table part of `validate`: canonical blocks, and their totals. */
  method ScanBlocks(m: ObjectMeta) returns (ok: bool, totalBlockLen: nat, totalK: nat)
    ensures ok == (forall i :: 0 <= i < |m.blocks| ==> BlockOk(m, i))
    ensures ok ==> totalK == TotalK(m.blocks) && totalBlockLen == TotalK(m.blocks) * m.symbolSize
  {
    totalBlockLen, totalK := 0, 0;
    for i := 0 to |m.blocks|
      invariant forall j :: 0 <= j < i ==> BlockOk(m, j)
      invariant totalK == Sum(Ks(m.blocks)[..i]) && totalBlockLen == totalK * m.symbolSize
    {
      var b := m.blocks[i];
      if b.sbn != i || b.numSourceSymbols == 0 || b.numSourceSymbols > MAX_SOURCE_SYMBOLS_PER_BLOCK
         || b.blockLength != b.numSourceSymbols * m.symbolSize
      {
        assert !BlockOk(m, i);
        return false, totalBlockLen, totalK;
      }
      assert (totalK + b.numSourceSymbols) * m.symbolSize == totalK * m.symbolSize + b.blockLength;
      totalBlockLen := totalBlockLen + b.blockLength;
      totalK := totalK + b.numSourceSymbols;
      assert Ks(m.blocks)[..i + 1][..i] == Ks(m.blocks)[..i];
    }
    assert Ks(m.blocks)[..|m.blocks|] == Ks(m.blocks);
    ok := true;
  }

  method Validate(m: ObjectMeta) returns (ok: bool)
    ensures ok == ValidMeta(m)
  {
    if !ConfigOk(m.symbolSize) {
      return false;
    }
    var oti := m.otiBytes;
    if OtiSymbolSize(oti) == 0 || OtiSymbolSize(oti) != m.symbolSize || OtiTransferLength(oti) != m.transferLength {
      return false;
    }
    if OtiSubBlocks(oti) == 0 || OtiAlignment(oti) == 0 {
      return false;
    }
    if OtiSymbolSize(oti) % OtiAlignment(oti) != 0 || OtiSubBlocks(oti) > OtiSymbolSize(oti) / OtiAlignment(oti) {
      return false;
    }
    if oti[5] != 0 || m.transferLength == 0 || m.transferLength > MAX_OBJECT_BYTES {
      return false;
    }
    if m.blocks == [] || |m.blocks| > 256 || |m.blocks| > 255 || OtiSourceBlocks(oti) != |m.blocks| {
      return false;
    }
    var canonical, totalBlockLen, totalK := ScanBlocks(m);
    if !canonical || totalK > MAX_TOTAL_SOURCE_SYMBOLS {
      return false;
    }
    var paddingBudget := m.symbolSize * |m.blocks|;
    ok := totalBlockLen <= MAX_OBJECT_BYTES + paddingBudget && m.transferLength <= totalBlockLen;
  }
}
