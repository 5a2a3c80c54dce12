/** Descriptor payloads: object layout, file metadata and segment coordinates on the wire. */
module Descriptors {
  import opened Words
  import opened Metadata
  import Utf8

  const DESC_MAGIC: u8 := 0xD5
  const DESC_VERSION: u8 := 5
  const DESC_LEGACY_V4: u8 := 4
  const DESC_V3_VERSION: u8 := 3
  const DESC_FIXED_OVERHEAD: nat := 28
  const DESC_V2_TAIL_FIXED: nat := 13
  const DESC_V3_TAIL_FIXED: nat := 9
  const DESC_SEGMENT_TAIL_FIXED: nat := 104

  datatype DescriptorError = BufferTooShort(need: nat, have: nat)

  // ----- What is written

  function BlockBytes(b: SourceBlockMeta): (s: Bytes)
    ensures |s| == 16
  {
    Be(b.sbn, W4) + Be(b.numSourceSymbols, W4) + Be(b.blockLength, W8)
  }

  function BlocksBytes(blocks: seq<SourceBlockMeta>): (s: Bytes)
    ensures |s| == 16 * |blocks|
  {
    if blocks == [] then [] else BlocksBytes(blocks[..|blocks| - 1]) + BlockBytes(blocks[|blocks| - 1])
  }

  function SegmentBytes(segment: Option<SegmentMeta>): (s: Bytes)
    ensures |s| == TailSize(segment)
  {
    match segment
    case None => []
    case Some(g) =>
      Be(g.rootSessionId, W16) + Be(g.segmentIndex, W4) + Be(g.segmentCount, W4) + Be(g.originalOffset, W8)
      + Be(g.rootOriginalSize, W8) + g.rootSha256 + g.rawSha256
  }

  function TailSize(segment: Option<SegmentMeta>): nat
  {
    if segment.Some? then DESC_SEGMENT_TAIL_FIXED else 0
  }

  function Version(segment: Option<SegmentMeta>): u8
  {
    if segment.Some? then DESC_VERSION else DESC_V3_VERSION
  }

  function FixedBytes(m: ObjectMeta, version: u8): (s: Bytes)
    ensures |s| == DESC_FIXED_OVERHEAD
  {
    [DESC_MAGIC, version] + Be(|m.blocks| % 0x1_0000, W2) + Be(m.transferLength, W8) + Be(m.symbolSize, W4) + m.otiBytes
  }

  /** Everything but the filename. */
  function BareSize(m: ObjectMeta, segment: Option<SegmentMeta>): nat
  {
    DESC_FIXED_OVERHEAD + 16 * |m.blocks| + DESC_V2_TAIL_FIXED + DESC_V3_TAIL_FIXED + TailSize(segment)
  }

  function NameLimit(m: ObjectMeta, segment: Option<SegmentMeta>): nat
  {
    Min(Max(0, m.symbolSize - BareSize(m, segment)), 255)
  }

  /** The filename as it goes on the wire. */
  function WireName(m: ObjectMeta, fm: FileMeta, segment: Option<SegmentMeta>): Utf8.Utf8String
  {
    Utf8.Truncate(fm.filename, NameLimit(m, segment))
  }

  function FileBytes(name: Bytes, fm: FileMeta): (s: Bytes)
    requires |name| <= 255
    ensures |s| == |name| + DESC_V2_TAIL_FIXED + DESC_V3_TAIL_FIXED
  {
    [|name|] + name + Be(fm.originalSize, W8) + Be(fm.crc32, W4) + [fm.compression] + Be(fm.compressedSize, W8)
  }

  function Body(m: ObjectMeta, fm: FileMeta, segment: Option<SegmentMeta>): Bytes
  {
    FixedBytes(m, Version(segment)) + BlocksBytes(m.blocks) + FileBytes(WireName(m, fm, segment), fm)
    + SegmentBytes(segment)
  }

  function BuildPayload(m: ObjectMeta, fm: FileMeta, segment: Option<SegmentMeta>): Result<Bytes, DescriptorError>
  {
    var body := Body(m, fm, segment);
    if |body| > m.symbolSize then Err(BufferTooShort(|body|, m.symbolSize))
    else Ok(body + Zeros(m.symbolSize - |body|))
  }

  // ----- What is read

  function ReadBlocks(p: Bytes, o: nat, n: nat): (blocks: seq<SourceBlockMeta>)
    requires o + 16 * n <= |p|
    ensures |blocks| == n
  {
    if n == 0 then []
    else ReadBlocks(p, o, n - 1) + [ReadBlock(p, o + 16 * (n - 1))]
  }

  function ReadBlock(p: Bytes, o: nat): SourceBlockMeta
    requires o + 16 <= |p|
  {
    SourceBlockMeta(ReadU32(p[o..o + 4]), ReadU32(p[o + 4..o + 8]), ReadU64(p[o + 8..o + 16]))
  }

  /** File metadata starting at `o`, and where it ends. */
  function ReadFile(p: Bytes, o: nat, version: u8): Option<(FileMeta, nat)>
    requires o <= |p|
  {
    if version == 1 then Some((NO_FILE_META, o))
    else if |p| <= o then None
    else
      var n := p[o];
      if |p| < o + 1 + n + 12 then None
      else
        var name := p[o + 1..o + 1 + n];
        if !Utf8.Valid(name) then None
        else
          var q := o + 1 + n;
          var originalSize, crc32 := ReadU64(p[q..q + 8]), ReadU32(p[q + 8..q + 12]);
          if version >= DESC_V3_VERSION then
            if |p| < q + 12 + DESC_V3_TAIL_FIXED then None
            else Some((FileMeta(name, originalSize, crc32, p[q + 12], ReadU64(p[q + 13..q + 21]), true, true), q + 21))
          else Some((FileMeta(name, originalSize, crc32, COMPRESSION_NONE, originalSize, true, true), q + 12))
  }

  function ReadSegment(p: Bytes, o: nat): SegmentMeta
    requires o + DESC_SEGMENT_TAIL_FIXED <= |p|
  {
    SegmentMeta(ReadU128(p[o..o + 16]), ReadU32(p[o + 16..o + 20]), ReadU32(p[o + 20..o + 24]),
                ReadU64(p[o + 24..o + 32]), ReadU64(p[o + 32..o + 40]), p[o + 40..o + 72], p[o + 72..o + 104])
  }

  function BlockCount(p: Bytes): nat
    requires |p| >= 4
  {
    256 * (p[2] as nat) + (p[3] as nat)
  }

  /** Magic, version, and room for the declared block table. */
  predicate HeaderOk(p: Bytes)
  {
    && |p| >= DESC_FIXED_OVERHEAD && p[0] == DESC_MAGIC
    && 1 <= p[1] <= DESC_VERSION && p[1] != DESC_LEGACY_V4
    && |p| >= DESC_FIXED_OVERHEAD + 16 * BlockCount(p)
  }

  function ReadMeta(p: Bytes): (m: ObjectMeta)
    requires HeaderOk(p)
    ensures |m.blocks| == BlockCount(p)
  {
    ObjectMeta(ReadU64(p[4..12]), ReadU32(p[12..16]), p[16..28], ReadBlocks(p, DESC_FIXED_OVERHEAD, BlockCount(p)))
  }

  /** The parts after the block table. */
  function ReadRest(p: Bytes, o: nat): Option<(FileMeta, Option<SegmentMeta>)>
    requires HeaderOk(p) && o <= |p|
  {
    match ReadFile(p, o, p[1])
    case None => None
    case Some((fm, next)) =>
      if p[1] != DESC_VERSION then Some((fm, None))
      else if |p| < next + DESC_SEGMENT_TAIL_FIXED then None
      else Some((fm, Some(ReadSegment(p, next))))
  }

  function ParsePayload(p: Bytes): Option<DescriptorInfo>
  {
    if !HeaderOk(p) then None
    else
      match ReadRest(p, DESC_FIXED_OVERHEAD + 16 * BlockCount(p))
      case None => None
      case Some((fm, segment)) => Some(DescriptorInfo(ReadMeta(p), fm, segment))
  }

  // ----- The buffers and cursors of the implementation

  /** `buf` holds `done` and zeros after it. */
  ghost predicate Written(buf: array<u8>, done: Bytes)
    reads buf
  {
    |done| <= buf.Length && buf[..] == done + Zeros(buf.Length - |done|)
  }

  method Put(buf: array<u8>, ghost done: Bytes, o: nat, b: Bytes)
    requires Written(buf, done) && o == |done| && o + |b| <= buf.Length
    modifies buf
    ensures Written(buf, done + b)
  {
    forall i | 0 <= i < |b| {
      buf[o + i] := b[i];
    }
    assert buf[..] == done + b + Zeros(buf.Length - |done + b|);
  }

  method NameLength(name: Utf8.Utf8String, limit: nat) returns (n: nat)
    requires limit <= |name|
    ensures n <= limit && Utf8.Boundary(name, n)
    ensures forall i :: n < i <= limit ==> !Utf8.Boundary(name, i)
  {
    n := limit;
    while !Utf8.Boundary(name, n)
      invariant n <= limit
      invariant forall i :: n < i <= limit ==> !Utf8.Boundary(name, i)
      decreases n
    {
      n := n - 1;
    }
  }

  method WriteBlock(buf: array<u8>, ghost done: Bytes, o: nat, b: SourceBlockMeta)
    requires Written(buf, done) && o == |done| && o + 16 <= buf.Length
    modifies buf
    ensures Written(buf, done + BlockBytes(b))
  {
    Put(buf, done, o, Be(b.sbn, W4));
    Put(buf, done + Be(b.sbn, W4), o + 4, Be(b.numSourceSymbols, W4));
    Put(buf, done + Be(b.sbn, W4) + Be(b.numSourceSymbols, W4), o + 8, Be(b.blockLength, W8));
    assert done + Be(b.sbn, W4) + Be(b.numSourceSymbols, W4) + Be(b.blockLength, W8) == done + BlockBytes(b);
  }

  method WriteBlocks(buf: array<u8>, ghost done: Bytes, start: nat, blocks: seq<SourceBlockMeta>) returns (o: nat)
    requires Written(buf, done) && start == |done| && start + 16 * |blocks| <= buf.Length
    modifies buf
    ensures Written(buf, done + BlocksBytes(blocks)) && o == start + 16 * |blocks|
  {
    o := start;
    assert done + BlocksBytes(blocks[..0]) == done;
    for i := 0 to |blocks|
      invariant o == start + 16 * i
      invariant Written(buf, done + BlocksBytes(blocks[..i]))
    {
      WriteBlock(buf, done + BlocksBytes(blocks[..i]), o, blocks[i]);
      o := o + 16;
      assert blocks[..i + 1][..i] == blocks[..i];
      assert done + BlocksBytes(blocks[..i]) + BlockBytes(blocks[i]) == done + BlocksBytes(blocks[..i + 1]);
    }
    assert blocks[..|blocks|] == blocks;
  }

  method BuildPayloadBuffer(m: ObjectMeta, fm: FileMeta, segment: Option<SegmentMeta>)
    returns (r: Result<Bytes, DescriptorError>)
    ensures r == BuildPayload(m, fm, segment)
  {
    var available: nat := Max(0, m.symbolSize - BareSize(m, segment));
    var limit: nat := Min(Min(|fm.filename|, available), 255);
    var nameLen := NameLength(fm.filename, limit);
    var name := fm.filename[..nameLen];
    NameIsWireName(m, fm, segment, nameLen, limit);
    var bodyLen := BareSize(m, segment) + nameLen;
    assert bodyLen == |Body(m, fm, segment)|;
    if bodyLen > m.symbolSize {
      return Err(BufferTooShort(bodyLen, m.symbolSize));
    }
    var payload := WritePayload(m, name, fm, segment);
    return Ok(payload);
  }

  method WritePayload(m: ObjectMeta, name: Bytes, fm: FileMeta, segment: Option<SegmentMeta>) returns (payload: Bytes)
    requires |name| <= 255 && BareSize(m, segment) + |name| <= m.symbolSize
    ensures var body := FixedBytes(m, Version(segment)) + BlocksBytes(m.blocks) + FileBytes(name, fm) + SegmentBytes(segment);
            payload == body + Zeros(m.symbolSize - |body|)
  {
    var buf := new u8[m.symbolSize](_ => 0);
    assert buf[..] == [] + Zeros(buf.Length);
    var fixed := FixedBytes(m, Version(segment));
    Put(buf, [], 0, fixed);
    assert [] + fixed == fixed;
    var o := WriteBlocks(buf, fixed, DESC_FIXED_OVERHEAD, m.blocks);
    ghost var done := fixed + BlocksBytes(m.blocks);
    Put(buf, done, o, FileBytes(name, fm));
    o := o + |FileBytes(name, fm)|;
    Put(buf, done + FileBytes(name, fm), o, SegmentBytes(segment));
    payload := buf[..];
  }

  lemma NameIsWireName(m: ObjectMeta, fm: FileMeta, segment: Option<SegmentMeta>, n: nat, limit: nat)
    requires limit == Min(|fm.filename|, NameLimit(m, segment)) && n <= limit
    requires Utf8.Boundary(fm.filename, n)
    requires forall i :: n < i <= limit ==> !Utf8.Boundary(fm.filename, i)
    ensures WireName(m, fm, segment) == fm.filename[..n]
  {
  }

  method ReadBlockTable(payload: Bytes, numBlocks: nat) returns (blocks: seq<SourceBlockMeta>, o: nat)
    requires DESC_FIXED_OVERHEAD + numBlocks * 16 <= |payload|
    ensures blocks == ReadBlocks(payload, DESC_FIXED_OVERHEAD, numBlocks)
    ensures o == DESC_FIXED_OVERHEAD + 16 * numBlocks
  {
    blocks := [];
    o := DESC_FIXED_OVERHEAD;
    for i := 0 to numBlocks
      invariant o == DESC_FIXED_OVERHEAD + 16 * i
      invariant blocks == ReadBlocks(payload, DESC_FIXED_OVERHEAD, i)
    {
      var sbn := ReadU32(payload[o..o + 4]);
      o := o + 4;
      var k := ReadU32(payload[o..o + 4]);
      o := o + 4;
      var len := ReadU64(payload[o..o + 8]);
      o := o + 8;
      blocks := blocks + [SourceBlockMeta(sbn, k, len)];
    }
  }

  method ParseDescriptor(payload: Bytes) returns (r: Option<DescriptorInfo>)
    ensures r == ParsePayload(payload)
  {
    if |payload| < DESC_FIXED_OVERHEAD || payload[0] != DESC_MAGIC {
      return None;
    }
    var version := payload[1];
    if !(1 <= version <= DESC_VERSION) {
      return None;
    }
    if version == DESC_LEGACY_V4 {
      return None;
    }
    var numBlocks := BlockCount(payload);
    if |payload| < DESC_FIXED_OVERHEAD + numBlocks * 16 {
      return None;
    }
    assert HeaderOk(payload);
    var blocks, o := ReadBlockTable(payload, numBlocks);
    var m := ObjectMeta(ReadU64(payload[4..12]), ReadU32(payload[12..16]), payload[16..28], blocks);
    assert m == ReadMeta(payload);
    var rest := ParseRest(payload, o);
    if rest.None? {
      return None;
    }
    Combine(payload, m, o, rest.value.0, rest.value.1);
    return Some(DescriptorInfo(m, rest.value.0, rest.value.1));
  }

  method ParseRest(payload: Bytes, start: nat) returns (r: Option<(FileMeta, Option<SegmentMeta>)>)
    requires HeaderOk(payload) && start <= |payload|
    ensures r == ReadRest(payload, start)
  {
    var version := payload[1];
    var file := ReadFile(payload, start, version);
    if file.None? {
      return None;
    }
    var (fm, o) := file.value;
    if version != DESC_VERSION {
      return Some((fm, None));
    }
    if |payload| < o + DESC_SEGMENT_TAIL_FIXED {
      return None;
    }
    return Some((fm, Some(ReadSegment(payload, o))));
  }

  // ----- Building succeeds exactly when the fixed parts fit

  lemma BuildSucceedsExactly(m: ObjectMeta, fm: FileMeta, segment: Option<SegmentMeta>)
    ensures BuildPayload(m, fm, segment).Ok?
       <==> 50 + 16 * |m.blocks| + (if segment.Some? then 104 else 0) <= m.symbolSize
    ensures BuildPayload(m, fm, segment).Ok? ==> |BuildPayload(m, fm, segment).value| == m.symbolSize
  {
  }

  // ----- Round trip

  /** The piece of `p` that follows a known prefix. */
  lemma PieceAfter(p: Bytes, prefix: Bytes, piece: Bytes)
    requires prefix + piece <= p
    ensures p[|prefix|..|prefix| + |piece|] == piece && prefix <= p
  {
  }

  lemma {:induction false} BlocksReadBack(p: Bytes, prefix: Bytes, blocks: seq<SourceBlockMeta>)
    requires prefix + BlocksBytes(blocks) <= p
    ensures ReadBlocks(p, |prefix|, |blocks|) == blocks
    decreases |blocks|
  {
    if blocks != [] {
      var n := |blocks| - 1;
      var rest, b := blocks[..n], blocks[n];
      var q := prefix + BlocksBytes(rest);
      assert prefix + BlocksBytes(blocks) == q + BlockBytes(b);
      PieceAfter(p, q, BlockBytes(b));
      BlocksReadBack(p, prefix, rest);
      BlockReadsBack(p, q, b);
      assert blocks == rest + [b];
    }
  }

  lemma BlockReadsBack(p: Bytes, q: Bytes, b: SourceBlockMeta)
    requires q + BlockBytes(b) <= p
    ensures ReadBlock(p, |q|) == b
  {
    var q4 := q + Be(b.sbn, W4);
    var q8 := q4 + Be(b.numSourceSymbols, W4);
    assert q + BlockBytes(b) == q8 + Be(b.blockLength, W8);
    PieceAfter(p, q8, Be(b.blockLength, W8));
    PieceAfter(p, q4, Be(b.numSourceSymbols, W4));
    PieceAfter(p, q, Be(b.sbn, W4));
    ReadBackU32(b.sbn);
    ReadBackU32(b.numSourceSymbols);
    ReadBackU64(b.blockLength);
  }

  lemma FileReadsBack(p: Bytes, q: Bytes, name: Utf8.Utf8String, fm: FileMeta, version: u8)
    requires |name| <= 255 && version >= DESC_V3_VERSION && q + FileBytes(name, fm) <= p
    ensures ReadFile(p, |q|, version)
         == Some((fm.(filename := name, compressedSizeKnown := true, crc32Known := true), |q| + |FileBytes(name, fm)|))
  {
    var q1 := q + [|name|];
    var q2 := q1 + name;
    var q3 := q2 + Be(fm.originalSize, W8);
    var q4 := q3 + Be(fm.crc32, W4);
    var q5 := q4 + [fm.compression];
    assert q + FileBytes(name, fm) == q5 + Be(fm.compressedSize, W8);
    PieceAfter(p, q5, Be(fm.compressedSize, W8));
    PieceAfter(p, q4, [fm.compression]);
    PieceAfter(p, q3, Be(fm.crc32, W4));
    PieceAfter(p, q2, Be(fm.originalSize, W8));
    PieceAfter(p, q1, name);
    PieceAfter(p, q, [|name|]);
    assert p[|q|] == p[|q|..|q| + 1][0] == |name|;
    assert p[|q4|] == p[|q4|..|q4| + 1][0] == fm.compression;
    ReadBackU64(fm.originalSize);
    ReadBackU32(fm.crc32);
    ReadBackU64(fm.compressedSize);
  }

  lemma SegmentReadsBack(p: Bytes, q: Bytes, g: SegmentMeta)
    requires q + SegmentBytes(Some(g)) <= p
    ensures ReadSegment(p, |q|) == g
  {
    var q1 := q + Be(g.rootSessionId, W16);
    var q2 := q1 + Be(g.segmentIndex, W4);
    var q3 := q2 + Be(g.segmentCount, W4);
    var q4 := q3 + Be(g.originalOffset, W8);
    var q5 := q4 + Be(g.rootOriginalSize, W8);
    var q6 := q5 + g.rootSha256;
    assert q + SegmentBytes(Some(g)) == q6 + g.rawSha256;
    PieceAfter(p, q6, g.rawSha256);
    PieceAfter(p, q5, g.rootSha256);
    PieceAfter(p, q4, Be(g.rootOriginalSize, W8));
    PieceAfter(p, q3, Be(g.originalOffset, W8));
    PieceAfter(p, q2, Be(g.segmentCount, W4));
    PieceAfter(p, q1, Be(g.segmentIndex, W4));
    PieceAfter(p, q, Be(g.rootSessionId, W16));
    ReadBackU128(g.rootSessionId);
    ReadBackU32(g.segmentIndex);
    ReadBackU32(g.segmentCount);
    ReadBackU64(g.originalOffset);
    ReadBackU64(g.rootOriginalSize);
  }

  lemma FixedReadsBack(p: Bytes, m: ObjectMeta, version: u8)
    requires FixedBytes(m, version) <= p && |m.blocks| < 0x1_0000
    ensures p[0] == DESC_MAGIC && p[1] == version && BlockCount(p) == |m.blocks|
    ensures ReadU64(p[4..12]) == m.transferLength && ReadU32(p[12..16]) == m.symbolSize && p[16..28] == m.otiBytes
  {
    var q: Bytes := [DESC_MAGIC, version];
    var q4 := q + Be(|m.blocks|, W2);
    var q12 := q4 + Be(m.transferLength, W8);
    var q16 := q12 + Be(m.symbolSize, W4);
    assert FixedBytes(m, version) == q16 + m.otiBytes;
    PieceAfter(p, q16, m.otiBytes);
    PieceAfter(p, q12, Be(m.symbolSize, W4));
    PieceAfter(p, q4, Be(m.transferLength, W8));
    PieceAfter(p, q, Be(|m.blocks|, W2));
    assert p[..2] == q;
    assert p[0] == p[..2][0] && p[1] == p[..2][1];
    var n := |m.blocks|;
    assert Be(n, W2) == [n / 256, n % 256] by {
      assert Be(n / 256, 1) == Be(n / 256 / 256, 0) + [n / 256 % 256];
    }
    assert p[2] == p[2..4][0] && p[3] == p[2..4][1];
    ReadBackU64(m.transferLength);
    ReadBackU32(m.symbolSize);
  }

  lemma Combine(p: Bytes, m: ObjectMeta, o: nat, fm: FileMeta, segment: Option<SegmentMeta>)
    requires HeaderOk(p) && ReadMeta(p) == m
    requires o == DESC_FIXED_OVERHEAD + 16 * |m.blocks| && ReadRest(p, o) == Some((fm, segment))
    ensures ParsePayload(p) == Some(DescriptorInfo(m, fm, segment))
  {
  }

  lemma MetaReadsBack(p: Bytes, m: ObjectMeta, version: u8)
    requires FixedBytes(m, version) + BlocksBytes(m.blocks) <= p && |m.blocks| < 0x1_0000
    requires version == DESC_VERSION || version == DESC_V3_VERSION
    ensures HeaderOk(p) && p[1] == version && ReadMeta(p) == m
  {
    var q := FixedBytes(m, version);
    PieceAfter(p, q, BlocksBytes(m.blocks));
    FixedReadsBack(p, m, version);
    BlocksReadBack(p, q, m.blocks);
  }

  lemma RestReadsBack(p: Bytes, q: Bytes, name: Utf8.Utf8String, fm: FileMeta, segment: Option<SegmentMeta>)
    requires HeaderOk(p) && p[1] == Version(segment) && |name| <= 255
    requires q + FileBytes(name, fm) + SegmentBytes(segment) <= p
    ensures ReadRest(p, |q|)
         == Some((fm.(filename := name, compressedSizeKnown := true, crc32Known := true), segment))
  {
    var q3 := q + FileBytes(name, fm);
    PieceAfter(p, q3, SegmentBytes(segment));
    FileReadsBack(p, q, name, fm, p[1]);
    if segment.Some? {
      SegmentReadsBack(p, q3, segment.value);
    }
  }

  /** Parsing what was built returns the same metadata, with the filename as truncated and
      both known flags set. */
  lemma BuiltParsesBack(m: ObjectMeta, fm: FileMeta, segment: Option<SegmentMeta>)
    requires m.symbolSize <= MAX_SYMBOL_SIZE && BuildPayload(m, fm, segment).Ok?
    ensures var sent := fm.(filename := WireName(m, fm, segment), compressedSizeKnown := true, crc32Known := true);
            ParsePayload(BuildPayload(m, fm, segment).value) == Some(DescriptorInfo(m, sent, segment))
  {
    var p := BuildPayload(m, fm, segment).value;
    var q2 := FixedBytes(m, Version(segment)) + BlocksBytes(m.blocks);
    var name := WireName(m, fm, segment);
    assert q2 + FileBytes(name, fm) + SegmentBytes(segment) <= p;
    PartsParseBack(p, m, q2, name, fm, segment);
  }

  lemma PrefixesOf(p: Bytes, a: Bytes, b: Bytes, c: Bytes)
    requires a + b + c <= p
    ensures a + b <= p && a <= p
  {
    PieceAfter(p, a + b, c);
    PieceAfter(p, a, b);
  }

  lemma PartsParseBack(p: Bytes, m: ObjectMeta, q: Bytes, name: Utf8.Utf8String, fm: FileMeta, segment: Option<SegmentMeta>)
    requires q == FixedBytes(m, Version(segment)) + BlocksBytes(m.blocks) && |m.blocks| < 0x1_0000 && |name| <= 255
    requires q + FileBytes(name, fm) + SegmentBytes(segment) <= p
    ensures var sent := fm.(filename := name, compressedSizeKnown := true, crc32Known := true);
            ParsePayload(p) == Some(DescriptorInfo(m, sent, segment))
  {
    var sent := fm.(filename := name, compressedSizeKnown := true, crc32Known := true);
    PrefixesOf(p, q, FileBytes(name, fm), SegmentBytes(segment));
    MetaReadsBack(p, m, Version(segment));
    assert ReadRest(p, |q|) == Some((sent, segment)) by {
      RestReadsBack(p, q, name, fm, segment);
    }
    Combine(p, m, |q|, sent, segment);
  }

  // ----- Bytes after a parseable payload are ignored

  lemma SameSlice(p: Bytes, t: Bytes, lo: nat, hi: nat)
    requires lo <= hi <= |p|
    ensures (p + t)[lo..hi] == p[lo..hi]
  {
  }

  lemma {:induction false} BlocksIgnoreSuffix(p: Bytes, t: Bytes, o: nat, n: nat)
    requires o + 16 * n <= |p|
    ensures ReadBlocks(p + t, o, n) == ReadBlocks(p, o, n)
    decreases n
  {
    if n > 0 {
      BlocksIgnoreSuffix(p, t, o, n - 1);
      var a := o + 16 * (n - 1);
      SameSlice(p, t, a, a + 4);
      SameSlice(p, t, a + 4, a + 8);
      SameSlice(p, t, a + 8, a + 16);
    }
  }

  lemma FileIgnoresSuffix(p: Bytes, t: Bytes, o: nat, version: u8)
    requires o <= |p| && ReadFile(p, o, version).Some?
    ensures ReadFile(p + t, o, version) == ReadFile(p, o, version)
  {
    if version != 1 {
      var q := o + 1 + p[o];
      SameSlice(p, t, o + 1, q);
      SameSlice(p, t, q, q + 8);
      SameSlice(p, t, q + 8, q + 12);
      if version >= DESC_V3_VERSION {
        SameSlice(p, t, q + 13, q + 21);
      }
    }
  }

  lemma SegmentIgnoresSuffix(p: Bytes, t: Bytes, o: nat)
    requires o + DESC_SEGMENT_TAIL_FIXED <= |p|
    ensures ReadSegment(p + t, o) == ReadSegment(p, o)
  {
    SameSlice(p, t, o, o + 16);
    SameSlice(p, t, o + 16, o + 20);
    SameSlice(p, t, o + 20, o + 24);
    SameSlice(p, t, o + 24, o + 32);
    SameSlice(p, t, o + 32, o + 40);
    SameSlice(p, t, o + 40, o + 72);
    SameSlice(p, t, o + 72, o + 104);
  }

  lemma ParseIgnoresSuffix(p: Bytes, t: Bytes)
    requires ParsePayload(p).Some?
    ensures ParsePayload(p + t) == ParsePayload(p)
  {
    MetaIgnoresSuffix(p, t);
    var o := DESC_FIXED_OVERHEAD + 16 * BlockCount(p);
    RestIgnoresSuffix(p, t, o);
    var info := ParsePayload(p).value;
    Combine(p + t, info.meta, o, info.fileMeta, info.segment);
  }

  lemma MetaIgnoresSuffix(p: Bytes, t: Bytes)
    requires HeaderOk(p)
    ensures HeaderOk(p + t) && ReadMeta(p + t) == ReadMeta(p)
  {
    SameSlice(p, t, 4, 12);
    SameSlice(p, t, 12, 16);
    SameSlice(p, t, 16, 28);
    BlocksIgnoreSuffix(p, t, DESC_FIXED_OVERHEAD, BlockCount(p));
  }

  lemma RestIgnoresSuffix(p: Bytes, t: Bytes, o: nat)
    requires HeaderOk(p) && HeaderOk(p + t) && o <= |p| && ReadRest(p, o).Some?
    ensures ReadRest(p + t, o) == ReadRest(p, o)
  {
    FileIgnoresSuffix(p, t, o, p[1]);
    if p[1] == DESC_VERSION {
      SegmentIgnoresSuffix(p, t, ReadFile(p, o, p[1]).value.1);
    }
  }
}
