/** Everything a descriptor or a checkpoint must satisfy, in numbers. */
module Gates {
  import opened Words
  import opened Sums
  import opened Metadata
  import opened ReceiverStates
  import opened Resumes
  import opened WireOrder
  import Descriptors
  import Frames
  import Receivers
  import Segments
  import SessionIds

  /** The transmission information (sections 3.3.2 and 3.3.3 of RFC 6330): five bytes of length, a
      reserved zero, two of symbol size, the number of blocks, two of sub-blocks, the alignment. */
  predicate OtiPasses(m: ObjectMeta)
  {
    var o := m.otiBytes;
    && 0x1_0000_0000 * (o[0] as nat) + N4(o, 1) == m.transferLength && o[5] == 0 && N2(o, 6) == m.symbolSize
    && o[8] == |m.blocks| && N2(o, 9) > 0 && o[11] > 0
    && m.symbolSize % o[11] == 0 && N2(o, 9) <= m.symbolSize / o[11]
  }

  /** Blocks numbered in order, of 1 to 56403 whole symbols. */
  predicate BlocksPass(m: ObjectMeta)
  {
    && 0 < |m.blocks| <= 255
    && forall i :: 0 <= i < |m.blocks| ==>
         && m.blocks[i].sbn == i && 0 < m.blocks[i].numSourceSymbols <= 56_403
         && m.blocks[i].blockLength == m.blocks[i].numSourceSymbols * m.symbolSize
  }

  /** The source symbols of all blocks. */
  function Symbols(m: ObjectMeta): nat
  {
    Sum(seq(|m.blocks|, i requires 0 <= i < |m.blocks| => m.blocks[i].numSourceSymbols as nat))
  }

  predicate ObjectPasses(m: ObjectMeta)
  {
    && 64 <= m.symbolSize <= 65_528 && m.symbolSize % 8 == 0
    && OtiPasses(m) && BlocksPass(m)
    && 0 < m.transferLength <= 33_554_432 && Symbols(m) <= 524_288
    && m.transferLength <= Symbols(m) * m.symbolSize <= 33_554_432 + m.symbolSize * |m.blocks|
  }

  lemma OtiReadsAs(m: ObjectMeta)
    ensures var o := m.otiBytes;
            && OtiTransferLength(o) == 0x1_0000_0000 * (o[0] as nat) + N4(o, 1)
            && OtiSymbolSize(o) == N2(o, 6) && OtiSubBlocks(o) == N2(o, 9)
  {
    var o := m.otiBytes;
    assert o[0..5] == [o[0]] + o[1..5];
    UnbeAddsFour([o[0]], o[1..5]);
    UnbeOfOne(o[0]);
    assert o[6..8] == [o[6]] + [o[7]] && o[9..11] == [o[9]] + [o[10]];
    UnbeOfOne(o[6]);
    UnbeOfOne(o[9]);
    UnbeSnoc([o[6]], o[7]);
    UnbeSnoc([o[9]], o[10]);
  }

  lemma UnbeOfOne(x: u8)
    ensures Unbe([x]) == x
  {
    UnbeSnoc([], x);
    assert [] + [x] == [x];
  }

  /** `validate` lets through exactly these layouts. */
  lemma ObjectPassesExactly(m: ObjectMeta)
    ensures ValidMeta(m) <==> ObjectPasses(m)
  {
    OtiReadsAs(m);
    assert Ks(m.blocks) == seq(|m.blocks|, i requires 0 <= i < |m.blocks| => m.blocks[i].numSourceSymbols as nat);
    if BlocksPass(m) {
      forall i | 0 <= i < |m.blocks|
        ensures BlockOk(m, i)
      {
      }
    }
    if forall i :: 0 <= i < |m.blocks| ==> BlockOk(m, i) {
      forall i | 0 <= i < |m.blocks|
        ensures m.blocks[i].sbn == i && 0 < m.blocks[i].numSourceSymbols <= 56_403
             && m.blocks[i].blockLength == m.blocks[i].numSourceSymbols * m.symbolSize
      {
        assert BlockOk(m, i);
      }
    }
  }

  /** A segment: at most 131072 of 33488904 bytes each, the last one shorter; this one at its place,
      not longer than its range, in the child session of its root. */
  predicate SegmentPasses(g: SegmentMeta, child: u128, fm: FileMeta)
  {
    RangePasses(g, fm) && SessionIds.DeriveSegment(g.rootSessionId, g.segmentIndex) == child
  }

  predicate RangePasses(g: SegmentMeta, fm: FileMeta)
  {
    && 0 < g.segmentCount <= 131_072 && g.segmentIndex < g.segmentCount
    && 33_488_904 * (g.segmentCount - 1) < g.rootOriginalSize <= 33_488_904 * g.segmentCount
    && g.originalOffset == 33_488_904 * g.segmentIndex
    && fm.compressedSizeKnown && 0 < fm.compressedSize <= 33_488_904
    && g.originalOffset + fm.compressedSize <= g.rootOriginalSize
  }

  lemma SegmentPassesExactly(g: SegmentMeta, child: u128, fm: FileMeta)
    ensures Segments.ValidSegment(g, child, fm) <==> SegmentPasses(g, child, fm)
  {
    RangePassesExactly(g, fm);
  }

  lemma RangePassesExactly(g: SegmentMeta, fm: FileMeta)
    ensures Segments.CanonicalRange(g, fm) <==> RangePasses(g, fm)
  {
    if g.segmentCount > 0 {
      CountExactly(g.rootOriginalSize, g.segmentCount);
    }
    OffsetIs(g.segmentIndex);
  }

  lemma OffsetIs(i: nat)
    ensures i * Segments.SEGMENT_RAW_BYTES == 33_488_904 * i && Segments.SEGMENT_RAW_BYTES == 33_488_904
  {
  }

  lemma CountExactly(size: nat, count: nat)
    requires count > 0
    ensures size > 0 && Segments.SegmentCount(size) == count <==> 33_488_904 * (count - 1) < size <= 33_488_904 * count
  {
  }

  /** File metadata: one of three compressions, a length within the object, and for a single object
      a size of at most 256 MiB, not zero when compressed. */
  predicate FilePasses(info: DescriptorInfo)
  {
    var fm := info.fileMeta;
    && fm.compression in {0, 1, 2}
    && (fm.compressedSizeKnown ==> fm.compressedSize <= info.meta.transferLength)
    && (info.segment.None? ==> fm.originalSize <= 268_435_456 && (fm.compression != 0 ==> fm.originalSize > 0))
  }

  /** A descriptor in a frame with this header. */
  predicate Passes(h: Frames.FrameHeader, info: DescriptorInfo)
  {
    && ObjectPasses(info.meta) && FilePasses(info)
    && h.symbolSize == info.meta.symbolSize && h.totalBlocks == |info.meta.blocks| && h.totalSymbols == Symbols(info.meta)
    && (info.segment.Some? ==> SegmentPasses(info.segment.value, h.sessionId, info.fileMeta))
  }

  /** What a session makes of a frame: foreign by its id, then a descriptor by its lowest flag, taken
      when it reads and passes, and data else. */
  lemma ClassifyExactly(sid: u128, f: Frames.Frame)
    ensures match Receivers.Classify(sid, f)
            case Foreign => f.header.sessionId != sid
            case BadDescriptor =>
              && f.header.sessionId == sid && f.header.flags % 2 == 1
              && (var read := Descriptors.ParsePayload(f.payload);
                  read.None? || !Passes(f.header, read.value))
            case Descriptor(info) =>
              && f.header.sessionId == sid && f.header.flags % 2 == 1
              && Descriptors.ParsePayload(f.payload) == Some(info) && Passes(f.header, info)
            case Data(sbn, esi, symbolSize, payload) =>
              && f.header.sessionId == sid && f.header.flags % 2 == 0
              && sbn == f.header.sbn && esi == f.header.esi && symbolSize == f.header.symbolSize && payload == f.payload
  {
    var read := Descriptors.ParsePayload(f.payload);
    if read.Some? {
      PassesExactly(f.header, read.value);
    }
  }

  lemma PassesExactly(h: Frames.FrameHeader, info: DescriptorInfo)
    ensures Receivers.Acceptable(h, info) <==> Passes(h, info)
  {
    ObjectPassesExactly(info.meta);
    var m := info.meta;
    assert Ks(m.blocks) == seq(|m.blocks|, i requires 0 <= i < |m.blocks| => m.blocks[i].numSourceSymbols as nat);
    if info.segment.Some? {
      SegmentPassesExactly(info.segment.value, h.sessionId, info.fileMeta);
    }
  }

  /** A checkpoint: a passing layout, id sets for no more blocks than it has, at most 1048576 ids of
      24 bits and as many symbols, each of an existing block and of the symbol size, together within
      64 MiB and a symbol for each block. */
  predicate CheckpointPasses(r: ResumeState)
  {
    && ObjectPasses(r.meta) && |r.received| <= |r.meta.blocks|
    && Sum(seq(|r.received|, i requires 0 <= i < |r.received| => |r.received[i]|)) <= 1_048_576
    && (forall i, e :: 0 <= i < |r.received| && e in r.received[i] ==> e < 0x100_0000)
    && |r.symbols| <= 1_048_576
    && (forall i :: 0 <= i < |r.symbols| ==>
         r.symbols[i].sbn < |r.meta.blocks| && r.symbols[i].esi < 0x100_0000 && |r.symbols[i].data| == r.meta.symbolSize)
    && Sum(seq(|r.symbols|, i requires 0 <= i < |r.symbols| => |r.symbols[i].data|))
       <= 67_108_864 + r.meta.symbolSize * |r.meta.blocks|
  }

  lemma CheckpointPassesExactly(r: ResumeState)
    ensures ValidResume(r) <==> CheckpointPasses(r)
  {
    ObjectPassesExactly(r.meta);
    assert Cards(r.received) == seq(|r.received|, i requires 0 <= i < |r.received| => |r.received[i]|);
    assert Lengths(r.symbols) == seq(|r.symbols|, i requires 0 <= i < |r.symbols| => |r.symbols[i].data|);
  }
}
