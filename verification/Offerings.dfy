/** What the assembler answers to every offer, check by check, and what it then holds. */
module Offerings {
  import opened Words
  import opened Metadata
  import opened Segments
  import opened Assemblers
  import Gates

  /** `count` segments of 33488904 bytes, the last one shorter, hold exactly `size` bytes. */
  predicate Holds(count: nat, size: nat)
  {
    33_488_904 * (count - 1) < size <= 33_488_904 * count
  }

  /** The descriptor's segment lies at its place in a stream of `size` bytes, within its range. */
  predicate InPlace(seg: SegmentMeta, fm: FileMeta, size: u64)
  {
    && seg.segmentIndex < seg.segmentCount && seg.rootOriginalSize == size
    && seg.originalOffset == 33_488_904 * seg.segmentIndex
    && fm.compressedSize <= 33_488_904 && seg.originalOffset + fm.compressedSize <= size
  }

  lemma RangeExactly(seg: SegmentMeta, fm: FileMeta, size: u64)
    requires 0 < seg.segmentCount <= 131_072 && Holds(seg.segmentCount, size)
    ensures RangeOk(seg, fm, size) <==> InPlace(seg, fm, size)
  {
    Gates.CountExactly(size, seg.segmentCount);
    Gates.OffsetIs(seg.segmentIndex);
    if seg.segmentIndex < seg.segmentCount {
      LengthIs(size, seg.segmentCount, seg.segmentIndex, fm.compressedSize);
    }
  }

  lemma LengthIs(size: nat, count: nat, i: nat, len: nat)
    requires i < count && Holds(count, size)
    ensures len <= CanonicalLength(size, i) <==> len <= 33_488_904 && 33_488_904 * i + len <= size
  {
    Gates.OffsetIs(i);
    assert 33_488_904 * i <= 33_488_904 * (count - 1);
  }

  /** The first descriptor starts an assembly of empty slots, or fails the first of four checks. */
  lemma StartExactly(seg: SegmentMeta, fm: FileMeta)
    ensures var n, size := seg.segmentCount, seg.rootOriginalSize;
            match Start(seg, fm)
            case Err(CountOutOfRange) => !(0 < n <= 131_072)
            case Err(EmptyRoot) => 0 < n <= 131_072 && size == 0
            case Err(InconsistentCount) => 0 < n <= 131_072 && size > 0 && !Holds(n, size)
            case Err(BadRange) => 0 < n <= 131_072 && Holds(n, size) && !InPlace(seg, fm, size)
            case Err(_) => false
            case Ok(a) =>
              && 0 < n <= 131_072 && Holds(n, size) && InPlace(seg, fm, size)
              && a.root.sessionId == seg.rootSessionId && a.root.sha256 == seg.rootSha256 && a.root.count == n
              && a.root.size == size && a.root.filename == fm.filename && a.root.originalSize == fm.originalSize
              && |a.segments| == |a.metas| == n && a.received == 0
              && forall i :: 0 <= i < n ==> a.segments[i].None? && a.metas[i].None?
  {
    if 0 < seg.segmentCount <= 131_072 {
      Gates.CountExactly(seg.rootOriginalSize, seg.segmentCount);
      if Holds(seg.segmentCount, seg.rootOriginalSize) {
        RangeExactly(seg, fm, seg.rootOriginalSize);
      }
    }
  }

  /** The offer belongs to this transfer. */
  predicate SameTransfer(a: Assembly, seg: SegmentMeta, fm: FileMeta)
  {
    && seg.rootSessionId == a.root.sessionId && seg.segmentCount == a.root.count
    && seg.rootSha256 == a.root.sha256 && fm.filename == a.root.filename
  }

  /** And carries what its descriptor says. */
  predicate Sound(sha: Bytes -> Digest, a: Assembly, seg: SegmentMeta, fm: FileMeta, bytes: Bytes)
  {
    SameTransfer(a, seg, fm) && InPlace(seg, fm, a.root.size) && |bytes| == fm.compressedSize && sha(bytes) == seg.rawSha256
  }

  /** Every answer, with the offers that get it; only a newly stored segment changes anything, and
      it fills its own slot. */
  lemma AddExactly(sha: Bytes -> Digest, a: Assembly, seg: SegmentMeta, fm: FileMeta, bytes: Bytes)
    requires Assemblers.Invariant(sha, a)
    ensures var r := Add(sha, a, seg, fm, bytes);
            match r.answer
            case Err(OtherRoot) => seg.rootSessionId != a.root.sessionId
            case Err(OtherCount) => seg.rootSessionId == a.root.sessionId && seg.segmentCount != a.root.count
            case Err(OtherDigest) =>
              && seg.rootSessionId == a.root.sessionId && seg.segmentCount == a.root.count
              && seg.rootSha256 != a.root.sha256
            case Err(OtherFilename) =>
              && seg.rootSessionId == a.root.sessionId && seg.segmentCount == a.root.count
              && seg.rootSha256 == a.root.sha256 && fm.filename != a.root.filename
            case Err(BadRange) => SameTransfer(a, seg, fm) && !InPlace(seg, fm, a.root.size)
            case Err(LengthMismatch) =>
              SameTransfer(a, seg, fm) && InPlace(seg, fm, a.root.size) && |bytes| != fm.compressedSize
            case Err(DigestMismatch) =>
              && SameTransfer(a, seg, fm) && InPlace(seg, fm, a.root.size) && |bytes| == fm.compressedSize
              && sha(bytes) != seg.rawSha256
            case Err(ConflictingDuplicate) =>
              && Sound(sha, a, seg, fm, bytes) && a.segments[seg.segmentIndex].Some?
              && a.metas[seg.segmentIndex] != Some(seg)
            case Err(_) => false
            case Ok(false) =>
              && Sound(sha, a, seg, fm, bytes) && a.segments[seg.segmentIndex].Some?
              && a.metas[seg.segmentIndex] == Some(seg)
            case Ok(true) => Sound(sha, a, seg, fm, bytes) && a.segments[seg.segmentIndex].None?
    ensures var r := Add(sha, a, seg, fm, bytes);
            r.next == if r.answer == Ok(true) && seg.segmentIndex < a.root.count
                      then Assembly(a.root, a.segments[seg.segmentIndex := Some(bytes)],
                                    a.metas[seg.segmentIndex := Some(seg)], a.received + 1)
                      else a
  {
    Gates.CountExactly(a.root.size, a.root.count);
    if SameTransfer(a, seg, fm) {
      RangeExactly(seg, fm, a.root.size);
      if seg.segmentIndex < a.root.count {
        LengthIs(a.root.size, a.root.count, seg.segmentIndex, |bytes|);
      }
    }
  }

  /** Bytes come out when every slot is filled, the stream is at most 256 MiB, and the segments add
      up to it: one after the other. */
  lemma ReassembledExactly(a: Assembly, out: Bytes)
    ensures Reassembled(a) == Some(out) <==>
              && (forall i :: 0 <= i < |a.segments| ==> a.segments[i].Some?)
              && a.root.size <= 268_435_456 && |out| == a.root.size
              && out == Concat(a.segments, |a.segments|)
  {
  }
}
