/** Segments of a large transfer: canonical ranges of the compressed stream. */
module Segments {
  import opened Words
  import opened Metadata
  import SessionIds

  /** A full segment, padded to any legal symbol size, still fits one object. */
  const SEGMENT_RAW_BYTES: int := MAX_OBJECT_BYTES - MAX_SYMBOL_SIZE
  const MAX_SEGMENT_COUNT: int := 131_072

  /** Segments a stream of `size` bytes is cut into. */
  function SegmentCount(size: nat): nat
  {
    if size == 0 then 0 else (size - 1) / SEGMENT_RAW_BYTES + 1
  }

  /** Length of segment `index` in a stream of `size` bytes. */
  function CanonicalLength(size: nat, index: nat): nat
  {
    Min(Max(0, size - index * SEGMENT_RAW_BYTES), SEGMENT_RAW_BYTES)
  }

  /** The coordinates name a canonical range, and the announced length lies within it. */
  predicate CanonicalRange(s: SegmentMeta, fm: FileMeta)
  {
    && 0 < s.segmentCount <= MAX_SEGMENT_COUNT
    && s.segmentIndex < s.segmentCount
    && s.rootOriginalSize > 0
    && SegmentCount(s.rootOriginalSize) == s.segmentCount
    && s.originalOffset == s.segmentIndex * SEGMENT_RAW_BYTES
    && s.originalOffset <= s.rootOriginalSize
    && fm.compressedSizeKnown && fm.compressedSize > 0
    && fm.compressedSize <= Min(s.rootOriginalSize - s.originalOffset, SEGMENT_RAW_BYTES)
  }

  /** What `SegmentMeta::validate` accepts for a child session. */
  predicate ValidSegment(s: SegmentMeta, child: u128, fm: FileMeta)
  {
    CanonicalRange(s, fm) && SessionIds.DeriveSegment(s.rootSessionId, s.segmentIndex) == child
  }
}
