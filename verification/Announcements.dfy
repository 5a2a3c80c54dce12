/** What the sender announces for a file, and for each segment of a larger one. */
module Announcements {
  import opened Words
  import opened Metadata
  import opened Segments
  import opened Senders
  import opened Splitters
  import opened EndToEnd
  import Gates
  import Offerings
  import SessionIds

  /** File metadata of `len` bytes of this file, as the sender fills it in. */
  predicate DescribesFile(fm: FileMeta, x: Transfer, len: nat)
  {
    && fm.filename == x.name && fm.originalSize == |x.payload| && fm.crc32 == x.crc32
    && fm.compression == 0 && fm.compressedSize == len && fm.compressedSizeKnown && fm.crc32Known
  }

  /** A file of at most one segment goes out whole, under the root id. */
  lemma WholeIsAnnounced(p: Plant, x: Transfer)
    requires x.Legal() && |x.payload| <= 33_488_904 && ConfigOk(p.config.symbolSize) && p.Suits(x)
    ensures 0 < x.Count()
    ensures ContentFor(p, x, 0).Ok? ==>
              var c := ContentFor(p, x, 0).value;
              && c.sessionId == x.root && c.segment.None? && DescribesFile(c.fileMeta, x, |x.payload|)
              && Carries(c, x.payload)
  {
    Gates.OffsetIs(1);
    CountIsOne(|x.payload|);
    ObjectFits(p, x, 0);
    PreparedIsValid(p.codec, p.layout, p.Object(x, 0), x.root, p.config, FileMetaFor(x, x.payload), None);
  }

  lemma CountIsOne(size: nat)
    requires 0 < size <= 33_488_904
    ensures SegmentCount(size) == 1
  {
  }

  /** Of a larger file, segment `i` carries the bytes from 33488904 * i on, at most 33488904 of them,
      under its child id, with its place in the file and the digests of the file and of itself. */
  lemma SegmentIsAnnounced(p: Plant, x: Transfer, i: u32)
    requires x.Legal() && |x.payload| > 33_488_904 && i < x.Count() && ConfigOk(p.config.symbolSize) && p.Suits(x)
    ensures var lo := 33_488_904 * i;
            var hi := Min(lo + 33_488_904, |x.payload|);
            && lo < hi
            && (ContentFor(p, x, i).Ok? ==>
                 var c := ContentFor(p, x, i).value;
                 var bytes := x.payload[lo..hi];
                 && c.sessionId == SessionIds.DeriveSegment(x.root, i)
                 && DescribesFile(c.fileMeta, x, hi - lo) && Carries(c, bytes)
                 && c.segment.Some?
                 && var g := c.segment.value;
                 && g.rootSessionId == x.root && g.segmentIndex == i && Offerings.Holds(g.segmentCount, |x.payload|)
                 && g.originalOffset == lo && g.rootOriginalSize == |x.payload|
                 && g.rootSha256 == x.sha(x.payload) && g.rawSha256 == x.sha(bytes))
  {
    Gates.OffsetIs(i);
    SliceIs(x.payload, i);
    SliceMetaIsValid(x, i);
    ObjectFits(p, x, i);
    Gates.CountExactly(|x.payload|, x.Count());
    MoreThanOne(|x.payload|);
    PreparedIsValid(p.codec, p.layout, p.Object(x, i), SessionIds.DeriveSegment(x.root, i), p.config,
                    FileMetaFor(x, p.Object(x, i)), Some(SegmentMetaFor(x, i)));
  }

  lemma MoreThanOne(size: nat)
    requires size > 33_488_904
    ensures SegmentCount(size) > 1
  {
  }

  lemma SliceIs(payload: Bytes, i: nat)
    requires payload != [] && i < SegmentCount(|payload|)
    ensures var lo := 33_488_904 * i;
            lo < |payload| && Slice(payload, i) == payload[lo..Min(lo + 33_488_904, |payload|)]
    ensures i * SEGMENT_RAW_BYTES == 33_488_904 * i
  {
    Gates.OffsetIs(i);
    Gates.OffsetIs(i + 1);
    SlicesAreCanonical(payload, i);
  }
}
