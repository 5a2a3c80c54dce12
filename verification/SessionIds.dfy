/** Deterministic ids of the sessions that carry the segments of one transfer. */
module SessionIds {
  import opened Words
  import opened Fnv

  /** "AirFerry.segment.v1", the domain tag of child ids. */
  const SEGMENT_TAG: Bytes :=
    [0x41, 0x69, 0x72, 0x46, 0x65, 0x72, 0x72, 0x79, 0x2e,
     0x73, 0x65, 0x67, 0x6d, 0x65, 0x6e, 0x74, 0x2e, 0x76, 0x31]

  function DeriveSegment(root: u128, index: u32): u128
  {
    Feed(FNV_OFFSET, SEGMENT_TAG + Be(root, W16) + Be(index, W4))
  }

  method DeriveSegmentId(root: u128, index: u32) returns (h: u128)
    ensures h == DeriveSegment(root, index)
  {
    var material := SEGMENT_TAG + Be(root, W16) + Be(index, W4);
    h := FNV_OFFSET;
    for i := 0 to |material|
      invariant h == Feed(FNV_OFFSET, material[..i])
    {
      assert material[..i + 1][..i] == material[..i];
      h := XorByte(h, material[i]);
      h := (h * FNV_PRIME) % U128;
    }
    assert material[..|material|] == material;
  }

  /** Two segments of one transfer never share a child id, whatever the root. */
  lemma ChildIdsDistinct(root: u128, i: u32, j: u32)
    requires i != j
    ensures DeriveSegment(root, i) != DeriveSegment(root, j)
  {
    var s := SEGMENT_TAG + Be(root, W16);
    FeedAppend(FNV_OFFSET, s, Be(i, W4));
    FeedAppend(FNV_OFFSET, s, Be(j, W4));
    if DeriveSegment(root, i) == DeriveSegment(root, j) {
      ShortTellApart(Feed(FNV_OFFSET, s), Be(i, W4), Be(j, W4));
      ReadBackU32(i);
      ReadBackU32(j);
    }
  }
}
