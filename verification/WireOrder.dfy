/** Where everything lies on the wire, byte by byte. */
module WireOrder {
  import opened Words
  import opened Metadata
  import Crc32
  import Descriptors
  import Frames
  import Utf8

  /** The numbers that bytes spell, the most significant first. */
  function N2(b: Bytes, o: nat): nat
    requires o + 2 <= |b|
  {
    0x100 * (b[o] as nat) + b[o + 1]
  }

  function N4(b: Bytes, o: nat): nat
    requires o + 4 <= |b|
  {
    0x100_0000 * (b[o] as nat) + 0x1_0000 * (b[o + 1] as nat) + 0x100 * (b[o + 2] as nat) + b[o + 3]
  }

  function N8(b: Bytes, o: nat): nat
    requires o + 8 <= |b|
  {
    0x1_0000_0000 * N4(b, o) + N4(b, o + 4)
  }

  function N16(b: Bytes, o: nat): nat
    requires o + 16 <= |b|
  {
    0x1_0000_0000_0000_0000 * N8(b, o) + N8(b, o + 8)
  }

  lemma UnbeAddsFour(x: Bytes, y: Bytes)
    requires |y| == 4
    ensures Unbe(x + y) == 0x1_0000_0000 * Unbe(x) + N4(y, 0)
  {
    UnbeSnoc(x, y[0]);
    UnbeSnoc(x + [y[0]], y[1]);
    UnbeSnoc(x + [y[0]] + [y[1]], y[2]);
    UnbeSnoc(x + [y[0]] + [y[1]] + [y[2]], y[3]);
    assert x + y == x + [y[0]] + [y[1]] + [y[2]] + [y[3]];
  }

  lemma Reads4(b: Bytes, o: nat)
    requires o + 4 <= |b|
    ensures ReadU32(b[o..o + 4]) == N4(b, o)
  {
    assert [] + b[o..o + 4] == b[o..o + 4];
    UnbeAddsFour([], b[o..o + 4]);
  }

  lemma Reads8(b: Bytes, o: nat)
    requires o + 8 <= |b|
    ensures ReadU64(b[o..o + 8]) == N8(b, o)
  {
    Reads4(b, o);
    assert b[o..o + 8] == b[o..o + 4] + b[o + 4..o + 8];
    UnbeAddsFour(b[o..o + 4], b[o + 4..o + 8]);
  }

  lemma Reads16(b: Bytes, o: nat)
    requires o + 16 <= |b|
    ensures ReadU128(b[o..o + 16]) == N16(b, o)
  {
    Reads8(b, o);
    assert b[o..o + 12] == b[o..o + 8] + b[o + 8..o + 12];
    assert b[o..o + 16] == b[o..o + 12] + b[o + 12..o + 16];
    UnbeAddsFour(b[o..o + 8], b[o + 8..o + 12]);
    UnbeAddsFour(b[o..o + 12], b[o + 12..o + 16]);
  }

  // ----- Frames

  /** The header's fields at their offsets. */
  predicate HeaderAt(b: Bytes, h: Frames.FrameHeader)
    requires |b| >= 60
  {
    && b[3] == h.flags && N16(b, 4) == h.sessionId
    && N4(b, 20) == h.sbn && N4(b, 24) == h.esi && N4(b, 28) == h.totalBlocks && N4(b, 32) == h.totalSymbols
    && N4(b, 36) == h.symbolSize && N8(b, 40) == h.frameIndex && N8(b, 48) == h.timestampMs
    && N4(b, 56) == h.payloadCrc32
  }

  lemma FieldsAreAt(b: Bytes)
    requires |b| >= 60
    ensures HeaderAt(b, Frames.Fields(b))
  {
    Reads16(b, 4);
    Reads4(b, 20);
    Reads4(b, 24);
    Reads4(b, 28);
    Reads4(b, 32);
    Reads4(b, 36);
    Reads8(b, 40);
    Reads8(b, 48);
    Reads4(b, 56);
  }

  /** A printed frame: magic, version and flags, the header's numbers, the payload from byte 60,
      and the frame's checksum in the last four bytes. */
  lemma FrameLayout(f: Frames.Frame)
    ensures var b, n := Frames.WireBytes(f), |f.payload|;
            && |b| == 64 + n
            && b[0] == 0x45 && b[1] == 0x54 && b[2] == 1 && HeaderAt(b, f.header)
            && b[60..60 + n] == f.payload && N4(b, 60 + n) == f.frameCrc32
  {
    var b, n := Frames.WireBytes(f), |f.payload|;
    var rest := f.payload + Be(f.frameCrc32, W4);
    assert b == Frames.HeaderBytes(f.header) + rest;
    Frames.FieldsOfHeaderBytes(f.header, rest);
    assert b[..3][0] == 0x45 && b[..3][1] == 0x54 && b[..3][2] == 1;
    FieldsAreAt(b);
    assert b[60 + n..60 + n + 4] == Be(f.frameCrc32, W4);
    Reads4(b, 60 + n);
    ReadBackU32(f.frameCrc32);
  }

  predicate Marked(b: Bytes)
    requires |b| >= 64
  {
    b[0] == 0x45 && b[1] == 0x54
  }

  /** Magic, version and length are right. */
  predicate WellFramed(b: Bytes)
  {
    |b| >= 64 && Marked(b) && b[2] == 1 && |b| == N4(b, 36) + 64
  }

  /** What parsing answers, and on exactly which bytes: the first check that fails, in this order,
      or the numbers at their offsets. */
  lemma ParseExactly(b: Bytes)
    ensures match Frames.FromBytes(b)
            case Err(BufferTooShort(need, have)) => |b| < 64 && need == 64 && have == |b|
            case Err(BadMagic(magic)) => |b| >= 64 && !Marked(b) && magic == [b[0], b[1]]
            case Err(BadVersion(version)) => |b| >= 64 && Marked(b) && b[2] != 1 && version == b[2]
            case Err(LengthMismatch(expected, actual)) =>
              |b| >= 64 && Marked(b) && b[2] == 1 && expected == N4(b, 36) + 64 != |b| == actual
            case Err(PayloadCrcMismatch) => WellFramed(b) && Crc32.Checksum(b[60..|b| - 4]) != N4(b, 56)
            case Err(FrameCrcMismatch) =>
              && WellFramed(b) && Crc32.Checksum(b[60..|b| - 4]) == N4(b, 56)
              && Crc32.Checksum(b[..|b| - 4]) != N4(b, |b| - 4)
            case Ok(f) =>
              && WellFramed(b) && Crc32.Checksum(b[60..|b| - 4]) == N4(b, 56)
              && Crc32.Checksum(b[..|b| - 4]) == N4(b, |b| - 4)
              && HeaderAt(b, f.header) && f.payload == b[60..|b| - 4] && f.frameCrc32 == N4(b, |b| - 4)
  {
    if |b| >= 64 {
      assert b[..2] == [b[0], b[1]];
      FieldsAreAt(b);
      Reads4(b, |b| - 4);
      assert b[|b| - 4..] == b[|b| - 4..|b| - 4 + 4];
    }
  }

  // ----- Descriptor payloads

  /** Where the part after the block table begins. */
  function TableEnd(p: Bytes): nat
    requires |p| >= 4
  {
    28 + 16 * N2(p, 2)
  }

  /** Magic, a version this reader knows, and a whole block table. */
  predicate HasTable(p: Bytes)
  {
    |p| >= 28 && p[0] == 0xD5 && p[1] in {1, 2, 3, 5} && |p| >= TableEnd(p)
  }

  /** A length byte, that many bytes of text, and what this version puts after them. */
  predicate HasFile(p: Bytes, o: nat)
  {
    && o < |p| && |p| >= 4
    && var end := o + 1 + p[o];
    && |p| >= end + 12 && Utf8.Valid(p[o + 1..end])
    && (p[1] >= 3 ==> |p| >= end + 21)
    && (p[1] == 5 ==> |p| >= end + 125)
  }

  predicate Readable(p: Bytes)
  {
    HasTable(p) && (p[1] != 1 ==> HasFile(p, TableEnd(p)))
  }

  /** The object's numbers, transmission information and blocks at their offsets. */
  predicate MetaAt(p: Bytes, m: ObjectMeta)
    requires HasTable(p)
  {
    && |m.blocks| == N2(p, 2) && m.transferLength == N8(p, 4) && m.symbolSize == N4(p, 12) && m.otiBytes == p[16..28]
    && forall i :: 0 <= i < |m.blocks| ==> BlockAt(p, 28 + 16 * i, m.blocks[i])
  }

  predicate BlockAt(p: Bytes, o: nat, b: SourceBlockMeta)
    requires o + 16 <= |p|
  {
    b.sbn == N4(p, o) && b.numSourceSymbols == N4(p, o + 4) && b.blockLength == N8(p, o + 8)
  }

  /** The file's name after its length byte, then size, checksum and, from version 3 on,
      compression and packed size. */
  predicate FileAt(p: Bytes, o: nat, fm: FileMeta)
    requires HasFile(p, o)
  {
    var end := o + 1 + p[o];
    && fm.filename == p[o + 1..end] && fm.originalSize == N8(p, end) && fm.crc32 == N4(p, end + 8)
    && fm.compressedSizeKnown && fm.crc32Known
    && (if p[1] >= 3 then fm.compression == p[end + 12] && fm.compressedSize == N8(p, end + 13)
        else fm.compression == 0 && fm.compressedSize == fm.originalSize)
  }

  /** The coordinates of a segment. */
  predicate SegmentAt(p: Bytes, o: nat, g: SegmentMeta)
    requires o + 104 <= |p|
  {
    && g.rootSessionId == N16(p, o) && g.segmentIndex == N4(p, o + 16) && g.segmentCount == N4(p, o + 20)
    && g.originalOffset == N8(p, o + 24) && g.rootOriginalSize == N8(p, o + 32)
    && g.rootSha256 == p[o + 40..o + 72] && g.rawSha256 == p[o + 72..o + 104]
  }

  predicate DescriptorAt(p: Bytes, info: DescriptorInfo)
    requires Readable(p)
  {
    && MetaAt(p, info.meta)
    && (if p[1] == 1 then info.fileMeta == FileMeta([], 0, 0, 0, 0, false, false)
        else FileAt(p, TableEnd(p), info.fileMeta))
    && (if p[1] == 5 then info.segment.Some? && SegmentAt(p, TableEnd(p) + 22 + p[TableEnd(p)], info.segment.value)
        else info.segment.None?)
  }

  lemma BlockIsAt(p: Bytes, o: nat)
    requires o + 16 <= |p|
    ensures BlockAt(p, o, Descriptors.ReadBlock(p, o))
  {
    Reads4(p, o);
    Reads4(p, o + 4);
    Reads8(p, o + 8);
  }

  lemma {:induction false} BlocksAreAt(p: Bytes, o: nat, n: nat)
    requires o + 16 * n <= |p|
    ensures forall i :: 0 <= i < n ==> BlockAt(p, o + 16 * i, Descriptors.ReadBlocks(p, o, n)[i])
  {
    if n > 0 {
      BlocksAreAt(p, o, n - 1);
      BlockIsAt(p, o + 16 * (n - 1));
    }
  }

  lemma MetaIsAt(p: Bytes)
    requires HasTable(p)
    ensures Descriptors.HeaderOk(p) && MetaAt(p, Descriptors.ReadMeta(p))
  {
    Reads8(p, 4);
    Reads4(p, 12);
    BlocksAreAt(p, 28, N2(p, 2));
  }

  lemma FileNumbers(p: Bytes, end: nat)
    requires end + 12 <= |p|
    ensures ReadU64(p[end..end + 8]) == N8(p, end) && ReadU32(p[end + 8..end + 12]) == N4(p, end + 8)
    ensures end + 21 <= |p| ==> ReadU64(p[end + 13..end + 21]) == N8(p, end + 13)
  {
    Reads8(p, end);
    Reads4(p, end + 8);
    if end + 21 <= |p| {
      Reads8(p, end + 13);
    }
  }

  lemma FileIsAt(p: Bytes, o: nat)
    requires |p| >= 4 && p[1] in {2, 3, 5} && o <= |p|
    ensures match Descriptors.ReadFile(p, o, p[1])
            case None => !HasFile(p, o)
            case Some((fm, next)) =>
              && o < |p| && next == o + (if p[1] == 2 then 13 else 22) + p[o] <= |p|
              && (HasFile(p, o) <==> p[1] != 5 || |p| >= next + 104)
              && (HasFile(p, o) ==> FileAt(p, o, fm))
  {
    if o < |p| && |p| >= o + 1 + p[o] + 12 {
      FileNumbers(p, o + 1 + p[o]);
    }
  }

  lemma SegmentIsAt(p: Bytes, o: nat)
    requires o + 104 <= |p|
    ensures SegmentAt(p, o, Descriptors.ReadSegment(p, o))
  {
    Reads16(p, o);
    Reads4(p, o + 16);
    Reads4(p, o + 20);
    Reads8(p, o + 24);
    Reads8(p, o + 32);
  }

  /** Reading a descriptor succeeds on exactly the readable payloads, and gives the numbers at
      their offsets. */
  lemma DescriptorExactly(p: Bytes)
    ensures match Descriptors.ParsePayload(p)
            case None => !Readable(p)
            case Some(info) => Readable(p) && DescriptorAt(p, info)
  {
    if HasTable(p) {
      MetaIsAt(p);
      RestIsAt(p);
    }
  }

  lemma RestIsAt(p: Bytes)
    requires HasTable(p) && Descriptors.HeaderOk(p)
    ensures match Descriptors.ReadRest(p, TableEnd(p))
            case None => !Readable(p)
            case Some((fm, segment)) =>
              && Readable(p)
              && (if p[1] == 1 then fm == FileMeta([], 0, 0, 0, 0, false, false) else FileAt(p, TableEnd(p), fm))
              && (if p[1] == 5 then segment.Some? && SegmentAt(p, TableEnd(p) + 22 + p[TableEnd(p)], segment.value)
                  else segment.None?)
  {
    var o := TableEnd(p);
    if p[1] != 1 {
      FileIsAt(p, o);
      if p[1] == 5 && HasFile(p, o) {
        SegmentIsAt(p, o + 22 + p[o]);
      }
    }
  }

  /** Where the written part of a descriptor ends. */
  function WrittenEnd(p: Bytes, segment: Option<SegmentMeta>): nat
    requires |p| >= 4 && TableEnd(p) < |p|
  {
    TableEnd(p) + 22 + p[TableEnd(p)] + if segment.Some? then 104 else 0
  }

  /** What is written fills the symbol: readable as version 3, or 5 with a segment, with the
      announced contents at their offsets, and zeros after them. */
  lemma WrittenLayout(m: ObjectMeta, fm: FileMeta, segment: Option<SegmentMeta>)
    requires m.symbolSize <= MAX_SYMBOL_SIZE && Descriptors.BuildPayload(m, fm, segment).Ok?
    ensures var p := Descriptors.BuildPayload(m, fm, segment).value;
            && |p| == m.symbolSize && Readable(p) && p[1] == (if segment.Some? then 5 else 3)
            && DescriptorAt(p, DescriptorInfo(m, fm.(filename := Descriptors.WireName(m, fm, segment),
                                                     compressedSizeKnown := true, crc32Known := true), segment))
            && WrittenEnd(p, segment) <= |p| && forall i :: WrittenEnd(p, segment) <= i < |p| ==> p[i] == 0
  {
    Descriptors.BuiltParsesBack(m, fm, segment);
    var p := Descriptors.BuildPayload(m, fm, segment).value;
    DescriptorExactly(p);
    VersionWritten(m, fm, segment);
    WrittenTail(m, fm, segment, p, WrittenEnd(p, segment));
  }

  lemma WrittenTail(m: ObjectMeta, fm: FileMeta, segment: Option<SegmentMeta>, p: Bytes, end: nat)
    requires Descriptors.BuildPayload(m, fm, segment) == Ok(p)
    requires end == 28 + 16 * |m.blocks| + 22 + |Descriptors.WireName(m, fm, segment)| + if segment.Some? then 104 else 0
    ensures end <= |p| && forall i :: end <= i < |p| ==> p[i] == 0
  {
    var body := Descriptors.Body(m, fm, segment);
    assert |body| == end;
    assert p == body + Zeros(|p| - |body|);
  }

  lemma VersionWritten(m: ObjectMeta, fm: FileMeta, segment: Option<SegmentMeta>)
    ensures var body := Descriptors.Body(m, fm, segment);
            |body| >= 2 && body[1] == if segment.Some? then 5 else 3
  {
    assert Descriptors.FixedBytes(m, Descriptors.Version(segment))[1] == Descriptors.Version(segment);
  }
}
