/** The QR frame: a 60-byte header, one payload, and two CRCs. */
module Frames {
  import opened Words
  import opened Division
  import Crc32

  const HEADER_SIZE: nat := 60
  const FOOTER_SIZE: nat := 4
  const OVERHEAD: nat := 64
  const PROTOCOL_VERSION: u8 := 1
  const FLAG_DESCRIPTOR: u8 := 1

  /** The length of a frame on the wire. */
  function WireSize(symbolSize: u32): nat { HEADER_SIZE + symbolSize + FOOTER_SIZE }

  datatype FrameHeader = FrameHeader(
    sessionId: u128,
    flags: u8,
    sbn: u32,
    esi: u32,
    totalBlocks: u32,
    totalSymbols: u32,
    symbolSize: u32,
    frameIndex: u64,
    timestampMs: u64,
    payloadCrc32: u32)

  datatype Frame = Frame(header: FrameHeader, payload: Bytes, frameCrc32: u32)

  datatype FrameError =
    | BufferTooShort(need: nat, have: nat)
    | BadMagic(magic: Bytes)
    | BadVersion(version: u8)
    | LengthMismatch(expected: nat, actual: nat)
    | PayloadCrcMismatch
    | FrameCrcMismatch

  function HeaderBytes(h: FrameHeader): (b: Bytes)
    ensures |b| == HEADER_SIZE
  {
    [0x45, 0x54, PROTOCOL_VERSION, h.flags] + Be(h.sessionId, W16)
    + Be(h.sbn, W4) + Be(h.esi, W4) + Be(h.totalBlocks, W4) + Be(h.totalSymbols, W4) + Be(h.symbolSize, W4)
    + Be(h.frameIndex, W8) + Be(h.timestampMs, W8) + Be(h.payloadCrc32, W4)
  }

  /** The header fields as they lie in the first 60 bytes. */
  function Fields(b: Bytes): FrameHeader
    requires |b| >= HEADER_SIZE
  {
    FrameHeader(
      ReadU128(b[4..20]), b[3],
      ReadU32(b[20..24]), ReadU32(b[24..28]), ReadU32(b[28..32]), ReadU32(b[32..36]), ReadU32(b[36..40]),
      ReadU64(b[40..48]), ReadU64(b[48..56]), ReadU32(b[56..60]))
  }

  function Build(sessionId: u128, flags: u8, sbn: u32, esi: u32, totalBlocks: u32, totalSymbols: u32,
                 symbolSize: u32, frameIndex: u64, timestampMs: u64, payload: Bytes): Frame
  {
    var h := FrameHeader(sessionId, flags, sbn, esi, totalBlocks, totalSymbols, symbolSize,
                         frameIndex, timestampMs, Crc32.Checksum(payload));
    Frame(h, payload, Crc32.Checksum(HeaderBytes(h) + payload))
  }

  function WireBytes(f: Frame): Bytes
  {
    HeaderBytes(f.header) + f.payload + Be(f.frameCrc32, W4)
  }

  /** What `from_bytes` answers. */
  function FromBytes(b: Bytes): Result<Frame, FrameError>
  {
    if |b| < OVERHEAD then Err(BufferTooShort(OVERHEAD, |b|))
    else if b[..2] != [0x45, 0x54] then Err(BadMagic(b[..2]))
    else if b[2] != PROTOCOL_VERSION then Err(BadVersion(b[2]))
    else
      var h := Fields(b);
      var end := |b| - FOOTER_SIZE;
      if h.symbolSize != |b| - OVERHEAD then Err(LengthMismatch(h.symbolSize + OVERHEAD, |b|))
      else if Crc32.Checksum(b[HEADER_SIZE..end]) != h.payloadCrc32 then Err(PayloadCrcMismatch)
      else if Crc32.Checksum(b[..end]) != ReadU32(b[end..]) then Err(FrameCrcMismatch)
      else Ok(Frame(h, b[HEADER_SIZE..end], ReadU32(b[end..])))
  }

  // ----- The loops and buffers of the implementation

  method ToBytes(f: Frame) returns (buf: Bytes)
    ensures buf == WireBytes(f)
  {
    buf := [0x45, 0x54];
    buf := buf + [PROTOCOL_VERSION];
    buf := buf + [f.header.flags];
    buf := buf + Be(f.header.sessionId, W16);
    buf := buf + Be(f.header.sbn, W4);
    buf := buf + Be(f.header.esi, W4);
    buf := buf + Be(f.header.totalBlocks, W4);
    buf := buf + Be(f.header.totalSymbols, W4);
    buf := buf + Be(f.header.symbolSize, W4);
    buf := buf + Be(f.header.frameIndex, W8);
    buf := buf + Be(f.header.timestampMs, W8);
    buf := buf + Be(f.header.payloadCrc32, W4);
    buf := buf + f.payload;
    buf := buf + Be(f.frameCrc32, W4);
  }

  method ParseFrame(bytes: Bytes) returns (r: Result<Frame, FrameError>)
    ensures r == FromBytes(bytes)
  {
    if |bytes| < OVERHEAD {
      return Err(BufferTooShort(OVERHEAD, |bytes|));
    }
    if bytes[..2] != [0x45, 0x54] {
      return Err(BadMagic(bytes[..2]));
    }
    if bytes[2] != PROTOCOL_VERSION {
      return Err(BadVersion(bytes[2]));
    }
    var flags := bytes[3];
    var o := 4;
    var sessionId := ReadU128(bytes[o..o + 16]);
    o := o + 16;
    var sbn := ReadU32(bytes[o..o + 4]);
    o := o + 4;
    var esi := ReadU32(bytes[o..o + 4]);
    o := o + 4;
    var totalBlocks := ReadU32(bytes[o..o + 4]);
    o := o + 4;
    var totalSymbols := ReadU32(bytes[o..o + 4]);
    o := o + 4;
    var symbolSize := ReadU32(bytes[o..o + 4]);
    o := o + 4;
    var frameIndex := ReadU64(bytes[o..o + 8]);
    o := o + 8;
    var timestampMs := ReadU64(bytes[o..o + 8]);
    o := o + 8;
    var payloadCrc32 := ReadU32(bytes[o..o + 4]);
    var header := FrameHeader(sessionId, flags, sbn, esi, totalBlocks, totalSymbols, symbolSize,
                              frameIndex, timestampMs, payloadCrc32);
    if symbolSize != |bytes| - OVERHEAD {
      return Err(LengthMismatch(symbolSize + OVERHEAD, |bytes|));
    }
    var payloadEnd := HEADER_SIZE + symbolSize;
    var payload := bytes[HEADER_SIZE..payloadEnd];
    var footer := bytes[payloadEnd..];
    var payloadCrc := Crc32.TableChecksum(payload);
    if payloadCrc != payloadCrc32 {
      return Err(PayloadCrcMismatch);
    }
    var crc := Crc32.TableChecksum(bytes[..payloadEnd]);
    if crc != ReadU32(footer) {
      return Err(FrameCrcMismatch);
    }
    return Ok(Frame(header, payload, ReadU32(footer)));
  }

  // ----- Printer and parser are inverse

  lemma FieldsOfHeaderBytes(h: FrameHeader, rest: Bytes)
    ensures Fields(HeaderBytes(h) + rest) == h
    ensures (HeaderBytes(h) + rest)[..3] == [0x45, 0x54, PROTOCOL_VERSION]
  {
    var b := HeaderBytes(h) + rest;
    var p4: Bytes := [0x45, 0x54, PROTOCOL_VERSION, h.flags];
    var p20 := p4 + Be(h.sessionId, W16);
    var p24 := p20 + Be(h.sbn, W4);
    var p28 := p24 + Be(h.esi, W4);
    var p32 := p28 + Be(h.totalBlocks, W4);
    var p36 := p32 + Be(h.totalSymbols, W4);
    var p40 := p36 + Be(h.symbolSize, W4);
    var p48 := p40 + Be(h.frameIndex, W8);
    var p56 := p48 + Be(h.timestampMs, W8);
    assert HeaderBytes(h) == p56 + Be(h.payloadCrc32, W4);
    assert b[56..60] == Be(h.payloadCrc32, W4);
    assert b[..56] == p56;
    assert p56[48..] == Be(h.timestampMs, W8) && p56[..48] == p48;
    assert p48[40..] == Be(h.frameIndex, W8) && p48[..40] == p40;
    assert p40[36..] == Be(h.symbolSize, W4) && p40[..36] == p36;
    assert p36[32..] == Be(h.totalSymbols, W4) && p36[..32] == p32;
    assert p32[28..] == Be(h.totalBlocks, W4) && p32[..28] == p28;
    assert p28[24..] == Be(h.esi, W4) && p28[..24] == p24;
    assert p24[20..] == Be(h.sbn, W4) && p24[..20] == p20;
    assert p20[4..] == Be(h.sessionId, W16) && p20[..4] == p4;
    assert b[48..56] == p56[48..] && b[40..48] == p48[40..] && b[36..40] == p40[36..];
    assert b[32..36] == p36[32..] && b[28..32] == p32[28..] && b[24..28] == p28[24..];
    assert b[20..24] == p24[20..] && b[4..20] == p20[4..] && b[..4] == p4;
    assert b[3] == p4[3] && b[..3] == p4[..3];
    ReadBackU128(h.sessionId);
    ReadBackU32(h.sbn);
    ReadBackU32(h.esi);
    ReadBackU32(h.totalBlocks);
    ReadBackU32(h.totalSymbols);
    ReadBackU32(h.symbolSize);
    ReadBackU64(h.frameIndex);
    ReadBackU64(h.timestampMs);
    ReadBackU32(h.payloadCrc32);
  }

  lemma HeaderBytesOfFields(b: Bytes)
    requires |b| >= HEADER_SIZE && b[..2] == [0x45, 0x54] && b[2] == PROTOCOL_VERSION
    ensures HeaderBytes(Fields(b)) == b[..60]
  {
    assert b[..4] == b[..2] + [b[2], b[3]];
    assert b[..20] == b[..4] + b[4..20];
    assert b[..24] == b[..20] + b[20..24];
    assert b[..28] == b[..24] + b[24..28];
    assert b[..32] == b[..28] + b[28..32];
    assert b[..36] == b[..32] + b[32..36];
    assert b[..40] == b[..36] + b[36..40];
    assert b[..48] == b[..40] + b[40..48];
    assert b[..56] == b[..48] + b[48..56];
    assert b[..60] == b[..56] + b[56..60];
  }

  /** A frame survives the wire exactly when its declared length and both CRCs are right. */
  ghost predicate WellFormed(f: Frame)
  {
    && f.header.symbolSize == |f.payload|
    && f.header.payloadCrc32 == Crc32.Checksum(f.payload)
    && f.frameCrc32 == Crc32.Checksum(HeaderBytes(f.header) + f.payload)
  }

  lemma ParseOfWireBytes(f: Frame)
    ensures FromBytes(WireBytes(f)) == Ok(f) <==> WellFormed(f)
    ensures FromBytes(WireBytes(f)).Ok? ==> WellFormed(f)
  {
    var b := WireBytes(f);
    var end := |b| - FOOTER_SIZE;
    assert b == HeaderBytes(f.header) + (f.payload + Be(f.frameCrc32, W4));
    FieldsOfHeaderBytes(f.header, f.payload + Be(f.frameCrc32, W4));
    assert b[..2] == b[..3][..2] && b[2] == b[..3][2];
    assert b[HEADER_SIZE..end] == f.payload;
    assert b[..end] == HeaderBytes(f.header) + f.payload;
    assert b[end..] == Be(f.frameCrc32, W4);
    ReadBackU32(f.frameCrc32);
  }

  /** Accepted bytes re-serialise to themselves. */
  lemma WireBytesOfParse(b: Bytes)
    requires FromBytes(b).Ok?
    ensures WireBytes(FromBytes(b).value) == b && WellFormed(FromBytes(b).value)
  {
    HeaderBytesOfFields(b);
    Reglue(b, Fields(b), FromBytes(b).value);
    ParseOfWireBytes(FromBytes(b).value);
  }

  lemma Reglue(b: Bytes, h: FrameHeader, f: Frame)
    requires |b| >= OVERHEAD && HeaderBytes(h) == b[..60]
    requires f == Frame(h, b[60..|b| - 4], ReadU32(b[|b| - 4..]))
    ensures WireBytes(f) == b
  {
    var end := |b| - FOOTER_SIZE;
    assert b == b[..60] + b[60..end] + b[end..];
  }

  lemma BuiltFramesRoundTrip(sessionId: u128, flags: u8, sbn: u32, esi: u32, totalBlocks: u32, totalSymbols: u32,
                             symbolSize: u32, frameIndex: u64, timestampMs: u64, payload: Bytes)
    requires |payload| == symbolSize
    ensures var f := Build(sessionId, flags, sbn, esi, totalBlocks, totalSymbols, symbolSize,
                           frameIndex, timestampMs, payload);
            FromBytes(WireBytes(f)) == Ok(f)
  {
    ParseOfWireBytes(Build(sessionId, flags, sbn, esi, totalBlocks, totalSymbols, symbolSize,
                           frameIndex, timestampMs, payload));
  }

  // ----- Damage inside four consecutive bytes is always caught

  /** `x` and `y` have equal length and agree outside the four bytes starting at `p`. */
  ghost predicate DifferWithin(x: Bytes, y: Bytes, p: nat)
  {
    |x| == |y| && forall i :: 0 <= i < |x| && !(p <= i < p + 4) ==> x[i] == y[i]
  }

  lemma BurstIsCaught(x: Bytes, y: Bytes, p: nat)
    requires FromBytes(x).Ok? && x != y && DifferWithin(x, y, p)
    ensures FromBytes(y).Err?
  {
    if FromBytes(y).Ok? {
      var end := |x| - FOOTER_SIZE;
      AcceptedCrcs(x);
      AcceptedCrcs(y);
      if p + 4 <= end {
        BurstInBody(x, y, p, end);
      } else {
        PayloadPinned(x, y, p, end);
      }
      SameBodySameFrame(x, y, end);
    }
  }

  /** The CRC checks an accepted buffer has passed. */
  ghost predicate CrcsHold(b: Bytes)
    requires |b| >= OVERHEAD
  {
    && Crc32.Checksum(b[HEADER_SIZE..|b| - FOOTER_SIZE]) == ReadU32(b[56..60])
    && FooterHolds(b)
  }

  ghost predicate FooterHolds(b: Bytes)
    requires |b| >= FOOTER_SIZE
  {
    Crc32.Checksum(b[..|b| - FOOTER_SIZE]) == ReadU32(b[|b| - FOOTER_SIZE..])
  }

  lemma AcceptedCrcs(b: Bytes)
    requires FromBytes(b).Ok?
    ensures |b| >= OVERHEAD && CrcsHold(b)
  {
  }

  /** The stretch `lo..hi` of two buffers, split around what the window covers of it. */
  lemma Around(x: Bytes, y: Bytes, p: nat, lo: nat, hi: nat) returns (s: Bytes, w: Bytes, v: Bytes, t: Bytes)
    requires DifferWithin(x, y, p) && lo <= hi <= |x| && p < hi
    ensures x[lo..hi] == s + w + t && y[lo..hi] == s + v + t
    ensures |w| == |v| <= 4
    ensures p + 4 > hi ==> |w| == hi - Max(lo, p) && t == []
  {
    var a := Max(lo, p);
    var b := Max(a, Min(hi, p + 4));
    s, w, v, t := x[lo..a], x[a..b], y[a..b], x[b..hi];
    assert y[lo..a] == s && y[b..hi] == t;
    Cut(x, lo, a, b, hi);
    Cut(y, lo, a, b, hi);
  }

  lemma Cut(x: Bytes, lo: nat, a: nat, b: nat, hi: nat)
    requires lo <= a <= b <= hi <= |x|
    ensures x[lo..hi] == x[lo..a] + x[a..b] + x[b..hi]
  {
  }

  /** A window that ends before the footer. */
  lemma BurstInBody(x: Bytes, y: Bytes, p: nat, end: nat)
    requires |x| >= OVERHEAD && CrcsHold(x) && DifferWithin(x, y, p) && CrcsHold(y)
    requires end == |x| - FOOTER_SIZE && p + 4 <= end
    ensures x[..end] == y[..end]
  {
    SameFooter(x, y, p, end);
    SameChecksumSameBytes(x[..end], y[..end], p);
  }

  lemma SameFooter(x: Bytes, y: Bytes, p: nat, end: nat)
    requires |x| >= FOOTER_SIZE && FooterHolds(x) && DifferWithin(x, y, p) && FooterHolds(y)
    requires end == |x| - FOOTER_SIZE && p + 4 <= end
    ensures Crc32.Checksum(x[..end]) == Crc32.Checksum(y[..end])
  {
    assert x[end..] == y[end..];
  }

  lemma SameChecksumSameBytes(x: Bytes, y: Bytes, p: nat)
    requires DifferWithin(x, y, p) && p < |x| && Crc32.Checksum(x) == Crc32.Checksum(y)
    ensures x == y
  {
    var s, w, v, t := Around(x, y, p, 0, |x|);
    assert x == s + w + t && y == s + v + t;
    if w != v {
      Crc32.BurstChangesChecksum(s, w, v, t);
    }
  }

  /** A window that reaches into the footer covers at most three bytes before it, so the
      payload CRC (and the part of it the window may touch) pins the payload. */
  lemma PayloadPinned(x: Bytes, y: Bytes, p: nat, end: nat)
    requires |x| >= OVERHEAD && CrcsHold(x) && DifferWithin(x, y, p) && CrcsHold(y)
    requires end == |x| - FOOTER_SIZE && p + 4 > end
    ensures x[..end] == y[..end]
  {
    if p < end {
      var j: nat := Max(0, HEADER_SIZE - p);
      SharedCrcBytes(x, y, j);
      if HEADER_SIZE < end {
        TailPinned(x, y, p, end, j);
      }
    }
    HeaderPinned(x, y, p, end);
  }

  /** What the window covers of the payload, when the stored CRCs share all but `j` bytes. */
  lemma TailPinned(x: Bytes, y: Bytes, p: nat, end: nat, j: nat)
    requires |x| >= OVERHEAD && CrcsHold(x) && DifferWithin(x, y, p) && CrcsHold(y)
    requires end == |x| - FOOTER_SIZE && end < p + 4 && p < end && HEADER_SIZE < end && j == Max(0, HEADER_SIZE - p)
    requires ReadU32(x[56..60]) / Pow256(j) == ReadU32(y[56..60]) / Pow256(j)
    ensures x[HEADER_SIZE..end] == y[HEADER_SIZE..end]
  {
    var s, w, v, t := Around(x, y, p, HEADER_SIZE, end);
    assert s + w + t == s + w && s + v + t == s + v;
    Crc32.TailAndChecksum(s, w, v, j);
  }

  lemma HeaderPinned(x: Bytes, y: Bytes, p: nat, end: nat)
    requires |x| >= OVERHEAD && DifferWithin(x, y, p)
    requires end == |x| - FOOTER_SIZE && p + 4 > end
    requires x[HEADER_SIZE..end] == y[HEADER_SIZE..end]
    requires p < 60 ==> ReadU32(x[56..60]) == ReadU32(y[56..60])
    ensures x[..end] == y[..end]
  {
    if p < 60 {
      assert x[56..60] == Be(ReadU32(x[56..60]), W4) == Be(ReadU32(y[56..60]), W4) == y[56..60];
    } else {
      assert x[56..60] == y[56..60];
    }
    assert x[..56] == y[..56];
    assert x[..end] == x[..56] + x[56..60] + x[60..end];
    assert y[..end] == y[..56] + y[56..60] + y[60..end];
  }

  lemma SameBodySameFrame(x: Bytes, y: Bytes, end: nat)
    requires |x| == |y| && |x| >= OVERHEAD && CrcsHold(x) && CrcsHold(y)
    requires end == |x| - FOOTER_SIZE && x[..end] == y[..end]
    ensures x == y
  {
    assert x[end..] == Be(ReadU32(x[end..]), W4) == Be(ReadU32(y[end..]), W4) == y[end..];
    assert x == x[..end] + x[end..] && y == y[..end] + y[end..];
  }

  /** Stored payload CRCs that agree in all but their last `j` bytes. */
  lemma SharedCrcBytes(x: Bytes, y: Bytes, j: nat)
    requires |x| == |y| && |x| >= HEADER_SIZE && j <= 4
    requires forall i :: 56 <= i < 60 - j ==> x[i] == y[i]
    ensures ReadU32(x[56..60]) / Pow256(j) == ReadU32(y[56..60]) / Pow256(j)
  {
    var a, b := x[56..60], y[56..60];
    assert a[..4 - j] == b[..4 - j];
    PrefixIsQuotient(a, j);
    PrefixIsQuotient(b, j);
    UnbeOfRead(a);
    UnbeOfRead(b);
  }

  lemma UnbeOfRead(a: Bytes)
    requires |a| == 4
    ensures ReadU32(a) == Unbe(a)
  {
  }

  lemma {:induction false} PrefixIsQuotient(a: Bytes, j: nat)
    requires j <= |a|
    ensures Unbe(a) / Pow256(j) == Unbe(a[..|a| - j])
  {
    if j > 0 {
      var n := |a| - 1;
      PrefixIsQuotient(a[..n], j - 1);
      assert a[..n][..n - (j - 1)] == a[..|a| - j];
      DivideTwice(Unbe(a), 256, Pow256(j - 1));
    } else {
      assert a[..|a|] == a;
    }
  }
}
