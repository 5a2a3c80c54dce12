/** The sender session: descriptors at a fixed cadence between data frames that never repeat. */
module Senders {
  import opened Words
  import opened Sums
  import opened Metadata
  import opened BlockCodecs
  import opened Encoders
  import opened SourcePlans
  import Segments
  import Descriptors
  import Frames

  const DEFAULT_DESCRIPTOR_INTERVAL: u32 := 17

  datatype SenderConfig = SenderConfig(symbolSize: u32, redundancyPct: u8)

  datatype SenderError =
    | NoPayload
    | SymbolIdSpaceExhausted
    | InvalidRedundancy(pct: u8)
    | InvalidSegment
    | Codec(error: CodecError)
    | DescriptorTooLong(need: nat, have: nat)

  /** What a session transmits; fixed for its lifetime. */
  datatype Content = Content(
    sessionId: u128,
    encoder: Encoder,
    fileMeta: FileMeta,
    segment: Option<SegmentMeta>)
  {
    function Meta(): ObjectMeta { encoder.meta }
    function Blocks(): seq<SourceBlockMeta> { encoder.meta.blocks }

    /** Ready to transmit: a truthful layout whose descriptor fits one symbol. */
    ghost predicate Valid()
    {
      && encoder.Valid() && encoder.codec.Lawful()
      && TotalK(Blocks()) < U32
      && Descriptors.BuildPayload(Meta(), fileMeta, segment).Ok?
      && (segment.Some? ==> Segments.ValidSegment(segment.value, sessionId, fileMeta))
    }

    /** What the descriptor tells a receiver: the filename as truncated, both known flags set. */
    function Announced(): DescriptorInfo
    {
      DescriptorInfo(Meta(),
        fileMeta.(filename := Descriptors.WireName(Meta(), fileMeta, segment), compressedSizeKnown := true, crc32Known := true),
        segment)
    }
  }

  // ----- Construction

  /** What `new_inner` answers, in the order of its checks. */
  function Prepare(codec: BlockCodec, layout: (Bytes, nat) -> Layout, payload: Bytes, sessionId: u128,
                   config: SenderConfig, fm: FileMeta, segment: Option<SegmentMeta>): Result<Content, SenderError>
    requires config.symbolSize > 0 && |Padded(payload, config.symbolSize)| < U64
    requires LibraryKeepsPromise(layout, payload, config.symbolSize)
  {
    if !(5 <= config.redundancyPct <= 50) then Err(InvalidRedundancy(config.redundancyPct))
    else
      match NewEncoder(codec, layout, Padded(payload, config.symbolSize), config.symbolSize)
      case Err(e) => Err(Codec(e))
      case Ok(encoder) =>
        match Descriptors.BuildPayload(encoder.meta, fm, segment)
        case Err(e) => Err(DescriptorTooLong(e.need, e.have))
        case Ok(_) => Ok(Content(sessionId, encoder, fm, segment))
  }

  ghost predicate LibraryKeepsPromise(layout: (Bytes, nat) -> Layout, payload: Bytes, t: u32)
    requires t > 0
  {
    var padded := Padded(payload, t);
    padded != [] && ConfigOk(t) ==> Partitions(layout(padded, t), padded, t)
  }

  /** What `new_segment` answers. */
  function PrepareSegment(codec: BlockCodec, layout: (Bytes, nat) -> Layout, payload: Bytes, sessionId: u128,
                          config: SenderConfig, fm: FileMeta, segment: SegmentMeta): Result<Content, SenderError>
    requires config.symbolSize > 0 && |Padded(payload, config.symbolSize)| < U64
    requires LibraryKeepsPromise(layout, payload, config.symbolSize)
  {
    if fm.compressedSize != |payload| || !fm.compressedSizeKnown then Err(InvalidSegment)
    else if !Segments.ValidSegment(segment, sessionId, fm) then Err(InvalidSegment)
    else Prepare(codec, layout, payload, sessionId, config, fm, Some(segment))
  }

  /** A descriptor that fits one symbol leaves room for so few blocks that the 32-bit total
      of their symbols cannot overflow, whatever the length of the payload. */
  lemma SymbolCountFits(e: Encoder, fm: FileMeta, segment: Option<SegmentMeta>)
    requires e.Valid() && Descriptors.BuildPayload(e.meta, fm, segment).Ok?
    ensures TotalK(e.meta.blocks) < U32
  {
    Descriptors.BuildSucceedsExactly(e.meta, fm, segment);
    var ks := Ks(e.meta.blocks);
    forall i | 0 <= i < |ks|
      ensures ks[i] <= MAX_SOURCE_SYMBOLS_PER_BLOCK
    {
      assert BlockOk(e.meta, i);
    }
    SumBound(ks, MAX_SOURCE_SYMBOLS_PER_BLOCK);
  }

  /** Construction is refused for these reasons and no others. */
  lemma PreparedExactly(codec: BlockCodec, layout: (Bytes, nat) -> Layout, payload: Bytes, sessionId: u128,
                        config: SenderConfig, fm: FileMeta, segment: Option<SegmentMeta>)
    requires config.symbolSize > 0 && |Padded(payload, config.symbolSize)| < U64
    requires LibraryKeepsPromise(layout, payload, config.symbolSize)
    ensures var padded := Padded(payload, config.symbolSize);
            Prepare(codec, layout, payload, sessionId, config, fm, segment).Ok? <==>
              && 5 <= config.redundancyPct <= 50 && payload != [] && ConfigOk(config.symbolSize)
              && 50 + 16 * |layout(padded, config.symbolSize).source| + (if segment.Some? then 104 else 0)
                 <= config.symbolSize
  {
    var padded := Padded(payload, config.symbolSize);
    PaddingOfNothing(payload, config.symbolSize);
    var r := NewEncoder(codec, layout, padded, config.symbolSize);
    if r.Ok? {
      Descriptors.BuildSucceedsExactly(r.value.meta, fm, segment);
    }
  }

  /** And a session that could be prepared is ready, and transmits the payload and nothing but
      zeros after it. */
  lemma PreparedIsValid(codec: BlockCodec, layout: (Bytes, nat) -> Layout, payload: Bytes, sessionId: u128,
                        config: SenderConfig, fm: FileMeta, segment: Option<SegmentMeta>)
    requires codec.Lawful() && config.symbolSize > 0 && |Padded(payload, config.symbolSize)| < U64
    requires LibraryKeepsPromise(layout, payload, config.symbolSize)
    requires segment.Some? ==> Segments.ValidSegment(segment.value, sessionId, fm)
    ensures var r := Prepare(codec, layout, payload, sessionId, config, fm, segment);
            r.Ok? ==>
              && r.value.Valid() && r.value.Meta().symbolSize == config.symbolSize
              && BytesOf(r.value.encoder.source, |r.value.encoder.source|) == Padded(payload, config.symbolSize)
  {
    var padded := Padded(payload, config.symbolSize);
    NewEncoderIsValid(codec, layout, padded, config.symbolSize);
    var r := NewEncoder(codec, layout, padded, config.symbolSize);
    if r.Ok? && Descriptors.BuildPayload(r.value.meta, fm, segment).Ok? {
      SymbolCountFits(r.value, fm, segment);
    }
  }

  // ----- Emission

  function DescriptorFrame(c: Content, frameIndex: u64, now: u64): Frames.Frame
    requires TotalK(c.Blocks()) < U32 && |c.Blocks()| < U32
    requires Descriptors.BuildPayload(c.Meta(), c.fileMeta, c.segment).Ok?
  {
    Frames.Build(c.sessionId, Frames.FLAG_DESCRIPTOR, 0, 0, |c.Blocks()|, TotalK(c.Blocks()), c.Meta().symbolSize,
                 frameIndex, now, Descriptors.BuildPayload(c.Meta(), c.fileMeta, c.segment).value)
  }

  function DataFrame(c: Content, id: SymbolId, frameIndex: u64, now: u64): Frames.Frame
    requires TotalK(c.Blocks()) < U32 && |c.encoder.source| == |c.Blocks()| < U32 && id.sbn < |c.Blocks()|
  {
    Frames.Build(c.sessionId, 0, id.sbn, id.esi, |c.Blocks()|, TotalK(c.Blocks()), c.Meta().symbolSize,
                 frameIndex, now, c.encoder.Packet(id.sbn, id.esi))
  }

  /** Frames emitted, data frames among them, and the current descriptor interval. */
  datatype Position = Position(frames: nat, data: nat, interval: nat)

  const START: Position := Position(0, 0, DEFAULT_DESCRIPTOR_INTERVAL)

  /** Which frame goes out, apart from its bytes. */
  datatype Shot =
    | DescriptorShot(frameIndex: u64, now: u64)
    | DataShot(id: SymbolId, frameIndex: u64, now: u64)

  ghost predicate Shootable(c: Content, shot: Shot)
  {
    c.Valid() && (shot.DataShot? ==> shot.id.sbn < |c.Blocks()| && shot.id.esi < ESI_LIMIT)
  }

  ghost function FrameOf(c: Content, shot: Shot): Frames.Frame
    requires Shootable(c, shot)
  {
    match shot
    case DescriptorShot(frameIndex, now) => DescriptorFrame(c, frameIndex, now)
    case DataShot(id, frameIndex, now) => DataFrame(c, id, frameIndex, now)
  }

  datatype Emission = Emission(result: Result<Shot, SenderError>, next: Position)

  lemma ValidIsCanonical(c: Content)
    requires c.Valid()
    ensures Canonical(c.Blocks()) && 0 < |c.Blocks()| < U32
  {
    forall i | 0 <= i < |c.Blocks()|
      ensures c.Blocks()[i].sbn == i && 0 < c.Blocks()[i].numSourceSymbols <= MAX_SOURCE_SYMBOLS_PER_BLOCK
    {
      assert BlockOk(c.Meta(), i);
    }
  }

  /** One call of `next_frame`. */
  function Emit(blocks: seq<SourceBlockMeta>, p: Position, now: u64): Emission
    requires blocks != [] && p.interval > 0 && p.frames + 1 < U64
  {
    if p.frames % p.interval == 0 then
      Emission(Ok(DescriptorShot(p.frames + 1, now)), p.(frames := p.frames + 1))
    else
      match DataId(blocks, p.data)
      case None => Emission(Err(SymbolIdSpaceExhausted), p)
      case Some(id) =>
        Emission(Ok(DataShot(id, p.frames + 1, now)), p.(frames := p.frames + 1, data := p.data + 1))
  }

  /** Whatever is emitted can be fetched and framed. */
  lemma EmissionsAreShootable(c: Content, p: Position, now: u64)
    requires c.Valid() && p.interval > 0 && p.frames + 1 < U64
    ensures c.Blocks() != []
    ensures Emit(c.Blocks(), p, now).result.Ok? ==> Shootable(c, Emit(c.Blocks(), p, now).result.value)
  {
    ValidIsCanonical(c);
    if DataId(c.Blocks(), p.data).Some? {
      DataIdInRange(c.Blocks(), p.data);
    }
  }

  /** A call answered `r` and moved to `next` as `e` says. */
  ghost predicate Answers(c: Content, r: Result<Frames.Frame, SenderError>, next: Position, e: Emission)
  {
    && next == e.next
    && (e.result.Ok? ==> Shootable(c, e.result.value) && r == Ok(FrameOf(c, e.result.value)))
    && (e.result.Err? ==> r == Err(e.result.error))
  }

  class SenderSession {
    const content: Content
    const sourcePlan: seq<SymbolId>
    const totalK: u32
    var sourceCursor: nat
    var repairCursor: nat
    var frameIndex: nat
    var descriptorInterval: u32

    ghost predicate Valid()
      reads this
    {
      content.Valid() && totalK == TotalK(content.Blocks()) && Planned()
    }

    /** The cursors walk the plan of a well-numbered layout. */
    ghost predicate Planned()
      reads this
    {
      && Canonical(content.Blocks()) && 0 < |content.Blocks()| < U32
      && sourcePlan == Plan(content.Blocks()) && sourcePlan != []
      && descriptorInterval > 0
      && sourceCursor <= |sourcePlan|
      && (sourceCursor < |sourcePlan| ==> repairCursor == 0)
    }

    /** The two cursors count the data frames. */
    ghost function View(): (p: Position)
      reads this
    {
      Position(frameIndex, sourceCursor + repairCursor, descriptorInterval)
    }

    constructor (content: Content, plan: seq<SymbolId>, totalK: u32)
      requires content.Valid() && plan == Plan(content.Blocks()) && totalK == TotalK(content.Blocks())
      ensures Valid() && this.content == content && View() == START
    {
      PlanIsNotEmpty(content);
      this.content, sourcePlan, this.totalK := content, plan, totalK;
      sourceCursor, repairCursor, frameIndex, descriptorInterval := 0, 0, 0, DEFAULT_DESCRIPTOR_INTERVAL;
    }

    /** A session at its start for this content, or the content's error. */
    static ghost predicate Built(r: Result<SenderSession, SenderError>, c: Result<Content, SenderError>)
      reads if r.Ok? then {r.value} else {}
    {
      match r
      case Err(e) => c == Err(e)
      case Ok(session) => session.Valid() && session.View() == START && c == Ok(session.content)
    }

    static method New(codec: BlockCodec, layout: (Bytes, nat) -> Layout, payload: Bytes, sessionId: u128,
                      config: SenderConfig, fm: FileMeta) returns (r: Result<SenderSession, SenderError>)
      requires codec.Lawful() && config.symbolSize > 0 && |Padded(payload, config.symbolSize)| < U64
      requires LibraryKeepsPromise(layout, payload, config.symbolSize)
      ensures Built(r, Prepare(codec, layout, payload, sessionId, config, fm, None)) && (r.Ok? ==> fresh(r.value))
    {
      r := NewInner(codec, layout, payload, sessionId, config, fm, None);
    }

    static method NewSegment(codec: BlockCodec, layout: (Bytes, nat) -> Layout, payload: Bytes, sessionId: u128,
                             config: SenderConfig, fm: FileMeta, segment: SegmentMeta)
      returns (r: Result<SenderSession, SenderError>)
      requires codec.Lawful() && config.symbolSize > 0 && |Padded(payload, config.symbolSize)| < U64
      requires LibraryKeepsPromise(layout, payload, config.symbolSize)
      ensures Built(r, PrepareSegment(codec, layout, payload, sessionId, config, fm, segment)) && (r.Ok? ==> fresh(r.value))
    {
      if fm.compressedSize != |payload| || !fm.compressedSizeKnown {
        return Err(InvalidSegment);
      }
      if !Segments.ValidSegment(segment, sessionId, fm) {
        return Err(InvalidSegment);
      }
      r := NewInner(codec, layout, payload, sessionId, config, fm, Some(segment));
    }

    static method NewInner(codec: BlockCodec, layout: (Bytes, nat) -> Layout, payload: Bytes, sessionId: u128,
                           config: SenderConfig, fm: FileMeta, segment: Option<SegmentMeta>)
      returns (r: Result<SenderSession, SenderError>)
      requires codec.Lawful() && config.symbolSize > 0 && |Padded(payload, config.symbolSize)| < U64
      requires LibraryKeepsPromise(layout, payload, config.symbolSize)
      requires segment.Some? ==> Segments.ValidSegment(segment.value, sessionId, fm)
      ensures Built(r, Prepare(codec, layout, payload, sessionId, config, fm, segment)) && (r.Ok? ==> fresh(r.value))
    {
      PreparedIsValid(codec, layout, payload, sessionId, config, fm, segment);
      if config.redundancyPct < 5 || config.redundancyPct > 50 {
        return Err(InvalidRedundancy(config.redundancyPct));
      }
      var padded := PadToSymbols(payload, config.symbolSize);
      var e := NewEncoder(codec, layout, padded, config.symbolSize);
      if e.Err? {
        return Err(Codec(e.error));
      }
      var built := Descriptors.BuildPayloadBuffer(e.value.meta, fm, segment);
      if built.Err? {
        return Err(DescriptorTooLong(built.error.need, built.error.have));
      }
      var content := Content(sessionId, e.value, fm, segment);
      var plan := BuildSourcePlan(content.Blocks());
      var totalK := TotalK(content.Blocks());
      var session := new SenderSession(content, plan, totalK);
      return Ok(session);
    }

    method SetDescriptorInterval(interval: u32)
      requires Valid()
      modifies this`descriptorInterval
      ensures Valid() && View() == old(View()).(interval := if interval == 0 then 1 else interval)
    {
      descriptorInterval := if interval < 1 then 1 else interval;
    }

    method NextFrame(now: u64) returns (r: Result<Frames.Frame, SenderError>)
      requires Valid() && frameIndex + 1 < U64
      modifies `sourceCursor, `repairCursor, `frameIndex
      ensures Valid()
      ensures content.Blocks() != [] && Answers(content, r, View(), Emit(content.Blocks(), old(View()), now))
      ensures r.Ok? ==>
        var h := r.value.header;
        && h.sessionId == content.sessionId && h.symbolSize == content.Meta().symbolSize
        && h.totalBlocks == |content.Blocks()| && h.totalSymbols == TotalK(content.Blocks())
        && h.frameIndex == frameIndex == old(frameIndex) + 1 && h.timestampMs == now
    {
      EmissionsAreShootable(content, View(), now);
      var shot := NextShot(now);
      if shot.Err? {
        return Err(shot.error);
      }
      var frame := BuildFrame(shot.value);
      return Ok(frame);
    }

    /** The decisions of `next_frame`: which frame it is to be, and where the session stands then. */
    method NextShot(now: u64) returns (r: Result<Shot, SenderError>)
      requires Planned() && frameIndex + 1 < U64
      modifies `sourceCursor, `repairCursor, `frameIndex
      ensures Planned()
      ensures Emission(r, View()) == Emit(content.Blocks(), old(View()), now)
    {
      if sourcePlan == [] {
        return Err(NoPayload);
      }
      if frameIndex == 0 || (frameIndex > 0 && frameIndex % descriptorInterval == 0) {
        frameIndex := frameIndex + 1;
        return Ok(DescriptorShot(frameIndex, now));
      }
      var id := NextSymbolId();
      if id.Err? {
        return Err(id.error);
      }
      frameIndex := frameIndex + 1;
      return Ok(DataShot(id.value, frameIndex, now));
    }

    method BuildFrame(shot: Shot) returns (frame: Frames.Frame)
      requires Valid() && Shootable(content, shot)
      ensures frame == FrameOf(content, shot)
    {
      match shot
      case DescriptorShot(frameIndex, now) =>
        var payload := Descriptors.BuildPayloadBuffer(content.Meta(), content.fileMeta, content.segment);
        frame := Frames.Build(content.sessionId, Frames.FLAG_DESCRIPTOR, 0, 0, |content.Blocks()|, totalK,
                              content.Meta().symbolSize, frameIndex, now, payload.value);
      case DataShot(id, frameIndex, now) =>
        var symbol := FetchSymbol(id);
        frame := Frames.Build(content.sessionId, 0, id.sbn, id.esi, |content.Blocks()|, totalK,
                              content.Meta().symbolSize, frameIndex, now, symbol.data);
    }

    method NextSymbolId() returns (r: Result<SymbolId, SenderError>)
      requires Planned()
      modifies `sourceCursor, `repairCursor
      ensures Planned()
      ensures match DataId(content.Blocks(), old(View()).data)
              case None => r == Err(SymbolIdSpaceExhausted) && View() == old(View())
              case Some(id) => r == Ok(id) && View() == old(View()).(data := old(View()).data + 1)
    {
      ghost var data := sourceCursor + repairCursor;
      if sourceCursor < |sourcePlan| {
        assert DataId(content.Blocks(), data) == Some(sourcePlan[sourceCursor]);
        var id := sourcePlan[sourceCursor];
        sourceCursor := sourceCursor + 1;
        return Ok(id);
      }
      var id := RepairId(content.Blocks(), repairCursor);
      assert DataId(content.Blocks(), data) == id;
      if id.None? {
        return Err(SymbolIdSpaceExhausted);
      }
      RepairCursorFits(content.Blocks(), repairCursor);
      repairCursor := repairCursor + 1;
      return Ok(id.value);
    }

    /** Every id the session picks can be fetched. */
    method FetchSymbol(id: SymbolId) returns (symbol: Symbol)
      requires content.Valid() && id.sbn < |content.Blocks()| && id.esi < ESI_LIMIT
      ensures symbol == Symbol(id.sbn, id.esi, content.encoder.Packet(id.sbn, id.esi))
    {
      var k := content.Blocks()[id.sbn].numSourceSymbols;
      if id.esi < k {
        SourceIdsFetch(content.encoder, id.sbn, id.esi);
        return content.encoder.SourceSymbol(id.sbn, id.esi).value;
      }
      var offset: nat := id.esi as nat - k as nat;
      RepairIdsFetch(content.encoder, id.sbn, offset);
      return content.encoder.RepairSymbols(id.sbn, offset, 1).value[0];
    }
  }

  lemma PlanIsNotEmpty(c: Content)
    requires c.Valid()
    ensures Canonical(c.Blocks()) && 0 < |c.Blocks()| < U32 && Plan(c.Blocks()) != []
  {
    ValidIsCanonical(c);
    PlanIsExact(c.Blocks());
    assert SymbolId(0, 0) in Plan(c.Blocks());
  }

  lemma ProductBelow(n: nat, q: nat)
    requires n < U32 && q < ESI_LIMIT
    ensures n * q + n < U64
  {
    assert n * q <= n * ESI_LIMIT;
  }

  /** The 64-bit repair cursor cannot overflow: ids run out first. */
  lemma RepairCursorFits(blocks: seq<SourceBlockMeta>, cursor: nat)
    requires 0 < |blocks| < U32 && RepairId(blocks, cursor).Some?
    ensures cursor + 1 < U64
  {
    var n, q: nat := |blocks|, cursor / |blocks|;
    assert q < ESI_LIMIT;
    assert cursor == n * q + cursor % n;
    ProductBelow(n, q);
  }
}
