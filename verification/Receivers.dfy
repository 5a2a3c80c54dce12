/** The receiver session object, refining the step function. */
module Receivers {
  import opened Words
  import opened Sums
  import opened Metadata
  import opened Decoders
  import opened ReceiverStates
  import Segments
  import Descriptors
  import Frames

  datatype ReceiveError = SessionMismatch(expected: u128, got: u128) | InvalidMeta | InvalidResume

  predicate KnownCompression(tag: u8) { tag <= 2 }

  /** The gates a parsed descriptor must pass. */
  predicate Acceptable(h: Frames.FrameHeader, info: DescriptorInfo)
  {
    && ValidMeta(info.meta)
    && h.symbolSize == info.meta.symbolSize
    && h.totalBlocks == |info.meta.blocks|
    && h.totalSymbols == TotalK(info.meta.blocks)
    && (info.segment.Some? ==> Segments.ValidSegment(info.segment.value, h.sessionId, info.fileMeta))
    && FileMetaOk(info)
  }

  predicate FileMetaOk(info: DescriptorInfo)
  {
    && KnownCompression(info.fileMeta.compression)
    && (info.segment.None? ==> info.fileMeta.originalSize <= MAX_ORIGINAL_BYTES)
    && (info.fileMeta.compressedSizeKnown ==> info.fileMeta.compressedSize <= info.meta.transferLength)
    && (info.segment.None? && info.fileMeta.compression != COMPRESSION_NONE ==> info.fileMeta.originalSize > 0)
  }

  predicate IsDescriptorFrame(h: Frames.FrameHeader)
  {
    h.flags % 2 == Frames.FLAG_DESCRIPTOR
  }

  function Classify(sessionId: u128, f: Frames.Frame): Input
  {
    if f.header.sessionId != sessionId then Foreign
    else if IsDescriptorFrame(f.header) then
      match Descriptors.ParsePayload(f.payload)
      case None => BadDescriptor
      case Some(info) => if Acceptable(f.header, info) then Descriptor(info) else BadDescriptor
    else Data(f.header.sbn, f.header.esi, f.header.symbolSize, f.payload)
  }

  class ReceiverSession {
    const world: World
    const sessionId: u128
    var meta: Option<ObjectMeta>
    var decoder: Decoder?
    var metaConfirmed: bool
    var descriptorSeen: bool
    var fileMeta: FileMeta
    var segmentMeta: Option<SegmentMeta>
    var received: seq<set<nat>>
    var sourceRecv: seq<nat>
    var symbolCache: map<Key, Bytes>
    var progress: Progress
    var sessionMismatchStreak: nat
    var pendingSymbolSize: u32
    var lastAssembleError: Option<AssembleError>

    ghost predicate Valid()
      reads this, decoder
    {
      && metaConfirmed == meta.Some?
      && (decoder != null <==> meta.Some?)
      && (meta.None? ==> received == [] && sourceRecv == [])
      && (meta.Some? ==>
           && ValidMeta(meta.value)
           && decoder.codec == world.codec && decoder.meta == meta.value && decoder.Valid()
           && |received| == |sourceRecv| == |meta.value.blocks|)
    }

    ghost function Holdings(): Book
      reads `decoder, `received, `sourceRecv, decoder
    {
      Book(if decoder == null then [] else decoder.blocks, received, sourceRecv)
    }

    /** The abstract state this object stands for. */
    ghost function View(): (s: State)
      requires Valid()
      reads this, decoder
      ensures Ready(s)
    {
      State(sessionId, meta, Holdings(), metaConfirmed, descriptorSeen, fileMeta, segmentMeta, symbolCache,
            progress, sessionMismatchStreak, pendingSymbolSize)
    }

    /** A session that buffers until a descriptor arrives. */
    constructor NewPending(world: World, sessionId: u128)
      ensures this.world == world && this.sessionId == sessionId
      ensures Valid() && View() == Pending(sessionId)
    {
      this.world, this.sessionId := world, sessionId;
      meta, decoder, metaConfirmed, descriptorSeen := None, null, false, false;
      fileMeta, segmentMeta := NO_FILE_META, None;
      received, sourceRecv, symbolCache := [], [], map[];
      progress, sessionMismatchStreak, pendingSymbolSize, lastAssembleError := NO_PROGRESS, 0, 0, None;
    }

    /** A session whose layout is already known, or a refusal of the layout. */
    static method NewConfirmed(world: World, sessionId: u128, m: ObjectMeta)
      returns (r: Result<ReceiverSession, ReceiveError>)
      ensures r.Ok? <==> ValidMeta(m)
      ensures r.Ok? ==> r.value.Valid() && fresh(r.value) && fresh(r.value.decoder)
                        && r.value.world == world && r.value.sessionId == sessionId
                        && r.value.View() == Known(sessionId, m)
      ensures r.Err? ==> r.error == InvalidMeta
    {
      var ok := Validate(m);
      if !ok {
        return Err(InvalidMeta);
      }
      var rx := new ReceiverSession.WithLayout(world, sessionId, m);
      return Ok(rx);
    }

    constructor WithLayout(world: World, sessionId: u128, m: ObjectMeta)
      requires ValidMeta(m)
      ensures this.world == world && this.sessionId == sessionId
      ensures Valid() && fresh(decoder) && View() == Known(sessionId, m)
    {
      this.world, this.sessionId := world, sessionId;
      var d := new Decoder(world.codec, m);
      meta, decoder, metaConfirmed, descriptorSeen := Some(m), d, true, false;
      fileMeta, segmentMeta := NO_FILE_META, None;
      received, sourceRecv, symbolCache := seq(|m.blocks|, _ => {}), seq(|m.blocks|, _ => 0), map[];
      progress := NO_PROGRESS.(totalSymbols := TotalK(m.blocks), totalBlocks := |m.blocks|);
      sessionMismatchStreak, pendingSymbolSize, lastAssembleError := 0, m.symbolSize, None;
    }

    predicate Complete()
      reads this, decoder
    {
      decoder != null && AllDecoded(decoder.blocks)
    }

    method Ingest(frame: Frames.Frame) returns (r: Result<bool, ReceiveError>)
      requires Valid() && world.Lawful()
      requires |frame.payload| < U32
      modifies this, decoder
      ensures Valid() && (decoder != old(decoder) ==> fresh(decoder))
      ensures View() == Step(world, old(View()), Classify(sessionId, frame))
      ensures r == if frame.header.sessionId != sessionId then Err(SessionMismatch(sessionId, frame.header.sessionId))
                   else Ok(IsComplete(View()))
    {
      if frame.header.sessionId != sessionId {
        sessionMismatchStreak := sessionMismatchStreak + 1;
        progress := progress.(sessionMismatchStreak := sessionMismatchStreak);
        return Err(SessionMismatch(sessionId, frame.header.sessionId));
      }
      ghost var before := View();
      sessionMismatchStreak := 0;
      progress := progress.(sessionMismatchStreak := 0, framesSeen := progress.framesSeen + 1);
      assert View() == Seen(before);
      IngestOwn(frame);
      return Ok(Complete());
    }

    method IngestOwn(frame: Frames.Frame)
      requires Valid() && world.Lawful()
      requires frame.header.sessionId == sessionId && |frame.payload| < U32
      modifies this, decoder
      ensures Valid() && (decoder != old(decoder) ==> fresh(decoder))
      ensures View() == StepOwn(world, old(View()), Classify(sessionId, frame))
    {
      if IsDescriptorFrame(frame.header) {
        var parsed := ParseGated(frame);
        if parsed.None? {
          progress := progress.(framesCorrupt := progress.framesCorrupt + 1);
        } else {
          IngestDescriptor(parsed.value);
        }
      } else if !metaConfirmed {
        BufferSymbol(Key(frame.header.sbn, frame.header.esi), frame.header.symbolSize, frame.payload);
      } else {
        IngestSymbol(Key(frame.header.sbn, frame.header.esi), frame.payload);
      }
    }

    /** The descriptor in a frame, unless unparseable or refused. */
    method ParseGated(frame: Frames.Frame) returns (r: Option<DescriptorInfo>)
      requires frame.header.sessionId == sessionId && IsDescriptorFrame(frame.header)
      ensures Classify(sessionId, frame) == if r.Some? then Descriptor(r.value) else BadDescriptor
      ensures r.Some? ==> ValidMeta(r.value.meta)
    {
      var info := Descriptors.ParseDescriptor(frame.payload);
      if info.None? {
        return None;
      }
      var ok := Gate(frame.header, info.value);
      return if ok then info else None;
    }

    static method Gate(h: Frames.FrameHeader, info: DescriptorInfo) returns (ok: bool)
      ensures ok == Acceptable(h, info)
    {
      var frameGeometryInvalid :=
        h.symbolSize != info.meta.symbolSize
        || h.totalBlocks != |info.meta.blocks|
        || TotalK(info.meta.blocks) != h.totalSymbols;
      var segmentInvalid :=
        info.segment.Some? && !Segments.ValidSegment(info.segment.value, h.sessionId, info.fileMeta);
      var fileMetaInvalid :=
        !KnownCompression(info.fileMeta.compression)
        || (info.segment.None? && info.fileMeta.originalSize > MAX_ORIGINAL_BYTES)
        || (info.fileMeta.compressedSizeKnown && info.fileMeta.compressedSize > info.meta.transferLength)
        || (info.segment.None? && info.fileMeta.compression != COMPRESSION_NONE && info.fileMeta.originalSize == 0);
      var metaOk := Validate(info.meta);
      ok := metaOk && !frameGeometryInvalid && !fileMetaInvalid && !segmentInvalid;
    }

    method IngestDescriptor(info: DescriptorInfo)
      requires Valid() && world.Lawful() && ValidMeta(info.meta)
      modifies this
      ensures Valid() && (decoder != old(decoder) ==> fresh(decoder))
      ensures View() == TakeDescriptor(world, old(View()), info)
    {
      if descriptorSeen {
        if meta != Some(info.meta) || fileMeta != info.fileMeta || segmentMeta != info.segment {
          progress := progress.(framesCorrupt := progress.framesCorrupt + 1);
        }
        return;
      }
      if meta.None? {
        ApplyMetadata(info.meta);
      } else if meta.value != info.meta {
        progress := progress.(framesCorrupt := progress.framesCorrupt + 1);
        return;
      }
      Confirm(info);
    }

    method Confirm(info: DescriptorInfo)
      requires Valid() && meta.Some?
      modifies `descriptorSeen, `symbolCache, `fileMeta, `segmentMeta, `metaConfirmed
      ensures Valid() && View() == Confirmed(old(View()), info)
    {
      metaConfirmed := true;
      descriptorSeen := true;
      symbolCache := map[];
      fileMeta := info.fileMeta;
      segmentMeta := info.segment;
    }

    /** Builds the decoder and replays the cache into it. */
    method ApplyMetadata(m: ObjectMeta)
      requires Valid() && world.Lawful() && meta.None? && ValidMeta(m)
      modifies this
      ensures Valid() && fresh(decoder)
      ensures View() == ApplyMeta(world, old(View()), m).(metaConfirmed := true)
    {
      ghost var before := View();
      var cached := symbolCache;
      Reset(m);
      var order := world.replayOrder(cached.Keys);
      assert Enumerates(order, cached.Keys);
      Replay(cached, order);
      progress := progress.(receivedSymbols := Sum(Cards(received)));
      RefreshDecodedCounts();
      ghost var r := ReplayAll(world.codec, m, cached, order);
      assert View() == AfterReplay(before, m, r).(metaConfirmed := true);
    }

    /** The layout is adopted, with nothing taken in yet. */
    method Reset(m: ObjectMeta)
      requires Valid() && meta.None? && ValidMeta(m)
      modifies this
      ensures Valid() && fresh(decoder)
      ensures View() == old(View()).(
                meta := Some(m), metaConfirmed := true, book := EmptyBook(m), cache := map[],
                pendingSymbolSize := m.symbolSize,
                progress := old(progress).(totalSymbols := TotalK(m.blocks), totalBlocks := |m.blocks|))
    {
      var d := new Decoder(world.codec, m);
      symbolCache := map[];
      meta := Some(m);
      pendingSymbolSize := m.symbolSize;
      progress := progress.(totalSymbols := TotalK(m.blocks), totalBlocks := |m.blocks|);
      received, sourceRecv := seq(|m.blocks|, _ => {}), seq(|m.blocks|, _ => 0);
      decoder := d;
      metaConfirmed := true;
      assert Holdings() == EmptyBook(m);
    }

    method Replay(cached: map<Key, Bytes>, order: seq<Key>)
      requires Valid() && meta.Some? && Holdings() == EmptyBook(meta.value)
      requires forall k :: k in order ==> k in cached
      modifies this`received, this`sourceRecv, this`progress, decoder
      ensures Valid()
      ensures var r := ReplayAll(world.codec, meta.value, cached, order);
              View() == old(View()).(book := r.book,
                                     progress := old(progress).(framesCorrupt := old(progress.framesCorrupt) + r.corrupt))
    {
      assert order[..0] == [];
      for i := 0 to |order|
        invariant Valid()
        invariant var r := ReplayAll(world.codec, meta.value, cached, order[..i]);
                  && Holdings() == r.book
                  && progress == old(progress).(framesCorrupt := old(progress.framesCorrupt) + r.corrupt)
      {
        var key := order[i];
        var data := cached[key];
        assert order[..i + 1][..i] == order[..i] && order[..i + 1][i] == key;
        if !Fits(meta.value, key, data) {
          progress := progress.(framesCorrupt := progress.framesCorrupt + 1);
        } else {
          TakeIn(key, data);
        }
      }
      assert order[..|order|] == order;
    }

    /** A fitting symbol into the decoder, the received set and the source counter. */
    method TakeIn(key: Key, data: Bytes)
      requires Valid() && meta.Some? && Fits(meta.value, key, data)
      modifies this`received, this`sourceRecv, decoder
      ensures Valid()
      ensures Holdings() == Accept(world.codec, meta.value, old(Holdings()), key.sbn, key.esi, data)
    {
      var i := key.sbn;
      var _ := decoder.AddSymbol(key.sbn, key.esi, data);
      if key.esi !in received[i] {
        if key.esi < meta.value.blocks[i].numSourceSymbols {
          sourceRecv := sourceRecv[i := sourceRecv[i] + 1];
        }
      }
      received := received[i := received[i] + {key.esi}];
    }

    method BufferSymbol(key: Key, symbolSize: u32, payload: Bytes)
      requires Valid() && !metaConfirmed
      modifies this`pendingSymbolSize, this`symbolCache, this`progress
      ensures Valid() && View() == CacheData(old(View()), key, symbolSize, payload)
    {
      pendingSymbolSize := symbolSize;
      if key in symbolCache {
        progress := progress.(framesDuplicate := progress.framesDuplicate + 1);
      } else if |symbolCache| >= PreMetaCacheMax(symbolSize) {
        progress := progress.(framesCorrupt := progress.framesCorrupt + 1);
      } else {
        symbolCache := symbolCache[key := payload];
      }
      progress := progress.(receivedSymbols := |symbolCache|, decodedSymbols := 0);
    }

    method IngestSymbol(key: Key, payload: Bytes)
      requires Valid() && metaConfirmed
      modifies this`received, this`sourceRecv, this`progress, decoder
      ensures Valid() && View() == TakeData(world.codec, old(View()), meta.value, key, payload)
    {
      if key.sbn >= |received| {
        progress := progress.(framesCorrupt := progress.framesCorrupt + 1);
        return;
      }
      if key.esi >= ESI_LIMIT || |payload| != meta.value.symbolSize {
        progress := progress.(framesCorrupt := progress.framesCorrupt + 1);
        return;
      }
      if Complete() {
        progress := progress.(framesDuplicate := progress.framesDuplicate + 1);
        return;
      }
      if key.esi in received[key.sbn] {
        progress := progress.(framesDuplicate := progress.framesDuplicate + 1);
        return;
      }
      progress := progress.(receivedSymbols := progress.receivedSymbols + 1);
      TakeIn(key, payload);
      RefreshDecodedCounts();
    }

    method RefreshDecodedCounts()
      requires Valid() && meta.Some?
      modifies this`progress
      ensures Valid() && progress == Refreshed(old(progress), meta.value, Holdings())
    {
      var decodedSymbols, decodedBlocks := DecodedCounts();
      progress := progress.(decodedSymbols := decodedSymbols, decodedBlocks := decodedBlocks);
    }

    method DecodedCounts() returns (decodedSymbols: nat, decodedBlocks: nat)
      requires Valid() && meta.Some?
      ensures decodedSymbols == Sum(DecodedPer(meta.value, Holdings()))
      ensures decodedBlocks == Sum(DecodedFlags(Holdings().blocks))
    {
      var blocks := meta.value.blocks;
      decodedSymbols, decodedBlocks := 0, 0;
      ghost var per, flags := DecodedPer(meta.value, Holdings()), DecodedFlags(decoder.blocks);
      for i := 0 to |blocks|
        invariant decodedSymbols == Sum(per[..i]) && decodedBlocks == Sum(flags[..i])
      {
        var k := blocks[i].numSourceSymbols;
        assert BlockOk(meta.value, i);
        if decoder.BlockProgress(blocks[i].sbn).Some? {
          decodedSymbols := decodedSymbols + k;
          decodedBlocks := decodedBlocks + 1;
        } else {
          decodedSymbols := decodedSymbols + Min(sourceRecv[i], k);
        }
        SumPrefix(per, i);
        SumPrefix(flags, i);
      }
      assert per[..|blocks|] == per && flags[..|blocks|] == flags;
    }

    /** The recovered file, once complete. */
    method Assemble() returns (r: Result<Option<Bytes>, AssembleError>)
      requires Valid()
      modifies this`lastAssembleError
      ensures Valid() && View() == old(View())
      ensures r == AssembleResult(world, View())
      ensures lastAssembleError == if r.Err? then Some(r.error) else None
    {
      lastAssembleError := None;
      if decoder == null {
        return Ok(None);
      }
      var assembled := decoder.Assemble();
      if assembled.None? {
        return Ok(None);
      }
      var raw := assembled.value;
      if fileMeta.compressedSizeKnown {
        if fileMeta.compressedSize <= |raw| {
          raw := raw[..fileMeta.compressedSize];
        } else {
          lastAssembleError := Some(ClaimsMoreThanRecovered(fileMeta.compressedSize, |raw|));
          return Err(ClaimsMoreThanRecovered(fileMeta.compressedSize, |raw|));
        }
      }
      r := Unpack(world, raw, fileMeta);
      lastAssembleError := if r.Err? then Some(r.error) else None;
    }
  }
}
