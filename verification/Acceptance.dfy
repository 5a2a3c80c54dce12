/** The sender transmits objects that no receiver takes: exactly which, and how to tell before sending. */
module Acceptance {
  import opened Words
  import Sums
  import opened Metadata
  import opened BlockCodecs
  import opened Encoders
  import opened Senders
  import opened Splitters
  import opened ReceiverStates
  import opened EndToEnd
  import opened Transfers
  import Broadcasts
  import Layouts
  import Receivers
  import Utf8

  /** Some harmless traffic brings a receiver of this session to completion. */
  ghost predicate CanComplete(w: World, c: Content)
    requires w.Lawful()
  {
    exists wire :: AllHarmless(c, wire) && IsComplete(Run(w, Pending(c.sessionId), Heard(c.sessionId, wire)))
  }

  /** An object can be received at all if and only if its descriptor passes the receiver's gates. */
  lemma CanCompleteExactly(w: World, c: Content)
    requires w.Lawful() && w.codec == c.encoder.codec && c.Valid()
    ensures CanComplete(w, c) <==> Accepted(c)
  {
    if Accepted(c) {
      var calls := Broadcasts.PassExists(c);
      SourcePassCompletes(w, c, calls);
    }
    if wire :| AllHarmless(c, wire) && IsComplete(Run(w, Pending(c.sessionId), Heard(c.sessionId, wire))) {
      CompleteMeansAccepted(w, c, wire);
    }
  }

  lemma CompleteMeansAccepted(w: World, c: Content, wire: seq<Bytes>)
    requires w.Lawful() && c.Valid() && AllHarmless(c, wire)
    requires IsComplete(Run(w, Pending(c.sessionId), Heard(c.sessionId, wire)))
    ensures Accepted(c)
  {
    var inputs := Heard(c.sessionId, wire);
    WireIsGenuine(c, wire);
    if !Accepted(c) {
      forall i | 0 <= i < |inputs|
        ensures !inputs[i].Descriptor?
      {
        assert Genuine(c, inputs[i]);
      }
      NeverCompleteWithoutDescriptor(w, c.sessionId, inputs);
    }
  }

  // ----- What the gates come to

  /** The gates on file metadata, for an object of `len` bytes. */
  predicate FileGate(fm: FileMeta, len: nat, segmented: bool)
  {
    && Receivers.KnownCompression(fm.compression)
    && fm.compressedSize <= len
    && (!segmented ==> fm.originalSize <= MAX_ORIGINAL_BYTES && (fm.compression != COMPRESSION_NONE ==> fm.originalSize > 0))
  }

  /** Of all the gates, an encoder's own layout can only fail three: the object ceiling, the
      number of blocks, and the library's transmission information. */
  lemma AcceptedExactly(c: Content)
    requires c.encoder.Valid()
    ensures Accepted(c) <==>
              && c.Meta().transferLength <= MAX_OBJECT_BYTES && |c.Blocks()| <= 255 && OtiAgrees(c.Meta())
              && FileGate(c.fileMeta, c.Meta().transferLength, c.segment.Some?)
  {
    LayoutGate(c.encoder);
  }

  lemma LayoutGate(e: Encoder)
    requires e.Valid()
    ensures ValidMeta(e.meta) <==> e.meta.transferLength <= MAX_OBJECT_BYTES && |e.meta.blocks| <= 255 && OtiAgrees(e.meta)
  {
    if e.meta.transferLength <= MAX_OBJECT_BYTES {
      TablePasses(e);
      WithinCeiling(e.meta.symbolSize, |e.meta.blocks|);
    }
  }

  lemma WithinCeiling(t: nat, blocks: nat)
    ensures MAX_OBJECT_BYTES <= MAX_OBJECT_BYTES + t * blocks
  {
  }

  lemma TablePasses(e: Encoder)
    requires e.Valid() && e.meta.transferLength <= MAX_OBJECT_BYTES
    ensures 0 < e.meta.transferLength == TotalK(e.meta.blocks) * e.meta.symbolSize
    ensures TotalK(e.meta.blocks) <= MAX_TOTAL_SOURCE_SYMBOLS
    ensures forall i :: 0 <= i < |e.meta.blocks| ==> BlockOk(e.meta, i)
  {
    Layouts.LengthIsSymbols(e);
    Layouts.SymbolsBound(TotalK(e.meta.blocks), e.meta.symbolSize, e.meta.transferLength);
    assert BlockOk(e.meta, 0);
    Sums.SumAtLeast(Ks(e.meta.blocks), 0);
  }

  /** So a sender can tell from the padded length, the layout and the file metadata. */
  lemma PreparedAcceptedExactly(codec: BlockCodec, layout: (Bytes, nat) -> Layout, payload: Bytes, sessionId: u128,
                                config: SenderConfig, fm: FileMeta, segment: Option<SegmentMeta>)
    requires config.symbolSize > 0 && |Padded(payload, config.symbolSize)| < U64
    requires LibraryKeepsPromise(layout, payload, config.symbolSize)
    ensures var padded := Padded(payload, config.symbolSize);
            var r := Prepare(codec, layout, payload, sessionId, config, fm, segment);
            r.Ok? ==>
              (Accepted(r.value) <==>
                && |padded| <= MAX_OBJECT_BYTES && |layout(padded, config.symbolSize).source| <= 255
                && OtiAgrees(r.value.Meta()) && FileGate(fm, |padded|, segment.Some?))
  {
    var padded := Padded(payload, config.symbolSize);
    NewEncoderIsValid(codec, layout, padded, config.symbolSize);
    var r := Prepare(codec, layout, payload, sessionId, config, fm, segment);
    if r.Ok? {
      AcceptedExactly(r.value);
    }
  }

  /** No check on the way stops a payload over the object ceiling, and no receiver takes it. */
  lemma OversizeIsNeverReceived(w: World, codec: BlockCodec, layout: (Bytes, nat) -> Layout, payload: Bytes,
                                sessionId: u128, config: SenderConfig, fm: FileMeta)
    requires w.Lawful() && w.codec == codec && config.symbolSize > 0 && |Padded(payload, config.symbolSize)| < U64
    requires LibraryKeepsPromise(layout, payload, config.symbolSize) && |payload| > MAX_OBJECT_BYTES
    ensures var r := Prepare(codec, layout, payload, sessionId, config, fm, None);
            r.Ok? ==> r.value.Valid() && !Accepted(r.value) && !CanComplete(w, r.value)
  {
    PaddingIsTight(payload, config.symbolSize);
    PreparedAcceptedExactly(codec, layout, payload, sessionId, config, fm, None);
    PreparedIsValid(codec, layout, payload, sessionId, config, fm, None);
    var r := Prepare(codec, layout, payload, sessionId, config, fm, None);
    if r.Ok? {
      CanCompleteExactly(w, r.value);
    }
  }

  /** The native sender cuts its payloads small enough: what it sends is accepted exactly when the
      library's layout of the slice is. */
  lemma ChildAcceptedExactly(p: Plant, x: Transfer, name: Utf8.Utf8String, i: u32)
    requires Sendable(p, x, name) && i < x.Count()
    ensures var c := Child(p, x, i, name); Accepted(c) <==> |c.Blocks()| <= 255 && OtiAgrees(c.Meta())
  {
    var c := Child(p, x, i, name);
    ChildCarriesSlice(p, x, i, name);
    PaddedSliceFits(x.payload, i, p.config.symbolSize);
    PaddingIsTight(Slice(x.payload, i), p.config.symbolSize);
    assert SentAs(p, x, i, name);
    AcceptedExactly(c);
  }
}
