/** A segmented transfer end to end: all segments on one channel, one receiver per child
    session, and the assembler behind them. */
module Transfers {
  import opened Words
  import opened Metadata
  import opened Segments
  import opened Senders
  import opened Splitters
  import opened Assemblers
  import opened ReceiverStates
  import opened EndToEnd
  import SessionIds
  import Descriptors
  import Frames
  import Utf8

  /** Every segment of a transfer of several can be sent, and is announced under `name`. */
  ghost predicate Sendable(p: Plant, x: Transfer, name: Utf8.Utf8String)
  {
    && x.Legal() && x.Count() > 1 && ConfigOk(p.config.symbolSize) && p.Suits(x)
    && forall i: u32 :: i < x.Count() ==> SentAs(p, x, i, name)
  }

  ghost predicate SentAs(p: Plant, x: Transfer, i: u32, name: Utf8.Utf8String)
    requires x.Legal() && i < x.Count() && ConfigOk(p.config.symbolSize) && p.Suits(x)
  {
    && ContentFor(p, x, i).Ok?
    && ContentFor(p, x, i).value.Announced().fileMeta.filename == name
  }

  /** The session of segment `i`. */
  ghost function Child(p: Plant, x: Transfer, i: u32, name: Utf8.Utf8String): (c: Content)
    requires Sendable(p, x, name) && i < x.Count()
  {
    assert SentAs(p, x, i, name);
    ContentFor(p, x, i).value
  }

  lemma ChildCarriesSlice(p: Plant, x: Transfer, i: u32, name: Utf8.Utf8String)
    requires Sendable(p, x, name) && i < x.Count()
    ensures i * SEGMENT_RAW_BYTES < |x.payload|
    ensures var c := Child(p, x, i, name);
            && Carries(c, Slice(x.payload, i)) && c.encoder.codec == p.codec
            && c.sessionId == SessionIds.DeriveSegment(x.root, i)
            && c.fileMeta == FileMetaFor(x, Slice(x.payload, i))
            && c.segment == Some(SegmentMetaFor(x, i))
  {
    assert SentAs(p, x, i, name);
    SliceMetaIsValid(x, i);
    ObjectFits(p, x, i);
    PreparedIsValid(p.codec, p.layout, p.Object(x, i), SessionIds.DeriveSegment(x.root, i), p.config,
                    FileMetaFor(x, p.Object(x, i)), Some(SegmentMetaFor(x, i)));
  }

  /** Bytes that may be heard while the transfer is on screen: any segment's frames, frames of
      unrelated sessions, and bytes that do not parse. */
  ghost predicate OnAir(p: Plant, x: Transfer, name: Utf8.Utf8String, b: Bytes)
    requires Sendable(p, x, name)
  {
    || Frames.FromBytes(b).Err?
    || (forall i: u32 :: i < x.Count() ==> Frames.FromBytes(b).value.header.sessionId != Child(p, x, i, name).sessionId)
    || (exists i: u32 :: i < x.Count() && Emitted(Child(p, x, i, name), b))
  }

  ghost predicate AllOnAir(p: Plant, x: Transfer, name: Utf8.Utf8String, wire: seq<Bytes>)
    requires Sendable(p, x, name)
  {
    forall k :: 0 <= k < |wire| ==> OnAir(p, x, name, wire[k])
  }

  lemma EmittedIsNamed(c: Content, b: Bytes)
    requires Emitted(c, b)
    ensures Frames.FromBytes(b).Ok? && Frames.FromBytes(b).value.header.sessionId == c.sessionId
  {
    var shot :| Shootable(c, shot) && b == Frames.WireBytes(FrameOf(c, shot));
    if shot.DataShot? {
      SymbolHasSymbolSize(c, shot.id.sbn, shot.id.esi);
    } else {
      Descriptors.BuildSucceedsExactly(c.Meta(), c.fileMeta, c.segment);
    }
    Frames.ParseOfWireBytes(FrameOf(c, shot));
  }

  /** A sibling's frames are another session's frames, because child ids never clash. */
  lemma SiblingsAreHarmless(p: Plant, x: Transfer, name: Utf8.Utf8String, b: Bytes, i: u32)
    requires Sendable(p, x, name) && i < x.Count() && OnAir(p, x, name, b)
    ensures Harmless(Child(p, x, i, name), b)
  {
    if j: u32 :| j < x.Count() && Emitted(Child(p, x, j, name), b) {
      EmittedIsNamed(Child(p, x, j, name), b);
      ChildCarriesSlice(p, x, i, name);
      ChildCarriesSlice(p, x, j, name);
      if i != j {
        SessionIds.ChildIdsDistinct(x.root, i, j);
      }
    }
  }

  /** Where the receiver of segment `i` ends after hearing the wire. */
  ghost function EndOf(w: World, p: Plant, x: Transfer, name: Utf8.Utf8String, wire: seq<Bytes>, i: u32): (s: State)
    requires w.Lawful() && Sendable(p, x, name) && i < x.Count()
    ensures Ready(s)
  {
    var sid := Child(p, x, i, name).sessionId;
    Run(w, Pending(sid), Heard(sid, wire))
  }

  /** What a finished receiver hands to the assembler: its segment metadata, its file metadata
      and its assembled bytes. */
  ghost function Handover(w: World, s: State): Option<Offer>
    requires Ready(s)
  {
    match AssembleResult(w, s)
    case Ok(Some(bytes)) => if s.segmentMeta.Some? then Some(Offer(s.segmentMeta.value, s.fileMeta, bytes)) else None
    case _ => None
  }

  /** The transfer as it arrives: under the announced name. */
  function Received(x: Transfer, name: Utf8.Utf8String): Transfer { x.(name := name) }

  /** A finished receiver hands over exactly its slice, under canonical coordinates. */
  lemma HandoverIsSlice(w: World, p: Plant, x: Transfer, name: Utf8.Utf8String, wire: seq<Bytes>, i: u32)
    requires w.Lawful() && w.codec == p.codec && Sendable(p, x, name) && AllOnAir(p, x, name, wire)
    requires i < x.Count() && IsComplete(EndOf(w, p, x, name, wire, i))
    ensures Handover(w, EndOf(w, p, x, name, wire, i)) == Some(OfferFor(Received(x, name), i))
  {
    var c := Child(p, x, i, name);
    ChildCarriesSlice(p, x, i, name);
    assert SentAs(p, x, i, name);
    forall k | 0 <= k < |wire|
      ensures Harmless(c, wire[k])
    {
      assert OnAir(p, x, name, wire[k]);
      SiblingsAreHarmless(p, x, name, wire[k], i);
    }
    UncompressedSafety(w, c, Slice(x.payload, i), wire);
    WireIsGenuine(c, wire);
    RunStaysFaithful(w, c, Heard(c.sessionId, wire));
    SliceTravels(x, name, i);
  }

  lemma SliceTravels(x: Transfer, name: Utf8.Utf8String, i: u32)
    requires x.Legal() && i < x.Count()
    ensures i * SEGMENT_RAW_BYTES < |x.payload|
    ensures OfferFor(Received(x, name), i)
         == Offer(SegmentMetaFor(x, i), FileMetaFor(x, Slice(x.payload, i)).(filename := name), Slice(x.payload, i))
  {
    SlicesAreCanonical(x.payload, i);
  }

  ghost predicate AllComplete(w: World, p: Plant, x: Transfer, name: Utf8.Utf8String, wire: seq<Bytes>)
    requires w.Lawful() && Sendable(p, x, name)
  {
    forall i: u32 :: i < x.Count() ==> IsComplete(EndOf(w, p, x, name, wire, i))
  }

  /** `offer` is what the receiver of segment `i` hands over. */
  ghost predicate HandedOver(w: World, p: Plant, x: Transfer, name: Utf8.Utf8String, wire: seq<Bytes>, i: u32, offer: Offer)
    requires w.Lawful() && Sendable(p, x, name)
  {
    i < x.Count() && Handover(w, EndOf(w, p, x, name, wire, i)) == Some(offer)
  }

  lemma {:induction false} OffersAre(x: Transfer, order: seq<u32>, offers: seq<Offer>)
    requires x.Legal() && AllBelow(order, x.Count()) && |offers| == |order|
    requires forall k :: 0 <= k < |order| ==> offers[k] == OfferFor(x, order[k])
    ensures offers == Offers(x, order)
    decreases |order|
  {
    if order != [] {
      var n := |order| - 1;
      OffersAre(x, order[..n], offers[..n]);
      assert offers == offers[..n] + [offers[n]];
    }
  }

  lemma HandoversAreOffers(w: World, p: Plant, x: Transfer, name: Utf8.Utf8String, wire: seq<Bytes>,
                           order: seq<u32>, offers: seq<Offer>)
    requires w.Lawful() && w.codec == p.codec && Sendable(p, x, name) && AllOnAir(p, x, name, wire)
    requires AllComplete(w, p, x, name, wire) && |offers| == |order|
    requires forall k :: 0 <= k < |order| ==> HandedOver(w, p, x, name, wire, order[k], offers[k])
    ensures AllBelow(order, x.Count()) && offers == Offers(Received(x, name), order)
  {
    forall k | 0 <= k < |order|
      ensures order[k] < x.Count() && offers[k] == OfferFor(Received(x, name), order[k])
    {
      assert HandedOver(w, p, x, name, wire, order[k], offers[k]);
      HandoverIsSlice(w, p, x, name, wire, order[k]);
    }
    OffersAre(Received(x, name), order, offers);
  }

  /** The whole transfer: with every segment's frames on one lossy channel, once the receiver of
      every segment is complete, handing their results to an assembler in any order, with any
      repeats, gives back the payload the sender cut. */
  lemma TransferIsRecovered(w: World, p: Plant, x: Transfer, name: Utf8.Utf8String, wire: seq<Bytes>,
                            order: seq<u32>, offers: seq<Offer>)
    requires w.Lawful() && w.codec == p.codec && Sendable(p, x, name) && AllOnAir(p, x, name, wire)
    requires AllComplete(w, p, x, name, wire) && |offers| == |order|
    requires forall k :: 0 <= k < |order| ==> HandedOver(w, p, x, name, wire, order[k], offers[k])
    requires forall i: u32 :: i < x.Count() ==> i in order
    ensures offers != [] && AssemblesTo(x.sha, offers, x.payload)
  {
    HandoversAreOffers(w, p, x, name, wire, order, offers);
    OffersAssemble(Received(x, name), order, offers);
  }

  /** An assembler started from the first offer and given all of them answers these bytes. */
  ghost predicate AssemblesTo(sha: Bytes -> Digest, offers: seq<Offer>, bytes: Bytes)
    requires offers != []
  {
    var start := Start(offers[0].seg, offers[0].fm);
    && start.Ok? && Assemblers.Invariant(sha, start.value)
    && Reassembled(AddAll(sha, start.value, offers)) == Some(bytes)
  }

  lemma OffersAssemble(x: Transfer, order: seq<u32>, offers: seq<Offer>)
    requires x.Legal() && AllBelow(order, x.Count()) && offers == Offers(x, order)
    requires forall i: u32 :: i < x.Count() ==> i in order
    ensures offers != [] && AssemblesTo(x.sha, offers, x.payload)
  {
    CountCovers(|x.payload|);
    assert 0 as u32 in order;
    SplitAssembleIdentity(x, order[0], order);
    FirstOffer(x, order);
  }

  lemma {:induction false} FirstOffer(x: Transfer, order: seq<u32>)
    requires x.Legal() && AllBelow(order, x.Count()) && order != []
    ensures Offers(x, order) != [] && Offers(x, order)[0] == OfferFor(x, order[0])
    decreases |order|
  {
    if |order| > 1 {
      FirstOffer(x, order[..|order| - 1]);
    }
  }
}
