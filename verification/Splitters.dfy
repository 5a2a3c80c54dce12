/** Cutting a large payload into segments, each sent as a session of its own. */
module Splitters {
  import opened Words
  import opened Metadata
  import opened Segments
  import opened Assemblers
  import opened Encoders
  import opened BlockCodecs
  import opened Senders
  import SessionIds
  import RootIds
  import Crc32
  import Utf8

  // ----- The cut

  /** The bytes of segment `index`. */
  function Slice(payload: Bytes, index: nat): Bytes
    requires index * SEGMENT_RAW_BYTES <= |payload|
  {
    payload[index * SEGMENT_RAW_BYTES..Min((index + 1) * SEGMENT_RAW_BYTES, |payload|)]
  }

  /** A payload to send, its name as announced, its checksums and its root session. */
  datatype Transfer = Transfer(sha: Bytes -> Digest, root: u128, name: Utf8.Utf8String, payload: Bytes, crc32: u32)
  {
    predicate Legal() { 0 < |payload| <= MAX_ORIGINAL_BYTES }

    function Count(): nat { SegmentCount(|payload|) }
  }

  /** File metadata announced for `bytes` of the payload. */
  function FileMetaFor(x: Transfer, bytes: Bytes): FileMeta
    requires |x.payload| < U64 && |bytes| < U64
  {
    FileMeta(x.name, |x.payload|, x.crc32, COMPRESSION_NONE, |bytes|, true, true)
  }

  function SegmentMetaFor(x: Transfer, index: u32): SegmentMeta
    requires index * SEGMENT_RAW_BYTES <= |x.payload| <= MAX_ORIGINAL_BYTES
  {
    SegmentMeta(x.root, index, x.Count(), index * SEGMENT_RAW_BYTES, |x.payload|,
                x.sha(x.payload), x.sha(Slice(x.payload, index)))
  }

  /** Every slice of the cut is non-empty and of canonical length. */
  lemma SlicesAreCanonical(payload: Bytes, index: nat)
    requires payload != [] && index < SegmentCount(|payload|)
    ensures 0 <= index * SEGMENT_RAW_BYTES < |payload|
    ensures 0 < |Slice(payload, index)| == CanonicalLength(|payload|, index) <= SEGMENT_RAW_BYTES
  {
    CountCovers(|payload|);
  }

  /** The first `n` slices, in order, are the front of the payload. */
  function Slices(payload: Bytes, n: nat): Bytes
    requires payload != [] && n <= SegmentCount(|payload|)
  {
    if n == 0 then []
    else
      SlicesAreCanonical(payload, n - 1);
      Slices(payload, n - 1) + Slice(payload, n - 1)
  }

  lemma {:induction false} SlicesTile(payload: Bytes, n: nat)
    requires payload != [] && n <= SegmentCount(|payload|)
    ensures Slices(payload, n) == payload[..Min(n * SEGMENT_RAW_BYTES, |payload|)]
  {
    if n > 0 {
      SlicesTile(payload, n - 1);
      SlicesAreCanonical(payload, n - 1);
    }
  }

  /** All of them are the payload. */
  lemma CutIsExact(payload: Bytes)
    requires payload != []
    ensures Slices(payload, SegmentCount(|payload|)) == payload
  {
    SlicesTile(payload, SegmentCount(|payload|));
    CountCovers(|payload|);
  }

  lemma SliceRangeIsCanonical(x: Transfer, index: u32)
    requires x.Legal() && index < x.Count()
    ensures index * SEGMENT_RAW_BYTES < |x.payload|
    ensures CanonicalRange(SegmentMetaFor(x, index), FileMetaFor(x, Slice(x.payload, index)))
  {
    SlicesAreCanonical(x.payload, index);
  }

  /** Every slice carries coordinates a receiver accepts for its child session. */
  lemma SliceMetaIsValid(x: Transfer, index: u32)
    requires x.Legal() && index < x.Count()
    ensures index * SEGMENT_RAW_BYTES < |x.payload|
    ensures ValidSegment(SegmentMetaFor(x, index), SessionIds.DeriveSegment(x.root, index),
                         FileMetaFor(x, Slice(x.payload, index)))
  {
    SliceRangeIsCanonical(x, index);
  }

  /** Padded to any legal symbol size, a slice stays within what one object may hold. */
  lemma PaddedSliceFits(payload: Bytes, index: nat, symbolSize: u32)
    requires payload != [] && index < SegmentCount(|payload|) && ConfigOk(symbolSize)
    ensures 0 <= index * SEGMENT_RAW_BYTES < |payload|
    ensures 0 < |Padded(Slice(payload, index), symbolSize)| <= MAX_OBJECT_BYTES
  {
    SlicesAreCanonical(payload, index);
    PaddingIsTight(Slice(payload, index), symbolSize);
  }

  // ----- Cutting and reassembling is the identity

  predicate AllBelow(order: seq<u32>, n: nat)
  {
    forall k :: 0 <= k < |order| ==> order[k] < n
  }

  /** The offers a receiver makes for segments finishing in this order. */
  function Offers(x: Transfer, order: seq<u32>): (q: seq<Offer>)
    requires x.Legal() && AllBelow(order, x.Count())
    ensures |q| == |order|
  {
    if order == [] then []
    else
      var rest, last := order[..|order| - 1], order[|order| - 1];
      Offers(x, rest) + [OfferFor(x, last)]
  }

  function OfferFor(x: Transfer, index: u32): Offer
    requires x.Legal() && index < x.Count()
  {
    SlicesAreCanonical(x.payload, index);
    Offer(SegmentMetaFor(x, index), FileMetaFor(x, Slice(x.payload, index)), Slice(x.payload, index))
  }

  /** The slots named by `order` hold their slices; the others are empty. */
  ghost predicate Holds(x: Transfer, order: seq<u32>, a: Assembly)
    requires x.Legal()
  {
    && Assemblers.Invariant(x.sha, a)
    && a.root == Root(x.root, x.name, x.Count(), |x.payload|, |x.payload|, x.sha(x.payload))
    && forall i: u32 :: i < a.root.count ==>
         SlotHolds(a, i, if i in order then Some(OfferFor(x, i)) else None)
  }

  ghost predicate SlotHolds(a: Assembly, i: nat, offer: Option<Offer>)
    requires i < |a.segments| == |a.metas|
  {
    match offer
    case None => a.segments[i].None? && a.metas[i].None?
    case Some(o) => a.segments[i] == Some(o.bytes) && a.metas[i] == Some(o.seg)
  }

  lemma StartHolds(x: Transfer, first: u32)
    requires x.Legal() && first < x.Count()
    ensures var o := OfferFor(x, first);
            Start(o.seg, o.fm).Ok? && Holds(x, [], Start(o.seg, o.fm).value)
  {
    SlicesAreCanonical(x.payload, first);
    var o := OfferFor(x, first);
    assert RangeOk(o.seg, o.fm, |x.payload|);
    StartInvariant(x.sha, o.seg, o.fm);
  }

  /** A slice is stored when new and recognised when repeated, never refused. */
  lemma OfferIsTaken(x: Transfer, order: seq<u32>, a: Assembly, i: u32)
    requires x.Legal() && i < x.Count()
    requires Holds(x, order, a)
    ensures var o := OfferFor(x, i);
            var r := Add(x.sha, a, o.seg, o.fm, o.bytes);
            r.answer == Ok(i !in order) && Holds(x, order + [i], r.next)
  {
    SlicesAreCanonical(x.payload, i);
    var o := OfferFor(x, i);
    AddKeeps(x.sha, a, o.seg, o.fm, o.bytes);
    assert RangeOk(o.seg, o.fm, a.root.size);
    assert SlotHolds(a, i, if i in order then Some(o) else None);
    var b := Add(x.sha, a, o.seg, o.fm, o.bytes).next;
    forall j: u32 | j < a.root.count
      ensures SlotHolds(b, j, if j in order + [i] then Some(OfferFor(x, j)) else None)
    {
      assert SlotHolds(a, j, if j in order then Some(OfferFor(x, j)) else None);
    }
  }

  lemma {:induction false} OffersFill(x: Transfer, order: seq<u32>, a: Assembly)
    requires x.Legal() && AllBelow(order, x.Count())
    requires Holds(x, [], a)
    ensures Holds(x, order, AddAll(x.sha, a, Offers(x, order)))
    decreases |order|
  {
    if order != [] {
      var rest, last := order[..|order| - 1], order[|order| - 1];
      OffersFill(x, rest, a);
      assert order == rest + [last];
      AddAllSnoc(x.sha, a, Offers(x, rest), OfferFor(x, last));
      OfferIsTaken(x, rest, AddAll(x.sha, a, Offers(x, rest)), last);
    }
  }

  lemma AddAllSnoc(sha: Bytes -> Digest, a: Assembly, offers: seq<Offer>, o: Offer)
    requires Assemblers.Invariant(sha, a)
    ensures AddAll(sha, a, offers + [o]) == Add(sha, AddAll(sha, a, offers), o.seg, o.fm, o.bytes).next
  {
    assert (offers + [o])[..|offers|] == offers;
  }

  lemma {:induction false} SlotsAreSlices(payload: Bytes, q: seq<Option<Bytes>>, n: nat)
    requires payload != [] && n <= |q| == SegmentCount(|payload|)
    requires forall i :: 0 <= i < |q| ==> i * SEGMENT_RAW_BYTES <= |payload| && q[i] == Some(Slice(payload, i))
    ensures Concat(q, n) == Slices(payload, n)
  {
    if n > 0 {
      SlotsAreSlices(payload, q, n - 1);
    }
  }

  /** Whichever segment is seen first, and in whatever order, with whatever repeats, the
      segments finish: once each has finished, the assembly is the payload. */
  lemma SplitAssembleIdentity(x: Transfer, first: u32, order: seq<u32>)
    requires x.Legal() && first < x.Count()
    requires AllBelow(order, x.Count()) && forall i: u32 :: i < x.Count() ==> i in order
    ensures var o := OfferFor(x, first);
            Start(o.seg, o.fm).Ok? && Assemblers.Invariant(x.sha, Start(o.seg, o.fm).value)
            && Reassembled(AddAll(x.sha, Start(o.seg, o.fm).value, Offers(x, order)))
               == Some(x.payload)
  {
    StartHolds(x, first);
    var o := OfferFor(x, first);
    var start := Start(o.seg, o.fm).value;
    OffersFill(x, order, start);
    var a := AddAll(x.sha, start, Offers(x, order));
    forall i | 0 <= i < |a.segments|
      ensures i * SEGMENT_RAW_BYTES <= |x.payload| && a.segments[i] == Some(Slice(x.payload, i))
    {
      SlicesAreCanonical(x.payload, i);
      assert SlotHolds(a, i, if i as u32 in order then Some(OfferFor(x, i)) else None);
    }
    SlotsAreSlices(x.payload, a.segments, |a.segments|);
    CutIsExact(x.payload);
  }

  // ----- The native sender object

  /** The code, the library's layout and the sender settings, legal ones. */
  datatype Plant = Plant(codec: BlockCodec, layout: (Bytes, nat) -> Layout, config: SenderConfig)
  {
    /** The object sent for segment `index`. */
    function Object(x: Transfer, index: u32): Bytes
      requires x.Legal() && index < x.Count()
    {
      SlicesAreCanonical(x.payload, index);
      if x.Count() <= 1 then x.payload else Slice(x.payload, index)
    }

    /** The library lays out whatever objects this payload is cut into. */
    ghost predicate Suits(x: Transfer)
      requires x.Legal() && ConfigOk(config.symbolSize)
    {
      codec.Lawful() && forall i: u32 :: i < x.Count() ==> LibraryKeepsPromise(layout, Object(x, i), config.symbolSize)
    }
  }

  lemma ObjectFits(w: Plant, x: Transfer, index: u32)
    requires x.Legal() && index < x.Count() && ConfigOk(w.config.symbolSize)
    ensures 0 < |w.Object(x, index)| <= |x.payload| && |Padded(w.Object(x, index), w.config.symbolSize)| < U64
  {
    SlicesAreCanonical(x.payload, index);
    PaddingIsTight(w.Object(x, index), w.config.symbolSize);
  }

  /** What `build_session` transmits for segment `index`. */
  function ContentFor(w: Plant, x: Transfer, index: u32): Result<Content, SenderError>
    requires x.Legal() && index < x.Count() && ConfigOk(w.config.symbolSize) && w.Suits(x)
  {
    ObjectFits(w, x, index);
    SlicesAreCanonical(x.payload, index);
    if x.Count() <= 1 then
      Prepare(w.codec, w.layout, w.Object(x, index), x.root, w.config, FileMetaFor(x, x.payload), None)
    else
      SliceContent(w, x, index, SessionIds.DeriveSegment(x.root, index))
  }

  /** A slice of a larger payload, in a session of its own. */
  function SliceContent(w: Plant, x: Transfer, index: u32, child: u128): Result<Content, SenderError>
    requires x.Legal() && 1 < x.Count() && index < x.Count() && ConfigOk(w.config.symbolSize) && w.Suits(x)
  {
    ObjectFits(w, x, index);
    SlicesAreCanonical(x.payload, index);
    var slice := Slice(x.payload, index);
    assert LibraryKeepsPromise(w.layout, w.Object(x, index), w.config.symbolSize);
    PrepareSegment(w.codec, w.layout, slice, child, w.config, FileMetaFor(x, slice), SegmentMetaFor(x, index))
  }

  /** Nothing but the redundancy setting and a descriptor too long for one symbol keeps a
      segment of a legal payload from being sent. */
  lemma SegmentsAreSendable(w: Plant, x: Transfer, index: u32)
    requires x.Legal() && index < x.Count() && ConfigOk(w.config.symbolSize) && w.Suits(x)
    ensures var padded := Padded(w.Object(x, index), w.config.symbolSize);
            ContentFor(w, x, index).Ok?
            <==> 5 <= w.config.redundancyPct <= 50
                 && 50 + 16 * |w.layout(padded, w.config.symbolSize).source| + (if x.Count() <= 1 then 0 else 104)
                    <= w.config.symbolSize
    ensures ContentFor(w, x, index).Ok? ==> ContentFor(w, x, index).value.Valid()
    ensures !(5 <= w.config.redundancyPct <= 50)
        ==> ContentFor(w, x, index) == Err(InvalidRedundancy(w.config.redundancyPct))
  {
    ObjectFits(w, x, index);
    SlicesAreCanonical(x.payload, index);
    if x.Count() <= 1 {
      PreparedExactly(w.codec, w.layout, w.Object(x, index), x.root, w.config, FileMetaFor(x, x.payload), None);
      PreparedIsValid(w.codec, w.layout, w.Object(x, index), x.root, w.config, FileMetaFor(x, x.payload), None);
    } else {
      SliceMetaIsValid(x, index);
      PreparedExactly(w.codec, w.layout, w.Object(x, index), SessionIds.DeriveSegment(x.root, index), w.config,
                      FileMetaFor(x, w.Object(x, index)), Some(SegmentMetaFor(x, index)));
      PreparedIsValid(w.codec, w.layout, w.Object(x, index), SessionIds.DeriveSegment(x.root, index), w.config,
                      FileMetaFor(x, w.Object(x, index)), Some(SegmentMetaFor(x, index)));
    }
  }

  /** A payload the program takes at all. */
  predicate Sized(payload: Bytes) { 0 < |payload| <= MAX_ORIGINAL_BYTES }

  function RootOf(payload: Bytes, filename: Utf8.Utf8String, modifiedMs: u64): u128
    requires Sized(payload)
  {
    RootIds.Derive(filename, |payload|, modifiedMs, RootIds.Fingerprint(payload))
  }

  /** What is sent when a file is opened. */
  function TransferOf(sha: Bytes -> Digest, payload: Bytes, filename: Utf8.Utf8String, modifiedMs: u64): (x: Transfer)
    requires Sized(payload)
    ensures x.Legal()
  {
    Transfer(sha, RootOf(payload, filename, modifiedMs), filename, payload, Crc32.Checksum(payload))
  }

  /** Segment 0 cannot be prepared. */
  ghost predicate FirstRefused(p: Plant, x: Transfer, e: SenderError)
  {
    && x.Legal() && ConfigOk(p.config.symbolSize) && p.Suits(x)
    && 0 < x.Count() && ContentFor(p, x, 0) == Err(e)
  }

  lemma RefusedForRedundancy(p: Plant, x: Transfer)
    requires x.Legal() && ConfigOk(p.config.symbolSize) && p.Suits(x) && !(5 <= p.config.redundancyPct <= 50)
    ensures FirstRefused(p, x, InvalidRedundancy(p.config.redundancyPct))
  {
    SegmentsAreSendable(p, x, 0);
  }

  /** A payload together with the segment of it that is on screen. */
  class NativeSender {
    const plant: Plant
    const transfer: Transfer
    const segmentCount: u32
    var segmentIndex: u32
    var session: SenderSession

    ghost predicate Fixed()
    {
      && transfer.Legal() && ConfigOk(plant.config.symbolSize) && plant.Suits(transfer)
      && transfer.crc32 == Crc32.Checksum(transfer.payload) && segmentCount == transfer.Count()
    }

    ghost predicate Valid()
      reads this, session
    {
      && Fixed() && segmentIndex < segmentCount
      && session.Valid() && ContentFor(plant, transfer, segmentIndex) == Ok(session.content)
    }

    constructor (plant: Plant, transfer: Transfer, session: SenderSession)
      requires transfer.Legal() && ConfigOk(plant.config.symbolSize) && plant.Suits(transfer)
      requires transfer.crc32 == Crc32.Checksum(transfer.payload)
      requires session.Valid() && 0 < transfer.Count() && ContentFor(plant, transfer, 0) == Ok(session.content)
      ensures Valid() && segmentIndex == 0 && this.session == session
      ensures this.plant == plant && this.transfer == transfer
      ensures session.View() == START ==> Opened(transfer)
    {
      this.plant, this.transfer, segmentCount := plant, transfer, transfer.Count();
      segmentIndex, this.session := 0, session;
    }

    /** Limits and settings are checked first; then the root id, the checksum and segment 0 are made. */
    static method New(plant: Plant, sha: Bytes -> Digest, payload: Bytes, filename: Utf8.Utf8String, modifiedMs: u64)
      returns (r: Result<NativeSender, SenderError>)
      requires Sized(payload) && ConfigOk(plant.config.symbolSize)
           ==> plant.Suits(TransferOf(sha, payload, filename, modifiedMs))
      ensures !Sized(payload) ==> r == Err(NoPayload)
      ensures Sized(payload) && !ConfigOk(plant.config.symbolSize) ==> r == Err(Codec(InvalidSymbolSize))
      ensures Sized(payload) && ConfigOk(plant.config.symbolSize) ==>
                var x := TransferOf(sha, payload, filename, modifiedMs);
                if r.Ok? then r.value.Opened(x) else FirstRefused(plant, x, r.error)
      ensures r.Ok? ==> fresh(r.value) && fresh(r.value.session)
    {
      if |payload| == 0 || |payload| > MAX_ORIGINAL_BYTES {
        return Err(NoPayload);
      }
      if !ConfigOk(plant.config.symbolSize) {
        return Err(Codec(InvalidSymbolSize));
      }
      ghost var x := TransferOf(sha, payload, filename, modifiedMs);
      if plant.config.redundancyPct < 5 || plant.config.redundancyPct > 50 {
        RefusedForRedundancy(plant, x);
        return Err(InvalidRedundancy(plant.config.redundancyPct));
      }
      var root := Identify(payload, filename, modifiedMs);
      var crc := Crc32.TableChecksum(payload);
      var transfer := Transfer(sha, root, filename, payload, crc);
      assert transfer == x;
      r := Open(plant, transfer);
    }

    /** The root id, from the name, the size, the time and both ends of the payload. */
    static method Identify(payload: Bytes, filename: Utf8.Utf8String, modifiedMs: u64) returns (root: u128)
      requires Sized(payload)
      ensures root == RootOf(payload, filename, modifiedMs)
    {
      var head, tail := Min(|payload|, RootIds.FINGERPRINT_SPAN), Max(0, |payload| - RootIds.FINGERPRINT_SPAN);
      var fingerprint := RootIds.ContentFingerprint(payload[..head], payload[tail..]);
      root := RootIds.DeriveRootId(filename, |payload|, modifiedMs, fingerprint);
    }

    /** Just made for this transfer, with its first segment at the start of its stream. */
    ghost predicate Opened(x: Transfer)
      reads this, session
    {
      Valid() && transfer == x && segmentIndex == 0 && session.View() == START
    }

    static method Open(plant: Plant, x: Transfer) returns (r: Result<NativeSender, SenderError>)
      requires x.Legal() && ConfigOk(plant.config.symbolSize) && plant.Suits(x) && x.crc32 == Crc32.Checksum(x.payload)
      ensures if r.Ok? then r.value.Opened(x) else FirstRefused(plant, x, r.error)
      ensures r.Ok? ==> fresh(r.value) && fresh(r.value.session)
    {
      var session := BuildSession(plant, x, 0);
      if session.Err? {
        return Err(session.error);
      }
      var s := new NativeSender(plant, x, session.value);
      return Ok(s);
    }

    static method BuildSession(w: Plant, x: Transfer, index: u32) returns (r: Result<SenderSession, SenderError>)
      requires x.Legal() && index < x.Count() && ConfigOk(w.config.symbolSize) && w.Suits(x)
      ensures SenderSession.Built(r, ContentFor(w, x, index)) && (r.Ok? ==> fresh(r.value))
    {
      if x.Count() <= 1 {
        r := BuildWhole(w, x);
      } else {
        r := BuildSlice(w, x, index, SessionIds.DeriveSegment(x.root, index));
      }
    }

    static method BuildWhole(w: Plant, x: Transfer) returns (r: Result<SenderSession, SenderError>)
      requires x.Legal() && x.Count() == 1 && ConfigOk(w.config.symbolSize) && w.Suits(x)
      ensures SenderSession.Built(r, ContentFor(w, x, 0)) && (r.Ok? ==> fresh(r.value))
    {
      ObjectFits(w, x, 0);
      r := SenderSession.New(w.codec, w.layout, x.payload, x.root, w.config, FileMetaFor(x, x.payload));
    }

    static method BuildSlice(w: Plant, x: Transfer, index: u32, child: u128)
      returns (r: Result<SenderSession, SenderError>)
      requires x.Legal() && 1 < x.Count() && index < x.Count() && ConfigOk(w.config.symbolSize) && w.Suits(x)
      ensures SenderSession.Built(r, SliceContent(w, x, index, child)) && (r.Ok? ==> fresh(r.value))
    {
      ObjectFits(w, x, index);
      SlicesAreCanonical(x.payload, index);
      var start := index * SEGMENT_RAW_BYTES;
      var end := Min(start + SEGMENT_RAW_BYTES, |x.payload|);
      var slice := x.payload[start..end];
      assert slice == w.Object(x, index);
      r := SenderSession.NewSegment(w.codec, w.layout, slice, child, w.config, FileMetaFor(x, slice),
                                    SegmentMetaFor(x, index));
    }

    /** A refused selection leaves everything as it was; an accepted one starts afresh. */
    method SelectSegment(index: u32) returns (r: Result<(), SenderError>)
      requires Valid()
      modifies this
      ensures Valid()
      ensures r.Ok? <==> index < segmentCount && ContentFor(plant, transfer, index).Ok?
      ensures r.Err? ==> segmentIndex == old(segmentIndex) && session == old(session)
      ensures r.Ok? ==> segmentIndex == index && fresh(session) && session.View() == START
    {
      if index >= segmentCount {
        return Err(InvalidSegment);
      }
      var next := BuildSession(plant, transfer, index);
      if next.Err? {
        return Err(next.error);
      }
      segmentIndex := index;
      session := next.value;
      return Ok(());
    }
  }
}
