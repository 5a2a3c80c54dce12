/** The filename each segment announces is cut to the room its own descriptor leaves.  Exactly
    when that gives all segments one name, and what happens when it does not. */
module Names {
  import opened Words
  import opened Metadata
  import opened Encoders
  import opened Splitters
  import opened Assemblers
  import opened Transfers
  import Descriptors
  import Utf8

  /** Every segment of a transfer of several can be sent, under whatever names. */
  ghost predicate AllSendable(p: Plant, x: Transfer)
  {
    && x.Legal() && x.Count() > 1 && ConfigOk(p.config.symbolSize) && p.Suits(x)
    && forall i: u32 :: i < x.Count() ==> SegmentSendable(p, x, i)
  }

  ghost predicate SegmentSendable(p: Plant, x: Transfer, i: u32)
    requires x.Legal() && i < x.Count() && ConfigOk(p.config.symbolSize) && p.Suits(x)
  {
    ContentFor(p, x, i).Ok?
  }

  /** The room for a name in segment `i`'s descriptor. */
  ghost function Room(p: Plant, x: Transfer, i: u32): nat
    requires AllSendable(p, x) && i < x.Count()
  {
    assert SegmentSendable(p, x, i);
    var c := ContentFor(p, x, i).value;
    Descriptors.NameLimit(c.Meta(), c.segment)
  }

  /** The name segment `i` announces. */
  ghost function NameOf(p: Plant, x: Transfer, i: u32): Utf8.Utf8String
    requires AllSendable(p, x) && i < x.Count()
  {
    assert SegmentSendable(p, x, i);
    ContentFor(p, x, i).value.Announced().fileMeta.filename
  }

  /** That room follows from the number of source blocks of the segment's object. */
  lemma RoomIs(p: Plant, x: Transfer, i: u32)
    requires AllSendable(p, x) && i < x.Count()
    ensures var t := p.config.symbolSize;
            Room(p, x, i) == Min(t - (154 + 16 * |p.layout(Padded(p.Object(x, i), t), t).source|), 255)
  {
    assert SegmentSendable(p, x, i);
    SegmentsAreSendable(p, x, i);
    SliceMetaIsValid(x, i);
  }

  lemma NameIsCut(p: Plant, x: Transfer, i: u32)
    requires AllSendable(p, x) && i < x.Count()
    ensures NameOf(p, x, i) == Utf8.Truncate(x.name, Room(p, x, i))
  {
    assert SegmentSendable(p, x, i);
    SliceMetaIsValid(x, i);
  }

  /** No character of the name ends in the room of one segment but beyond that of another. */
  ghost predicate NoneBetween(p: Plant, x: Transfer)
    requires AllSendable(p, x)
  {
    forall i: u32, j: u32 :: i < x.Count() && j < x.Count() ==> NoneBeyond(x.name, Room(p, x, i), Room(p, x, j))
  }

  ghost predicate NoneBeyond(name: Utf8.Utf8String, a: nat, b: nat)
  {
    forall c :: a < c <= Min(|name|, b) ==> !Utf8.Boundary(name, c)
  }

  lemma CutsAgree(name: Utf8.Utf8String, a: nat, b: nat)
    ensures Utf8.Truncate(name, a) == Utf8.Truncate(name, b) <==> NoneBeyond(name, a, b) && NoneBeyond(name, b, a)
  {
    if a <= b {
      Utf8.TruncateAgrees(name, a, b);
    } else {
      Utf8.TruncateAgrees(name, b, a);
    }
  }

  lemma TwoAgree(p: Plant, x: Transfer, i: u32, j: u32)
    requires AllSendable(p, x) && i < x.Count() && j < x.Count()
    ensures NameOf(p, x, i) == NameOf(p, x, j)
        <==> NoneBeyond(x.name, Room(p, x, i), Room(p, x, j)) && NoneBeyond(x.name, Room(p, x, j), Room(p, x, i))
  {
    NameIsCut(p, x, i);
    NameIsCut(p, x, j);
    CutsAgree(x.name, Room(p, x, i), Room(p, x, j));
  }

  /** Segments can all be sent under one name exactly when each can be sent and no character of
      the name ends between the rooms of any two of them. */
  lemma OneNameExactly(p: Plant, x: Transfer)
    ensures (exists name :: Sendable(p, x, name)) <==> AllSendable(p, x) && NoneBetween(p, x)
  {
    if name :| Sendable(p, x, name) {
      OneNameMeansNoneBetween(p, x, name);
    }
    if AllSendable(p, x) && NoneBetween(p, x) {
      NoneBetweenMeansOneName(p, x);
    }
  }

  lemma OneNameMeansNoneBetween(p: Plant, x: Transfer, name: Utf8.Utf8String)
    requires Sendable(p, x, name)
    ensures AllSendable(p, x) && NoneBetween(p, x)
  {
    forall i: u32 | i < x.Count()
      ensures SegmentSendable(p, x, i) && SentAs(p, x, i, name)
    {
      assert SentAs(p, x, i, name);
    }
    forall i: u32, j: u32 | i < x.Count() && j < x.Count()
      ensures NoneBeyond(x.name, Room(p, x, i), Room(p, x, j))
    {
      assert SentAs(p, x, i, name) && SentAs(p, x, j, name);
      TwoAgree(p, x, i, j);
    }
  }

  lemma NoneBetweenMeansOneName(p: Plant, x: Transfer)
    requires AllSendable(p, x) && NoneBetween(p, x)
    ensures Sendable(p, x, NameOf(p, x, 0))
  {
    forall i: u32 | i < x.Count()
      ensures SentAs(p, x, i, NameOf(p, x, 0))
    {
      assert SegmentSendable(p, x, i);
      assert NoneBeyond(x.name, Room(p, x, i), Room(p, x, 0)) && NoneBeyond(x.name, Room(p, x, 0), Room(p, x, i));
      TwoAgree(p, x, i, 0);
    }
  }

  // ----- Two names never make one file

  /** The offer of segment `i`'s receiver: the slice, under the name that segment announced. */
  ghost function AnnouncedOffer(p: Plant, x: Transfer, i: u32): Offer
    requires AllSendable(p, x) && i < x.Count()
  {
    OfferFor(Received(x, NameOf(p, x, i)), i)
  }

  /** Every offer is some segment's, as announced. */
  ghost predicate AsAnnounced(p: Plant, x: Transfer, offers: seq<Offer>)
    requires AllSendable(p, x)
  {
    forall k :: 0 <= k < |offers| ==>
      offers[k].seg.segmentIndex < x.Count() && offers[k] == AnnouncedOffer(p, x, offers[k].seg.segmentIndex)
  }

  /** A segment announced under another name than the one the assembly started with is never
      taken, so the transfer never completes. */
  lemma {:induction false} OtherNameNeverLands(sha: Bytes -> Digest, a: Assembly, i: u32, offers: seq<Offer>)
    requires Assemblers.Invariant(sha, a) && i < a.root.count && a.segments[i].None?
    requires forall k :: 0 <= k < |offers| && offers[k].seg.segmentIndex == i ==> offers[k].fm.filename != a.root.filename
    ensures AddAll(sha, a, offers).segments[i].None? && Reassembled(AddAll(sha, a, offers)).None?
    decreases |offers|
  {
    if offers != [] {
      var n := |offers| - 1;
      OtherNameNeverLands(sha, a, i, offers[..n]);
      var b := AddAll(sha, a, offers[..n]);
      AddKeeps(sha, b, offers[n].seg, offers[n].fm, offers[n].bytes);
    }
  }

  /** When two segments announce different names, no assembler started from either ever answers
      the file, whatever segments finish, in whatever order and however often. */
  lemma TwoNamesNeverAssemble(p: Plant, x: Transfer, i: u32, j: u32, offers: seq<Offer>)
    requires AllSendable(p, x) && i < x.Count() && j < x.Count() && NameOf(p, x, i) != NameOf(p, x, j)
    requires AsAnnounced(p, x, offers)
    ensures var o := AnnouncedOffer(p, x, i);
            Start(o.seg, o.fm).Ok? && Assemblers.Invariant(x.sha, Start(o.seg, o.fm).value)
            && Reassembled(AddAll(x.sha, Start(o.seg, o.fm).value, offers)).None?
  {
    var y := Received(x, NameOf(p, x, i));
    StartHolds(y, i);
    var o := OfferFor(y, i);
    var a := Start(o.seg, o.fm).value;
    forall k | 0 <= k < |offers| && offers[k].seg.segmentIndex == j
      ensures offers[k].fm.filename != a.root.filename
    {
      assert offers[k] == AnnouncedOffer(p, x, j);
    }
    assert SlotHolds(a, j, None);
    OtherNameNeverLands(x.sha, a, j, offers);
  }

  /** What the receivers of these segments hand over. */
  ghost predicate Announces(p: Plant, x: Transfer, order: seq<u32>, offers: seq<Offer>)
    requires AllSendable(p, x)
  {
    && |offers| == |order| && AllBelow(order, x.Count())
    && forall k :: 0 <= k < |order| ==> offers[k] == AnnouncedOffer(p, x, order[k])
  }

  /** So segments assemble, from whichever is seen first, exactly when all announce one name. */
  lemma AssemblesExactlyUnderOneName(p: Plant, x: Transfer, order: seq<u32>, offers: seq<Offer>)
    requires AllSendable(p, x) && Announces(p, x, order, offers)
    requires order != [] && forall i: u32 :: i < x.Count() ==> i in order
    ensures AssemblesTo(x.sha, offers, x.payload) <==> NoneBetween(p, x)
  {
    if NoneBetween(p, x) {
      OneNameAssembles(p, x, order, offers);
    } else {
      var i, j := SomeTwoDiffer(p, x, order[0]);
      OffersAreAnnounced(p, x, order, offers);
      TwoNamesNeverAssemble(p, x, i, j, offers);
    }
  }

  lemma OffersAreAnnounced(p: Plant, x: Transfer, order: seq<u32>, offers: seq<Offer>)
    requires AllSendable(p, x) && Announces(p, x, order, offers)
    ensures AsAnnounced(p, x, offers)
  {
    forall k | 0 <= k < |offers|
      ensures offers[k].seg.segmentIndex == order[k]
    {
      assert offers[k] == AnnouncedOffer(p, x, order[k]);
    }
  }

  lemma OneNameAssembles(p: Plant, x: Transfer, order: seq<u32>, offers: seq<Offer>)
    requires AllSendable(p, x) && NoneBetween(p, x) && Announces(p, x, order, offers)
    requires forall i: u32 :: i < x.Count() ==> i in order
    ensures offers != [] && AssemblesTo(x.sha, offers, x.payload)
  {
    NoneBetweenMeansOneName(p, x);
    var name := NameOf(p, x, 0);
    forall k | 0 <= k < |order|
      ensures offers[k] == OfferFor(Received(x, name), order[k])
    {
      assert SentAs(p, x, order[k], name);
    }
    OffersAre(Received(x, name), order, offers);
    OffersAssemble(Received(x, name), order, offers);
  }

  /** If not all names agree, some name differs from that of `first`. */
  lemma SomeTwoDiffer(p: Plant, x: Transfer, first: u32) returns (i: u32, j: u32)
    requires AllSendable(p, x) && !NoneBetween(p, x) && first < x.Count()
    ensures i == first && j < x.Count() && NameOf(p, x, i) != NameOf(p, x, j)
  {
    var a: u32, b: u32 :| a < x.Count() && b < x.Count() && !NoneBeyond(x.name, Room(p, x, a), Room(p, x, b));
    TwoAgree(p, x, a, b);
    i := first;
    j := if NameOf(p, x, a) != NameOf(p, x, first) then a else b;
  }
}
