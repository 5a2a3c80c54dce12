/** Segments are only bounded from above on arrival: exactly when a transfer can still be completed. */
module Wedges {
  import opened Words
  import opened Metadata
  import opened Segments
  import opened Assemblers
  import SessionIds

  /** Some further offers make the assembler answer bytes. */
  ghost predicate Completable(sha: Bytes -> Digest, a: Assembly)
    requires Invariant(sha, a)
  {
    exists offers :: Reassembled(AddAll(sha, a, offers)).Some?
  }

  /** Offers whose descriptors name canonical ranges. */
  predicate Legal(offers: seq<Offer>)
  {
    forall k :: 0 <= k < |offers| ==> CanonicalRange(offers[k].seg, offers[k].fm)
  }

  /** What is stored fills its range. */
  predicate StoredAreCanonical(a: Assembly)
  {
    forall i :: 0 <= i < |a.segments| && a.segments[i].Some? ==>
      |a.segments[i].value| == CanonicalLength(a.root.size, i)
  }

  /** A stored segment shorter than its range blocks the transfer for good: nothing offered
      later can replace it. */
  lemma ShortSegmentWedges(sha: Bytes -> Digest, a: Assembly, i: nat, offers: seq<Offer>)
    requires Invariant(sha, a) && i < a.root.count
    requires a.segments[i].Some? && |a.segments[i].value| < CanonicalLength(a.root.size, i)
    ensures Reassembled(AddAll(sha, a, offers)).None?
  {
    var b := AddAll(sha, a, offers);
    ReassemblySqueeze(sha, b);
    assert b.segments[i] == a.segments[i];
  }

  // ----- Filling what is missing

  /** Some bytes that fill range `i`, under the coordinates of this transfer. */
  function Filler(sha: Bytes -> Digest, root: Root, i: u32): Offer
    requires 0 < root.size <= MAX_IN_MEMORY_ASSEMBLY_BYTES && root.count == SegmentCount(root.size) && i < root.count
  {
    CountCovers(root.size);
    var bytes := Zeros(CanonicalLength(root.size, i));
    Offer(
      SegmentMeta(root.sessionId, i, root.count, i * SEGMENT_RAW_BYTES, root.size, root.sha256, sha(bytes)),
      FileMeta(root.filename, root.originalSize, 0, COMPRESSION_NONE, |bytes|, true, false),
      bytes)
  }

  /** It is an offer a receiver could make, and one that is taken. */
  lemma FillerIsTaken(sha: Bytes -> Digest, a: Assembly, i: u32)
    requires Invariant(sha, a) && a.root.size <= MAX_IN_MEMORY_ASSEMBLY_BYTES && i < a.root.count
    ensures var o := Filler(sha, a.root, i);
            && CanonicalRange(o.seg, o.fm)
            && var b := Add(sha, a, o.seg, o.fm, o.bytes).next;
            b.segments == if a.segments[i].Some? then a.segments else a.segments[i := Some(o.bytes)]
  {
    CountCovers(a.root.size);
  }

  /** `b` is `a` with the first `n` empty slots filled. */
  predicate FilledTo(a: Assembly, b: Assembly, n: nat)
  {
    && b.root == a.root && |b.segments| == |a.segments|
    && forall i :: 0 <= i < |a.segments| ==>
         b.segments[i] == if i < n && a.segments[i].None? then Some(Zeros(CanonicalLength(a.root.size, i))) else a.segments[i]
  }

  lemma OneMoreFilled(sha: Bytes -> Digest, a: Assembly, b: Assembly, i: u32)
    requires Invariant(sha, b) && b.root.size <= MAX_IN_MEMORY_ASSEMBLY_BYTES && i < b.root.count && FilledTo(a, b, i)
    ensures var o := Filler(sha, b.root, i); FilledTo(a, Add(sha, b, o.seg, o.fm, o.bytes).next, i + 1)
  {
    FillerIsTaken(sha, b, i);
    var o := Filler(sha, b.root, i);
    AddKeeps(sha, b, o.seg, o.fm, o.bytes);
  }

  /** These offers, all legal, fill the first `n` empty slots. */
  ghost predicate Fill(sha: Bytes -> Digest, a: Assembly, offers: seq<Offer>, n: nat)
    requires Invariant(sha, a)
  {
    Legal(offers) && FilledTo(a, AddAll(sha, a, offers), n)
  }

  lemma {:induction false} FillersFill(sha: Bytes -> Digest, a: Assembly, n: nat) returns (offers: seq<Offer>)
    requires Invariant(sha, a) && a.root.size <= MAX_IN_MEMORY_ASSEMBLY_BYTES && n <= a.root.count
    ensures Fill(sha, a, offers, n)
    decreases n
  {
    if n == 0 {
      offers := [];
    } else {
      var rest := FillersFill(sha, a, n - 1);
      offers := FillMore(sha, a, rest, n - 1);
    }
  }

  lemma FillMore(sha: Bytes -> Digest, a: Assembly, rest: seq<Offer>, i: u32) returns (offers: seq<Offer>)
    requires Invariant(sha, a) && a.root.size <= MAX_IN_MEMORY_ASSEMBLY_BYTES && i < a.root.count
    requires Fill(sha, a, rest, i)
    ensures Fill(sha, a, offers, i + 1)
  {
    var o := Filler(sha, a.root, i);
    offers := rest + [o];
    FillerIsTaken(sha, a, i);
    OneMoreFilled(sha, a, AddAll(sha, a, rest), i);
    AddAllSnoc(sha, a, rest, o);
  }

  lemma AddAllSnoc(sha: Bytes -> Digest, a: Assembly, rest: seq<Offer>, o: Offer)
    requires Invariant(sha, a)
    ensures AddAll(sha, a, rest + [o]) == Add(sha, AddAll(sha, a, rest), o.seg, o.fm, o.bytes).next
  {
    assert (rest + [o])[..|rest|] == rest;
  }

  lemma FilledIsCanonical(a: Assembly, b: Assembly)
    requires FilledTo(a, b, |a.segments|) && StoredAreCanonical(a)
    ensures AllCanonical(b)
  {
  }

  // ----- The exact condition

  lemma FillersComplete(sha: Bytes -> Digest, a: Assembly)
    requires Invariant(sha, a) && a.root.size <= MAX_IN_MEMORY_ASSEMBLY_BYTES && StoredAreCanonical(a)
    ensures exists offers :: Legal(offers) && Reassembled(AddAll(sha, a, offers)).Some?
  {
    var offers := FillersFill(sha, a, a.root.count);
    FilledIsCanonical(a, AddAll(sha, a, offers));
    ReassemblySqueeze(sha, AddAll(sha, a, offers));
  }

  /** A transfer can still be completed if and only if it fits in memory and every segment stored
      so far fills its range; and then segments a receiver may hand over complete it. */
  lemma CompletableExactly(sha: Bytes -> Digest, a: Assembly)
    requires Invariant(sha, a)
    ensures Completable(sha, a) <==> a.root.size <= MAX_IN_MEMORY_ASSEMBLY_BYTES && StoredAreCanonical(a)
    ensures Completable(sha, a) ==>
              exists offers :: Legal(offers) && Reassembled(AddAll(sha, a, offers)).Some?
  {
    if a.root.size <= MAX_IN_MEMORY_ASSEMBLY_BYTES && StoredAreCanonical(a) {
      FillersComplete(sha, a);
    }
    if offers :| Reassembled(AddAll(sha, a, offers)).Some? {
      ReassemblySqueeze(sha, AddAll(sha, a, offers));
    }
  }

  /** So the first offer accepted for a slot decides: the transfer stays completable if and only
      if its bytes fill the range. */
  lemma AcceptedOfferDecides(sha: Bytes -> Digest, a: Assembly, o: Offer)
    requires Invariant(sha, a) && Completable(sha, a)
    requires Add(sha, a, o.seg, o.fm, o.bytes).answer == Ok(true)
    ensures var b := Add(sha, a, o.seg, o.fm, o.bytes).next;
            && Invariant(sha, b)
            && (Completable(sha, b) <==> |o.bytes| == CanonicalLength(a.root.size, o.seg.segmentIndex))
  {
    AddKeeps(sha, a, o.seg, o.fm, o.bytes);
    AcceptedStores(sha, a, o);
    StoredDecides(sha, a, Add(sha, a, o.seg, o.fm, o.bytes).next, o.seg.segmentIndex, o.bytes);
  }

  lemma AcceptedStores(sha: Bytes -> Digest, a: Assembly, o: Offer)
    requires Invariant(sha, a) && Add(sha, a, o.seg, o.fm, o.bytes).answer == Ok(true)
    ensures var b := Add(sha, a, o.seg, o.fm, o.bytes).next;
            && o.seg.segmentIndex < |a.segments| && a.segments[o.seg.segmentIndex].None?
            && b.root == a.root && b.segments == a.segments[o.seg.segmentIndex := Some(o.bytes)]
  {
  }

  lemma StoredDecides(sha: Bytes -> Digest, a: Assembly, b: Assembly, i: nat, bytes: Bytes)
    requires Invariant(sha, a) && Completable(sha, a) && Invariant(sha, b)
    requires i < |a.segments| && a.segments[i].None? && b.root == a.root && b.segments == a.segments[i := Some(bytes)]
    ensures Completable(sha, b) <==> |bytes| == CanonicalLength(a.root.size, i)
  {
    CompletableExactly(sha, a);
    CompletableExactly(sha, b);
    OneMoreStored(a, b, i, bytes);
  }

  lemma OneMoreStored(a: Assembly, b: Assembly, i: nat, bytes: Bytes)
    requires i < |a.segments| && a.segments[i].None? && b.root == a.root && b.segments == a.segments[i := Some(bytes)]
    ensures StoredAreCanonical(b) <==> StoredAreCanonical(a) && |bytes| == CanonicalLength(a.root.size, i)
  {
    if StoredAreCanonical(b) {
      forall j | 0 <= j < |a.segments| && a.segments[j].Some?
        ensures |a.segments[j].value| == CanonicalLength(a.root.size, j)
      {
        assert b.segments[j] == a.segments[j];
      }
      assert b.segments[i] == Some(bytes);
    }
  }

  // ----- A short segment

  /** One byte offered for a file of two, in a single segment. */
  function ShortOffer(sha: Bytes -> Digest, root: u128): Offer
  {
    Offer(SegmentMeta(root, 0, 1, 0, 2, Zeros(32), sha([7])), FileMeta([], 2, 0, COMPRESSION_NONE, 1, true, false), [7])
  }

  /** The descriptor gate of its session lets it pass, the assembler starts from it and takes it,
      and the transfer is lost. */
  lemma ShortSegmentIsAccepted(sha: Bytes -> Digest, root: u128)
    ensures var o := ShortOffer(sha, root);
            && ValidSegment(o.seg, SessionIds.DeriveSegment(root, 0), o.fm)
            && Start(o.seg, o.fm).Ok? && Invariant(sha, Start(o.seg, o.fm).value)
            && var a := Start(o.seg, o.fm).value;
            && Completable(sha, a)
            && var r := Add(sha, a, o.seg, o.fm, o.bytes);
            && r.answer == Ok(true) && Invariant(sha, r.next) && !Completable(sha, r.next)
  {
    var o := ShortOffer(sha, root);
    var a := Start(o.seg, o.fm).value;
    StartInvariant(sha, o.seg, o.fm);
    CompletableExactly(sha, a);
    AcceptedOfferDecides(sha, a, o);
  }
}
