/** Putting the segments of a large transfer back together, in whatever order they finish. */
module Assemblers {
  import opened Words
  import opened Sums
  import opened Metadata
  import opened Segments
  import Utf8

  const MAX_IN_MEMORY_ASSEMBLY_BYTES: int := 0x1000_0000  // 256 MiB

  datatype AssemblyError =
    | CountOutOfRange
    | EmptyRoot
    | InconsistentCount
    | BadRange
    | OtherRoot
    | OtherCount
    | OtherDigest
    | OtherFilename
    | LengthMismatch
    | ExceedsRange
    | DigestMismatch
    | ConflictingDuplicate

  /** What the first descriptor seen fixes for the whole transfer. */
  datatype Root = Root(
    sessionId: u128,
    filename: Utf8.Utf8String,
    count: u32,
    size: u64,
    originalSize: u64,
    sha256: Digest)

  datatype Assembly = Assembly(root: Root, segments: seq<Option<Bytes>>, metas: seq<Option<SegmentMeta>>, received: nat)

  /** The descriptor names the canonical range of its segment in a root of this size. */
  predicate RangeOk(seg: SegmentMeta, fm: FileMeta, size: u64)
  {
    && 0 < seg.segmentCount <= MAX_SEGMENT_COUNT
    && SegmentCount(size) == seg.segmentCount
    && seg.segmentIndex < seg.segmentCount
    && seg.rootOriginalSize == size
    && seg.originalOffset == seg.segmentIndex * SEGMENT_RAW_BYTES
    && fm.compressedSize <= CanonicalLength(size, seg.segmentIndex)
  }

  /** What a fresh assembly of this descriptor is. */
  function Start(seg: SegmentMeta, fm: FileMeta): Result<Assembly, AssemblyError>
  {
    if seg.segmentCount == 0 || seg.segmentCount > MAX_SEGMENT_COUNT then Err(CountOutOfRange)
    else if seg.rootOriginalSize == 0 then Err(EmptyRoot)
    else if SegmentCount(seg.rootOriginalSize) != seg.segmentCount then Err(InconsistentCount)
    else if !RangeOk(seg, fm, seg.rootOriginalSize) then Err(BadRange)
    else
      Ok(Assembly(
        Root(seg.rootSessionId, fm.filename, seg.segmentCount, seg.rootOriginalSize, fm.originalSize, seg.rootSha256),
        seq(seg.segmentCount, _ => None), seq(seg.segmentCount, _ => None), 0))
  }

  datatype Added = Added(answer: Result<bool, AssemblyError>, next: Assembly)

  predicate Shaped(a: Assembly)
  {
    |a.segments| == |a.metas| == a.root.count && a.root.count == SegmentCount(a.root.size)
  }

  /** One offer of a recovered segment: stored, already there, or refused. */
  function Add(sha: Bytes -> Digest, a: Assembly, seg: SegmentMeta, fm: FileMeta, bytes: Bytes): Added
    requires Shaped(a)
  {
    if seg.rootSessionId != a.root.sessionId then Added(Err(OtherRoot), a)
    else if seg.segmentCount != a.root.count then Added(Err(OtherCount), a)
    else if seg.rootSha256 != a.root.sha256 then Added(Err(OtherDigest), a)
    else if fm.filename != a.root.filename then Added(Err(OtherFilename), a)
    else if !RangeOk(seg, fm, a.root.size) then Added(Err(BadRange), a)
    else if |bytes| != fm.compressedSize then Added(Err(LengthMismatch), a)
    else if |bytes| > CanonicalLength(a.root.size, seg.segmentIndex) then Added(Err(ExceedsRange), a)
    else if sha(bytes) != seg.rawSha256 then Added(Err(DigestMismatch), a)
    else
      var i := seg.segmentIndex;
      if a.segments[i].Some? then
        Added(if a.metas[i] != Some(seg) then Err(ConflictingDuplicate) else Ok(false), a)
      else
        Added(Ok(true),
          a.(segments := a.segments[i := Some(bytes)], metas := a.metas[i := Some(seg)], received := a.received + 1))
  }

  function CountSome(q: seq<Option<Bytes>>): nat
  {
    if q == [] then 0 else CountSome(q[..|q| - 1]) + (if q[|q| - 1].Some? then 1 else 0)
  }

  /** The first `n` segments in index order. */
  function Concat(q: seq<Option<Bytes>>, n: nat): Bytes
    requires n <= |q| && forall i :: 0 <= i < n ==> q[i].Some?
  {
    if n == 0 then [] else Concat(q, n - 1) + q[n - 1].value
  }

  predicate AllPresent(a: Assembly)
  {
    forall i :: 0 <= i < |a.segments| ==> a.segments[i].Some?
  }

  function Reassembled(a: Assembly): Option<Bytes>
  {
    if !AllPresent(a) || a.root.size > MAX_IN_MEMORY_ASSEMBLY_BYTES
       || |Concat(a.segments, |a.segments|)| != a.root.size
    then None
    else Some(Concat(a.segments, |a.segments|))
  }

  // ----- What every assembly satisfies

  /** Slot `i` holds bytes of its own range, with the digest its descriptor announced. */
  ghost predicate SlotOk(sha: Bytes -> Digest, a: Assembly, i: nat)
    requires Shaped(a) && i < a.root.count
  {
    match a.segments[i]
    case None => a.metas[i].None?
    case Some(bytes) =>
      && |bytes| <= CanonicalLength(a.root.size, i)
      && a.metas[i].Some?
      && a.metas[i].value.segmentIndex == i && a.metas[i].value.rawSha256 == sha(bytes)
      && a.metas[i].value.rootSessionId == a.root.sessionId && a.metas[i].value.rootSha256 == a.root.sha256
  }

  ghost predicate Invariant(sha: Bytes -> Digest, a: Assembly)
  {
    && Shaped(a) && a.root.size > 0 && a.root.count <= MAX_SEGMENT_COUNT
    && (forall i :: 0 <= i < a.root.count ==> SlotOk(sha, a, i))
    && a.received == CountSome(a.segments)
  }

  lemma {:induction false} CountSomeUpdate(q: seq<Option<Bytes>>, i: nat, b: Bytes)
    requires i < |q| && q[i].None?
    ensures CountSome(q[i := Some(b)]) == CountSome(q) + 1
  {
    var n := |q| - 1;
    if i == n {
      assert q[i := Some(b)][..n] == q[..n];
    } else {
      CountSomeUpdate(q[..n], i, b);
      assert q[i := Some(b)][..n] == q[..n][i := Some(b)];
    }
  }

  lemma {:induction false} CountSomeFull(q: seq<Option<Bytes>>)
    ensures CountSome(q) <= |q|
    ensures CountSome(q) == |q| <==> forall i :: 0 <= i < |q| ==> q[i].Some?
  {
    if q != [] {
      var n := |q| - 1;
      CountSomeFull(q[..n]);
      assert forall i :: 0 <= i < n ==> q[i] == q[..n][i];
    }
  }

  lemma {:induction false} CountSomeEmpty(q: seq<Option<Bytes>>)
    requires forall i :: 0 <= i < |q| ==> q[i].None?
    ensures CountSome(q) == 0
  {
    if q != [] {
      CountSomeEmpty(q[..|q| - 1]);
    }
  }

  lemma StartInvariant(sha: Bytes -> Digest, seg: SegmentMeta, fm: FileMeta)
    requires Start(seg, fm).Ok?
    ensures Invariant(sha, Start(seg, fm).value)
  {
    CountSomeEmpty(Start(seg, fm).value.segments);
  }

  /** An offer keeps the invariant, never touches a filled slot, and changes nothing at all
      unless it is answered with "newly stored". */
  lemma AddKeeps(sha: Bytes -> Digest, a: Assembly, seg: SegmentMeta, fm: FileMeta, bytes: Bytes)
    requires Invariant(sha, a)
    ensures var r := Add(sha, a, seg, fm, bytes);
            && Invariant(sha, r.next) && r.next.root == a.root
            && (r.answer != Ok(true) ==> r.next == a)
            && (forall i :: 0 <= i < a.root.count && a.segments[i].Some? ==>
                 r.next.segments[i] == a.segments[i] && r.next.metas[i] == a.metas[i])
            && (r.answer == Ok(true) ==>
                 seg.segmentIndex < a.root.count && a.segments[seg.segmentIndex].None?
                 && r.next.segments[seg.segmentIndex] == Some(bytes))
  {
    var r := Add(sha, a, seg, fm, bytes);
    if r.answer == Ok(true) {
      CountSomeUpdate(a.segments, seg.segmentIndex, bytes);
      forall i | 0 <= i < a.root.count
        ensures SlotOk(sha, r.next, i)
      {
        assert SlotOk(sha, a, i);
      }
    }
  }

  datatype Offer = Offer(seg: SegmentMeta, fm: FileMeta, bytes: Bytes)

  ghost function AddAll(sha: Bytes -> Digest, a: Assembly, offers: seq<Offer>): (a': Assembly)
    requires Invariant(sha, a)
    ensures Invariant(sha, a') && a'.root == a.root
    ensures forall i :: 0 <= i < a.root.count && a.segments[i].Some? ==> a'.segments[i] == a.segments[i]
    decreases |offers|
  {
    if offers == [] then a
    else
      var b, last := AddAll(sha, a, offers[..|offers| - 1]), offers[|offers| - 1];
      AddKeeps(sha, b, last.seg, last.fm, last.bytes);
      Add(sha, b, last.seg, last.fm, last.bytes).next
  }

  // ----- Reassembly squeezes every segment to its canonical length

  function CanonicalLengths(size: nat, n: nat): (q: seq<nat>)
    ensures |q| == n
  {
    seq(n, i requires 0 <= i < n => CanonicalLength(size, i))
  }

  /** The canonical ranges tile the stream: the first `n` reach up to `n` full segments. */
  lemma {:induction false} RangesTile(size: nat, n: nat)
    ensures Sum(CanonicalLengths(size, n)) == Min(size, n * SEGMENT_RAW_BYTES)
  {
    if n > 0 {
      RangesTile(size, n - 1);
      assert CanonicalLengths(size, n) == CanonicalLengths(size, n - 1) + [CanonicalLength(size, n - 1)];
      SumSnoc(CanonicalLengths(size, n - 1), CanonicalLength(size, n - 1));
    }
  }

  lemma CountCovers(size: nat)
    requires size > 0
    ensures (SegmentCount(size) - 1) * SEGMENT_RAW_BYTES < size <= SegmentCount(size) * SEGMENT_RAW_BYTES
  {
  }

  function Lengths(q: seq<Option<Bytes>>): (l: seq<nat>)
    requires forall i :: 0 <= i < |q| ==> q[i].Some?
    ensures |l| == |q|
  {
    seq(|q|, i requires 0 <= i < |q| => |q[i].value|)
  }

  lemma {:induction false} ConcatLength(q: seq<Option<Bytes>>, n: nat)
    requires n <= |q| && forall i :: 0 <= i < |q| ==> q[i].Some?
    ensures |Concat(q, n)| == Sum(Lengths(q)[..n])
  {
    if n > 0 {
      ConcatLength(q, n - 1);
      SumPrefix(Lengths(q), n - 1);
    }
  }

  lemma {:induction false} ConcatSlice(q: seq<Option<Bytes>>, n: nat, i: nat)
    requires i < n <= |q| && forall i :: 0 <= i < |q| ==> q[i].Some?
    ensures |Concat(q, i)| + |q[i].value| <= |Concat(q, n)|
    ensures Concat(q, n)[|Concat(q, i)|..|Concat(q, i)| + |q[i].value|] == q[i].value
  {
    if i < n - 1 {
      ConcatSlice(q, n - 1, i);
    }
  }

  /** Segments of canonical length: they fill the stream, each at its own offset. */
  ghost predicate AllCanonical(a: Assembly)
  {
    forall i :: 0 <= i < |a.segments| ==>
      a.segments[i].Some? && |a.segments[i].value| == CanonicalLength(a.root.size, i)
  }

  lemma TotalFits(sha: Bytes -> Digest, a: Assembly)
    requires Invariant(sha, a) && AllPresent(a)
    ensures |Concat(a.segments, |a.segments|)| <= a.root.size
    ensures |Concat(a.segments, |a.segments|)| == a.root.size <==> AllCanonical(a)
  {
    var n := |a.segments|;
    var lens, canon := Lengths(a.segments), CanonicalLengths(a.root.size, n);
    ConcatLength(a.segments, n);
    assert lens[..n] == lens;
    RangesTile(a.root.size, n);
    CountCovers(a.root.size);
    forall i | 0 <= i < n
      ensures lens[i] <= canon[i]
    {
      assert SlotOk(sha, a, i);
    }
    SumMono(lens, canon);
    SameLengths(a, lens, canon);
  }

  lemma SameLengths(a: Assembly, lens: seq<nat>, canon: seq<nat>)
    requires AllPresent(a) && lens == Lengths(a.segments) && canon == CanonicalLengths(a.root.size, |a.segments|)
    ensures lens == canon <==> AllCanonical(a)
  {
    if AllCanonical(a) {
      assert forall i :: 0 <= i < |lens| ==> lens[i] == canon[i];
    } else {
      var i :| 0 <= i < |a.segments| && |a.segments[i].value| != CanonicalLength(a.root.size, i);
      assert lens[i] != canon[i];
    }
  }

  /** Reassembly answers bytes exactly when every slot holds a segment of its canonical length
      and the stream is within the memory ceiling, although offers were only bounded above. */
  lemma ReassemblySqueeze(sha: Bytes -> Digest, a: Assembly)
    requires Invariant(sha, a)
    ensures Reassembled(a).Some? <==> AllCanonical(a) && a.root.size <= MAX_IN_MEMORY_ASSEMBLY_BYTES
    ensures Reassembled(a).Some? ==> |Reassembled(a).value| == a.root.size
  {
    if AllPresent(a) {
      TotalFits(sha, a);
    }
  }

  lemma OffsetIsCanonical(a: Assembly, i: nat)
    requires Shaped(a) && a.root.size > 0 && AllCanonical(a) && i < |a.segments|
    ensures |Concat(a.segments, i)| == i * SEGMENT_RAW_BYTES
  {
    var q := a.segments;
    ConcatLength(q, i);
    assert Lengths(q)[..i] == CanonicalLengths(a.root.size, i);
    RangesTile(a.root.size, i);
    CountCovers(a.root.size);
  }

  /** Segment `i` then sits at offset `i * SEGMENT_RAW_BYTES`. */
  lemma SegmentsAtTheirOffsets(sha: Bytes -> Digest, a: Assembly, i: nat)
    requires Invariant(sha, a) && Reassembled(a).Some? && i < |a.segments|
    ensures a.segments[i].Some?
    ensures var lo := i * SEGMENT_RAW_BYTES;
            var hi := lo + CanonicalLength(a.root.size, i);
            hi <= a.root.size && |Reassembled(a).value| == a.root.size
            && Reassembled(a).value[lo..hi] == a.segments[i].value
  {
    ReassemblySqueeze(sha, a);
    ConcatSlice(a.segments, |a.segments|, i);
    OffsetIsCanonical(a, i);
  }

  class TransferAssembler {
    const sha: Bytes -> Digest
    const root: Root
    var segments: seq<Option<Bytes>>
    var metas: seq<Option<SegmentMeta>>
    var receivedCount: nat

    ghost predicate Valid()
      reads this
    {
      Invariant(sha, View())
    }

    ghost function View(): Assembly
      reads this
    {
      Assembly(root, segments, metas, receivedCount)
    }

    constructor (sha: Bytes -> Digest, start: Assembly)
      requires Invariant(sha, start)
      ensures Valid() && View() == start && this.sha == sha
    {
      this.sha, root := sha, start.root;
      segments, metas, receivedCount := start.segments, start.metas, start.received;
    }

    static method New(sha: Bytes -> Digest, seg: SegmentMeta, fm: FileMeta)
      returns (r: Result<TransferAssembler, AssemblyError>)
      ensures r.Ok? == Start(seg, fm).Ok?
      ensures r.Ok? ==> fresh(r.value) && r.value.Valid() && r.value.View() == Start(seg, fm).value && r.value.sha == sha
      ensures r.Err? ==> r.error == Start(seg, fm).error
    {
      if seg.segmentCount == 0 || seg.segmentCount > MAX_SEGMENT_COUNT {
        return Err(CountOutOfRange);
      }
      if seg.rootOriginalSize == 0 {
        return Err(EmptyRoot);
      }
      if SegmentCount(seg.rootOriginalSize) != seg.segmentCount {
        return Err(InconsistentCount);
      }
      if !RangeOk(seg, fm, seg.rootOriginalSize) {
        return Err(BadRange);
      }
      StartInvariant(sha, seg, fm);
      var a := new TransferAssembler(sha, Start(seg, fm).value);
      return Ok(a);
    }

    predicate IsComplete()
      reads this
    {
      receivedCount == root.count
    }

    method AddSegment(seg: SegmentMeta, fm: FileMeta, bytes: Bytes) returns (r: Result<bool, AssemblyError>)
      requires Valid()
      modifies this
      ensures Valid()
      ensures Added(r, View()) == Add(sha, old(View()), seg, fm, bytes)
    {
      AddKeeps(sha, View(), seg, fm, bytes);
      if seg.rootSessionId != root.sessionId {
        return Err(OtherRoot);
      }
      if seg.segmentCount != root.count {
        return Err(OtherCount);
      }
      if seg.rootSha256 != root.sha256 {
        return Err(OtherDigest);
      }
      if fm.filename != root.filename {
        return Err(OtherFilename);
      }
      if !RangeOk(seg, fm, root.size) {
        return Err(BadRange);
      }
      var i := seg.segmentIndex;
      if |bytes| != fm.compressedSize {
        return Err(LengthMismatch);
      }
      if |bytes| > CanonicalLength(root.size, i) {
        return Err(ExceedsRange);
      }
      if sha(bytes) != seg.rawSha256 {
        return Err(DigestMismatch);
      }
      if segments[i].Some? {
        if metas[i] != Some(seg) {
          return Err(ConflictingDuplicate);
        }
        return Ok(false);
      }
      segments := segments[i := Some(bytes)];
      metas := metas[i := Some(seg)];
      receivedCount := receivedCount + 1;
      return Ok(true);
    }

    method Reassemble() returns (r: Option<Bytes>)
      requires Valid()
      ensures r == Reassembled(View())
    {
      CountSomeFull(segments);
      if !IsComplete() {
        return None;
      }
      if root.size > MAX_IN_MEMORY_ASSEMBLY_BYTES {
        return None;
      }
      var out: Bytes := [];
      for i := 0 to |segments|
        invariant out == Concat(segments, i)
      {
        out := out + segments[i].value;
      }
      if |out| != root.size {
        return None;
      }
      return Some(out);
    }
  }
}
