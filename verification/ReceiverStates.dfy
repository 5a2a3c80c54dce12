/** The receiver session as a pure step function over classified frames. */
module ReceiverStates {
  import opened Words
  import opened Sums
  import opened Metadata
  import opened BlockCodecs
  import opened Decoders

  const PRE_META_SYMBOL_CACHE_MAX: nat := 12_000
  const PRE_META_CACHE_BYTES_PER_ENTRY: nat := 64

  datatype Key = Key(sbn: u32, esi: u32)

  /** What the session takes from outside: the block codec, the order in which a hash map
      hands out the keys it holds, and the decompressors (payload, algorithm, output cap). */
  datatype World = World(
    codec: BlockCodec,
    replayOrder: set<Key> -> seq<Key>,
    decompress: (Bytes, u8, nat) -> Option<Bytes>)
  {
    ghost predicate Lawful()
    {
      codec.Lawful() && forall s :: Enumerates(replayOrder(s), s)
    }
  }

  predicate NoRepeats<T(==)>(q: seq<T>)
  {
    forall i, j :: 0 <= i < j < |q| ==> q[i] != q[j]
  }

  predicate Enumerates(q: seq<Key>, s: set<Key>)
  {
    NoRepeats(q) && (forall k :: k in q ==> k in s) && (forall k :: k in s ==> k in q)
  }

  datatype Progress = Progress(
    decodedSymbols: nat,
    totalSymbols: nat,
    receivedSymbols: nat,
    framesSeen: nat,
    framesDuplicate: nat,
    framesCorrupt: nat,
    decodedBlocks: nat,
    totalBlocks: nat,
    sessionMismatchStreak: nat)
  {
    predicate IsComplete() { totalBlocks > 0 && decodedBlocks == totalBlocks }
  }

  const NO_PROGRESS: Progress := Progress(0, 0, 0, 0, 0, 0, 0, 0, 0)

  /** What has been taken in of a known object: solver states, distinct ids per block,
      and how many of those are source symbols. */
  datatype Book = Book(blocks: seq<BlockState>, received: seq<set<nat>>, sourceRecv: seq<nat>)

  datatype State = State(
    sessionId: u128,
    meta: Option<ObjectMeta>,
    book: Book,
    metaConfirmed: bool,
    descriptorSeen: bool,
    fileMeta: FileMeta,
    segmentMeta: Option<SegmentMeta>,
    cache: map<Key, Bytes>,
    progress: Progress,
    streak: nat,
    pendingSymbolSize: u32)

  /** A frame as `ingest` sees it: of another session, a descriptor it refuses, an
      acceptable descriptor, or data. */
  datatype Input =
    | Foreign
    | BadDescriptor
    | Descriptor(info: DescriptorInfo)
    | Data(sbn: u32, esi: u32, symbolSize: u32, payload: Bytes)

  // ----- Derived quantities

  function PreMetaCacheMax(pendingSymbolSize: u32): nat
  {
    if pendingSymbolSize == 0 then PRE_META_SYMBOL_CACHE_MAX
    else CeilDiv(MAX_OBJECT_BYTES, Max(pendingSymbolSize, PRE_META_CACHE_BYTES_PER_ENTRY))
  }

  function CeilDiv(a: nat, b: nat): nat
    requires b > 0
  {
    (a + b - 1) / b
  }

  function Cards(received: seq<set<nat>>): (s: seq<nat>)
    ensures |s| == |received|
  {
    seq(|received|, i requires 0 <= i < |received| => |received[i]|)
  }

  predicate SameShape(m: ObjectMeta, b: Book)
  {
    |b.blocks| == |b.received| == |b.sourceRecv| == |m.blocks|
  }

  /** The progress each block contributes: all of K once solved, else its source symbols. */
  function DecodedPer(m: ObjectMeta, b: Book): (s: seq<nat>)
    requires SameShape(m, b)
    ensures |s| == |m.blocks|
  {
    seq(|m.blocks|, i requires 0 <= i < |m.blocks| =>
      if b.blocks[i].decoded.Some? then m.blocks[i].numSourceSymbols
      else Min(b.sourceRecv[i], m.blocks[i].numSourceSymbols))
  }

  function DecodedFlags(blocks: seq<BlockState>): (s: seq<nat>)
    ensures |s| == |blocks|
  {
    seq(|blocks|, i requires 0 <= i < |blocks| => if blocks[i].decoded.Some? then 1 else 0)
  }

  function Refreshed(p: Progress, m: ObjectMeta, b: Book): Progress
    requires SameShape(m, b)
  {
    p.(decodedSymbols := Sum(DecodedPer(m, b)), decodedBlocks := Sum(DecodedFlags(b.blocks)))
  }

  predicate Shaped(s: State)
  {
    match s.meta
    case None => s.book == Book([], [], [])
    case Some(m) => SameShape(m, s.book)
  }

  /** A state `ingest` can be called in. */
  predicate Ready(s: State)
  {
    Shaped(s) && (s.metaConfirmed ==> s.meta.Some?)
  }

  predicate IsComplete(s: State)
  {
    s.meta.Some? && AllDecoded(s.book.blocks)
  }

  // ----- Taking symbols in

  function EmptyBook(m: ObjectMeta): (b: Book)
    ensures SameShape(m, b)
  {
    var n := |m.blocks|;
    Book(seq(n, _ => FRESH), seq(n, _ => {}), seq(n, _ => 0))
  }

  /** Symbol `esi` of block `i` enters the book. */
  function Accept(codec: BlockCodec, m: ObjectMeta, b: Book, i: nat, esi: nat, data: Bytes): (b': Book)
    requires SameShape(m, b) && i < |m.blocks|
    ensures SameShape(m, b')
  {
    var k := m.blocks[i].numSourceSymbols;
    Book(b.blocks[i := AddToBlock(codec, m.otiBytes, k, b.blocks[i], esi, data)],
         b.received[i := b.received[i] + {esi}],
         if esi !in b.received[i] && esi < k then b.sourceRecv[i := b.sourceRecv[i] + 1] else b.sourceRecv)
  }

  /** Coordinates and size that belong to the object. */
  predicate Fits(m: ObjectMeta, key: Key, data: Bytes)
  {
    key.sbn < |m.blocks| && key.esi < ESI_LIMIT && |data| == m.symbolSize
  }

  datatype Replayed = Replayed(book: Book, corrupt: nat)

  function ReplayOne(codec: BlockCodec, m: ObjectMeta, r: Replayed, key: Key, data: Bytes): (r': Replayed)
    requires SameShape(m, r.book)
    ensures SameShape(m, r'.book)
  {
    if Fits(m, key, data) then r.(book := Accept(codec, m, r.book, key.sbn, key.esi, data))
    else r.(corrupt := r.corrupt + 1)
  }

  /** The cached symbols, in the given order, into a fresh book. */
  function ReplayAll(codec: BlockCodec, m: ObjectMeta, cache: map<Key, Bytes>, order: seq<Key>): (r: Replayed)
    requires forall k :: k in order ==> k in cache
    ensures SameShape(m, r.book)
  {
    if order == [] then Replayed(EmptyBook(m), 0)
    else
      var last := order[|order| - 1];
      ReplayOne(codec, m, ReplayAll(codec, m, cache, order[..|order| - 1]), last, cache[last])
  }

  ghost function ApplyMeta(w: World, s: State, m: ObjectMeta): (s': State)
    requires w.Lawful()
    ensures Shaped(s')
  {
    var order := w.replayOrder(s.cache.Keys);
    assert Enumerates(order, s.cache.Keys);
    AfterReplay(s, m, ReplayAll(w.codec, m, s.cache, order))
  }

  function AfterReplay(s: State, m: ObjectMeta, r: Replayed): (s': State)
    requires SameShape(m, r.book)
    ensures Shaped(s')
  {
    var p := s.progress.(totalSymbols := TotalK(m.blocks), totalBlocks := |m.blocks|,
                         framesCorrupt := s.progress.framesCorrupt + r.corrupt,
                         receivedSymbols := Sum(Cards(r.book.received)));
    s.(meta := Some(m), book := r.book, pendingSymbolSize := m.symbolSize, cache := map[],
       progress := Refreshed(p, m, r.book))
  }

  // ----- The step

  function Corrupt(s: State): State
  {
    s.(progress := s.progress.(framesCorrupt := s.progress.framesCorrupt + 1))
  }

  function Duplicate(s: State): State
  {
    s.(progress := s.progress.(framesDuplicate := s.progress.framesDuplicate + 1))
  }

  function Confirmed(s: State, info: DescriptorInfo): State
  {
    s.(metaConfirmed := true, descriptorSeen := true, cache := map[],
       fileMeta := info.fileMeta, segmentMeta := info.segment)
  }

  predicate SameDescriptor(s: State, info: DescriptorInfo)
  {
    s.meta == Some(info.meta) && s.fileMeta == info.fileMeta && s.segmentMeta == info.segment
  }

  ghost function TakeDescriptor(w: World, s: State, info: DescriptorInfo): (s': State)
    requires w.Lawful() && Shaped(s)
    ensures Shaped(s')
  {
    if s.descriptorSeen then
      if SameDescriptor(s, info) then s else Corrupt(s)
    else if s.meta.None? then Confirmed(ApplyMeta(w, s, info.meta), info)
    else if s.meta.value != info.meta then Corrupt(s)
    else Confirmed(s, info)
  }

  function CacheData(s: State, key: Key, symbolSize: u32, payload: Bytes): (s': State)
    requires Shaped(s)
    ensures Shaped(s')
  {
    var t := s.(pendingSymbolSize := symbolSize);
    var u :=
      if key in t.cache then Duplicate(t)
      else if |t.cache| >= PreMetaCacheMax(symbolSize) then Corrupt(t)
      else t.(cache := t.cache[key := payload]);
    u.(progress := u.progress.(receivedSymbols := |u.cache|, decodedSymbols := 0))
  }

  function TakeData(codec: BlockCodec, s: State, m: ObjectMeta, key: Key, payload: Bytes): (s': State)
    requires s.meta == Some(m) && Shaped(s)
    ensures Shaped(s')
  {
    if !Fits(m, key, payload) then Corrupt(s)
    else if IsComplete(s) then Duplicate(s)
    else if key.esi in s.book.received[key.sbn] then Duplicate(s)
    else
      var b := Accept(codec, m, s.book, key.sbn, key.esi, payload);
      var p := s.progress.(receivedSymbols := s.progress.receivedSymbols + 1);
      s.(book := b, progress := Refreshed(p, m, b))
  }

  /** A frame of this session has been counted and the mismatch streak reset. */
  function Seen(s: State): State
  {
    s.(streak := 0, progress := s.progress.(sessionMismatchStreak := 0, framesSeen := s.progress.framesSeen + 1))
  }

  ghost function Step(w: World, s: State, input: Input): (s': State)
    requires w.Lawful() && Ready(s)
    ensures Ready(s')
  {
    if input.Foreign? then
      s.(streak := s.streak + 1, progress := s.progress.(sessionMismatchStreak := s.streak + 1))
    else StepOwn(w, Seen(s), input)
  }

  /** A frame of this session. */
  ghost function StepOwn(w: World, t: State, input: Input): (t': State)
    requires w.Lawful() && Ready(t) && !input.Foreign?
    ensures Ready(t')
  {
    match input
    case BadDescriptor => Corrupt(t)
    case Descriptor(info) => TakeDescriptor(w, t, info)
    case Data(sbn, esi, symbolSize, payload) =>
      if !t.metaConfirmed then CacheData(t, Key(sbn, esi), symbolSize, payload)
      else TakeData(w.codec, t, t.meta.value, Key(sbn, esi), payload)
  }

  ghost function Run(w: World, s: State, inputs: seq<Input>): (s': State)
    requires w.Lawful() && Ready(s)
    ensures Ready(s')
    decreases |inputs|
  {
    if inputs == [] then s else Step(w, Run(w, s, inputs[..|inputs| - 1]), inputs[|inputs| - 1])
  }

  // ----- Starting points

  function Pending(sessionId: u128): (s: State)
    ensures Ready(s)
  {
    State(sessionId, None, Book([], [], []), false, false, NO_FILE_META, None, map[], NO_PROGRESS, 0, 0)
  }

  function Known(sessionId: u128, m: ObjectMeta): (s: State)
    ensures Ready(s)
  {
    State(sessionId, Some(m), EmptyBook(m), true, false, NO_FILE_META, None, map[],
          NO_PROGRESS.(totalSymbols := TotalK(m.blocks), totalBlocks := |m.blocks|), 0, m.symbolSize)
  }

  // ----- Reassembly

  datatype AssembleError =
    | ClaimsMoreThanRecovered(claimed: nat, recovered: nat)
    | OriginalSizeOverLimit
    | WrongOriginalSize(expected: nat, got: nat)
    | DecompressionFailed

  /** `Ok(None)` until every block is recovered. */
  function AssembleResult(w: World, s: State): Result<Option<Bytes>, AssembleError>
    requires Shaped(s)
  {
    if !IsComplete(s) then Ok(None)
    else
      var raw := Assembled(s.meta.value, s.book.blocks).value;
      var fm := s.fileMeta;
      if fm.compressedSizeKnown && fm.compressedSize > |raw| then
        Err(ClaimsMoreThanRecovered(fm.compressedSize, |raw|))
      else
        Unpack(w, if fm.compressedSizeKnown then raw[..fm.compressedSize] else raw, fm)
  }

  function Unpack(w: World, payload: Bytes, fm: FileMeta): Result<Option<Bytes>, AssembleError>
  {
    if fm.compression == COMPRESSION_NONE then Ok(Some(payload))
    else if fm.originalSize > MAX_ORIGINAL_BYTES then Err(OriginalSizeOverLimit)
    else
      match w.decompress(payload, fm.compression, if fm.originalSize > 0 then fm.originalSize else MAX_ORIGINAL_BYTES)
      case None => Err(DecompressionFailed)
      case Some(v) =>
        if fm.originalSize > 0 && |v| != fm.originalSize then Err(WrongOriginalSize(fm.originalSize, |v|))
        else Ok(Some(v))
  }
}
