/** What every state of a receiver session satisfies, whatever frames it is fed. */
module ReceiverInvariants {
  import opened Words
  import opened Sums
  import opened Division
  import opened Metadata
  import opened BlockCodecs
  import opened Decoders
  import opened ReceiverStates

  /** The cap for the smallest charge per entry. */
  const MAX_CACHE_ENTRIES: nat := 0x8_0000

  /** An entry is admitted only while the budget divided by its charge exceeds the count. */
  lemma CapMeansBudget(size: u32, count: nat)
    requires count < PreMetaCacheMax(size)
    ensures count < MAX_CACHE_ENTRIES
    ensures size * count < MAX_OBJECT_BYTES
  {
    if size > 0 {
      var charge := Max(size, PRE_META_CACHE_BYTES_PER_ENTRY);
      BelowCeiling(MAX_OBJECT_BYTES, charge, count);
      TimesKeepsOrder(count, size, charge);
      TimesKeepsOrder(count, PRE_META_CACHE_BYTES_PER_ENTRY, charge);
    }
  }

  lemma BelowCeiling(a: nat, b: nat, count: nat)
    requires b > 0 && count < CeilDiv(a, b)
    ensures count * b < a
  {
    var q := CeilDiv(a, b);
    assert a + b - 1 == q * b + (a + b - 1) % b;
    assert (count + 1) * b <= q * b;
    assert (count + 1) * b == count * b + b;
  }

  /** The source symbols among the ids received. */
  function SourceIds(got: set<nat>, k: nat): set<nat>
  {
    set e | e in got && e < k
  }

  /** One block's solver state, received ids and source counter agree. */
  ghost predicate EntryOk(codec: BlockCodec, oti: Oti, k: nat, b: BlockState, got: set<nat>, src: nat)
  {
    && src == |SourceIds(got, k)|
    && (forall e :: e in got ==> e < ESI_LIMIT)
    && b.held.Keys <= got
    && (b.decoded.None? ==> b.held.Keys == got && (got == {} || !codec.sufficient(k, got)))
    && (b.decoded.Some? ==> codec.sufficient(k, b.held.Keys) && b.decoded.value == codec.solve(oti, k, b.held))
  }

  ghost predicate BookOk(codec: BlockCodec, m: ObjectMeta, b: Book)
  {
    && SameShape(m, b)
    && forall i :: 0 <= i < |m.blocks| ==>
         EntryOk(codec, m.otiBytes, m.blocks[i].numSourceSymbols, b.blocks[i], b.received[i], b.sourceRecv[i])
  }

  ghost predicate Invariant(w: World, s: State)
  {
    && Shaped(s)
    && s.metaConfirmed == s.meta.Some?
    && (s.descriptorSeen ==> s.metaConfirmed)
    && s.progress.sessionMismatchStreak == s.streak
    && match s.meta
       case None =>
         && s.progress.totalSymbols == s.progress.totalBlocks == 0
         && s.progress.decodedSymbols == s.progress.decodedBlocks == 0
         && s.progress.receivedSymbols == |s.cache| <= MAX_CACHE_ENTRIES
         && s.fileMeta == NO_FILE_META && s.segmentMeta == None
       case Some(m) =>
         && ValidMeta(m)
         && s.cache == map[]
         && BookOk(w.codec, m, s.book)
         && s.progress.totalSymbols == TotalK(m.blocks)
         && s.progress.totalBlocks == |m.blocks|
         && s.progress.receivedSymbols == Sum(Cards(s.book.received))
         && s.progress.decodedSymbols == Sum(DecodedPer(m, s.book))
         && s.progress.decodedBlocks == Sum(DecodedFlags(s.book.blocks))
         && s.pendingSymbolSize == m.symbolSize
  }

  /** Only layouts that pass the gate reach the session. */
  ghost predicate Admissible(input: Input)
  {
    input.Descriptor? ==> ValidMeta(input.info.meta)
  }

  ghost predicate AllAdmissible(inputs: seq<Input>)
  {
    forall i :: 0 <= i < |inputs| ==> Admissible(inputs[i])
  }

  // ----- One symbol

  lemma SourceIdsGrow(got: set<nat>, k: nat, e: nat)
    ensures |SourceIds(got + {e}, k)| == |SourceIds(got, k)| + (if e !in got && e < k then 1 else 0)
  {
    if e !in got && e < k {
      assert SourceIds(got + {e}, k) == SourceIds(got, k) + {e};
    } else {
      assert SourceIds(got + {e}, k) == SourceIds(got, k);
    }
  }

  lemma AddKeepsEntry(codec: BlockCodec, oti: Oti, k: nat, b: BlockState, got: set<nat>, src: nat, e: nat, d: Bytes)
    requires EntryOk(codec, oti, k, b, got, src) && e < ESI_LIMIT
    ensures EntryOk(codec, oti, k, AddToBlock(codec, oti, k, b, e, d), got + {e}, if e !in got && e < k then src + 1 else src)
    ensures b.decoded.Some? ==> AddToBlock(codec, oti, k, b, e, d) == b
  {
    SourceIdsGrow(got, k, e);
    if b.decoded.None? {
      var held := if e in b.held then b.held else b.held[e := d];
      assert held.Keys == got + {e};
    }
  }

  lemma AcceptKeepsBook(codec: BlockCodec, m: ObjectMeta, b: Book, i: nat, e: nat, d: Bytes)
    requires BookOk(codec, m, b) && i < |m.blocks| && e < ESI_LIMIT
    ensures BookOk(codec, m, Accept(codec, m, b, i, e, d))
  {
    AddKeepsEntry(codec, m.otiBytes, m.blocks[i].numSourceSymbols, b.blocks[i], b.received[i], b.sourceRecv[i], e, d);
  }

  lemma AcceptCards(codec: BlockCodec, m: ObjectMeta, b: Book, i: nat, e: nat, d: Bytes)
    requires SameShape(m, b) && i < |m.blocks|
    ensures Sum(Cards(Accept(codec, m, b, i, e, d).received))
         == Sum(Cards(b.received)) + (if e in b.received[i] then 0 else 1)
  {
    var got := b.received[i] + {e};
    assert Cards(b.received[i := got]) == Cards(b.received)[i := |got|];
    SumUpdate(Cards(b.received), i, |got|);
    if e in b.received[i] {
      assert got == b.received[i];
    }
  }

  /** Nothing recovered is lost, and no block's progress goes back. */
  ghost predicate Advances(m: ObjectMeta, b: Book, b': Book)
  {
    && SameShape(m, b) && SameShape(m, b')
    && (forall i :: 0 <= i < |m.blocks| && b.blocks[i].decoded.Some? ==> b'.blocks[i] == b.blocks[i])
    && (forall i :: 0 <= i < |m.blocks| ==> b.received[i] <= b'.received[i])
    && (forall i :: 0 <= i < |m.blocks| ==> b.sourceRecv[i] <= b'.sourceRecv[i])
  }

  lemma AdvancesProgress(m: ObjectMeta, b: Book, b': Book)
    requires Advances(m, b, b')
    ensures Sum(DecodedPer(m, b)) <= Sum(DecodedPer(m, b'))
  {
    SumMono(DecodedPer(m, b), DecodedPer(m, b'));
  }

  // ----- The replay of the bootstrap cache

  /** Key (i, e) is among `order` and its cached payload belongs to the object. */
  ghost predicate Replays(m: ObjectMeta, cache: map<Key, Bytes>, order: seq<Key>, i: nat, e: nat)
  {
    i < U32 && e < U32 && Key(i, e) in order && Key(i, e) in cache && Fits(m, Key(i, e), cache[Key(i, e)])
  }

  lemma EmptyBookOk(codec: BlockCodec, m: ObjectMeta)
    ensures BookOk(codec, m, EmptyBook(m))
    ensures Sum(Cards(EmptyBook(m).received)) == 0
    ensures Sum(DecodedFlags(EmptyBook(m).blocks)) == 0
    ensures Sum(DecodedPer(m, EmptyBook(m))) == 0
  {
    forall i | 0 <= i < |m.blocks|
      ensures EntryOk(codec, m.otiBytes, m.blocks[i].numSourceSymbols, FRESH, {}, 0)
    {
      assert SourceIds({}, m.blocks[i].numSourceSymbols) == {};
    }
    SumZeros(Cards(EmptyBook(m).received));
    SumZeros(DecodedFlags(EmptyBook(m).blocks));
    SumZeros(DecodedPer(m, EmptyBook(m)));
  }

  lemma {:induction false} ReplayKeepsBook(codec: BlockCodec, m: ObjectMeta, cache: map<Key, Bytes>, order: seq<Key>)
    requires forall k :: k in order ==> k in cache
    ensures BookOk(codec, m, ReplayAll(codec, m, cache, order).book)
  {
    if order == [] {
      EmptyBookOk(codec, m);
    } else {
      var rest, last := order[..|order| - 1], order[|order| - 1];
      ReplayKeepsBook(codec, m, cache, rest);
      if Fits(m, last, cache[last]) {
        AcceptKeepsBook(codec, m, ReplayAll(codec, m, cache, rest).book, last.sbn, last.esi, cache[last]);
      }
    }
  }

  /** The replay takes in exactly the cached symbols that fit. */
  lemma {:induction false} ReplayContents(codec: BlockCodec, m: ObjectMeta, cache: map<Key, Bytes>, order: seq<Key>,
                                          i: nat, e: nat)
    requires forall k :: k in order ==> k in cache
    requires i < |m.blocks| <= 255
    ensures e in ReplayAll(codec, m, cache, order).book.received[i] <==> Replays(m, cache, order, i, e)
  {
    if order != [] {
      var rest, last := order[..|order| - 1], order[|order| - 1];
      ReplayContents(codec, m, cache, rest, i, e);
      assert order == rest + [last];
    }
  }

  /** Every other entry is counted as corrupt. */
  lemma {:induction false} ReplayTally(codec: BlockCodec, m: ObjectMeta, cache: map<Key, Bytes>, order: seq<Key>)
    requires |m.blocks| <= 255
    requires NoRepeats(order) && forall k :: k in order ==> k in cache
    ensures var r := ReplayAll(codec, m, cache, order);
            r.corrupt + Sum(Cards(r.book.received)) == |order|
  {
    if order == [] {
      EmptyBookOk(codec, m);
    } else {
      var rest, last := order[..|order| - 1], order[|order| - 1];
      ReplayTally(codec, m, cache, rest);
      assert last !in rest;
      if Fits(m, last, cache[last]) {
        ReplayContents(codec, m, cache, rest, last.sbn, last.esi);
        AcceptCards(codec, m, ReplayAll(codec, m, cache, rest).book, last.sbn, last.esi, cache[last]);
      }
    }
  }

  /** The keys of a cache whose payloads belong to the object. */
  function Fitting(m: ObjectMeta, cache: map<Key, Bytes>): set<Key>
  {
    set k | k in cache && Fits(m, k, cache[k])
  }

  /** Those among some keys. */
  function FittingIn(m: ObjectMeta, cache: map<Key, Bytes>, order: seq<Key>): set<Key>
    requires forall k :: k in order ==> k in cache
  {
    set k | k in order && Fits(m, k, cache[k])
  }

  lemma FittingOneMore(m: ObjectMeta, cache: map<Key, Bytes>, order: seq<Key>)
    requires order != [] && order[|order| - 1] !in order[..|order| - 1]
    requires forall k :: k in order ==> k in cache
    ensures var rest, last := order[..|order| - 1], order[|order| - 1];
            |FittingIn(m, cache, order)| == |FittingIn(m, cache, rest)| + if Fits(m, last, cache[last]) then 1 else 0
  {
    var rest, last := order[..|order| - 1], order[|order| - 1];
    assert order == rest + [last];
    var before := FittingIn(m, cache, rest);
    assert FittingIn(m, cache, order) == if Fits(m, last, cache[last]) then before + {last} else before;
  }

  /** The replay takes in as many symbols as there are fitting keys among those replayed. */
  lemma {:induction false} ReplayCount(codec: BlockCodec, m: ObjectMeta, cache: map<Key, Bytes>, order: seq<Key>)
    requires |m.blocks| <= 255
    requires NoRepeats(order) && forall k :: k in order ==> k in cache
    ensures Sum(Cards(ReplayAll(codec, m, cache, order).book.received))
         == |FittingIn(m, cache, order)|
  {
    if order == [] {
      EmptyBookOk(codec, m);
    } else {
      var rest, last := order[..|order| - 1], order[|order| - 1];
      ReplayCount(codec, m, cache, rest);
      assert order == rest + [last] && last !in rest;
      FittingOneMore(m, cache, order);
      if Fits(m, last, cache[last]) {
        ReplayContents(codec, m, cache, rest, last.sbn, last.esi);
        AcceptCards(codec, m, ReplayAll(codec, m, cache, rest).book, last.sbn, last.esi, cache[last]);
      }
    }
  }

  lemma {:induction false} NoRepeatsLength(q: seq<Key>, s: set<Key>)
    requires Enumerates(q, s)
    ensures |q| == |s|
  {
    if q == [] {
      assert s == {};
    } else {
      var rest, last := q[..|q| - 1], q[|q| - 1];
      assert q == rest + [last];
      NoRepeatsLength(rest, s - {last});
    }
  }

  /** The cache holds a payload for (i, e) that belongs to the object. */
  ghost predicate CachedFit(m: ObjectMeta, cache: map<Key, Bytes>, i: nat, e: nat)
  {
    i < U32 && e < U32 && Key(i, e) in cache && Fits(m, Key(i, e), cache[Key(i, e)])
  }

  lemma ApplyMetaContents(w: World, s: State, m: ObjectMeta, i: nat, e: nat)
    requires w.Lawful() && i < |m.blocks| <= 255
    ensures e in ApplyMeta(w, s, m).book.received[i] <==> CachedFit(m, s.cache, i, e)
  {
    var order := w.replayOrder(s.cache.Keys);
    assert Enumerates(order, s.cache.Keys);
    ReplayContents(w.codec, m, s.cache, order, i, e);
  }

  lemma ApplyMetaOutcome(w: World, s: State, m: ObjectMeta)
    requires w.Lawful() && Invariant(w, s) && s.meta.None? && ValidMeta(m)
    ensures var s' := ApplyMeta(w, s, m);
            && Invariant(w, s'.(metaConfirmed := true))
            && s'.progress.framesCorrupt + s'.progress.receivedSymbols
               == s.progress.framesCorrupt + s.progress.receivedSymbols
  {
    var order := w.replayOrder(s.cache.Keys);
    assert Enumerates(order, s.cache.Keys);
    ReplayKeepsBook(w.codec, m, s.cache, order);
    ReplayTally(w.codec, m, s.cache, order);
    NoRepeatsLength(order, s.cache.Keys);
    assert |s.cache.Keys| == |s.cache|;
  }

  // ----- Every step keeps the invariant

  lemma PendingInvariant(w: World, sessionId: u128)
    ensures Invariant(w, Pending(sessionId))
  {
  }

  lemma KnownInvariant(w: World, sessionId: u128, m: ObjectMeta)
    requires ValidMeta(m)
    ensures Invariant(w, Known(sessionId, m))
  {
    EmptyBookOk(w.codec, m);
  }

  lemma TakeDataKeeps(w: World, s: State, m: ObjectMeta, key: Key, payload: Bytes)
    requires w.Lawful() && Invariant(w, s) && s.meta == Some(m)
    ensures Invariant(w, TakeData(w.codec, s, m, key, payload))
  {
    if !Fits(m, key, payload) || IsComplete(s) || key.esi in s.book.received[key.sbn] {
      assert TakeData(w.codec, s, m, key, payload).book == s.book;
    } else {
      var b := Accept(w.codec, m, s.book, key.sbn, key.esi, payload);
      AcceptKeepsBook(w.codec, m, s.book, key.sbn, key.esi, payload);
      AcceptCards(w.codec, m, s.book, key.sbn, key.esi, payload);
      NewBookKeeps(w, s, m, b);
    }
  }

  lemma NewBookKeeps(w: World, s: State, m: ObjectMeta, b: Book)
    requires Invariant(w, s) && s.meta == Some(m) && BookOk(w.codec, m, b)
    requires Sum(Cards(b.received)) == s.progress.receivedSymbols + 1
    ensures var p := s.progress.(receivedSymbols := s.progress.receivedSymbols + 1);
            Invariant(w, s.(book := b, progress := Refreshed(p, m, b)))
  {
  }

  lemma TakeDescriptorKeeps(w: World, s: State, info: DescriptorInfo)
    requires w.Lawful() && Invariant(w, s) && ValidMeta(info.meta)
    ensures Invariant(w, TakeDescriptor(w, s, info))
  {
    if !s.descriptorSeen && s.meta.None? {
      ApplyMetaOutcome(w, s, info.meta);
    }
  }

  lemma StepKeepsInvariant(w: World, s: State, input: Input)
    requires w.Lawful() && Invariant(w, s) && Admissible(input)
    ensures Invariant(w, Step(w, s, input))
  {
    var t := Seen(s);
    match input
    case Foreign =>
    case BadDescriptor =>
    case Descriptor(info) =>
      TakeDescriptorKeeps(w, t, info);
    case Data(sbn, esi, symbolSize, payload) =>
      if t.metaConfirmed {
        TakeDataKeeps(w, t, t.meta.value, Key(sbn, esi), payload);
      } else if |t.cache| < PreMetaCacheMax(symbolSize) {
        CapMeansBudget(symbolSize, |t.cache|);
      }
  }

  lemma {:induction false} RunKeepsInvariant(w: World, s: State, inputs: seq<Input>)
    requires w.Lawful() && Invariant(w, s) && AllAdmissible(inputs)
    ensures Invariant(w, Run(w, s, inputs))
    decreases |inputs|
  {
    if inputs != [] {
      var rest := inputs[..|inputs| - 1];
      RunKeepsInvariant(w, s, rest);
      StepKeepsInvariant(w, Run(w, s, rest), inputs[|inputs| - 1]);
    }
  }

  // ----- Conservation of frames

  /** The frame is a descriptor the session takes or recognises. */
  ghost predicate Recognised(s: State, input: Input)
  {
    && input.Descriptor?
    && (if s.descriptorSeen then SameDescriptor(s, input.info) else s.meta.None? || s.meta.value == input.info.meta)
  }

  ghost function RecognisedIn(w: World, s: State, inputs: seq<Input>): nat
    requires w.Lawful() && Ready(s)
    decreases |inputs|
  {
    if inputs == [] then 0
    else
      var rest := inputs[..|inputs| - 1];
      RecognisedIn(w, s, rest) + (if Recognised(Run(w, s, rest), inputs[|inputs| - 1]) then 1 else 0)
  }

  /** Frames not accounted for as duplicate, corrupt or a held symbol. */
  function Unaccounted(p: Progress): int
  {
    p.framesSeen - p.framesDuplicate - p.framesCorrupt - p.receivedSymbols
  }

  lemma StepConserves(w: World, s: State, input: Input)
    requires w.Lawful() && Invariant(w, s) && Admissible(input)
    ensures Unaccounted(Step(w, s, input).progress)
         == Unaccounted(s.progress) + (if Recognised(s, input) then 1 else 0)
  {
    var t := Seen(s);
    match input
    case Foreign =>
    case BadDescriptor =>
    case Descriptor(info) =>
      if !t.descriptorSeen && t.meta.None? {
        ApplyMetaOutcome(w, t, info.meta);
      }
    case Data(sbn, esi, symbolSize, payload) =>
      DataConserves(w, t, input);
  }

  lemma DataConserves(w: World, t: State, input: Input)
    requires w.Lawful() && Invariant(w, t) && input.Data?
    ensures var key := Key(input.sbn, input.esi);
            && (!t.metaConfirmed ==>
                 Unaccounted(CacheData(t, key, input.symbolSize, input.payload).progress) == Unaccounted(t.progress) - 1)
            && (t.metaConfirmed ==>
                 Unaccounted(TakeData(w.codec, t, t.meta.value, key, input.payload).progress) == Unaccounted(t.progress) - 1)
  {
  }

  /** Every frame of the session is a duplicate, corrupt, a symbol held, or a recognised
      descriptor; nothing is counted twice, not even across the cache replay. */
  lemma {:induction false} FramesAreConserved(w: World, s: State, inputs: seq<Input>)
    requires w.Lawful() && Invariant(w, s) && AllAdmissible(inputs)
    requires Unaccounted(s.progress) == 0
    ensures var p := Run(w, s, inputs).progress;
            p.framesSeen == p.framesDuplicate + p.framesCorrupt + p.receivedSymbols + RecognisedIn(w, s, inputs)
    decreases |inputs|
  {
    if inputs != [] {
      var rest := inputs[..|inputs| - 1];
      FramesAreConserved(w, s, rest);
      RunKeepsInvariant(w, s, rest);
      StepConserves(w, Run(w, s, rest), inputs[|inputs| - 1]);
    }
  }

  // ----- Write-once metadata, monotone progress, freeze after completion

  /** `t` is a later state of `s`. */
  ghost predicate Later(s: State, t: State)
  {
    && (s.meta.Some? ==> t.meta == s.meta && Advances(s.meta.value, s.book, t.book))
    && (s.descriptorSeen ==> t.descriptorSeen && t.fileMeta == s.fileMeta && t.segmentMeta == s.segmentMeta)
    && s.progress.decodedSymbols <= t.progress.decodedSymbols
    && (IsComplete(s) ==> IsComplete(t) && t.book == s.book && t.progress.receivedSymbols == s.progress.receivedSymbols)
  }

  lemma AcceptAdvances(codec: BlockCodec, m: ObjectMeta, b: Book, i: nat, e: nat, d: Bytes)
    requires BookOk(codec, m, b) && i < |m.blocks| && e < ESI_LIMIT
    ensures Advances(m, b, Accept(codec, m, b, i, e, d))
  {
    AddKeepsEntry(codec, m.otiBytes, m.blocks[i].numSourceSymbols, b.blocks[i], b.received[i], b.sourceRecv[i], e, d);
  }

  lemma TakeDataIsLater(w: World, s: State, m: ObjectMeta, key: Key, payload: Bytes)
    requires w.Lawful() && Invariant(w, s) && s.meta == Some(m)
    ensures Later(s, TakeData(w.codec, s, m, key, payload))
  {
    var s' := TakeData(w.codec, s, m, key, payload);
    if Fits(m, key, payload) && !IsComplete(s) && key.esi !in s.book.received[key.sbn] {
      AcceptAdvances(w.codec, m, s.book, key.sbn, key.esi, payload);
      AdvancesProgress(m, s.book, s'.book);
    }
  }

  lemma StepIsLater(w: World, s: State, input: Input)
    requires w.Lawful() && Invariant(w, s) && Admissible(input)
    ensures Later(s, Step(w, s, input))
  {
    var t := Seen(s);
    match input
    case Foreign =>
    case BadDescriptor =>
    case Descriptor(info) =>
      TakeDescriptorIsLater(w, t, info);
    case Data(sbn, esi, symbolSize, payload) =>
      if t.metaConfirmed {
        TakeDataIsLater(w, t, t.meta.value, Key(sbn, esi), payload);
      }
  }

  lemma TakeDescriptorIsLater(w: World, s: State, info: DescriptorInfo)
    requires w.Lawful() && Invariant(w, s) && ValidMeta(info.meta)
    ensures Later(s, TakeDescriptor(w, s, info))
  {
  }

  lemma {:induction false} RunIsLater(w: World, s: State, inputs: seq<Input>)
    requires w.Lawful() && Invariant(w, s) && AllAdmissible(inputs)
    ensures Later(s, Run(w, s, inputs))
    decreases |inputs|
  {
    if inputs != [] {
      var rest := inputs[..|inputs| - 1];
      RunIsLater(w, s, rest);
      RunKeepsInvariant(w, s, rest);
      StepIsLater(w, Run(w, s, rest), inputs[|inputs| - 1]);
      LaterTransitive(s, Run(w, s, rest), Run(w, s, inputs));
    }
  }

  lemma LaterTransitive(s: State, t: State, u: State)
    requires Later(s, t) && Later(t, u)
    ensures Later(s, u)
  {
  }

  // ----- What the gauges mean

  /** A block is recovered exactly when the ids received for it suffice. */
  lemma DecodedIffSufficient(codec: BlockCodec, m: ObjectMeta, b: Book, i: nat)
    requires codec.Lawful() && ValidMeta(m) && BookOk(codec, m, b) && i < |m.blocks|
    ensures b.blocks[i].decoded.Some? <==> codec.sufficient(m.blocks[i].numSourceSymbols, b.received[i])
  {
    var k := m.blocks[i].numSourceSymbols;
    assert BlockOk(m, i);
    assert EntryOk(codec, m.otiBytes, k, b.blocks[i], b.received[i], b.sourceRecv[i]);
    var nothing: set<nat> := {};
    assert codec.sufficient(k, nothing) ==> |nothing| >= k;
  }

  /** The decoded-symbols gauge never passes the total and reaches it exactly at
      completion; the block gauge agrees. */
  lemma GaugesTellCompletion(w: World, s: State)
    requires w.Lawful() && Invariant(w, s)
    ensures s.progress.decodedSymbols <= s.progress.totalSymbols
    ensures s.meta.Some? ==> (s.progress.decodedSymbols == s.progress.totalSymbols <==> IsComplete(s))
    ensures s.progress.IsComplete() <==> IsComplete(s)
  {
    if s.meta.Some? {
      var m := s.meta.value;
      SumMono(DecodedPer(m, s.book), Ks(m.blocks));
      forall i | 0 <= i < |m.blocks|
        ensures DecodedPer(m, s.book)[i] == Ks(m.blocks)[i] <==> s.book.blocks[i].decoded.Some?
      {
        FullBlockIsDecoded(w.codec, m, s.book, i);
      }
      assert DecodedPer(m, s.book) == Ks(m.blocks) <==> AllDecoded(s.book.blocks);
      FlagsTell(s.book.blocks);
    }
  }

  lemma FullBlockIsDecoded(codec: BlockCodec, m: ObjectMeta, b: Book, i: nat)
    requires codec.Lawful() && ValidMeta(m) && BookOk(codec, m, b) && i < |m.blocks|
    ensures DecodedPer(m, b)[i] == m.blocks[i].numSourceSymbols <==> b.blocks[i].decoded.Some?
  {
    var k := m.blocks[i].numSourceSymbols;
    var got := b.received[i];
    assert EntryOk(codec, m.otiBytes, k, b.blocks[i], got, b.sourceRecv[i]);
    DecodedIffSufficient(codec, m, b, i);
    if b.sourceRecv[i] >= k {
      AllSourceIdsSuffice(codec, k, got);
    }
  }

  lemma AllSourceIdsSuffice(codec: BlockCodec, k: nat, got: set<nat>)
    requires codec.Lawful() && |SourceIds(got, k)| >= k
    ensures codec.sufficient(k, got)
  {
    CardIds(k);
    assert SourceIds(got, k) <= Ids(k);
    SubsetOfSameSize(SourceIds(got, k), Ids(k));
    assert codec.sufficient(k, Ids(k));
    assert Ids(k) <= got;
  }

  lemma SubsetOfSameSize<T>(s: set<T>, t: set<T>)
    requires s <= t && |s| >= |t|
    ensures s == t
  {
    assert t == s + (t - s);
    assert |t| == |s| + |t - s|;
    assert t - s == {};
  }

  lemma FlagsTell(blocks: seq<BlockState>)
    ensures Sum(DecodedFlags(blocks)) <= |blocks|
    ensures Sum(DecodedFlags(blocks)) == |blocks| <==> AllDecoded(blocks)
  {
    var ones: seq<nat> := seq(|blocks|, _ => 1);
    SumOnes(|blocks|);
    SumMono(DecodedFlags(blocks), ones);
    if AllDecoded(blocks) {
      assert DecodedFlags(blocks) == ones;
    } else {
      var i :| 0 <= i < |blocks| && blocks[i].decoded.None?;
      assert DecodedFlags(blocks)[i] != ones[i];
    }
  }

  lemma {:induction false} SumOnes(n: nat)
    ensures Sum(seq(n, _ => 1)) == n
  {
    if n > 0 {
      SumOnes(n - 1);
      var ones: seq<nat> := seq(n, _ => 1);
      assert ones[..n - 1] == seq(n - 1, _ => 1);
    }
  }

  lemma {:induction false} CardBelow(s: set<nat>, n: nat)
    requires forall e :: e in s ==> e < n
    ensures |s| <= n
    decreases n
  {
    if n == 0 {
      assert s == {};
    } else {
      CardBelow(s - {n - 1}, n - 1);
      assert s <= s - {n - 1} + {n - 1};
    }
  }

  /** The count of distinct symbols stays far below 2^32. */
  lemma ReceivedSymbolsBound(w: World, s: State)
    requires Invariant(w, s)
    ensures s.progress.receivedSymbols <= 255 * ESI_LIMIT
  {
    if s.meta.Some? {
      var m := s.meta.value;
      var cards := Cards(s.book.received);
      forall i | 0 <= i < |cards|
        ensures cards[i] <= ESI_LIMIT
      {
        assert EntryOk(w.codec, m.otiBytes, m.blocks[i].numSourceSymbols, s.book.blocks[i], s.book.received[i], s.book.sourceRecv[i]);
        CardBelow(s.book.received[i], ESI_LIMIT);
      }
      SumBound(cards, ESI_LIMIT);
    }
  }
}
