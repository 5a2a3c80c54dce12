/** What a session ends with depends only on which symbols it was handed: not on their
    order, not on repeats, not on where the descriptor stood, not on hash-map order. */
module LateJoin {
  import opened Words
  import opened Sums
  import opened Metadata
  import opened BlockCodecs
  import opened ReceiverStates
  import opened ReceiverInvariants

  lemma {:induction false} RunAppend(w: World, s: State, a: seq<Input>, b: seq<Input>)
    requires w.Lawful() && Ready(s)
    ensures Run(w, s, a + b) == Run(w, Run(w, s, a), b)
    decreases |b|
  {
    if b == [] {
      assert a + b == a;
    } else {
      var rest := b[..|b| - 1];
      RunAppend(w, s, a, rest);
      assert (a + b)[..|a + b| - 1] == a + rest;
    }
  }

  /** The id of block `i` that one frame delivers, if its payload fits. */
  function Gain(m: ObjectMeta, input: Input, i: nat): set<nat>
  {
    if input.Data? && input.sbn == i && Fits(m, Key(input.sbn, input.esi), input.payload) then {input.esi} else {}
  }

  /** The ids of block `i` that data frames of `inputs` deliver with fitting payloads. */
  function Delivered(m: ObjectMeta, inputs: seq<Input>, i: nat): set<nat>
    decreases |inputs|
  {
    if inputs == [] then {}
    else Delivered(m, inputs[..|inputs| - 1], i) + Gain(m, inputs[|inputs| - 1], i)
  }

  lemma {:induction false} DeliveredAppend(m: ObjectMeta, a: seq<Input>, b: seq<Input>, i: nat)
    ensures Delivered(m, a + b, i) == Delivered(m, a, i) + Delivered(m, b, i)
    decreases |b|
  {
    if b == [] {
      assert a + b == a;
    } else {
      DeliveredAppend(m, a, b[..|b| - 1], i);
      assert (a + b)[..|a + b| - 1] == a + b[..|b| - 1];
    }
  }

  /** The bootstrap cache left by frames that precede any acceptable descriptor. */
  function CacheOf(inputs: seq<Input>): map<Key, Bytes>
    decreases |inputs|
  {
    if inputs == [] then map[]
    else
      var cache, last := CacheOf(inputs[..|inputs| - 1]), inputs[|inputs| - 1];
      if last.Data? && Key(last.sbn, last.esi) !in cache && |cache| < PreMetaCacheMax(last.symbolSize)
      then cache[Key(last.sbn, last.esi) := last.payload]
      else cache
  }

  /** The ids of block `i` a cache can hand to the decoder. */
  function Held(m: ObjectMeta, cache: map<Key, Bytes>, i: nat): set<nat>
  {
    set key | key in cache && key.sbn == i && Fits(m, key, cache[key]) :: key.esi as nat
  }

  ghost predicate NoDescriptor(inputs: seq<Input>)
  {
    forall i :: 0 <= i < |inputs| ==> !inputs[i].Descriptor?
  }

  /** Waiting for a descriptor, with this cache. */
  ghost predicate Waiting(w: World, s: State, cache: map<Key, Bytes>)
  {
    s.meta.None? && !s.descriptorSeen && s.cache == cache && Invariant(w, s)
  }

  lemma StepWaits(w: World, s: State, a: seq<Input>)
    requires w.Lawful() && a != [] && !a[|a| - 1].Descriptor? && Waiting(w, s, CacheOf(a[..|a| - 1]))
    ensures Waiting(w, Step(w, s, a[|a| - 1]), CacheOf(a))
  {
    var input := a[|a| - 1];
    StepKeepsInvariant(w, s, input);
    if input.Data? {
      StepCaches(Seen(s), a);
    }
  }

  lemma StepCaches(s: State, a: seq<Input>)
    requires Shaped(s) && a != [] && a[|a| - 1].Data? && s.cache == CacheOf(a[..|a| - 1])
    ensures var last := a[|a| - 1];
            CacheData(s, Key(last.sbn, last.esi), last.symbolSize, last.payload).cache == CacheOf(a)
  {
  }

  lemma {:induction false} BootstrapOnlyCaches(w: World, sid: u128, a: seq<Input>)
    requires w.Lawful() && NoDescriptor(a)
    ensures Waiting(w, Run(w, Pending(sid), a), CacheOf(a))
    decreases |a|
  {
    if a != [] {
      BootstrapOnlyCaches(w, sid, a[..|a| - 1]);
      StepWaits(w, Run(w, Pending(sid), a[..|a| - 1]), a);
    }
  }

  /** Once the layout is known, the received sets follow the deliveries until completion. */
  ghost predicate Follows(s: State, m: ObjectMeta, got: seq<set<nat>>)
  {
    && s.meta == Some(m) && SameShape(m, s.book) && |got| == |m.blocks|
    && (forall i :: 0 <= i < |m.blocks| ==> s.book.received[i] <= got[i])
    && (!IsComplete(s) ==> forall i :: 0 <= i < |m.blocks| ==> s.book.received[i] == got[i])
  }

  ghost function With(m: ObjectMeta, base: seq<set<nat>>, inputs: seq<Input>): (got: seq<set<nat>>)
    ensures |got| == |base|
  {
    seq(|base|, i requires 0 <= i < |base| => base[i] + Delivered(m, inputs, i))
  }

  lemma TakeDataFollows(codec: BlockCodec, s: State, m: ObjectMeta, got: seq<set<nat>>, input: Input, got': seq<set<nat>>)
    requires Shaped(s) && Follows(s, m, got) && input.Data? && |got'| == |got|
    requires forall i :: 0 <= i < |got| ==> got'[i] == got[i] + Gain(m, input, i)
    ensures Follows(TakeData(codec, s, m, Key(input.sbn, input.esi), input.payload), m, got')
  {
    var key := Key(input.sbn, input.esi);
    if Fits(m, key, input.payload) {
      assert Gain(m, input, key.sbn) == {key.esi as nat};
    }
  }

  lemma StepFollows(w: World, s: State, m: ObjectMeta, got: seq<set<nat>>, input: Input, got': seq<set<nat>>)
    requires w.Lawful() && Ready(s) && s.metaConfirmed && Follows(s, m, got) && |got'| == |got|
    requires forall i :: 0 <= i < |got| ==> got'[i] == got[i] + Gain(m, input, i)
    ensures Follows(Step(w, s, input), m, got')
  {
    if input.Data? {
      TakeDataFollows(w.codec, Seen(s), m, got, input, got');
    } else {
      forall i | 0 <= i < |got|
        ensures got'[i] == got[i]
      {
        assert Gain(m, input, i) == {};
      }
      assert got' == got;
    }
  }

  lemma ExtendFollows(m: ObjectMeta, base: seq<set<nat>>, b: seq<Input>)
    requires b != []
    ensures forall i :: 0 <= i < |base| ==>
      With(m, base, b)[i] == With(m, base, b[..|b| - 1])[i] + Gain(m, b[|b| - 1], i)
  {
  }

  lemma {:induction false} RunFollows(w: World, s: State, m: ObjectMeta, base: seq<set<nat>>, b: seq<Input>)
    requires w.Lawful() && Invariant(w, s) && AllAdmissible(b) && Follows(s, m, base)
    ensures Follows(Run(w, s, b), m, With(m, base, b))
    decreases |b|
  {
    if b == [] {
      assert With(m, base, b) == base;
    } else {
      var rest := b[..|b| - 1];
      RunFollows(w, s, m, base, rest);
      RunKeepsInvariant(w, s, rest);
      ExtendFollows(m, base, b);
      StepFollows(w, Run(w, s, rest), m, With(m, base, rest), b[|b| - 1], With(m, base, b));
    }
  }

  // ----- The outcome in closed form

  /** The ids in hand for block `i` after `a`, a descriptor for `m`, then `b`. */
  function InHand(m: ObjectMeta, a: seq<Input>, b: seq<Input>, i: nat): set<nat>
  {
    Held(m, CacheOf(a), i) + Delivered(m, b, i)
  }

  /** The gauges and recovered blocks of `s` are those of the ids `got`. */
  ghost predicate OutcomeOf(codec: BlockCodec, m: ObjectMeta, s: State, got: seq<set<nat>>)
  {
    && Follows(s, m, got)
    && (forall i :: 0 <= i < |m.blocks| ==>
         (s.book.blocks[i].decoded.Some? <==> codec.sufficient(m.blocks[i].numSourceSymbols, got[i])))
    && s.progress.decodedBlocks == Sum(SolvedFlags(codec, m, got))
    && s.progress.decodedSymbols == Sum(SolvedSymbols(codec, m, got))
  }

  ghost function SolvedFlags(codec: BlockCodec, m: ObjectMeta, got: seq<set<nat>>): (f: seq<nat>)
    requires |got| == |m.blocks|
    ensures |f| == |m.blocks|
  {
    seq(|m.blocks|, i requires 0 <= i < |m.blocks| =>
      if codec.sufficient(m.blocks[i].numSourceSymbols, got[i]) then 1 else 0)
  }

  ghost function SolvedCount(codec: BlockCodec, k: nat, got: set<nat>): nat
  {
    if codec.sufficient(k, got) then k else Min(|SourceIds(got, k)|, k)
  }

  ghost function SolvedSymbols(codec: BlockCodec, m: ObjectMeta, got: seq<set<nat>>): (f: seq<nat>)
    requires |got| == |m.blocks|
    ensures |f| == |m.blocks|
  {
    seq(|m.blocks|, i requires 0 <= i < |m.blocks| =>
      SolvedCount(codec, m.blocks[i].numSourceSymbols, got[i]))
  }

  lemma FollowingDetermines(w: World, s: State, m: ObjectMeta, got: seq<set<nat>>)
    requires w.Lawful() && Invariant(w, s) && Follows(s, m, got)
    ensures OutcomeOf(w.codec, m, s, got)
  {
    var codec := w.codec;
    forall i | 0 <= i < |m.blocks|
      ensures s.book.blocks[i].decoded.Some? <==> codec.sufficient(m.blocks[i].numSourceSymbols, got[i])
    {
      DecodedIffSufficient(codec, m, s.book, i);
    }
    assert DecodedFlags(s.book.blocks) == SolvedFlags(codec, m, got);
    forall i | 0 <= i < |m.blocks|
      ensures DecodedPer(m, s.book)[i] == SolvedSymbols(codec, m, got)[i]
    {
      assert EntryOk(codec, m.otiBytes, m.blocks[i].numSourceSymbols, s.book.blocks[i], s.book.received[i], s.book.sourceRecv[i]);
    }
    assert DecodedPer(m, s.book) == SolvedSymbols(codec, m, got);
  }

  ghost function AllInHand(m: ObjectMeta, a: seq<Input>, b: seq<Input>): (got: seq<set<nat>>)
    ensures |got| == |m.blocks|
  {
    seq(|m.blocks|, i requires 0 <= i < |m.blocks| => InHand(m, a, b, i))
  }

  /** A pending session fed `a`, then an acceptable descriptor, then anything. */
  lemma OutcomeAfterDescriptor(w: World, sid: u128, a: seq<Input>, info: DescriptorInfo, b: seq<Input>, inputs: seq<Input>)
    requires w.Lawful() && NoDescriptor(a) && ValidMeta(info.meta) && AllAdmissible(b)
    requires inputs == a + [Descriptor(info)] + b
    ensures OutcomeOf(w.codec, info.meta, Run(w, Pending(sid), inputs), AllInHand(info.meta, a, b))
  {
    var m := info.meta;
    var s0 := Run(w, Pending(sid), a);
    BootstrapOnlyCaches(w, sid, a);
    var s1 := Step(w, s0, Descriptor(info));
    RunAppend(w, Pending(sid), a, [Descriptor(info)]);
    assert [Descriptor(info)][..0] == [];
    assert Run(w, s0, [Descriptor(info)]) == s1;
    RunAppend(w, Pending(sid), a + [Descriptor(info)], b);
    StepKeepsInvariant(w, s0, Descriptor(info));
    var base := seq(|m.blocks|, i requires 0 <= i < |m.blocks| => Held(m, CacheOf(a), i));
    DescriptorFollows(w, s0, info, base);
    RunFollows(w, s1, m, base, b);
    RunKeepsInvariant(w, s1, b);
    assert With(m, base, b) == AllInHand(m, a, b);
    FollowingDetermines(w, Run(w, s1, b), m, AllInHand(m, a, b));
  }

  /** The descriptor that ends the bootstrap phase takes in the cached symbols that fit. */
  lemma DescriptorReceives(w: World, s: State, info: DescriptorInfo, i: nat)
    requires w.Lawful() && Invariant(w, s) && s.meta.None? && ValidMeta(info.meta) && i < |info.meta.blocks|
    ensures Step(w, s, Descriptor(info)).book.received[i] == Held(info.meta, s.cache, i)
  {
    var got := Step(w, s, Descriptor(info)).book.received[i];
    forall e: nat
      ensures e in got <==> e in Held(info.meta, s.cache, i)
    {
      ApplyMetaContents(w, Seen(s), info.meta, i, e);
      if CachedFit(info.meta, s.cache, i, e) {
        assert Key(i, e).esi in Held(info.meta, s.cache, i);
      }
    }
  }

  lemma DescriptorFollows(w: World, s: State, info: DescriptorInfo, base: seq<set<nat>>)
    requires w.Lawful() && Invariant(w, s) && s.meta.None? && ValidMeta(info.meta)
    requires |base| == |info.meta.blocks|
    requires forall i :: 0 <= i < |base| ==> base[i] == Held(info.meta, s.cache, i)
    ensures Follows(Step(w, s, Descriptor(info)), info.meta, base)
  {
    forall i | 0 <= i < |info.meta.blocks|
      ensures Step(w, s, Descriptor(info)).book.received[i] == base[i]
    {
      DescriptorReceives(w, s, info, i);
    }
  }

  // ----- Late joining loses nothing

  /** Everything fitting that `a` delivered is in its cache, in fitting form. */
  ghost predicate Lossless(m: ObjectMeta, a: seq<Input>)
  {
    forall i :: 0 <= i < |m.blocks| ==> Delivered(m, a, i) == Held(m, CacheOf(a), i)
  }

  /** The same completion, the same gauges, and the same ids received while incomplete. */
  ghost predicate EndAlike(s: State, t: State)
  {
    && IsComplete(s) == IsComplete(t)
    && s.progress.decodedBlocks == t.progress.decodedBlocks
    && s.progress.decodedSymbols == t.progress.decodedSymbols
    && (!IsComplete(s) ==> s.book.received == t.book.received)
  }

  /** Two states with the outcome of the same ids. */
  lemma SameOutcome(codec: BlockCodec, m: ObjectMeta, s: State, t: State, got: seq<set<nat>>)
    requires OutcomeOf(codec, m, s, got) && OutcomeOf(codec, m, t, got)
    ensures EndAlike(s, t)
  {
    assert forall i :: 0 <= i < |m.blocks| ==>
      (s.book.blocks[i].decoded.Some? <==> t.book.blocks[i].decoded.Some?);
    if !IsComplete(s) {
      assert s.book.received == got && t.book.received == got;
    }
  }

  /** What the cache holds in fitting form was delivered. */
  lemma {:induction false} HeldIsDelivered(m: ObjectMeta, a: seq<Input>, i: nat)
    ensures Held(m, CacheOf(a), i) <= Delivered(m, a, i)
    decreases |a|
  {
    if a != [] {
      HeldIsDelivered(m, a[..|a| - 1], i);
      CacheGrowsBy(m, a, i);
    }
  }

  lemma CacheGrowsBy(m: ObjectMeta, a: seq<Input>, i: nat)
    requires a != []
    ensures Held(m, CacheOf(a), i) <= Held(m, CacheOf(a[..|a| - 1]), i) + Gain(m, a[|a| - 1], i)
  {
    var before, after, last := CacheOf(a[..|a| - 1]), CacheOf(a), a[|a| - 1];
    forall e | e in Held(m, after, i)
      ensures e in Held(m, before, i) + Gain(m, last, i)
    {
      var k :| k in after && k.sbn == i && Fits(m, k, after[k]) && k.esi == e;
      assert k in before || (last.Data? && k == Key(last.sbn, last.esi) && after[k] == last.payload);
    }
  }

  lemma HandsCompared(m: ObjectMeta, a: seq<Input>, b: seq<Input>)
    ensures forall i :: 0 <= i < |m.blocks| ==>
              AllInHand(m, [], a + b)[i] == Delivered(m, a, i) + Delivered(m, b, i)
              && AllInHand(m, a, b)[i] <= AllInHand(m, [], a + b)[i]
    ensures AllInHand(m, a, b) == AllInHand(m, [], a + b) <==> MadeGood(m, a, b)
  {
    forall i | 0 <= i < |m.blocks|
      ensures AllInHand(m, [], a + b)[i] == Delivered(m, a, i) + Delivered(m, b, i)
      ensures AllInHand(m, a, b)[i] <= AllInHand(m, [], a + b)[i]
    {
      DeliveredAppend(m, a, b, i);
      HeldIsDelivered(m, a, i);
      assert Held(m, CacheOf([]), i) == {};
    }
    if MadeGood(m, a, b) {
      assert forall i :: 0 <= i < |m.blocks| ==> AllInHand(m, a, b)[i] == AllInHand(m, [], a + b)[i];
    }
    if AllInHand(m, a, b) == AllInHand(m, [], a + b) {
      assert forall i :: 0 <= i < |m.blocks| ==> AllInHand(m, a, b)[i] == AllInHand(m, [], a + b)[i];
    }
  }

  /** What the cache did not keep of `a`, `b` delivers again. */
  ghost predicate MadeGood(m: ObjectMeta, a: seq<Input>, b: seq<Input>)
  {
    forall i :: 0 <= i < |m.blocks| ==> Delivered(m, a, i) <= Held(m, CacheOf(a), i) + Delivered(m, b, i)
  }

  /** More ids keep a complete outcome complete, with the same gauges. */
  lemma CompleteStaysAlike(codec: BlockCodec, m: ObjectMeta, s: State, got: seq<set<nat>>, t: State, more: seq<set<nat>>)
    requires codec.Lawful() && OutcomeOf(codec, m, s, got) && OutcomeOf(codec, m, t, more) && IsComplete(s)
    requires forall i :: 0 <= i < |m.blocks| ==> got[i] <= more[i]
    ensures EndAlike(s, t)
  {
    forall i | 0 <= i < |m.blocks|
      ensures codec.sufficient(m.blocks[i].numSourceSymbols, got[i])
           && codec.sufficient(m.blocks[i].numSourceSymbols, more[i])
    {
      assert s.book.blocks[i].decoded.Some?;
    }
    assert SolvedFlags(codec, m, got) == SolvedFlags(codec, m, more);
    assert SolvedSymbols(codec, m, got) == SolvedSymbols(codec, m, more);
  }

  /** "Data, then descriptor" and "descriptor, then data" end alike, with any `b` after, exactly
      when the late joiner completes all the same or what its cache lost comes again. */
  lemma LateJoinExactly(w: World, sid: u128, a: seq<Input>, info: DescriptorInfo, b: seq<Input>)
    requires w.Lawful() && NoDescriptor(a) && ValidMeta(info.meta) && AllAdmissible(b)
    ensures var late := Run(w, Pending(sid), a + [Descriptor(info)] + b);
            EndAlike(late, Run(w, Pending(sid), [Descriptor(info)] + a + b))
            <==> IsComplete(late) || MadeGood(info.meta, a, b)
  {
    OutcomeAfterDescriptor(w, sid, a, info, b, a + [Descriptor(info)] + b);
    OutcomeOfEarlyDescriptor(w, sid, a, info, b);
    HandsCompared(info.meta, a, b);
    EndsCompared(w.codec, info.meta, Run(w, Pending(sid), a + [Descriptor(info)] + b), AllInHand(info.meta, a, b),
                 Run(w, Pending(sid), [Descriptor(info)] + a + b), AllInHand(info.meta, [], a + b));
  }

  /** Of two ends, the second with at least the ids of the first. */
  lemma EndsCompared(codec: BlockCodec, m: ObjectMeta, s: State, got: seq<set<nat>>, t: State, more: seq<set<nat>>)
    requires codec.Lawful() && OutcomeOf(codec, m, s, got) && OutcomeOf(codec, m, t, more)
    requires forall i :: 0 <= i < |m.blocks| ==> got[i] <= more[i]
    ensures EndAlike(s, t) <==> IsComplete(s) || got == more
  {
    if IsComplete(s) {
      CompleteStaysAlike(codec, m, s, got, t, more);
    } else {
      assert s.book.received == got;
      assert !IsComplete(t) ==> t.book.received == more;
      if got == more {
        SameOutcome(codec, m, s, t, got);
      }
    }
  }

  /** With nothing after the descriptor: exactly when it completes or the cache lost nothing. */
  lemma LateJoinExactlyAtOnce(w: World, sid: u128, a: seq<Input>, info: DescriptorInfo)
    requires w.Lawful() && NoDescriptor(a) && ValidMeta(info.meta)
    ensures var late := Run(w, Pending(sid), a + [Descriptor(info)]);
            EndAlike(late, Run(w, Pending(sid), [Descriptor(info)] + a))
            <==> IsComplete(late) || Lossless(info.meta, a)
  {
    LateJoinExactly(w, sid, a, info, []);
    assert a + [Descriptor(info)] + [] == a + [Descriptor(info)];
    assert [Descriptor(info)] + a + [] == [Descriptor(info)] + a;
    NothingComesAgain(info.meta, a);
  }

  lemma NothingComesAgain(m: ObjectMeta, a: seq<Input>)
    ensures MadeGood(m, a, []) <==> Lossless(m, a)
  {
    forall i | 0 <= i < |m.blocks|
      ensures Held(m, CacheOf(a), i) <= Delivered(m, a, i)
    {
      HeldIsDelivered(m, a, i);
    }
  }

  lemma OutcomeOfEarlyDescriptor(w: World, sid: u128, a: seq<Input>, info: DescriptorInfo, b: seq<Input>)
    requires w.Lawful() && NoDescriptor(a) && ValidMeta(info.meta) && AllAdmissible(b)
    ensures OutcomeOf(w.codec, info.meta, Run(w, Pending(sid), [Descriptor(info)] + a + b),
                      AllInHand(info.meta, [], a + b))
  {
    OutcomeAfterDescriptor(w, sid, [], info, a + b, [Descriptor(info)] + a + b);
  }

  /** The same deliveries in another order, or with repeats, end alike. */
  lemma OutcomeIgnoresOrderAndRepeats(w: World, w': World, sid: u128, a: seq<Input>, b: seq<Input>,
                                      info: DescriptorInfo, a': seq<Input>, b': seq<Input>)
    requires w.Lawful() && w'.Lawful() && w'.codec == w.codec && ValidMeta(info.meta)
    requires NoDescriptor(a) && NoDescriptor(a') && AllAdmissible(b) && AllAdmissible(b')
    requires forall i :: 0 <= i < |info.meta.blocks| ==> InHand(info.meta, a, b, i) == InHand(info.meta, a', b', i)
    ensures EndAlike(Run(w, Pending(sid), a + [Descriptor(info)] + b),
                     Run(w', Pending(sid), a' + [Descriptor(info)] + b'))
  {
    OutcomeAfterDescriptor(w, sid, a, info, b, a + [Descriptor(info)] + b);
    OutcomeAfterDescriptor(w', sid, a', info, b', a' + [Descriptor(info)] + b');
    assert AllInHand(info.meta, a, b) == AllInHand(info.meta, a', b');
    SameOutcome(w.codec, info.meta, Run(w, Pending(sid), a + [Descriptor(info)] + b),
                Run(w', Pending(sid), a' + [Descriptor(info)] + b'), AllInHand(info.meta, a, b));
  }

  /** The data frames of `a` all fit `m`, as those of one sender do. */
  ghost predicate AllFit(m: ObjectMeta, a: seq<Input>)
  {
    forall j :: 0 <= j < |a| && a[j].Data? ==>
      a[j].symbolSize == m.symbolSize && Fits(m, Key(a[j].sbn, a[j].esi), a[j].payload)
  }

  // ----- When the cache loses nothing

  /** The keys that data frames of `a` carry. */
  function Keys(a: seq<Input>): set<Key>
    decreases |a|
  {
    if a == [] then {}
    else
      var last := a[|a| - 1];
      Keys(a[..|a| - 1]) + (if last.Data? then {Key(last.sbn, last.esi)} else {})
  }

  lemma {:induction false} CacheWithinKeys(a: seq<Input>)
    ensures CacheOf(a).Keys <= Keys(a)
    decreases |a|
  {
    if a != [] {
      CacheWithinKeys(a[..|a| - 1]);
    }
  }

  /** Delivered ids belong to keys carried. */
  lemma {:induction false} DeliveredHasKey(m: ObjectMeta, a: seq<Input>, i: nat, e: nat)
    requires e in Delivered(m, a, i)
    ensures i < U32 && e < U32 && i < |m.blocks| && Key(i, e) in Keys(a)
    decreases |a|
  {
    var rest := a[..|a| - 1];
    if e in Delivered(m, rest, i) {
      DeliveredHasKey(m, rest, i, e);
    }
  }

  lemma HeldHasKey(m: ObjectMeta, cache: map<Key, Bytes>, k: Key)
    ensures k.esi as nat in Held(m, cache, k.sbn) <==> k in cache && Fits(m, k, cache[k])
  {
    if k.esi as nat in Held(m, cache, k.sbn) {
      var q :| q in cache && q.sbn == k.sbn && Fits(m, q, cache[q]) && q.esi as nat == k.esi as nat;
      assert q == k;
    }
  }

  /** Nothing is lost exactly when every key delivered in fitting form is cached in that form. */
  lemma LosslessByKeys(m: ObjectMeta, a: seq<Input>)
    ensures Lossless(m, a) <==> forall k :: k in Keys(a) && k.sbn < |m.blocks| && k.esi as nat in Delivered(m, a, k.sbn)
                                  ==> k in CacheOf(a) && Fits(m, k, CacheOf(a)[k])
  {
    var cache := CacheOf(a);
    forall k: Key
      ensures k.esi as nat in Held(m, cache, k.sbn) <==> k in cache && Fits(m, k, cache[k])
    {
      HeldHasKey(m, cache, k);
    }
    forall i, e | 0 <= i < |m.blocks| && e in Delivered(m, a, i)
      ensures i < U32 && e < U32 && Key(i, e) in Keys(a)
    {
      DeliveredHasKey(m, a, i, e);
    }
    forall i | 0 <= i < |m.blocks|
      ensures Held(m, cache, i) <= Delivered(m, a, i)
    {
      HeldIsDelivered(m, a, i);
    }
    if forall k :: k in Keys(a) && k.sbn < |m.blocks| && k.esi as nat in Delivered(m, a, k.sbn)
                   ==> k in cache && Fits(m, k, cache[k]) {
      forall i, e | 0 <= i < |m.blocks| && e in Delivered(m, a, i)
        ensures e in Held(m, cache, i)
      {
        var k := Key(i, e);
        assert k in cache && Fits(m, k, cache[k]);
      }
    }
  }

  lemma {:induction false} KeyIsDelivered(m: ObjectMeta, a: seq<Input>, k: Key)
    requires AllFit(m, a) && k in Keys(a)
    ensures k.sbn < |m.blocks| && k.esi as nat in Delivered(m, a, k.sbn)
    decreases |a|
  {
    var rest, last := a[..|a| - 1], a[|a| - 1];
    if k in Keys(rest) {
      KeyIsDelivered(m, rest, k);
    } else {
      assert Fits(m, Key(last.sbn, last.esi), last.payload);
    }
  }

  /** Fitting frames of one size fill the cache key by key up to the cap. */
  lemma {:induction false} CacheFills(m: ObjectMeta, a: seq<Input>)
    requires AllFit(m, a)
    ensures |CacheOf(a)| == Min(|Keys(a)|, PreMetaCacheMax(m.symbolSize))
    ensures forall k :: k in CacheOf(a) ==> Fits(m, k, CacheOf(a)[k])
    decreases |a|
  {
    if a != [] {
      var rest, last := a[..|a| - 1], a[|a| - 1];
      CacheFills(m, rest);
      CacheWithinKeys(rest);
      if last.Data? {
        OneMoreKey(CacheOf(rest), Keys(rest), Key(last.sbn, last.esi), last.payload, PreMetaCacheMax(m.symbolSize));
      }
    }
  }

  /** A cache that has taken all keys, or as many as the cap admits, after one more. */
  lemma OneMoreKey(cache: map<Key, Bytes>, keys: set<Key>, k: Key, data: Bytes, cap: nat)
    requires cache.Keys <= keys && |cache| == Min(|keys|, cap)
    ensures |if k !in cache && |cache| < cap then cache[k := data] else cache| == Min(|keys + {k}|, cap)
  {
    assert |cache| == |cache.Keys|;
    if |cache| < cap {
      SubsetOfSameSize(cache.Keys, keys);
    }
    if k in keys {
      assert keys + {k} == keys;
    }
  }

  /** With one sender's frames the cache loses nothing exactly when they carry no more distinct
      keys than the cap admits, repeats and foreign frames not counted. */
  lemma LosslessExactlyWithinCap(m: ObjectMeta, a: seq<Input>)
    requires AllFit(m, a)
    ensures Lossless(m, a) <==> |Keys(a)| <= PreMetaCacheMax(m.symbolSize)
  {
    LosslessByKeys(m, a);
    CacheFills(m, a);
    if |Keys(a)| <= PreMetaCacheMax(m.symbolSize) {
      AllKeysCached(m, a);
    } else {
      var k := SomeKeyRefused(m, a);
      KeyIsDelivered(m, a, k);
    }
  }

  lemma AllKeysCached(m: ObjectMeta, a: seq<Input>)
    requires AllFit(m, a) && |Keys(a)| <= PreMetaCacheMax(m.symbolSize)
    ensures CacheOf(a).Keys == Keys(a)
  {
    CacheFills(m, a);
    CacheWithinKeys(a);
    assert |CacheOf(a)| == |CacheOf(a).Keys|;
    SubsetOfSameSize(CacheOf(a).Keys, Keys(a));
  }

  lemma SomeKeyRefused(m: ObjectMeta, a: seq<Input>) returns (k: Key)
    requires AllFit(m, a) && |Keys(a)| > PreMetaCacheMax(m.symbolSize)
    ensures k in Keys(a) && k !in CacheOf(a)
  {
    CacheFills(m, a);
    CacheWithinKeys(a);
    assert |CacheOf(a)| == |CacheOf(a).Keys|;
    assert CacheOf(a).Keys != Keys(a);
    k :| k in Keys(a) && k !in CacheOf(a).Keys;
  }

  /** The payload of the first data frame that carries this key. */
  function FirstCopy(a: seq<Input>, k: Key): Bytes
    requires k in Keys(a)
    decreases |a|
  {
    var rest := a[..|a| - 1];
    if k in Keys(rest) then FirstCopy(rest, k) else a[|a| - 1].payload
  }

  /** Every new key arrives while the cap of its own frame still has room. */
  ghost predicate WithinCap(a: seq<Input>)
  {
    forall j :: 0 <= j < |a| && a[j].Data? && Key(a[j].sbn, a[j].esi) !in Keys(a[..j])
      ==> |Keys(a[..j])| < PreMetaCacheMax(a[j].symbolSize)
  }

  lemma {:induction false} CacheIsFirstCopies(a: seq<Input>)
    requires WithinCap(a)
    ensures CacheOf(a).Keys == Keys(a)
    ensures forall k :: k in Keys(a) ==> CacheOf(a)[k] == FirstCopy(a, k)
    decreases |a|
  {
    if a != [] {
      var n := |a| - 1;
      assert WithinCap(a[..n]) by {
        assert forall j :: 0 <= j < n ==> a[..n][j] == a[j] && a[..n][..j] == a[..j];
      }
      CacheIsFirstCopies(a[..n]);
      assert |CacheOf(a[..n])| == |CacheOf(a[..n]).Keys|;
    }
  }

  /** Whatever the frames, as long as no new key meets a full cache: nothing is lost exactly when
      the first data frame of every key delivered in fitting form fits itself. */
  lemma LosslessByFirstCopies(m: ObjectMeta, a: seq<Input>)
    requires WithinCap(a)
    ensures Lossless(m, a) <==> forall k :: k in Keys(a) && k.sbn < |m.blocks| && k.esi as nat in Delivered(m, a, k.sbn)
                                  ==> Fits(m, k, FirstCopy(a, k))
  {
    CacheIsFirstCopies(a);
    LosslessByKeys(m, a);
  }

  // ----- And when it does lose: the cache keeps the first copy of a key

  /** A one-symbol object. */
  const TINY: ObjectMeta :=
    ObjectMeta(64, 64, [0, 0, 0, 0, 64, 0, 0, 64, 1, 0, 1, 8], [SourceBlockMeta(0, 1, 64)])

  lemma TinyIsValid()
    ensures ValidMeta(TINY)
  {
    var o := TINY.otiBytes;
    assert o[0..5] == [0, 0, 0, 0, 64] && o[6..8] == [0, 64] && o[9..11] == [0, 1];
    UnbeOfTwo(0, 64);
    UnbeOfTwo(0, 1);
    UnbeOfZerosThen(64);
    assert BlockOk(TINY, 0);
    assert Ks(TINY.blocks) == [1];
    assert Sum([1]) == 1 by { assert [1][..0] == []; }
  }

  lemma UnbeOfTwo(x: u8, y: u8)
    ensures Unbe([x, y]) == 256 * (x as nat) + y
  {
    UnbeSnoc([], x);
    UnbeSnoc([x], y);
    assert [] + [x] == [x] && [x] + [y] == [x, y];
  }

  lemma UnbeOfZerosThen(x: u8)
    ensures Unbe([0, 0, 0, 0, x]) == x
  {
    UnbeOfTwo(0, 0);
    UnbeSnoc([0, 0], 0);
    UnbeSnoc([0, 0, 0], 0);
    UnbeSnoc([0, 0, 0, 0], x);
    assert [0, 0] + [0] == [0, 0, 0] && [0, 0, 0] + [0] == [0, 0, 0, 0] && [0, 0, 0, 0] + [x] == [0, 0, 0, 0, x];
  }

  /** With a one-symbol object, holding id 0 or nothing decides completion. */
  lemma TinyCompletion(w: World, s: State, got: seq<set<nat>>)
    requires w.Lawful() && OutcomeOf(w.codec, TINY, s, got)
    ensures got[0] == {} ==> !IsComplete(s)
    ensures got[0] == {0} ==> IsComplete(s)
  {
    var nothing: set<nat> := {};
    assert w.codec.sufficient(1, nothing) ==> |nothing| >= 1;
    assert Ids(1) == {0};
    assert w.codec.sufficient(1, Ids(1));
  }

  const SHORT_COPY: Input := Data(0, 0, 1, [7])
  const GOOD_COPY: Input := Data(0, 0, 64, Zeros(64))

  lemma ShadowedCopies()
    ensures InHand(TINY, [SHORT_COPY, GOOD_COPY], [], 0) == {}
    ensures InHand(TINY, [], [SHORT_COPY, GOOD_COPY], 0) == {0}
  {
    var a := [SHORT_COPY, GOOD_COPY];
    assert a[..1] == [SHORT_COPY] && [SHORT_COPY][..0] == [];
    assert CacheOf([SHORT_COPY]) == map[Key(0, 0) := [7]];
    assert CacheOf(a) == map[Key(0, 0) := [7]];
    assert Delivered(TINY, [SHORT_COPY], 0) == {};
    assert Gain(TINY, GOOD_COPY, 0) == {0};
  }

  /** A short first copy of a key shadows the good copy until the descriptor arrives, so
      the late joiner misses a symbol the early one completes with. */
  lemma WrongSizedFirstCopyIsLost(w: World, sid: u128, fm: FileMeta)
    requires w.Lawful()
    ensures var d := [Descriptor(DescriptorInfo(TINY, fm, None))];
            var a := [SHORT_COPY, GOOD_COPY];
            && !IsComplete(Run(w, Pending(sid), a + d))
            && IsComplete(Run(w, Pending(sid), d + a))
  {
    ShadowedCopies();
    var a := [SHORT_COPY, GOOD_COPY];
    var d := [Descriptor(DescriptorInfo(TINY, fm, None))];
    TinyRun(w, sid, a, fm, [], a + d);
    TinyRun(w, sid, [], fm, a, d + a);
  }

  lemma TinyRun(w: World, sid: u128, a: seq<Input>, fm: FileMeta, b: seq<Input>, inputs: seq<Input>)
    requires w.Lawful() && NoDescriptor(a) && AllAdmissible(b)
    requires inputs == a + [Descriptor(DescriptorInfo(TINY, fm, None))] + b
    ensures InHand(TINY, a, b, 0) == {} ==> !IsComplete(Run(w, Pending(sid), inputs))
    ensures InHand(TINY, a, b, 0) == {0} ==> IsComplete(Run(w, Pending(sid), inputs))
  {
    TinyIsValid();
    var info := DescriptorInfo(TINY, fm, None);
    OutcomeAfterDescriptor(w, sid, a, info, b, inputs);
    TinyCompletion(w, Run(w, Pending(sid), inputs), AllInHand(TINY, a, b));
  }
}
