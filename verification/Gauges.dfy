/** The symbol gauge is no measure of progress: exactly when it falls, and when it overshoots. */
module Gauges {
  import opened Words
  import opened Sums
  import opened Metadata
  import opened ReceiverStates
  import opened ReceiverInvariants
  import opened LateJoin

  /** When a descriptor ends the bootstrap phase, the gauge becomes the number of cached symbols
      that fit, out of all that were cached. */
  lemma GaugeAtConfirmation(w: World, s: State, info: DescriptorInfo)
    requires w.Lawful() && Invariant(w, s) && s.meta.None? && ValidMeta(info.meta)
    ensures var t := Step(w, s, Descriptor(info));
            && t.progress.receivedSymbols == |Fitting(info.meta, s.cache)|
            && t.progress.totalSymbols == TotalK(info.meta.blocks)
    ensures s.progress.receivedSymbols == |s.cache|
  {
    var t := Seen(s);
    var order := w.replayOrder(t.cache.Keys);
    assert Enumerates(order, t.cache.Keys);
    ReplayCount(w.codec, info.meta, t.cache, order);
    assert FittingIn(info.meta, t.cache, order) == Fitting(info.meta, s.cache);
  }

  lemma FittingIsSmaller(m: ObjectMeta, cache: map<Key, Bytes>)
    ensures |Fitting(m, cache)| <= |cache|
    ensures |Fitting(m, cache)| < |cache| <==> exists k :: k in cache && !Fits(m, k, cache[k])
  {
    var fit := Fitting(m, cache);
    var misfit := set k | k in cache && !Fits(m, k, cache[k]);
    assert fit + misfit == cache.Keys && fit * misfit == {};
    assert |cache| == |cache.Keys| == |fit| + |misfit|;
    if k :| k in cache && !Fits(m, k, cache[k]) {
      assert k in misfit;
    }
  }

  /** The gauge falls in exactly one kind of step: a descriptor that ends the bootstrap phase and
      finds a cached symbol that does not fit its layout. */
  lemma GaugeFallsExactly(w: World, s: State, input: Input)
    requires w.Lawful() && Invariant(w, s) && Admissible(input)
    ensures Step(w, s, input).progress.receivedSymbols < s.progress.receivedSymbols
       <==> s.meta.None? && input.Descriptor? && exists k :: k in s.cache && !Fits(input.info.meta, k, s.cache[k])
  {
    if s.meta.None? && input.Descriptor? {
      GaugeAtConfirmation(w, s, input.info);
      FittingIsSmaller(input.info.meta, s.cache);
    } else {
      GaugeHolds(w, s, input);
    }
  }

  lemma GaugeHolds(w: World, s: State, input: Input)
    requires w.Lawful() && Invariant(w, s) && Admissible(input) && (s.meta.Some? || !input.Descriptor?)
    ensures s.progress.receivedSymbols <= Step(w, s, input).progress.receivedSymbols
  {
    if input.Data? && s.meta.None? {
      CachingGauge(Seen(s), Key(input.sbn, input.esi), input.symbolSize, input.payload);
    }
  }

  lemma CachingGauge(s: State, key: Key, symbolSize: u32, payload: Bytes)
    requires Shaped(s) && s.progress.receivedSymbols == |s.cache|
    ensures |s.cache| <= CacheData(s, key, symbolSize, payload).progress.receivedSymbols
  {
  }

  /** At confirmation the gauge passes the total exactly when more fitting symbols were cached
      than the object has source symbols. */
  lemma OvershootsExactly(w: World, s: State, info: DescriptorInfo)
    requires w.Lawful() && Invariant(w, s) && s.meta.None? && ValidMeta(info.meta)
    ensures var p := Step(w, s, Descriptor(info)).progress;
            p.receivedSymbols > p.totalSymbols <==> |Fitting(info.meta, s.cache)| > TotalK(info.meta.blocks)
  {
    GaugeAtConfirmation(w, s, info);
  }

  // ----- Both do happen

  const SECOND_SYMBOL: Input := Data(0, 1, 64, Zeros(64))

  /** A misfit cached, then the descriptor: from one to nothing. */
  lemma ReceivedMayDrop(w: World, sid: u128, fm: FileMeta)
    requires w.Lawful()
    ensures Run(w, Pending(sid), [SHORT_COPY]).progress.receivedSymbols == 1
    ensures Run(w, Pending(sid), [SHORT_COPY, Descriptor(DescriptorInfo(TINY, fm, None))]).progress.receivedSymbols == 0
  {
    assert [SHORT_COPY][..0] == [];
    assert CacheOf([SHORT_COPY]) == map[Key(0, 0) := [7]];
    AfterBacklog(w, sid, [SHORT_COPY], fm, [SHORT_COPY, Descriptor(DescriptorInfo(TINY, fm, None))]);
    assert Fitting(TINY, CacheOf([SHORT_COPY])) == {};
  }

  lemma TwoCached(a: seq<Input>)
    requires a == [GOOD_COPY, SECOND_SYMBOL]
    ensures CacheOf(a) == map[Key(0, 0) := Zeros(64), Key(0, 1) := Zeros(64)] && NoDescriptor(a)
  {
    assert a[..1] == [GOOD_COPY] && [GOOD_COPY][..0] == [];
    assert CacheOf([GOOD_COPY]) == map[Key(0, 0) := Zeros(64)];
  }

  lemma TwoFit(cache: map<Key, Bytes>)
    requires cache == map[Key(0, 0) := Zeros(64), Key(0, 1) := Zeros(64)]
    ensures |Fitting(TINY, cache)| == 2
  {
    assert Fitting(TINY, cache) == {Key(0, 0), Key(0, 1)};
  }

  /** Two spare symbols cached of a one-symbol object. */
  lemma ReceivedMayOvershoot(w: World, sid: u128, fm: FileMeta, inputs: seq<Input>)
    requires w.Lawful() && inputs == [GOOD_COPY, SECOND_SYMBOL, Descriptor(DescriptorInfo(TINY, fm, None))]
    ensures var s := Run(w, Pending(sid), inputs);
            s.progress.receivedSymbols == 2 && s.progress.totalSymbols == 1
  {
    var a := inputs[..2];
    TwoCached(a);
    TwoFit(CacheOf(a));
    AfterBacklog(w, sid, a, fm, inputs);
    TinyTotal();
  }

  lemma TinyTotal()
    ensures TotalK(TINY.blocks) == 1
  {
    assert Ks(TINY.blocks) == [1] && [] + [1 as nat] == [1 as nat];
    SumSnoc([], 1);
  }

  lemma AfterBacklog(w: World, sid: u128, a: seq<Input>, fm: FileMeta, inputs: seq<Input>)
    requires w.Lawful() && NoDescriptor(a) && inputs == a + [Descriptor(DescriptorInfo(TINY, fm, None))]
    ensures Run(w, Pending(sid), a).progress.receivedSymbols == |CacheOf(a)|
    ensures Run(w, Pending(sid), inputs).progress.receivedSymbols == |Fitting(TINY, CacheOf(a))|
    ensures Run(w, Pending(sid), inputs).progress.totalSymbols == TotalK(TINY.blocks)
  {
    TinyIsValid();
    BootstrapOnlyCaches(w, sid, a);
    assert inputs[..|inputs| - 1] == a;
    GaugeAtConfirmation(w, Run(w, Pending(sid), a), DescriptorInfo(TINY, fm, None));
  }
}
