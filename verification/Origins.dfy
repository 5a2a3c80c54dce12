/** What holds of a receiver session however it came to be and whatever it was fed. */
module Origins {
  import opened Words
  import opened Sums
  import opened Metadata
  import opened BlockCodecs
  import opened ReceiverStates
  import opened ReceiverInvariants
  import opened Resumes

  /** The three ways a session begins. */
  datatype Origin =
    | Fresh(sessionId: u128)
    | Confirmed(sessionId: u128, meta: ObjectMeta)
    | Checkpoint(state: ResumeState)
  {
    predicate Legal()
    {
      match this
      case Fresh(_) => true
      case Confirmed(_, m) => ValidMeta(m)
      case Checkpoint(r) => ValidResume(r)
    }

    function Start(w: World): (s: State)
      ensures Ready(s)
    {
      match this
      case Fresh(sid) => Pending(sid)
      case Confirmed(sid, m) => Known(sid, m)
      case Checkpoint(r) => Restored(w, r)
    }
  }

  /** Every state a session can reach. */
  lemma ReachableInvariant(w: World, o: Origin, inputs: seq<Input>)
    requires w.Lawful() && o.Legal() && AllAdmissible(inputs)
    ensures Invariant(w, Run(w, o.Start(w), inputs))
  {
    StartInvariant(w, o);
    RunKeepsInvariant(w, o.Start(w), inputs);
  }

  lemma StartInvariant(w: World, o: Origin)
    requires o.Legal()
    ensures Invariant(w, o.Start(w))
  {
    match o
    case Fresh(sid) => PendingInvariant(w, sid);
    case Confirmed(sid, m) => KnownInvariant(w, sid, m);
    case Checkpoint(r) => RestoredInvariant(w, r);
  }

  /** Whatever a session began as and whatever frames it was fed: before the layout is known the
      symbol gauge is the size of the cache; from then on the cache is empty, the gauge is the
      number of distinct ids held, every block's source counter counts exactly the distinct
      source ids among them, and decoded symbols and blocks tell completion. */
  lemma CountersAgree(w: World, o: Origin, inputs: seq<Input>)
    requires w.Lawful() && o.Legal() && AllAdmissible(inputs)
    ensures var s := Run(w, o.Start(w), inputs);
            && (s.meta.None? ==> s.progress.receivedSymbols == |s.cache| && s.book == Book([], [], []))
            && (s.meta.Some? ==>
                 && s.cache == map[]
                 && SameShape(s.meta.value, s.book)
                 && s.progress.receivedSymbols == Sum(Cards(s.book.received))
                 && forall i :: 0 <= i < |s.book.received| ==>
                      s.book.sourceRecv[i] == |SourceIds(s.book.received[i], s.meta.value.blocks[i].numSourceSymbols)|)
    ensures var s := Run(w, o.Start(w), inputs);
            && s.progress.decodedSymbols <= s.progress.totalSymbols
            && (s.progress.IsComplete() <==> IsComplete(s))
  {
    ReachableInvariant(w, o, inputs);
    var s := Run(w, o.Start(w), inputs);
    GaugesTellCompletion(w, s);
    if s.meta.Some? {
      EntriesAgree(w, s);
    }
  }

  /** The progress of block `i`: all of its K symbols once solved, before that the distinct source
      symbols it holds. */
  function BlockProgress(m: ObjectMeta, b: Book, i: nat): nat
    requires SameShape(m, b) && i < |m.blocks|
  {
    if b.blocks[i].decoded.Some? then m.blocks[i].numSourceSymbols
    else |set e | e in b.received[i] && e < m.blocks[i].numSourceSymbols|
  }

  /** In every state reached with a layout, decoded symbols add up the progress of the blocks, decoded
      blocks are the solved ones, and the totals are the layout's. */
  lemma ProgressAddsUp(w: World, o: Origin, inputs: seq<Input>)
    requires w.Lawful() && o.Legal() && AllAdmissible(inputs)
    ensures var s := Run(w, o.Start(w), inputs);
            s.meta.Some? ==>
              && SameShape(s.meta.value, s.book)
              && var n := |s.meta.value.blocks|;
              && s.progress.decodedSymbols
                 == Sum(seq(n, i requires 0 <= i < n => BlockProgress(s.meta.value, s.book, i)))
              && s.progress.decodedBlocks == Sum(seq(n, i requires 0 <= i < n =>
                                                  if s.book.blocks[i].decoded.Some? then 1 else 0))
              && s.progress.totalSymbols
                 == Sum(seq(n, i requires 0 <= i < n => s.meta.value.blocks[i].numSourceSymbols as nat))
              && s.progress.totalBlocks == n
  {
    ReachableInvariant(w, o, inputs);
    var s := Run(w, o.Start(w), inputs);
    if s.meta.Some? {
      var m, n := s.meta.value, |s.meta.value.blocks|;
      BlocksProgress(w, s);
      assert DecodedPer(m, s.book) == seq(n, i requires 0 <= i < n => BlockProgress(m, s.book, i));
      assert DecodedFlags(s.book.blocks) == seq(n, i requires 0 <= i < n => if s.book.blocks[i].decoded.Some? then 1 else 0);
      assert Ks(m.blocks) == seq(n, i requires 0 <= i < n => m.blocks[i].numSourceSymbols as nat);
    }
  }

  lemma BlocksProgress(w: World, s: State)
    requires Invariant(w, s) && s.meta.Some?
    ensures var m := s.meta.value;
            forall i :: 0 <= i < |m.blocks| ==> DecodedPer(m, s.book)[i] == BlockProgress(m, s.book, i)
  {
    var m := s.meta.value;
    EntriesAgree(w, s);
    forall i | 0 <= i < |m.blocks|
      ensures DecodedPer(m, s.book)[i] == BlockProgress(m, s.book, i)
    {
      var k := m.blocks[i].numSourceSymbols;
      SourceIdsAreFew(s.book.received[i], k);
      assert SourceIds(s.book.received[i], k) == set e | e in s.book.received[i] && e < k;
    }
  }

  lemma SourceIdsAreFew(got: set<nat>, k: nat)
    ensures |SourceIds(got, k)| <= k
  {
    CardIds(k);
    FewerMembers(SourceIds(got, k), Ids(k));
  }

  lemma EntriesAgree(w: World, s: State)
    requires Invariant(w, s) && s.meta.Some?
    ensures forall i :: 0 <= i < |s.book.received| ==>
              s.book.sourceRecv[i] == |SourceIds(s.book.received[i], s.meta.value.blocks[i].numSourceSymbols)|
  {
    var m := s.meta.value;
    forall i | 0 <= i < |s.book.received|
      ensures s.book.sourceRecv[i] == |SourceIds(s.book.received[i], m.blocks[i].numSourceSymbols)|
    {
      assert EntryOk(w.codec, m.otiBytes, m.blocks[i].numSourceSymbols, s.book.blocks[i], s.book.received[i],
                     s.book.sourceRecv[i]);
    }
  }
}
