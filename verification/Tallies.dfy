/** Which frames a session counts, and as what. */
module Tallies {
  import opened Words
  import opened Sums
  import opened Division
  import opened Metadata
  import opened Senders
  import opened ReceiverStates
  import opened ReceiverInvariants
  import opened LateJoin
  import opened EndToEnd
  import Frames

  /** The coordinates and the length belong to an object of this layout. */
  predicate Belongs(m: ObjectMeta, sbn: u32, esi: u32, bytes: Bytes)
  {
    sbn < |m.blocks| && esi < 0x100_0000 && |bytes| == m.symbolSize
  }

  /** Data the session has no more use for: cached already, or recovered, or received already. */
  predicate Useless(s: State, input: Input)
    requires Ready(s)
  {
    && input.Data?
    && match s.meta
       case None => Key(input.sbn, input.esi) in s.cache
       case Some(m) =>
         && Belongs(m, input.sbn, input.esi, input.payload)
         && ((forall i :: 0 <= i < |s.book.blocks| ==> s.book.blocks[i].decoded.Some?)
             || input.esi as nat in s.book.received[input.sbn])
  }

  /** The bootstrap cache takes no further key of this symbol size: 12000 entries for frames
      without a size, else as many as 32 MiB hold at 64 bytes or more each. */
  predicate CacheFull(entries: nat, symbolSize: u32)
  {
    if symbolSize == 0 then entries >= 12_000 else entries * Max(symbolSize, 64) >= 0x200_0000
  }

  lemma CacheFullExactly(entries: nat, symbolSize: u32)
    ensures CacheFull(entries, symbolSize) <==> entries >= PreMetaCacheMax(symbolSize)
  {
    if symbolSize != 0 {
      CeilingExactly(0x200_0000, Max(symbolSize, 64), entries);
    }
  }

  lemma CeilingExactly(a: nat, b: nat, n: nat)
    requires b > 0
    ensures n >= CeilDiv(a, b) <==> n * b >= a
  {
    var q, r := (a + b - 1) / b, (a + b - 1) % b;
    Digits(a + b - 1, b);
    if n >= q {
      TimesKeepsOrder(b, q, n);
    } else {
      TimesKeepsOrder(b, n + 1, q);
      Distribute(n, 1, b);
    }
  }

  /** The cached symbols that do not belong to this layout. */
  function Misfits(m: ObjectMeta, cache: map<Key, Bytes>): set<Key>
  {
    set k | k in cache && !Belongs(m, k.sbn, k.esi, cache[k])
  }

  /** How many frames this one makes corrupt: itself, or the misfits its layout finds in the cache. */
  function Spoilt(s: State, input: Input): nat
    requires Ready(s)
  {
    match input
    case Foreign => 0
    case BadDescriptor => 1
    case Descriptor(info) =>
      if s.descriptorSeen then
        if s.meta == Some(info.meta) && s.fileMeta == info.fileMeta && s.segmentMeta == info.segment then 0 else 1
      else if s.meta.None? then |Misfits(info.meta, s.cache)|
      else if s.meta.value == info.meta then 0 else 1
    case Data(sbn, esi, symbolSize, payload) =>
      match s.meta
      case None => if Key(sbn, esi) !in s.cache && CacheFull(|s.cache|, symbolSize) then 1 else 0
      case Some(m) => if Belongs(m, sbn, esi, payload) then 0 else 1
  }

  /** Every counter of every step: own frames are seen; useless ones are duplicates; refused
      descriptors, new keys over the cap and misfits are corrupt; and only another session's
      frames make the mismatch streak. */
  lemma StepCounts(w: World, s: State, input: Input)
    requires w.Lawful() && Invariant(w, s)
    ensures var p, q := s.progress, Step(w, s, input).progress;
            && q.framesSeen == p.framesSeen + (if input.Foreign? then 0 else 1)
            && q.framesDuplicate == p.framesDuplicate + (if Useless(s, input) then 1 else 0)
            && q.framesCorrupt == p.framesCorrupt + Spoilt(s, input)
            && q.sessionMismatchStreak == (if input.Foreign? then p.sessionMismatchStreak + 1 else 0)
    ensures Step(w, s, input).streak == if input.Foreign? then s.streak + 1 else 0
    ensures s.meta.None? && input.Data? ==> Step(w, s, input).pendingSymbolSize == input.symbolSize
  {
    match input
    case Foreign =>
    case BadDescriptor =>
    case Descriptor(info) =>
      DescriptorCounts(w, s, info);
    case Data(sbn, esi, symbolSize, payload) =>
      DataCounts(w, s, sbn, esi, symbolSize, payload);
  }

  lemma DataCounts(w: World, s: State, sbn: u32, esi: u32, symbolSize: u32, payload: Bytes)
    requires w.Lawful() && Invariant(w, s)
    ensures var input := Data(sbn, esi, symbolSize, payload);
            var p, t := s.progress, Step(w, s, input);
            && t.progress.framesSeen == p.framesSeen + 1
            && t.progress.framesDuplicate == p.framesDuplicate + (if Useless(s, input) then 1 else 0)
            && t.progress.framesCorrupt == p.framesCorrupt + Spoilt(s, input)
            && t.progress.sessionMismatchStreak == t.streak == 0
  {
    if s.meta.None? {
      CacheFullExactly(|s.cache|, symbolSize);
    }
  }

  lemma DescriptorCounts(w: World, s: State, info: DescriptorInfo)
    requires w.Lawful() && Invariant(w, s)
    ensures var p, t := s.progress, Step(w, s, Descriptor(info));
            && t.progress.framesSeen == p.framesSeen + 1
            && t.progress.framesDuplicate == p.framesDuplicate
            && t.progress.framesCorrupt == p.framesCorrupt + Spoilt(s, Descriptor(info))
            && t.progress.sessionMismatchStreak == t.streak == 0
  {
    if s.meta.None? {
      var order := w.replayOrder(s.cache.Keys);
      assert Enumerates(order, s.cache.Keys);
      ReplayMisfits(w, info.meta, s.cache, order);
      assert MisfitsIn(info.meta, s.cache, order) == Misfits(info.meta, s.cache);
    }
  }

  function MisfitsIn(m: ObjectMeta, cache: map<Key, Bytes>, order: seq<Key>): set<Key>
    requires forall k :: k in order ==> k in cache
  {
    set k | k in order && !Belongs(m, k.sbn, k.esi, cache[k])
  }

  lemma {:induction false} ReplayMisfits(w: World, m: ObjectMeta, cache: map<Key, Bytes>, order: seq<Key>)
    requires NoRepeats(order) && forall k :: k in order ==> k in cache
    ensures ReplayAll(w.codec, m, cache, order).corrupt == |MisfitsIn(m, cache, order)|
  {
    if order != [] {
      var rest, last := order[..|order| - 1], order[|order| - 1];
      ReplayMisfits(w, m, cache, rest);
      MisfitsOneMore(m, cache, order);
    }
  }

  lemma MisfitsOneMore(m: ObjectMeta, cache: map<Key, Bytes>, order: seq<Key>)
    requires order != [] && NoRepeats(order) && forall k :: k in order ==> k in cache
    ensures var rest, last := order[..|order| - 1], order[|order| - 1];
            |MisfitsIn(m, cache, order)|
            == |MisfitsIn(m, cache, rest)| + if Belongs(m, last.sbn, last.esi, cache[last]) then 0 else 1
  {
    var rest, last := order[..|order| - 1], order[|order| - 1];
    assert order == rest + [last] && last !in rest;
    var before := MisfitsIn(m, cache, rest);
    assert MisfitsIn(m, cache, order) == if Belongs(m, last.sbn, last.esi, cache[last]) then before else before + {last};
  }

  // ----- Over the frames of one sender

  /** No descriptor was refused. */
  predicate NoneRefused(inputs: seq<Input>)
  {
    forall i :: 0 <= i < |inputs| ==> !inputs[i].BadDescriptor?
  }

  lemma BacklogOneMore(inputs: seq<Input>)
    requires inputs != []
    ensures var rest, last := inputs[..|inputs| - 1], inputs[|inputs| - 1];
            Backlog(inputs) == if HasDescriptor(rest) then Backlog(rest) else if last.Descriptor? then rest else inputs
    ensures !HasDescriptor(inputs[..|inputs| - 1]) ==> Backlog(inputs[..|inputs| - 1]) == inputs[..|inputs| - 1]
  {
    var rest, last := inputs[..|inputs| - 1], inputs[|inputs| - 1];
    assert inputs == rest + [last];
    if HasDescriptor(rest) {
      BacklogIgnoresRest(rest, [last]);
    } else {
      BacklogIsBefore(rest, []);
      assert rest + [] == rest;
      if last.Descriptor? {
        BacklogIsBefore(rest, [last]);
      } else {
        BacklogIsBefore(inputs, []);
        assert inputs + [] == inputs;
      }
    }
  }

  /** Once the layout is known, none of its sender's frames is corrupt. */
  lemma KnownSpoilsNothing(c: Content, s: State, input: Input)
    requires c.Valid() && Ready(s) && Faithful(c, s) && s.meta.Some?
    requires Genuine(c, input) && !input.BadDescriptor?
    ensures Spoilt(s, input) == 0
  {
    if input.Data? {
      SymbolHasSymbolSize(c, input.sbn, input.esi);
    }
  }

  /** While it is not, a descriptor finds no misfits. */
  lemma DescriptorSpoilsNothing(c: Content, s: State, a: seq<Input>, input: Input)
    requires c.Valid() && Ready(s) && s.meta.None? && !s.descriptorSeen && s.cache == CacheOf(a)
    requires AllGenuine(c, a) && Genuine(c, input) && input.Descriptor?
    ensures Spoilt(s, input) == 0
  {
    GenuineFits(c, a);
    CacheFills(c.Meta(), a);
    assert Misfits(c.Meta(), s.cache) == {};
  }

  /** And data is refused exactly when it carries one distinct key more than the cap. */
  lemma DataSpoilsExactly(c: Content, s: State, a: seq<Input>, input: Input)
    requires c.Valid() && Ready(s) && s.meta.None? && s.cache == CacheOf(a)
    requires AllGenuine(c, a) && Genuine(c, input) && input.Data? && BacklogKeys(c, Keys(a))
    ensures Spoilt(s, input) == if BacklogKeys(c, Keys(a) + {Key(input.sbn, input.esi)}) then 0 else 1
  {
    GenuineFits(c, a);
    AllKeysCached(c.Meta(), a);
    assert |CacheOf(a)| == |CacheOf(a).Keys|;
    CacheFullExactly(|s.cache|, input.symbolSize);
    var k := Key(input.sbn, input.esi);
    assert k in Keys(a) ==> Keys(a) + {k} == Keys(a);
  }

  /** As many distinct keys as the cap for this content's symbols admits. */
  predicate BacklogKeys(c: Content, keys: set<Key>)
  {
    |keys| <= PreMetaCacheMax(c.Meta().symbolSize)
  }

  lemma StepSpoilsExactly(w: World, c: Content, inputs: seq<Input>)
    requires w.Lawful() && w.codec == c.encoder.codec && c.Valid() && AllGenuine(c, inputs) && NoneRefused(inputs)
    requires inputs != [] && BacklogFits(c, inputs[..|inputs| - 1])
    ensures Spoilt(Run(w, Pending(c.sessionId), inputs[..|inputs| - 1]), inputs[|inputs| - 1])
         == if BacklogFits(c, inputs) then 0 else 1
  {
    var rest, last := inputs[..|inputs| - 1], inputs[|inputs| - 1];
    var s := Run(w, Pending(c.sessionId), rest);
    assert Genuine(c, last);
    BacklogOneMore(inputs);
    PendingInvariant(w, c.sessionId);
    FaithFromHere(w, c, Pending(c.sessionId), rest);
    if HasDescriptor(rest) {
      KnownSpoilsNothing(c, s, last);
    } else {
      BootstrapOnlyCaches(w, c.sessionId, rest);
      FitsOneMore(c, inputs);
      WaitingSpoilsExactly(c, s, rest, last);
    }
  }

  function NewKeys(input: Input): set<Key>
  {
    if input.Data? then {Key(input.sbn, input.esi)} else {}
  }

  lemma FitsOneMore(c: Content, inputs: seq<Input>)
    requires inputs != [] && !HasDescriptor(inputs[..|inputs| - 1])
    ensures var rest, last := inputs[..|inputs| - 1], inputs[|inputs| - 1];
            && (BacklogFits(c, rest) <==> BacklogKeys(c, Keys(rest)))
            && (BacklogFits(c, inputs) <==> BacklogKeys(c, Keys(rest) + NewKeys(last)))
  {
    BacklogOneMore(inputs);
    assert Keys(inputs[..|inputs| - 1]) + {} == Keys(inputs[..|inputs| - 1]);
  }

  lemma WaitingSpoilsExactly(c: Content, s: State, a: seq<Input>, input: Input)
    requires c.Valid() && Ready(s) && s.meta.None? && !s.descriptorSeen && s.cache == CacheOf(a)
    requires AllGenuine(c, a) && Genuine(c, input) && !input.BadDescriptor? && BacklogKeys(c, Keys(a))
    ensures Spoilt(s, input) == if BacklogKeys(c, Keys(a) + NewKeys(input)) then 0 else 1
  {
    match input
    case Descriptor(_) =>
      DescriptorSpoilsNothing(c, s, a, input);
      assert Keys(a) + {} == Keys(a);
    case Data(_, _, _, _) =>
      DataSpoilsExactly(c, s, a, input);
    case Foreign =>
      assert Keys(a) + {} == Keys(a);
  }

  /** The frames counted corrupt so far. */
  ghost function CorruptCount(w: World, sid: u128, inputs: seq<Input>): nat
    requires w.Lawful()
  {
    Run(w, Pending(sid), inputs).progress.framesCorrupt
  }

  lemma OneMoreCounted(w: World, c: Content, inputs: seq<Input>)
    requires w.Lawful() && w.codec == c.encoder.codec && c.Valid() && AllGenuine(c, inputs) && inputs != []
    ensures CorruptCount(w, c.sessionId, inputs)
         == CorruptCount(w, c.sessionId, inputs[..|inputs| - 1])
            + Spoilt(Run(w, Pending(c.sessionId), inputs[..|inputs| - 1]), inputs[|inputs| - 1])
  {
    var rest := inputs[..|inputs| - 1];
    RunStaysFaithful(w, c, rest);
    StepCounts(w, Run(w, Pending(c.sessionId), rest), inputs[|inputs| - 1]);
  }

  lemma {:induction false} CorruptExactly(w: World, c: Content, inputs: seq<Input>)
    requires w.Lawful() && w.codec == c.encoder.codec && c.Valid() && AllGenuine(c, inputs) && NoneRefused(inputs)
    ensures CorruptCount(w, c.sessionId, inputs) == 0 <==> BacklogFits(c, inputs)
    decreases |inputs|
  {
    if inputs == [] {
      assert Backlog(inputs) == [];
    } else {
      CorruptExactly(w, c, inputs[..|inputs| - 1]);
      OneMoreCounted(w, c, inputs);
      if BacklogFits(c, inputs[..|inputs| - 1]) {
        StepSpoilsExactly(w, c, inputs);
      } else if BacklogFits(c, inputs) {
        OverflowStays(c, inputs);
      }
    }
  }

  lemma OverflowStays(c: Content, inputs: seq<Input>)
    requires inputs != [] && BacklogFits(c, inputs)
    ensures BacklogFits(c, inputs[..|inputs| - 1])
  {
    BacklogOneMore(inputs);
    var rest := inputs[..|inputs| - 1];
    if Backlog(inputs) == inputs && !HasDescriptor(rest) {
      FewerMembers(Keys(rest), Keys(inputs));
    }
  }

  lemma HarmlessIsNotRefused(c: Content, b: Bytes)
    requires Accepted(c) && Harmless(c, b)
    ensures NoneRefused(HeardOne(c.sessionId, b))
  {
    if Emitted(c, b) {
      var shot :| Shootable(c, shot) && b == Frames.WireBytes(FrameOf(c, shot));
      ShotIsHeard(c, shot);
    }
  }

  lemma {:induction false} WireIsNotRefused(c: Content, wire: seq<Bytes>)
    requires Accepted(c) && AllHarmless(c, wire)
    ensures NoneRefused(Heard(c.sessionId, wire))
    decreases |wire|
  {
    if wire != [] {
      WireIsNotRefused(c, wire[..|wire| - 1]);
      HarmlessIsNotRefused(c, wire[|wire| - 1]);
    }
  }

  /** One sender's frames, in any order, repeated, dropped or mixed with foreign traffic, are never
      counted corrupt, exactly as long as those before the first descriptor carry no more distinct
      keys than the cache admits. */
  lemma OwnFramesCorruptExactly(w: World, c: Content, wire: seq<Bytes>)
    requires w.Lawful() && w.codec == c.encoder.codec && c.Valid() && Accepted(c) && AllHarmless(c, wire)
    ensures Run(w, Pending(c.sessionId), Heard(c.sessionId, wire)).progress.framesCorrupt == 0
       <==> BacklogFits(c, Heard(c.sessionId, wire))
  {
    WireIsGenuine(c, wire);
    WireIsNotRefused(c, wire);
    CorruptExactly(w, c, Heard(c.sessionId, wire));
  }
}
