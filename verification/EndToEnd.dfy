/** From a sender's frames over a lossy, reordering, duplicating channel to the payload. */
module EndToEnd {
  import opened Words
  import opened Metadata
  import opened BlockCodecs
  import opened Decoders
  import opened Encoders
  import opened SourcePlans
  import opened Senders
  import Emissions
  import opened ReceiverStates
  import opened ReceiverInvariants
  import opened LateJoin
  import Receivers
  import Descriptors
  import Frames

  // ----- What a receiver makes of the bytes a camera hands it

  /** Bytes that do not parse never reach the session. */
  function HeardOne(sid: u128, b: Bytes): seq<Input>
  {
    match Frames.FromBytes(b)
    case Err(_) => []
    case Ok(f) => [Receivers.Classify(sid, f)]
  }

  function Heard(sid: u128, wire: seq<Bytes>): seq<Input>
  {
    if wire == [] then [] else Heard(sid, wire[..|wire| - 1]) + HeardOne(sid, wire[|wire| - 1])
  }

  /** The receiver's gates let this content's descriptor through. */
  predicate Accepted(c: Content)
  {
    ValidMeta(c.Meta()) && Receivers.FileMetaOk(c.Announced())
  }

  /** What a receiver of this session makes of one of its frames. */
  ghost function InputOf(c: Content, shot: Shot): Input
    requires Shootable(c, shot)
  {
    match shot
    case DescriptorShot(_, _) => if Accepted(c) then Descriptor(c.Announced()) else BadDescriptor
    case DataShot(id, _, _) =>
      Data(id.sbn, id.esi, c.Meta().symbolSize, c.encoder.Packet(id.sbn, id.esi))
  }

  lemma SymbolHasSymbolSize(c: Content, sbn: nat, esi: nat)
    requires c.Valid() && sbn < |c.encoder.source|
    ensures |c.encoder.Packet(sbn, esi)| == c.Meta().symbolSize
  {
    assert c.encoder.source[sbn].Whole(c.Meta().symbolSize);
  }

  lemma DataShotIsHeard(c: Content, shot: Shot)
    requires Shootable(c, shot) && shot.DataShot?
    ensures HeardOne(c.sessionId, Frames.WireBytes(FrameOf(c, shot))) == [InputOf(c, shot)]
  {
    SymbolHasSymbolSize(c, shot.id.sbn, shot.id.esi);
    Frames.ParseOfWireBytes(FrameOf(c, shot));
  }

  lemma DescriptorShotIsHeard(c: Content, shot: Shot)
    requires Shootable(c, shot) && shot.DescriptorShot?
    ensures HeardOne(c.sessionId, Frames.WireBytes(FrameOf(c, shot))) == [InputOf(c, shot)]
  {
    var f := FrameOf(c, shot);
    DescriptorIsClassified(c, f);
    Descriptors.BuildSucceedsExactly(c.Meta(), c.fileMeta, c.segment);
    Frames.ParseOfWireBytes(f);
  }

  lemma DescriptorIsClassified(c: Content, f: Frames.Frame)
    requires c.Valid() && f.header.sessionId == c.sessionId && f.header.flags == Frames.FLAG_DESCRIPTOR
    requires f.payload == Descriptors.BuildPayload(c.Meta(), c.fileMeta, c.segment).value
    requires f.header.symbolSize == c.Meta().symbolSize && f.header.totalBlocks == |c.Blocks()|
    requires f.header.totalSymbols == TotalK(c.Blocks())
    ensures Receivers.Classify(c.sessionId, f) == if Accepted(c) then Descriptor(c.Announced()) else BadDescriptor
  {
    Descriptors.BuiltParsesBack(c.Meta(), c.fileMeta, c.segment);
    AnnouncedIsAcceptable(c, f.header);
  }

  lemma AnnouncedIsAcceptable(c: Content, h: Frames.FrameHeader)
    requires c.Valid() && h.sessionId == c.sessionId && h.symbolSize == c.Meta().symbolSize
    requires h.totalBlocks == |c.Blocks()| && h.totalSymbols == TotalK(c.Blocks())
    ensures Receivers.Acceptable(h, c.Announced()) <==> Accepted(c)
  {
  }

  lemma ShotIsHeard(c: Content, shot: Shot)
    requires Shootable(c, shot)
    ensures HeardOne(c.sessionId, Frames.WireBytes(FrameOf(c, shot))) == [InputOf(c, shot)]
  {
    if shot.DataShot? {
      DataShotIsHeard(c, shot);
    } else {
      DescriptorShotIsHeard(c, shot);
    }
  }

  // ----- What may be on the wire

  /** A frame of this session as emitted. */
  ghost predicate Emitted(c: Content, b: Bytes)
  {
    exists shot :: Shootable(c, shot) && b == Frames.WireBytes(FrameOf(c, shot))
  }

  /** A frame of this session, another session's frame, or bytes that do not parse. */
  ghost predicate Harmless(c: Content, b: Bytes)
  {
    || Frames.FromBytes(b).Err?
    || Frames.FromBytes(b).value.header.sessionId != c.sessionId
    || Emitted(c, b)
  }

  ghost predicate AllHarmless(c: Content, wire: seq<Bytes>)
  {
    forall i :: 0 <= i < |wire| ==> Harmless(c, wire[i])
  }

  /** A frame damaged within four consecutive bytes is harmless. */
  lemma DamageIsHarmless(c: Content, shot: Shot, b: Bytes, p: nat)
    requires Shootable(c, shot)
    requires Frames.DifferWithin(Frames.WireBytes(FrameOf(c, shot)), b, p)
    ensures Harmless(c, b)
  {
    var x := Frames.WireBytes(FrameOf(c, shot));
    ShotIsHeard(c, shot);
    if b != x {
      Frames.BurstIsCaught(x, b, p);
    }
  }

  /** Inputs this content can give rise to. */
  ghost predicate Genuine(c: Content, input: Input)
  {
    match input
    case Foreign => true
    case BadDescriptor => true
    case Descriptor(info) => Accepted(c) && info == c.Announced()
    case Data(sbn, esi, symbolSize, payload) =>
      && sbn < |c.encoder.source| && esi < ESI_LIMIT && symbolSize == c.Meta().symbolSize
      && payload == c.encoder.Packet(sbn, esi)
  }

  ghost predicate AllGenuine(c: Content, inputs: seq<Input>)
  {
    forall i :: 0 <= i < |inputs| ==> Genuine(c, inputs[i])
  }

  lemma ShotIsGenuine(c: Content, shot: Shot)
    requires Shootable(c, shot)
    ensures Genuine(c, InputOf(c, shot))
  {
  }

  lemma EmittedIsGenuine(c: Content, b: Bytes)
    requires Emitted(c, b)
    ensures AllGenuine(c, HeardOne(c.sessionId, b))
  {
    var shot :| Shootable(c, shot) && b == Frames.WireBytes(FrameOf(c, shot));
    ShotIsHeard(c, shot);
    ShotIsGenuine(c, shot);
  }

  lemma HarmlessIsGenuine(c: Content, b: Bytes)
    requires Harmless(c, b)
    ensures AllGenuine(c, HeardOne(c.sessionId, b))
  {
    if Emitted(c, b) {
      EmittedIsGenuine(c, b);
    }
  }

  lemma {:induction false} WireIsGenuine(c: Content, wire: seq<Bytes>)
    requires AllHarmless(c, wire)
    ensures AllGenuine(c, Heard(c.sessionId, wire))
  {
    if wire != [] {
      WireIsGenuine(c, wire[..|wire| - 1]);
      HarmlessIsGenuine(c, wire[|wire| - 1]);
    }
  }

  // ----- Safety: a complete receiver holds the sender's object

  ghost predicate GenuineCache(c: Content, cache: map<Key, Bytes>)
  {
    forall k :: k in cache ==>
      && k.sbn < |c.encoder.source|
      && cache[k] == c.encoder.Packet(k.sbn, k.esi)
  }

  ghost predicate GenuineBook(c: Content, b: Book)
  {
    && |b.blocks| == |c.encoder.source|
    && forall i :: 0 <= i < |b.blocks| ==> c.encoder.codec.Genuine(c.Meta().otiBytes, c.encoder.source[i], b.blocks[i].held)
  }

  /** Everything taken in is the sender's. */
  ghost predicate Faithful(c: Content, s: State)
  {
    && FilesAre(s, if s.descriptorSeen then c.Announced().fileMeta else NO_FILE_META,
                if s.descriptorSeen then c.segment else None)
    && match s.meta
       case None => !s.descriptorSeen && GenuineCache(c, s.cache)
       case Some(m) => m == c.Meta() && GenuineBook(c, s.book)
  }

  predicate FilesAre(s: State, fm: FileMeta, segment: Option<SegmentMeta>)
  {
    s.fileMeta == fm && s.segmentMeta == segment
  }

  lemma AcceptStaysGenuine(c: Content, b: Book, i: nat, esi: nat, data: Bytes)
    requires SameShape(c.Meta(), b) && GenuineBook(c, b) && i < |c.encoder.source|
    requires data == c.encoder.Packet(i, esi)
    ensures GenuineBook(c, Accept(c.encoder.codec, c.Meta(), b, i, esi, data))
  {
  }

  lemma {:induction false} ReplayStaysGenuine(c: Content, cache: map<Key, Bytes>, order: seq<Key>)
    requires c.Valid() && GenuineCache(c, cache) && forall k :: k in order ==> k in cache
    ensures GenuineBook(c, ReplayAll(c.encoder.codec, c.Meta(), cache, order).book)
  {
    if order != [] {
      var rest, last := order[..|order| - 1], order[|order| - 1];
      ReplayStaysGenuine(c, cache, rest);
      if Fits(c.Meta(), last, cache[last]) {
        AcceptStaysGenuine(c, ReplayAll(c.encoder.codec, c.Meta(), cache, rest).book, last.sbn, last.esi, cache[last]);
      }
    }
  }

  lemma DescriptorStaysFaithful(w: World, c: Content, t: State, info: DescriptorInfo)
    requires w.Lawful() && w.codec == c.encoder.codec && c.Valid()
    requires Ready(t) && t.metaConfirmed == t.meta.Some? && Faithful(c, t) && info == c.Announced()
    ensures Faithful(c, TakeDescriptor(w, t, info))
  {
    if t.meta.None? {
      var order := w.replayOrder(t.cache.Keys);
      assert Enumerates(order, t.cache.Keys);
      ReplayStaysGenuine(c, t.cache, order);
    }
  }

  lemma DataStaysFaithful(c: Content, t: State, key: Key, payload: Bytes)
    requires c.Valid() && Ready(t) && Faithful(c, t) && t.meta.Some? && key.sbn < |c.encoder.source|
    requires payload == c.encoder.Packet(key.sbn, key.esi)
    ensures Faithful(c, TakeData(c.encoder.codec, t, t.meta.value, key, payload))
  {
    if Fits(c.Meta(), key, payload) {
      AcceptStaysGenuine(c, t.book, key.sbn, key.esi, payload);
    }
  }

  lemma StepStaysFaithful(w: World, c: Content, s: State, input: Input)
    requires w.Lawful() && w.codec == c.encoder.codec && c.Valid()
    requires Ready(s) && s.metaConfirmed == s.meta.Some? && Faithful(c, s) && Genuine(c, input)
    ensures Faithful(c, Step(w, s, input))
  {
    if input.Foreign? {
      OnlyBookMatters(c, s, Step(w, s, input));
    } else {
      OnlyBookMatters(c, s, Seen(s));
      OwnStaysFaithful(w, c, Seen(s), input);
    }
  }

  /** What the session counts has no part in it. */
  lemma OnlyBookMatters(c: Content, s: State, t: State)
    requires Faithful(c, s) && t == s.(streak := t.streak, progress := t.progress)
    ensures Faithful(c, t)
  {
  }

  lemma OwnStaysFaithful(w: World, c: Content, t: State, input: Input)
    requires w.Lawful() && w.codec == c.encoder.codec && c.Valid()
    requires Ready(t) && t.metaConfirmed == t.meta.Some? && Faithful(c, t) && Genuine(c, input) && !input.Foreign?
    ensures Faithful(c, StepOwn(w, t, input))
  {
    if input.Descriptor? {
      DescriptorStaysFaithful(w, c, t, input.info);
    } else if input.Data? && t.meta.Some? {
      DataStaysFaithful(c, t, Key(input.sbn, input.esi), input.payload);
    }
  }

  ghost predicate HasDescriptor(inputs: seq<Input>)
  {
    exists i :: 0 <= i < |inputs| && inputs[i].Descriptor?
  }

  lemma GenuineIsAdmissible(c: Content, inputs: seq<Input>)
    requires AllGenuine(c, inputs)
    ensures AllAdmissible(inputs)
  {
    forall i | 0 <= i < |inputs|
      ensures Admissible(inputs[i])
    {
      assert Genuine(c, inputs[i]);
    }
  }

  lemma StepSees(w: World, c: Content, s: State, input: Input)
    requires w.Lawful() && Invariant(w, s) && Faithful(c, s) && Genuine(c, input)
    ensures Step(w, s, input).descriptorSeen <==> s.descriptorSeen || input.Descriptor?
    ensures Step(w, s, input).meta.Some? <==> s.meta.Some? || input.Descriptor?
  {
    if input.Descriptor? {
      DescriptorIsTaken(w, Seen(s), input.info);
    } else {
      OthersSeeNothing(w, s, input);
    }
  }

  /** A descriptor of the layout already known, or of the first one, is never a conflict. */
  lemma DescriptorIsTaken(w: World, t: State, info: DescriptorInfo)
    requires w.Lawful() && Shaped(t) && (t.meta.None? || t.meta == Some(info.meta)) && (t.descriptorSeen ==> t.meta.Some?)
    ensures TakeDescriptor(w, t, info).descriptorSeen && TakeDescriptor(w, t, info).meta.Some?
  {
  }

  lemma OthersSeeNothing(w: World, s: State, input: Input)
    requires w.Lawful() && Ready(s) && !input.Descriptor?
    ensures Step(w, s, input).descriptorSeen == s.descriptorSeen && Step(w, s, input).meta == s.meta
  {
  }

  /** From any consistent, faithful state on. */
  lemma {:induction false} FaithFromHere(w: World, c: Content, s: State, inputs: seq<Input>)
    requires w.Lawful() && w.codec == c.encoder.codec && c.Valid() && AllGenuine(c, inputs)
    requires Invariant(w, s) && Faithful(c, s)
    ensures var t := Run(w, s, inputs);
            && AllAdmissible(inputs) && Faithful(c, t) && Invariant(w, t)
            && (t.descriptorSeen <==> s.descriptorSeen || HasDescriptor(inputs))
            && (t.meta.Some? <==> s.meta.Some? || HasDescriptor(inputs))
    decreases |inputs|
  {
    GenuineIsAdmissible(c, inputs);
    RunKeepsInvariant(w, s, inputs);
    if inputs != [] {
      var rest, last := inputs[..|inputs| - 1], inputs[|inputs| - 1];
      FaithFromHere(w, c, s, rest);
      StepStaysFaithful(w, c, Run(w, s, rest), last);
      StepSees(w, c, Run(w, s, rest), last);
      LastDescriptor(inputs);
    }
  }

  lemma LastDescriptor(inputs: seq<Input>)
    requires inputs != []
    ensures HasDescriptor(inputs) <==> HasDescriptor(inputs[..|inputs| - 1]) || inputs[|inputs| - 1].Descriptor?
  {
    var rest := inputs[..|inputs| - 1];
    if HasDescriptor(rest) {
      var i :| 0 <= i < |rest| && rest[i].Descriptor?;
      assert inputs[i] == rest[i];
    }
    if HasDescriptor(inputs) {
      var i :| 0 <= i < |inputs| && inputs[i].Descriptor?;
      assert i < |rest| ==> rest[i] == inputs[i];
    }
  }

  lemma RunStaysFaithful(w: World, c: Content, inputs: seq<Input>)
    requires w.Lawful() && w.codec == c.encoder.codec && c.Valid() && AllGenuine(c, inputs)
    ensures var s := Run(w, Pending(c.sessionId), inputs);
            AllAdmissible(inputs) && Faithful(c, s) && Invariant(w, s) && (s.meta.Some? ==> s.descriptorSeen)
  {
    PendingInvariant(w, c.sessionId);
    FaithFromHere(w, c, Pending(c.sessionId), inputs);
  }

  lemma BlockIsRecovered(w: World, c: Content, s: State, i: nat)
    requires c.Valid() && w.codec == c.encoder.codec && s.meta == Some(c.Meta())
    requires BookOk(w.codec, c.Meta(), s.book) && GenuineBook(c, s.book) && i < |s.book.blocks|
    requires s.book.blocks[i].decoded.Some?
    ensures s.book.blocks[i].decoded.value == c.encoder.source[i].bytes
  {
    var k := c.Blocks()[i].numSourceSymbols;
    assert EntryOk(w.codec, c.Meta().otiBytes, k, s.book.blocks[i], s.book.received[i], s.book.sourceRecv[i]);
    assert k == c.encoder.source[i].k && c.encoder.source[i].Whole(c.Meta().symbolSize);
  }

  lemma {:induction false} JoinedIsSource(blocks: seq<BlockState>, source: seq<SourceBlock>, n: nat)
    requires n <= |blocks| == |source| && AllDecoded(blocks)
    requires forall i :: 0 <= i < n ==> blocks[i].decoded.value == source[i].bytes
    ensures Joined(blocks, n) == BytesOf(source, n)
  {
    if n > 0 {
      JoinedIsSource(blocks, source, n - 1);
    }
  }

  /** A complete, faithful session assembles the padded object. */
  lemma CompleteMeansObject(w: World, c: Content, s: State)
    requires c.Valid() && w.codec == c.encoder.codec && Invariant(w, s) && Faithful(c, s) && IsComplete(s)
    ensures Assembled(c.Meta(), s.book.blocks) == Some(BytesOf(c.encoder.source, |c.encoder.source|))
    ensures s.meta == Some(c.Meta())
  {
    forall i | 0 <= i < |s.book.blocks|
      ensures s.book.blocks[i].decoded.value == c.encoder.source[i].bytes
    {
      BlockIsRecovered(w, c, s, i);
    }
    JoinedIsObject(c, s.book.blocks);
  }

  lemma JoinedIsObject(c: Content, blocks: seq<BlockState>)
    requires c.Valid() && |blocks| == |c.encoder.source| && AllDecoded(blocks)
    requires forall i :: 0 <= i < |blocks| ==> blocks[i].decoded.value == c.encoder.source[i].bytes
    ensures Assembled(c.Meta(), blocks) == Some(BytesOf(c.encoder.source, |c.encoder.source|))
  {
    JoinedIsSource(blocks, c.encoder.source, |blocks|);
    var all := BytesOf(c.encoder.source, |c.encoder.source|);
    assert all[..|all|] == all;
  }

  /** The content transmits exactly this payload. */
  ghost predicate Carries(c: Content, payload: Bytes)
  {
    && c.Valid()
    && c.fileMeta.compressedSize == |payload|
    && BytesOf(c.encoder.source, |c.encoder.source|) == Padded(payload, c.Meta().symbolSize)
  }

  /** End-to-end safety: whatever of the session's frames arrive, in any order, repeated,
      dropped, damaged or mixed with other sessions, a receiver that reports completion hands
      out what unpacking the sender's payload gives, and nothing else. */
  lemma CompleteMeansPayload(w: World, c: Content, payload: Bytes, wire: seq<Bytes>)
    requires w.Lawful() && w.codec == c.encoder.codec && Carries(c, payload) && AllHarmless(c, wire)
    ensures var s := Run(w, Pending(c.sessionId), Heard(c.sessionId, wire));
            IsComplete(s) ==> AssembleResult(w, s) == Unpack(w, payload, c.Announced().fileMeta)
  {
    WireIsGenuine(c, wire);
    FaithfulResult(w, c, Heard(c.sessionId, wire));
    PaddingIsTight(payload, c.Meta().symbolSize);
  }

  /** For an uncompressed payload: the payload itself. */
  lemma UncompressedSafety(w: World, c: Content, payload: Bytes, wire: seq<Bytes>)
    requires w.Lawful() && w.codec == c.encoder.codec && Carries(c, payload) && AllHarmless(c, wire)
    requires c.fileMeta.compression == COMPRESSION_NONE
    ensures var s := Run(w, Pending(c.sessionId), Heard(c.sessionId, wire));
            AssembleResult(w, s) == if IsComplete(s) then Ok(Some(payload)) else Ok(None)
  {
    CompleteMeansPayload(w, c, payload, wire);
  }

  /** What a faithful session answers depends on nothing but its completeness. */
  lemma FaithfulResult(w: World, c: Content, inputs: seq<Input>)
    requires w.Lawful() && w.codec == c.encoder.codec && c.Valid() && AllGenuine(c, inputs)
    ensures var s := Run(w, Pending(c.sessionId), inputs);
            var all := BytesOf(c.encoder.source, |c.encoder.source|);
            var fm := c.Announced().fileMeta;
            AssembleResult(w, s)
            == if !IsComplete(s) then Ok(None)
               else if fm.compressedSize > |all| then Err(ClaimsMoreThanRecovered(fm.compressedSize, |all|))
               else Unpack(w, all[..fm.compressedSize], fm)
  {
    RunStaysFaithful(w, c, inputs);
    var s := Run(w, Pending(c.sessionId), inputs);
    if IsComplete(s) {
      CompleteMeansObject(w, c, s);
    }
  }

  lemma AlikeResults(w: World, c: Content, x: seq<Input>, y: seq<Input>)
    requires w.Lawful() && w.codec == c.encoder.codec && c.Valid() && AllGenuine(c, x) && AllGenuine(c, y)
    requires EndAlike(Run(w, Pending(c.sessionId), x), Run(w, Pending(c.sessionId), y))
    ensures AssembleResult(w, Run(w, Pending(c.sessionId), x)) == AssembleResult(w, Run(w, Pending(c.sessionId), y))
  {
    FaithfulResult(w, c, x);
    FaithfulResult(w, c, y);
  }

  /** Joining late changes nothing in the bytes either: with one sender's frames, data before
      the descriptor and data after it assemble to the same answer, as long as the cache had room
      for their distinct keys or what it refused came again. */
  lemma LateJoinAssemblesAlike(w: World, c: Content, a: seq<Input>, b: seq<Input>)
    requires w.Lawful() && w.codec == c.encoder.codec && c.Valid() && Accepted(c)
    requires AllGenuine(c, a) && AllGenuine(c, b) && NoDescriptor(a)
    requires |Keys(a)| <= PreMetaCacheMax(c.Meta().symbolSize) || MadeGood(c.Meta(), a, b)
    ensures AssembleResult(w, Run(w, Pending(c.sessionId), a + [Descriptor(c.Announced())] + b))
         == AssembleResult(w, Run(w, Pending(c.sessionId), [Descriptor(c.Announced())] + a + b))
  {
    var d := Descriptor(c.Announced());
    RunStaysFaithful(w, c, b);
    GenuineFits(c, a);
    LosslessExactlyWithinCap(c.Meta(), a);
    LateJoinExactly(w, c.sessionId, a, c.Announced(), b);
    GenuineJoin(c, a, d, b);
    AlikeResults(w, c, a + [d] + b, [d] + a + b);
  }

  lemma GenuineJoin(c: Content, a: seq<Input>, d: Input, b: seq<Input>)
    requires AllGenuine(c, a) && Genuine(c, d) && AllGenuine(c, b)
    ensures AllGenuine(c, a + [d] + b) && AllGenuine(c, [d] + a + b)
  {
  }

  // ----- Completion

  /** What comes before the first descriptor. */
  function Backlog(inputs: seq<Input>): seq<Input>
  {
    if inputs == [] || inputs[0].Descriptor? then [] else [inputs[0]] + Backlog(inputs[1..])
  }

  lemma {:induction false} BacklogIsBefore(a: seq<Input>, rest: seq<Input>)
    requires NoDescriptor(a) && (rest == [] || rest[0].Descriptor?)
    ensures Backlog(a + rest) == a && (rest != [] ==> HasDescriptor(a + rest))
    decreases |a|
  {
    if a == [] {
      assert a + rest == rest;
    } else {
      BacklogIsBefore(a[1..], rest);
      assert a + rest == [a[0]] + (a[1..] + rest);
      assert (a + rest)[1..] == a[1..] + rest;
    }
    if rest != [] {
      assert (a + rest)[|a|].Descriptor?;
    }
  }

  lemma {:induction false} BacklogIgnoresRest(a: seq<Input>, b: seq<Input>)
    requires HasDescriptor(a)
    ensures Backlog(a + b) == Backlog(a) && HasDescriptor(a + b)
    decreases |a|
  {
    var i :| 0 <= i < |a| && a[i].Descriptor?;
    assert (a + b)[i] == a[i];
    if !a[0].Descriptor? {
      assert a[1..][i - 1] == a[i];
      BacklogIgnoresRest(a[1..], b);
      assert (a + b)[1..] == a[1..] + b;
    }
  }

  lemma {:induction false} FirstDescriptor(inputs: seq<Input>) returns (a: seq<Input>, d: Input, b: seq<Input>)
    requires HasDescriptor(inputs)
    ensures d.Descriptor? && inputs == a + [d] + b && NoDescriptor(a) && a == Backlog(inputs)
    decreases |inputs|
  {
    if inputs[0].Descriptor? {
      a, d, b := [], inputs[0], inputs[1..];
    } else {
      var rest := inputs[1..];
      var i :| 0 <= i < |inputs| && inputs[i].Descriptor?;
      assert rest[i - 1] == inputs[i];
      a, d, b := FirstDescriptor(rest);
      a := [inputs[0]] + a;
      assert inputs == [inputs[0]] + rest;
    }
  }

  lemma GenuineFits(c: Content, inputs: seq<Input>)
    requires c.Valid() && AllGenuine(c, inputs)
    ensures AllFit(c.Meta(), inputs)
  {
    forall j | 0 <= j < |inputs| && inputs[j].Data?
      ensures inputs[j].symbolSize == c.Meta().symbolSize
           && Fits(c.Meta(), Key(inputs[j].sbn, inputs[j].esi), inputs[j].payload)
    {
      assert Genuine(c, inputs[j]);
      SymbolHasSymbolSize(c, inputs[j].sbn, inputs[j].esi);
    }
  }

  /** The frames before the first descriptor carry no more distinct keys than the cache admits. */
  predicate BacklogFits(c: Content, inputs: seq<Input>)
  {
    |Keys(Backlog(inputs))| <= PreMetaCacheMax(c.Meta().symbolSize)
  }

  /** Every block can be solved from the ids in `inputs`. */
  ghost predicate Enough(c: Content, inputs: seq<Input>)
  {
    forall i :: 0 <= i < |c.Blocks()| ==>
      c.encoder.codec.sufficient(c.Blocks()[i].numSourceSymbols, Delivered(c.Meta(), inputs, i))
  }

  lemma InHandIsDelivered(m: ObjectMeta, a: seq<Input>, d: Input, b: seq<Input>, inputs: seq<Input>, i: nat)
    requires inputs == a + [d] + b && d.Descriptor? && i < |m.blocks| && Lossless(m, a)
    ensures InHand(m, a, b, i) == Delivered(m, inputs, i)
  {
    DeliveredAppend(m, a + [d], b, i);
    DeliveredAppend(m, a, [d], i);
    assert [d][..0] == [];
    assert Delivered(m, [d], i) == {};
  }

  lemma HandSufficesWhenEnough(c: Content, a: seq<Input>, d: Input, b: seq<Input>, inputs: seq<Input>)
    requires inputs == a + [d] + b && d.Descriptor? && Lossless(c.Meta(), a)
    ensures HandSuffices(c, a, b) <==> Enough(c, inputs)
  {
    forall i | 0 <= i < |c.Blocks()|
      ensures InHand(c.Meta(), a, b, i) == Delivered(c.Meta(), inputs, i)
    {
      InHandIsDelivered(c.Meta(), a, d, b, inputs, i);
    }
  }

  lemma PartsAreGenuine(c: Content, a: seq<Input>, d: Input, b: seq<Input>, inputs: seq<Input>)
    requires AllGenuine(c, inputs) && inputs == a + [d] + b
    ensures Genuine(c, d) && AllGenuine(c, b) && AllAdmissible(b)
  {
    assert inputs[|a|] == d && Genuine(c, inputs[|a|]);
    forall i | 0 <= i < |b|
      ensures Genuine(c, b[i]) && Admissible(b[i])
    {
      assert inputs[|a| + 1 + i] == b[i] && Genuine(c, inputs[|a| + 1 + i]);
    }
  }

  /** The ids in hand decide. */
  ghost predicate HandSuffices(c: Content, a: seq<Input>, b: seq<Input>)
  {
    forall i :: 0 <= i < |c.Blocks()| ==>
      c.encoder.codec.sufficient(c.Blocks()[i].numSourceSymbols, InHand(c.Meta(), a, b, i))
  }

  lemma HandDecides(w: World, c: Content, a: seq<Input>, d: Input, b: seq<Input>, inputs: seq<Input>)
    requires w.Lawful() && w.codec == c.encoder.codec && AllGenuine(c, inputs)
    requires inputs == a + [d] + b && d.Descriptor? && NoDescriptor(a)
    ensures IsComplete(Run(w, Pending(c.sessionId), inputs)) <==> HandSuffices(c, a, b)
  {
    PartsAreGenuine(c, a, d, b, inputs);
    OutcomeAfterDescriptor(w, c.sessionId, a, d.info, b, inputs);
    CompleteWhenAllSolved(w.codec, c.Meta(), Run(w, Pending(c.sessionId), inputs), AllInHand(c.Meta(), a, b));
    assert forall i :: 0 <= i < |c.Blocks()| ==> AllInHand(c.Meta(), a, b)[i] == InHand(c.Meta(), a, b, i);
  }

  lemma CompleteWhenAllSolved(codec: BlockCodec, m: ObjectMeta, s: State, got: seq<set<nat>>)
    requires OutcomeOf(codec, m, s, got)
    ensures IsComplete(s) <==>
            forall i :: 0 <= i < |m.blocks| ==> codec.sufficient(m.blocks[i].numSourceSymbols, got[i])
  {
  }

  /** Completion is exact: once a descriptor has been heard, the receiver is complete precisely
      when the ids its cache kept of the backlog and those that came after suffice. */
  lemma CompletesByHand(w: World, c: Content, wire: seq<Bytes>)
    requires w.Lawful() && w.codec == c.encoder.codec && c.Valid() && AllHarmless(c, wire)
    requires HasDescriptor(Heard(c.sessionId, wire))
    ensures var inputs := Heard(c.sessionId, wire);
            && |Backlog(inputs)| < |inputs|
            && (IsComplete(Run(w, Pending(c.sessionId), inputs))
                <==> HandSuffices(c, Backlog(inputs), inputs[|Backlog(inputs)| + 1..]))
  {
    var inputs := Heard(c.sessionId, wire);
    WireIsGenuine(c, wire);
    var a, d, b := FirstDescriptor(inputs);
    HandDecides(w, c, a, d, b, inputs);
    assert inputs[|a| + 1..] == b;
  }

  /** And as long as the backlog carries no more distinct keys than the cache admits, precisely
      when the symbols that arrived suffice for every block, wherever the descriptor stood. */
  lemma CompletesExactly(w: World, c: Content, wire: seq<Bytes>)
    requires w.Lawful() && w.codec == c.encoder.codec && c.Valid() && AllHarmless(c, wire)
    requires HasDescriptor(Heard(c.sessionId, wire)) && BacklogFits(c, Heard(c.sessionId, wire))
    ensures IsComplete(Run(w, Pending(c.sessionId), Heard(c.sessionId, wire))) <==> Enough(c, Heard(c.sessionId, wire))
  {
    var inputs := Heard(c.sessionId, wire);
    WireIsGenuine(c, wire);
    var a, d, b := FirstDescriptor(inputs);
    HandDecides(w, c, a, d, b, inputs);
    BacklogIsLossless(c, a, d, b, inputs);
    HandSufficesWhenEnough(c, a, d, b, inputs);
  }

  lemma BacklogIsLossless(c: Content, a: seq<Input>, d: Input, b: seq<Input>, inputs: seq<Input>)
    requires c.Valid() && AllGenuine(c, inputs) && inputs == a + [d] + b
    requires |Keys(a)| <= PreMetaCacheMax(c.Meta().symbolSize)
    ensures Lossless(c.Meta(), a)
  {
    forall j | 0 <= j < |a|
      ensures Genuine(c, a[j])
    {
      assert a[j] == inputs[j];
    }
    GenuineFits(c, a);
    LosslessExactlyWithinCap(c.Meta(), a);
  }

  /** Without a descriptor a receiver is never complete. */
  lemma {:induction false} NeverCompleteWithoutDescriptor(w: World, sid: u128, inputs: seq<Input>)
    requires w.Lawful() && NoDescriptor(inputs)
    ensures !IsComplete(Run(w, Pending(sid), inputs))
  {
    BootstrapOnlyCaches(w, sid, inputs);
  }

  // ----- A camera that misses nothing

  ghost predicate AllShootable(c: Content, shots: seq<Shot>)
  {
    forall i :: 0 <= i < |shots| ==> Shootable(c, shots[i])
  }

  /** The bytes of these frames. */
  ghost function Wire(c: Content, shots: seq<Shot>): (wire: seq<Bytes>)
    requires AllShootable(c, shots)
    ensures |wire| == |shots|
    decreases |shots|
  {
    if shots == [] then []
    else Wire(c, shots[..|shots| - 1]) + [Frames.WireBytes(FrameOf(c, shots[|shots| - 1]))]
  }

  ghost function Inputs(c: Content, shots: seq<Shot>): (inputs: seq<Input>)
    requires AllShootable(c, shots)
    ensures |inputs| == |shots|
    ensures forall i :: 0 <= i < |shots| ==> inputs[i] == InputOf(c, shots[i])
    decreases |shots|
  {
    if shots == [] then [] else Inputs(c, shots[..|shots| - 1]) + [InputOf(c, shots[|shots| - 1])]
  }

  lemma HeardSnoc(sid: u128, wire: seq<Bytes>, b: Bytes)
    ensures Heard(sid, wire + [b]) == Heard(sid, wire) + HeardOne(sid, b)
  {
    assert (wire + [b])[..|wire|] == wire;
  }

  lemma OneMoreHeard(c: Content, wire: seq<Bytes>, shot: Shot)
    requires Shootable(c, shot)
    ensures var b := Frames.WireBytes(FrameOf(c, shot));
            Heard(c.sessionId, wire + [b]) == Heard(c.sessionId, wire) + [InputOf(c, shot)]
  {
    ShotIsHeard(c, shot);
    HeardSnoc(c.sessionId, wire, Frames.WireBytes(FrameOf(c, shot)));
  }

  lemma {:induction false} WireIsHeard(c: Content, shots: seq<Shot>)
    requires AllShootable(c, shots)
    ensures Heard(c.sessionId, Wire(c, shots)) == Inputs(c, shots)
    decreases |shots|
  {
    if shots != [] {
      var rest, last := shots[..|shots| - 1], shots[|shots| - 1];
      WireIsHeard(c, rest);
      OneMoreHeard(c, Wire(c, rest), last);
    }
  }

  lemma {:induction false} WireIsHarmless(c: Content, shots: seq<Shot>)
    requires AllShootable(c, shots)
    ensures AllHarmless(c, Wire(c, shots))
    decreases |shots|
  {
    if shots != [] {
      var rest, last := shots[..|shots| - 1], shots[|shots| - 1];
      WireIsHarmless(c, rest);
      ShotIsHarmless(c, last);
      HarmlessSnoc(c, Wire(c, rest), Frames.WireBytes(FrameOf(c, last)));
    }
  }

  lemma ShotIsHarmless(c: Content, shot: Shot)
    requires Shootable(c, shot)
    ensures Harmless(c, Frames.WireBytes(FrameOf(c, shot)))
  {
    assert Emitted(c, Frames.WireBytes(FrameOf(c, shot)));
  }

  lemma HarmlessSnoc(c: Content, wire: seq<Bytes>, b: Bytes)
    requires AllHarmless(c, wire) && Harmless(c, b)
    ensures AllHarmless(c, wire + [b])
  {
  }

  lemma {:induction false} RunIsShootable(c: Content, p: Position, calls: seq<Emissions.Call>)
    requires c.Valid() && Emissions.Runnable(c.Blocks(), p, calls)
    ensures AllShootable(c, Emissions.Shots(c.Blocks(), p, calls))
    decreases |calls|
  {
    if calls != [] {
      var rest, last := calls[..|calls| - 1], calls[|calls| - 1];
      RunIsShootable(c, p, rest);
      if last.Next? {
        EmissionsAreShootable(c, Emissions.After(c.Blocks(), p, rest), last.now);
      }
    }
  }

  lemma {:induction false} ShotIsDelivered(c: Content, shots: seq<Shot>, shot: Shot)
    requires AllShootable(c, shots) && shot in shots && shot.DataShot?
    ensures shot.id.esi in Delivered(c.Meta(), Inputs(c, shots), shot.id.sbn)
    decreases |shots|
  {
    var n := |shots| - 1;
    assert Inputs(c, shots)[..n] == Inputs(c, shots[..n]);
    if shots[n] == shot {
      SymbolHasSymbolSize(c, shot.id.sbn, shot.id.esi);
    } else {
      ShotIsDelivered(c, shots[..n], shot);
    }
  }

  /** Source symbols of every block are enough. */
  lemma SourceSymbolsSuffice(c: Content, inputs: seq<Input>)
    requires c.Valid()
    requires forall i: nat, e: nat :: i < |c.Blocks()| && e < c.Blocks()[i].numSourceSymbols ==>
               e in Delivered(c.Meta(), inputs, i)
    ensures Enough(c, inputs)
  {
    var codec := c.encoder.codec;
    forall i | 0 <= i < |c.Blocks()|
      ensures codec.sufficient(c.Blocks()[i].numSourceSymbols, Delivered(c.Meta(), inputs, i))
    {
      var k := c.Blocks()[i].numSourceSymbols;
      assert codec.sufficient(k, Ids(k)) && Ids(k) <= Delivered(c.Meta(), inputs, i);
    }
  }

  /** End to end without loss: a receiver that hears a session from its first frame has the
      payload by the time as many data frames have gone out as there are source symbols,
      however the descriptor interval was changed on the way. */
  lemma LosslessCaptureCompletes(w: World, c: Content, payload: Bytes, calls: seq<Emissions.Call>)
    requires w.Lawful() && w.codec == c.encoder.codec && Carries(c, payload) && Accepted(c)
    requires c.fileMeta.compression == COMPRESSION_NONE
    requires Emissions.Runnable(c.Blocks(), START, calls)
    requires Emissions.After(c.Blocks(), START, calls).data >= TotalK(c.Blocks())
    ensures AllShootable(c, Emissions.Shots(c.Blocks(), START, calls))
    ensures var wire := Wire(c, Emissions.Shots(c.Blocks(), START, calls));
            AssembleResult(w, Run(w, Pending(c.sessionId), Heard(c.sessionId, wire))) == Ok(Some(payload))
  {
    SourcePassCompletes(w, c, calls);
    UncompressedSafety(w, c, payload, Wire(c, Emissions.Shots(c.Blocks(), START, calls)));
  }

  lemma SourcePassCompletes(w: World, c: Content, calls: seq<Emissions.Call>)
    requires w.Lawful() && w.codec == c.encoder.codec && c.Valid() && Accepted(c)
    requires Emissions.Runnable(c.Blocks(), START, calls)
    requires Emissions.After(c.Blocks(), START, calls).data >= TotalK(c.Blocks())
    ensures AllShootable(c, Emissions.Shots(c.Blocks(), START, calls))
    ensures var wire := Wire(c, Emissions.Shots(c.Blocks(), START, calls));
            AllHarmless(c, wire) && IsComplete(Run(w, Pending(c.sessionId), Heard(c.sessionId, wire)))
  {
    RunIsShootable(c, START, calls);
    var shots := Emissions.Shots(c.Blocks(), START, calls);
    WireIsHeard(c, shots);
    WireIsHarmless(c, shots);
    SourcePassIsEnough(c, calls, shots);
    DescriptorLeads(c, calls, shots);
    CompletesExactly(w, c, Wire(c, shots));
  }

  lemma SourcePassIsEnough(c: Content, calls: seq<Emissions.Call>, shots: seq<Shot>)
    requires c.Valid() && Emissions.Runnable(c.Blocks(), START, calls)
    requires Emissions.After(c.Blocks(), START, calls).data >= TotalK(c.Blocks())
    requires shots == Emissions.Shots(c.Blocks(), START, calls) && AllShootable(c, shots)
    ensures Enough(c, Inputs(c, shots))
  {
    forall i: nat, e: nat | i < |c.Blocks()| && e < c.Blocks()[i].numSourceSymbols
      ensures e in Delivered(c.Meta(), Inputs(c, shots), i)
    {
      var shot := Emissions.SourcePassIsWhole(c.Blocks(), calls, SymbolId(i, e));
      ShotIsDelivered(c, shots, shot);
    }
    SourceSymbolsSuffice(c, Inputs(c, shots));
  }

  lemma DescriptorLeads(c: Content, calls: seq<Emissions.Call>, shots: seq<Shot>)
    requires c.Valid() && Accepted(c) && Emissions.Runnable(c.Blocks(), START, calls)
    requires Emissions.After(c.Blocks(), START, calls).data >= TotalK(c.Blocks())
    requires shots == Emissions.Shots(c.Blocks(), START, calls) && AllShootable(c, shots)
    ensures HasDescriptor(Inputs(c, shots)) && BacklogFits(c, Inputs(c, shots))
  {
    ValidIsCanonical(c);
    var shot := Emissions.SourcePassIsWhole(c.Blocks(), calls, SymbolId(0, 0));
    Emissions.DescriptorFirst(c.Blocks(), calls);
    var inputs := Inputs(c, shots);
    assert inputs[0] == InputOf(c, shots[0]) && inputs[0].Descriptor?;
    assert Backlog(inputs) == [];
  }
}
