/** Sessions that begin with the layout in hand, confirmed out of band or restored from a checkpoint. */
module Beginnings {
  import opened Words
  import opened Metadata
  import opened BlockCodecs
  import opened Encoders
  import opened Senders
  import opened ReceiverStates
  import opened ReceiverInvariants
  import opened LateJoin
  import opened EndToEnd
  import opened Resumes
  import opened Origins

  /** A session begun for this content: its id, its layout if any, and genuine stored symbols if any. */
  ghost predicate BegunFor(o: Origin, c: Content)
  {
    match o
    case Fresh(sid) => sid == c.sessionId
    case Confirmed(sid, m) => sid == c.sessionId && m == c.Meta()
    case Checkpoint(r) => r.sessionId == c.sessionId && r.meta == c.Meta() && StoredAreGenuine(c, r.symbols)
  }

  ghost predicate StoredAreGenuine(c: Content, symbols: seq<StoredSymbol>)
  {
    forall i :: 0 <= i < |symbols| ==>
      symbols[i].sbn < |c.encoder.source| && symbols[i].data == c.encoder.Packet(symbols[i].sbn, symbols[i].esi)
  }

  lemma {:induction false} StoredStayGenuine(c: Content, symbols: seq<StoredSymbol>)
    requires c.Valid() && StoredAreGenuine(c, symbols)
    ensures GenuineBook(c, RestoredBook(c.encoder.codec, c.Meta(), symbols))
    decreases |symbols|
  {
    if symbols != [] {
      var rest, s := symbols[..|symbols| - 1], symbols[|symbols| - 1];
      StoredStayGenuine(c, rest);
      var b := RestoredBook(c.encoder.codec, c.Meta(), rest);
      if Fits(c.Meta(), Key(s.sbn, s.esi), s.data) && s.esi !in b.received[s.sbn] {
        AcceptStaysGenuine(c, b, s.sbn, s.esi, s.data);
      }
    }
  }

  lemma BeginsFaithful(w: World, c: Content, o: Origin)
    requires w.codec == c.encoder.codec && c.Valid() && BegunFor(o, c)
    ensures Faithful(c, o.Start(w)) && !o.Start(w).descriptorSeen
  {
    if o.Checkpoint? {
      StoredStayGenuine(c, o.state.symbols);
    }
  }

  // ----- Safety

  /** What a session that began this way hands out: once complete, what unpacking the payload
      gives if it has heard a descriptor; if it has not, the object as it came, still padded and
      still compressed. */
  lemma ResultFromAnywhere(w: World, c: Content, payload: Bytes, o: Origin, wire: seq<Bytes>)
    requires w.Lawful() && w.codec == c.encoder.codec && Carries(c, payload) && AllHarmless(c, wire)
    requires o.Legal() && BegunFor(o, c)
    ensures var inputs := Heard(c.sessionId, wire);
            var s := Run(w, o.Start(w), inputs);
            AssembleResult(w, s)
            == if !IsComplete(s) then Ok(None)
               else if HasDescriptor(inputs) then Unpack(w, payload, c.Announced().fileMeta)
               else Ok(Some(Padded(payload, c.Meta().symbolSize)))
  {
    var inputs := Heard(c.sessionId, wire);
    var s := Run(w, o.Start(w), inputs);
    WireIsGenuine(c, wire);
    StartInvariant(w, o);
    BeginsFaithful(w, c, o);
    FaithFromHere(w, c, o.Start(w), inputs);
    if IsComplete(s) {
      CompleteMeansObject(w, c, s);
      PaddingIsTight(payload, c.Meta().symbolSize);
    }
  }

  /** So, for an uncompressed payload, a complete session hands out exactly the payload if and only
      if it has heard a descriptor or the payload needs no padding. */
  lemma HandsOutPayloadExactly(w: World, c: Content, payload: Bytes, o: Origin, wire: seq<Bytes>)
    requires w.Lawful() && w.codec == c.encoder.codec && Carries(c, payload) && AllHarmless(c, wire)
    requires o.Legal() && BegunFor(o, c) && c.fileMeta.compression == COMPRESSION_NONE
    requires IsComplete(Run(w, o.Start(w), Heard(c.sessionId, wire)))
    ensures AssembleResult(w, Run(w, o.Start(w), Heard(c.sessionId, wire))) == Ok(Some(payload))
       <==> HasDescriptor(Heard(c.sessionId, wire)) || |payload| % c.Meta().symbolSize == 0
  {
    ResultFromAnywhere(w, c, payload, o, wire);
    PaddingIsNone(payload, c.Meta().symbolSize);
  }

  lemma PaddingIsNone(data: Bytes, t: nat)
    requires t > 0
    ensures Padded(data, t) == data <==> |data| % t == 0
  {
    if |data| % t != 0 {
      assert |Padded(data, t)| > |data|;
    }
  }

  // ----- Completion

  /** The distinct ids stored for block `i`. */
  function StoredIds(symbols: seq<StoredSymbol>, i: nat): set<nat>
  {
    set s | s in symbols && s.sbn == i :: s.esi as nat
  }

  lemma {:induction false} RestoredHoldsStored(codec: BlockCodec, m: ObjectMeta, symbols: seq<StoredSymbol>, i: nat)
    requires i < |m.blocks|
    requires forall j :: 0 <= j < |symbols| ==> Fits(m, Key(symbols[j].sbn, symbols[j].esi), symbols[j].data)
    ensures RestoredBook(codec, m, symbols).received[i] == StoredIds(symbols, i)
    decreases |symbols|
  {
    if symbols != [] {
      var rest, s := symbols[..|symbols| - 1], symbols[|symbols| - 1];
      RestoredHoldsStored(codec, m, rest, i);
      assert symbols == rest + [s];
      assert StoredIds(symbols, i) == StoredIds(rest, i) + if s.sbn == i then {s.esi as nat} else {};
      if s.sbn < |m.blocks| {
        RestoredHoldsStored(codec, m, rest, s.sbn);
      }
    }
  }

  /** What a session with a layout holds from the start. */
  function HeldAtStart(o: Origin, i: nat): set<nat>
  {
    if o.Checkpoint? then StoredIds(o.state.symbols, i) else {}
  }

  lemma CompleteFromLayout(w: World, s: State, m: ObjectMeta, inputs: seq<Input>)
    requires w.Lawful() && Invariant(w, s) && AllAdmissible(inputs) && s.meta == Some(m)
    ensures IsComplete(Run(w, s, inputs)) <==>
            forall i :: 0 <= i < |m.blocks| ==>
              w.codec.sufficient(m.blocks[i].numSourceSymbols, s.book.received[i] + Delivered(m, inputs, i))
  {
    var base := s.book.received;
    RunFollows(w, s, m, base, inputs);
    RunKeepsInvariant(w, s, inputs);
    FollowingDetermines(w, Run(w, s, inputs), m, With(m, base, inputs));
    CompleteWhenAllSolved(w.codec, m, Run(w, s, inputs), With(m, base, inputs));
  }

  /** A session that begins with the layout needs no descriptor and loses nothing: it is complete
      if and only if the ids stored in its checkpoint and those that arrived suffice. */
  lemma CompletesFromLayout(w: World, c: Content, o: Origin, wire: seq<Bytes>)
    requires w.Lawful() && w.codec == c.encoder.codec && c.Valid() && AllHarmless(c, wire)
    requires o.Legal() && BegunFor(o, c) && !o.Fresh?
    ensures var inputs := Heard(c.sessionId, wire);
            IsComplete(Run(w, o.Start(w), inputs)) <==>
            forall i :: 0 <= i < |c.Blocks()| ==>
              w.codec.sufficient(c.Blocks()[i].numSourceSymbols, HeldAtStart(o, i) + Delivered(c.Meta(), inputs, i))
  {
    var inputs := Heard(c.sessionId, wire);
    WireIsGenuine(c, wire);
    GenuineIsAdmissible(c, inputs);
    StartInvariant(w, o);
    StartHolds(w, c, o);
    CompleteFromLayout(w, o.Start(w), c.Meta(), inputs);
  }

  lemma StartHolds(w: World, c: Content, o: Origin)
    requires o.Legal() && BegunFor(o, c) && !o.Fresh?
    ensures var s := o.Start(w);
            && s.meta == Some(c.Meta()) && |s.book.received| == |c.Blocks()|
            && forall i :: 0 <= i < |c.Blocks()| ==> s.book.received[i] == HeldAtStart(o, i)
  {
    if o.Checkpoint? {
      forall i | 0 <= i < |c.Blocks()|
        ensures o.Start(w).book.received[i] == HeldAtStart(o, i)
      {
        RestoredHoldsStored(w.codec, c.Meta(), o.state.symbols, i);
      }
    }
  }

  /** In particular a session confirmed out of band: exactly when what arrived suffices. */
  lemma ConfirmedCompletesExactly(w: World, c: Content, wire: seq<Bytes>)
    requires w.Lawful() && w.codec == c.encoder.codec && c.Valid() && AllHarmless(c, wire) && ValidMeta(c.Meta())
    ensures IsComplete(Run(w, Known(c.sessionId, c.Meta()), Heard(c.sessionId, wire)))
       <==> Enough(c, Heard(c.sessionId, wire))
  {
    var o, inputs := Confirmed(c.sessionId, c.Meta()), Heard(c.sessionId, wire);
    CompletesFromLayout(w, c, o, wire);
    forall i | 0 <= i < |c.Blocks()|
      ensures HeldAtStart(o, i) + Delivered(c.Meta(), inputs, i) == Delivered(c.Meta(), inputs, i)
    {
    }
  }
}
