/** Checkpoints: what may be restored, what restoring gives, and what a checkpoint holds. */
module Resumes {
  import opened Words
  import opened Sums
  import opened Metadata
  import opened BlockCodecs
  import opened ReceiverStates
  import opened ReceiverInvariants
  import opened Receivers

  datatype StoredSymbol = StoredSymbol(sbn: u32, esi: u32, data: Bytes)

  datatype ResumeState = ResumeState(
    sessionId: u128,
    meta: ObjectMeta,
    received: seq<set<nat>>,
    symbols: seq<StoredSymbol>)

  const MAX_SYMBOL_RECORDS: nat := 1_048_576  // twice MAX_TOTAL_SOURCE_SYMBOLS

  function Lengths(symbols: seq<StoredSymbol>): (s: seq<nat>)
    ensures |s| == |symbols|
  {
    seq(|symbols|, i requires 0 <= i < |symbols| => |symbols[i].data|)
  }

  predicate IdsInRange(ids: set<nat>)
  {
    forall e :: e in ids ==> e < ESI_LIMIT
  }

  /** What `ResumeState::validate` accepts. */
  predicate ValidResume(r: ResumeState)
  {
    && ValidMeta(r.meta)
    && |r.received| <= |r.meta.blocks|
    && Sum(Cards(r.received)) <= MAX_SYMBOL_RECORDS
    && (forall i :: 0 <= i < |r.received| ==> IdsInRange(r.received[i]))
    && |r.symbols| <= MAX_SYMBOL_RECORDS
    && (forall i :: 0 <= i < |r.symbols| ==>
         Fits(r.meta, Key(r.symbols[i].sbn, r.symbols[i].esi), r.symbols[i].data))
    && Sum(Lengths(r.symbols)) <= 2 * MAX_OBJECT_BYTES + r.meta.symbolSize * |r.meta.blocks|
  }

  method ValidateResume(r: ResumeState) returns (ok: bool)
    ensures ok == ValidResume(r)
  {
    ok := Validate(r.meta);
    if !ok || |r.received| > |r.meta.blocks| {
      return false;
    }
    ok := ClaimsInRange(r.received);
    if !ok || |r.symbols| > MAX_SYMBOL_RECORDS {
      return false;
    }
    ok := SymbolsInRange(r.meta, r.symbols);
  }

  method ClaimsInRange(received: seq<set<nat>>) returns (ok: bool)
    ensures ok == (Sum(Cards(received)) <= MAX_SYMBOL_RECORDS
                   && forall i :: 0 <= i < |received| ==> IdsInRange(received[i]))
  {
    var cards := Cards(received);
    var count := 0;
    for i := 0 to |received|
      invariant count == Sum(cards[..i]) <= MAX_SYMBOL_RECORDS
      invariant forall j :: 0 <= j < i ==> IdsInRange(received[j])
    {
      SumPrefix(cards, i);
      PrefixAtMost(cards, i + 1);
      count := count + |received[i]|;
      if count > MAX_SYMBOL_RECORDS || !IdsInRange(received[i]) {
        return false;
      }
    }
    assert cards[..|received|] == cards;
    ok := true;
  }

  method SymbolsInRange(m: ObjectMeta, symbols: seq<StoredSymbol>) returns (ok: bool)
    ensures ok == ((forall i :: 0 <= i < |symbols| ==> Fits(m, Key(symbols[i].sbn, symbols[i].esi), symbols[i].data))
                   && Sum(Lengths(symbols)) <= 2 * MAX_OBJECT_BYTES + m.symbolSize * |m.blocks|)
  {
    var lengths := Lengths(symbols);
    var maxSymbolBytes := 2 * MAX_OBJECT_BYTES + m.symbolSize * |m.blocks|;
    var symbolBytes := 0;
    for i := 0 to |symbols|
      invariant symbolBytes == Sum(lengths[..i]) <= maxSymbolBytes
      invariant forall j :: 0 <= j < i ==> Fits(m, Key(symbols[j].sbn, symbols[j].esi), symbols[j].data)
    {
      SumPrefix(lengths, i);
      PrefixAtMost(lengths, i + 1);
      var s := symbols[i];
      if s.sbn >= |m.blocks| || s.esi >= ESI_LIMIT || |s.data| != m.symbolSize {
        assert !Fits(m, Key(s.sbn, s.esi), s.data);
        return false;
      }
      symbolBytes := symbolBytes + |s.data|;
      if symbolBytes > maxSymbolBytes {
        return false;
      }
    }
    assert lengths[..|symbols|] == lengths;
    ok := true;
  }

  lemma PrefixAtMost(s: seq<nat>, n: nat)
    requires n <= |s|
    ensures Sum(s[..n]) <= Sum(s)
  {
    assert s == s[..n] + s[n..];
    SumAppend(s[..n], s[n..]);
  }

  // ----- Restoring

  /** The stored symbols, in order, into a fresh book; repeats are skipped. */
  function RestoredBook(codec: BlockCodec, m: ObjectMeta, symbols: seq<StoredSymbol>): (b: Book)
    ensures SameShape(m, b)
    decreases |symbols|
  {
    if symbols == [] then EmptyBook(m)
    else
      var b, s := RestoredBook(codec, m, symbols[..|symbols| - 1]), symbols[|symbols| - 1];
      if Fits(m, Key(s.sbn, s.esi), s.data) && s.esi !in b.received[s.sbn]
      then Accept(codec, m, b, s.sbn, s.esi, s.data) else b
  }

  function Restored(w: World, r: ResumeState): (s: State)
    ensures Ready(s)
  {
    var b := RestoredBook(w.codec, r.meta, r.symbols);
    var s := Known(r.sessionId, r.meta);
    s.(book := b, progress := Refreshed(s.progress.(receivedSymbols := Sum(Cards(b.received))), r.meta, b))
  }

  method Restore(world: World, r: ResumeState) returns (session: Result<ReceiverSession, ReceiveError>)
    requires world.Lawful()
    ensures session.Ok? <==> ValidResume(r)
    ensures session.Ok? ==>
      fresh(session.value) && session.value.world == world && session.value.Valid()
      && session.value.View() == Restored(world, r)
    ensures session.Err? ==> session.error == InvalidResume
  {
    var ok := ValidateResume(r);
    if !ok {
      return Err(InvalidResume);
    }
    var confirmed := ReceiverSession.NewConfirmed(world, r.sessionId, r.meta);
    var rx := confirmed.value;
    ReplayStored(rx, r.symbols);
    Recount(rx);
    return Ok(rx);
  }

  method Recount(rx: ReceiverSession)
    requires rx.Valid() && rx.meta.Some?
    modifies rx`progress
    ensures rx.Valid() && rx.View() == Recounted(old(rx.View()))
  {
    rx.progress := rx.progress.(receivedSymbols := Sum(Cards(rx.received)));
    rx.RefreshDecodedCounts();
  }

  /** With every gauge counted again from the symbols held. */
  ghost function Recounted(s: State): State
    requires s.meta.Some? && SameShape(s.meta.value, s.book)
  {
    s.(progress := Refreshed(s.progress.(receivedSymbols := Sum(Cards(s.book.received))), s.meta.value, s.book))
  }

  method ReplayStored(rx: ReceiverSession, symbols: seq<StoredSymbol>)
    requires rx.Valid() && rx.meta.Some? && rx.Holdings() == EmptyBook(rx.meta.value)
    modifies rx`received, rx`sourceRecv, rx.decoder
    ensures rx.Valid() && rx.View() == old(rx.View()).(book := RestoredBook(rx.world.codec, rx.meta.value, symbols))
  {
    var m := rx.meta.value;
    assert symbols[..0] == [];
    for i := 0 to |symbols|
      invariant rx.Valid() && rx.Holdings() == RestoredBook(rx.world.codec, m, symbols[..i])
    {
      var s := symbols[i];
      var key := Key(s.sbn, s.esi);
      assert symbols[..i + 1][..i] == symbols[..i] && symbols[..i + 1][i] == s;
      if Fits(m, key, s.data) && s.esi !in rx.received[s.sbn] {
        rx.TakeIn(key, s.data);
      }
    }
    assert symbols[..|symbols|] == symbols;
  }

  /** A restored session is as consistent as a live one. */
  lemma {:induction false} RestoredBookOk(codec: BlockCodec, m: ObjectMeta, symbols: seq<StoredSymbol>)
    ensures BookOk(codec, m, RestoredBook(codec, m, symbols))
    decreases |symbols|
  {
    if symbols == [] {
      EmptyBookOk(codec, m);
    } else {
      var rest, s := symbols[..|symbols| - 1], symbols[|symbols| - 1];
      RestoredBookOk(codec, m, rest);
      var b := RestoredBook(codec, m, rest);
      if Fits(m, Key(s.sbn, s.esi), s.data) && s.esi !in b.received[s.sbn] {
        AcceptKeepsBook(codec, m, b, s.sbn, s.esi, s.data);
      }
    }
  }

  lemma RestoredInvariant(w: World, r: ResumeState)
    requires ValidResume(r)
    ensures Invariant(w, Restored(w, r))
  {
    RestoredBookOk(w.codec, r.meta, r.symbols);
  }

  // ----- Saving

  function Stored(cache: map<Key, Bytes>, order: seq<Key>): seq<StoredSymbol>
    requires forall k :: k in order ==> k in cache
  {
    seq(|order|, i requires 0 <= i < |order| => StoredSymbol(order[i].sbn, order[i].esi, cache[order[i]]))
  }

  /** Ids of block `i` among stored symbols. */
  function StoredIds(symbols: seq<StoredSymbol>, i: nat): set<nat>
  {
    set s | s in symbols && s.sbn == i :: s.esi as nat
  }

  /** `save_state`: nothing until the layout is known, then the cached symbols. */
  ghost function Saved(w: World, s: State): Option<ResumeState>
    requires w.Lawful()
  {
    match s.meta
    case None => None
    case Some(m) =>
      var order := w.replayOrder(s.cache.Keys);
      assert Enumerates(order, s.cache.Keys);
      var symbols := Stored(s.cache, order);
      Some(ResumeState(s.sessionId, m, seq(|m.blocks|, i requires 0 <= i < |m.blocks| => StoredIds(symbols, i)), symbols))
  }

  method SaveState(session: ReceiverSession) returns (r: Option<ResumeState>)
    requires session.Valid() && session.world.Lawful()
    ensures r == Saved(session.world, session.View())
  {
    if session.meta.None? {
      return None;
    }
    var m := session.meta.value;
    var order := session.world.replayOrder(session.symbolCache.Keys);
    assert Enumerates(order, session.symbolCache.Keys);
    var symbols := Stored(session.symbolCache, order);
    var received: seq<set<nat>> := seq(|m.blocks|, _ => {});
    for j := 0 to |symbols|
      invariant |received| == |m.blocks|
      invariant forall i :: 0 <= i < |m.blocks| ==> received[i] == StoredIds(symbols[..j], i)
    {
      var s := symbols[j];
      forall i | 0 <= i < |m.blocks|
        ensures StoredIds(symbols[..j + 1], i) == StoredIds(symbols[..j], i) + (if s.sbn == i then {s.esi as nat} else {})
      {
        IdsSnoc(symbols, j, i);
      }
      if s.sbn < |received| {
        received := received[s.sbn := received[s.sbn] + {s.esi}];
      }
    }
    assert symbols[..|symbols|] == symbols;
    assert received == seq(|m.blocks|, i requires 0 <= i < |m.blocks| => StoredIds(symbols, i));
    return Some(ResumeState(session.sessionId, m, received, symbols));
  }

  lemma IdsSnoc(symbols: seq<StoredSymbol>, j: nat, i: nat)
    requires j < |symbols|
    ensures StoredIds(symbols[..j + 1], i)
         == StoredIds(symbols[..j], i) + (if symbols[j].sbn == i then {symbols[j].esi as nat} else {})
  {
    var s := symbols[j];
    assert symbols[..j + 1] == symbols[..j] + [s];
    var after := StoredIds(symbols[..j], i) + (if s.sbn == i then {s.esi as nat} else {});
    forall e | e in after
      ensures e in StoredIds(symbols[..j + 1], i)
    {
      if e in StoredIds(symbols[..j], i) {
        var t :| t in symbols[..j] && t.sbn == i && t.esi == e;
        assert t in symbols[..j + 1];
      } else {
        assert s in symbols[..j + 1];
      }
    }
  }

  /** Once the layout is known the cache is gone, so a checkpoint carries no symbols at
      all: restoring it starts the object over. */
  lemma CheckpointStartsOver(w: World, s: State)
    requires w.Lawful() && Invariant(w, s) && s.meta.Some?
    ensures var r := Saved(w, s).value;
            && r.symbols == [] && (forall i :: 0 <= i < |r.received| ==> r.received[i] == {})
            && ValidResume(r)
            && Restored(w, r) == Known(s.sessionId, s.meta.value)
  {
    var m := s.meta.value;
    var order := w.replayOrder(s.cache.Keys);
    assert Enumerates(order, s.cache.Keys);
    NoRepeatsLength(order, s.cache.Keys);
    assert order == [];
    var r := Saved(w, s).value;
    SumZeros(Cards(r.received));
    EmptyBookOk(w.codec, m);
    assert Lengths(r.symbols) == [];
  }
}
