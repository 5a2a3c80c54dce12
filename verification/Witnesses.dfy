/** The premises of the end-to-end theorems can all be met at once. */
module Witnesses {
  import opened Words
  import opened Sums
  import opened Division
  import opened Metadata
  import opened BlockCodecs
  import opened Encoders
  import opened Senders
  import opened Emissions
  import SourcePlans
  import opened ReceiverStates
  import opened EndToEnd
  import opened Segments
  import opened Splitters
  import opened Transfers
  import opened Names
  import Acceptance
  import Beginnings
  import Broadcasts
  import LateJoin
  import Layouts
  import Origins
  import Utf8

  ghost function Listed(s: set<Key>): (q: seq<Key>)
    ensures Enumerates(q, s)
  {
    if s == {} then []
    else
      var k :| k in s;
      Listed(s - {k}) + [k]
  }

  /** The repetition code, some order of keys, and no decompressor at all. */
  ghost function SmallWorld(): World
  {
    World(Repetition(), (s: set<Key>) => Listed(s), (b: Bytes, tag: u8, cap: nat) => None)
  }

  lemma SmallWorldIsLawful()
    ensures SmallWorld().Lawful()
  {
    RepetitionIsLawful();
  }

  const SIZE: u32 := 72
  const SMALL_OTI: Oti := [0, 0, 0, 0, 72, 0, 0, 72, 1, 0, 1, 8]
  const SMALL_FILE: FileMeta := FileMeta([], 71, 0, COMPRESSION_NONE, 71, true, true)
  const SMALL_CONFIG: SenderConfig := SenderConfig(SIZE, 25)

  /** One byte less than a symbol. */
  function SmallPayload(): Bytes { Zeros(71) }

  function SmallObject(): Bytes { SmallPayload() + [0] }

  /** The whole object as one symbol of one block. */
  ghost function OneSymbol(): (Bytes, nat) -> Layout
  {
    (data: Bytes, t: nat) => Layout(SMALL_OTI, [SourceBlock(1, data)])
  }

  lemma OneSymbolPartitions(data: Bytes, t: nat)
    requires |data| == t
    ensures Partitions(OneSymbol()(data, t), data, t)
  {
    OneBlockPartitions(data, t, 1, SMALL_OTI);
  }

  ghost function SmallContent(): Result<Content, SenderError>
    requires LibraryKeepsPromise(OneSymbol(), SmallPayload(), SIZE)
  {
    Prepare(Repetition(), OneSymbol(), SmallPayload(), 7, SMALL_CONFIG, SMALL_FILE, None)
  }

  lemma SmallContentIsCarried()
    ensures Padded(SmallPayload(), SIZE) == SmallObject()
    ensures LibraryKeepsPromise(OneSymbol(), SmallPayload(), SIZE)
    ensures SmallContent().Ok? && Carries(SmallContent().value, SmallPayload())
    ensures SmallContent().value.encoder.meta == MetaOf(OneSymbol()(SmallObject(), SIZE), 72, SIZE)
    ensures SmallContent().value.encoder.codec == Repetition() && SmallContent().value.fileMeta == SMALL_FILE
  {
    SmallIsPadded();
    OneSymbolPartitions(SmallObject(), SIZE);
    RepetitionIsLawful();
    PreparedExactly(Repetition(), OneSymbol(), SmallPayload(), 7, SMALL_CONFIG, SMALL_FILE, None);
    PreparedIsValid(Repetition(), OneSymbol(), SmallPayload(), 7, SMALL_CONFIG, SMALL_FILE, None);
  }

  lemma SmallMetaIsValid(m: ObjectMeta)
    requires m == MetaOf(OneSymbol()(SmallObject(), SIZE), 72, SIZE)
    ensures ValidMeta(m) && TotalK(m.blocks) == 1
  {
    var o := SMALL_OTI;
    assert o[0..5] == [0, 0, 0, 0, 72];
    assert o[6..8] == [0, 72];
    assert o[9..11] == [0, 1];
    LateJoin.UnbeOfTwo(0, 72);
    LateJoin.UnbeOfTwo(0, 1);
    LateJoin.UnbeOfZerosThen(72);
    assert m.blocks == [SourceBlockMeta(0, 1, 72)];
    assert BlockOk(m, 0);
    assert Ks(m.blocks) == [1];
    assert Sum([1]) == 1 by { assert [1][..0] == []; }
  }

  lemma SmallContentIsAccepted()
    ensures LibraryKeepsPromise(OneSymbol(), SmallPayload(), SIZE)
    ensures SmallContent().Ok? && Accepted(SmallContent().value)
  {
    SmallContentIsCarried();
    SmallMetaIsValid(SmallContent().value.encoder.meta);
  }

  /** Two calls: the descriptor, then the one source symbol. */
  lemma TwoCallsSendTheSymbol(c: Content)
    requires c.Valid() && TotalK(c.Blocks()) == 1
    ensures Runnable(c.Blocks(), START, [Next(0), Next(0)])
    ensures After(c.Blocks(), START, [Next(0), Next(0)]).data >= 1
  {
    ValidIsCanonical(c);
    var nows: seq<u64> := [0, 0];
    assert Ticks(nows) == [Next(0), Next(0)];
    DivMod(0, 16, 0, 0);
    SourcePassLength(c.Blocks(), 17, nows);
  }

  /** A world, a content and a run to which the end-to-end theorem applies, and what it says. */
  lemma EndToEndHappens() returns (w: World, c: Content, calls: seq<Call>)
    ensures w.Lawful() && w.codec == c.encoder.codec && Carries(c, SmallPayload()) && Accepted(c)
    ensures Runnable(c.Blocks(), START, calls) && After(c.Blocks(), START, calls).data >= TotalK(c.Blocks())
    ensures AllShootable(c, Shots(c.Blocks(), START, calls))
    ensures var wire := Wire(c, Shots(c.Blocks(), START, calls));
            AssembleResult(w, Run(w, Pending(c.sessionId), Heard(c.sessionId, wire))) == Ok(Some(SmallPayload()))
  {
    SmallWorldIsLawful();
    SmallContentIsCarried();
    SmallContentIsAccepted();
    w, c, calls := SmallWorld(), SmallContent().value, [Next(0), Next(0)];
    SmallMetaIsValid(c.Meta());
    TwoCallsSendTheSymbol(c);
    LosslessCaptureCompletes(w, c, SmallPayload(), calls);
  }

  /** A session confirmed out of band that hears the one symbol and no descriptor: it is complete,
      and hands out the payload with its padding. */
  lemma PaddingIsHandedOut() returns (w: World, c: Content, wire: seq<Bytes>)
    ensures w.Lawful() && w.codec == c.encoder.codec && Carries(c, SmallPayload()) && ValidMeta(c.Meta())
    ensures AllHarmless(c, wire) && !HasDescriptor(Heard(c.sessionId, wire))
    ensures var s := Run(w, Known(c.sessionId, c.Meta()), Heard(c.sessionId, wire));
            IsComplete(s) && AssembleResult(w, s) == Ok(Some(SmallObject()))
  {
    w, c := OneSymbolSession();
    var shots := [DataShot(SourcePlans.SymbolId(0, 0), 1, 0)];
    OneSymbolIsHeard(c, shots);
    wire := Wire(c, shots);
    BareSymbolIsAnObject(w, c, wire);
  }

  lemma OneSymbolSession() returns (w: World, c: Content)
    ensures w.Lawful() && w.codec == c.encoder.codec && Carries(c, SmallPayload()) && ValidMeta(c.Meta())
    ensures c.Meta().symbolSize == SIZE && |c.Blocks()| == 1 && c.Blocks()[0].numSourceSymbols == 1
  {
    SmallWorldIsLawful();
    SmallContentIsCarried();
    w, c := SmallWorld(), SmallContent().value;
    SmallMetaIsValid(c.Meta());
  }

  lemma BareSymbolIsAnObject(w: World, c: Content, wire: seq<Bytes>)
    requires w.Lawful() && w.codec == c.encoder.codec && Carries(c, SmallPayload()) && ValidMeta(c.Meta())
    requires AllHarmless(c, wire) && !HasDescriptor(Heard(c.sessionId, wire)) && Enough(c, Heard(c.sessionId, wire))
    requires c.Meta().symbolSize == SIZE
    ensures var s := Run(w, Known(c.sessionId, c.Meta()), Heard(c.sessionId, wire));
            IsComplete(s) && AssembleResult(w, s) == Ok(Some(SmallObject()))
  {
    Beginnings.ConfirmedCompletesExactly(w, c, wire);
    Beginnings.ResultFromAnywhere(w, c, SmallPayload(), Origins.Confirmed(c.sessionId, c.Meta()), wire);
    SmallIsPadded();
  }

  lemma SmallIsPadded()
    ensures Padded(SmallPayload(), SIZE) == SmallObject()
  {
  }

  lemma OneSymbolIsHeard(c: Content, shots: seq<Shot>)
    requires c.Valid() && |c.Blocks()| == 1 && c.Blocks()[0].numSourceSymbols == 1
    requires |shots| == 1 && shots[0].DataShot? && shots[0].id == SourcePlans.SymbolId(0, 0)
    ensures AllShootable(c, shots) && AllHarmless(c, Wire(c, shots))
    ensures !HasDescriptor(Heard(c.sessionId, Wire(c, shots))) && Enough(c, Heard(c.sessionId, Wire(c, shots)))
  {
    OneSymbolIsShootable(c, shots);
    WireIsHeard(c, shots);
    WireIsHarmless(c, shots);
    DataHasNoDescriptor(c, shots);
    OneSymbolIsEnough(c, shots, shots[0]);
  }

  lemma OneSymbolIsShootable(c: Content, shots: seq<Shot>)
    requires c.Valid() && |c.Blocks()| == 1 && |shots| == 1 && shots[0].DataShot?
    requires shots[0].id == SourcePlans.SymbolId(0, 0)
    ensures AllShootable(c, shots)
  {
  }

  lemma DataHasNoDescriptor(c: Content, shots: seq<Shot>)
    requires AllShootable(c, shots) && forall i :: 0 <= i < |shots| ==> shots[i].DataShot?
    ensures !HasDescriptor(Inputs(c, shots))
  {
    forall i | 0 <= i < |shots|
      ensures !Inputs(c, shots)[i].Descriptor?
    {
      assert Inputs(c, shots)[i] == InputOf(c, shots[i]);
    }
  }

  lemma OneSymbolIsEnough(c: Content, shots: seq<Shot>, shot: Shot)
    requires c.Valid() && |c.Blocks()| == 1 && c.Blocks()[0].numSourceSymbols == 1 && AllShootable(c, shots)
    requires shot in shots && shot.DataShot? && shot.id == SourcePlans.SymbolId(0, 0)
    ensures Enough(c, Inputs(c, shots))
  {
    ShotIsDelivered(c, shots, shot);
    forall i: nat, e: nat | i < |c.Blocks()| && e < c.Blocks()[i].numSourceSymbols
      ensures e in LateJoin.Delivered(c.Meta(), Inputs(c, shots), i)
    {
      assert i == 0 && e == 0;
    }
    SourceSymbolsSuffice(c, Inputs(c, shots));
  }

  // ----- A transfer of two segments

  const WIDE: u32 := 256
  const WIDE_CONFIG: SenderConfig := SenderConfig(WIDE, 25)

  /** One byte more than a full segment. */
  function Large(): Bytes { Zeros(SEGMENT_RAW_BYTES + 1) }

  function NoDigest(): Bytes -> Digest { (b: Bytes) => Zeros(32) }

  ghost function WidePlant(): Plant { Plant(Repetition(), Layouts.Greedy(), WIDE_CONFIG) }

  function TwoSegments(name: Utf8.Utf8String): Transfer { Transfer(NoDigest(), 7, name, Large(), 0) }

  lemma TwoSegmentsAreTwo(name: Utf8.Utf8String)
    ensures TwoSegments(name).Legal() && TwoSegments(name).Count() == 2
  {
  }

  /** The padded object of each segment, and its number of source blocks. */
  lemma WideObject(name: Utf8.Utf8String, i: u32) returns (n: nat)
    requires i < 2
    ensures TwoSegments(name).Legal() && TwoSegments(name).Count() == 2
    ensures var padded := Padded(WidePlant().Object(TwoSegments(name), i), WIDE);
            && n > 0 && |padded| == n * WIDE && |padded| <= MAX_OBJECT_BYTES
            && |Layouts.Blocks(padded, WIDE)| == if i == 0 then 3 else 1
  {
    TwoSegmentsAreTwo(name);
    var x := TwoSegments(name);
    SlicesAreCanonical(x.payload, i);
    var segment := WidePlant().Object(x, i);
    var padded := Padded(segment, WIDE);
    n := if i == 0 then 130_817 else 1;
    assert |segment| == if i == 0 then SEGMENT_RAW_BYTES else 1;
    assert |padded| == n * WIDE;
    Layouts.BlockCount(padded, WIDE, if i == 0 then 3 else 1);
  }

  lemma WidePlantSuits(name: Utf8.Utf8String)
    ensures TwoSegments(name).Legal() && TwoSegments(name).Count() == 2
    ensures WidePlant().Suits(TwoSegments(name))
  {
    RepetitionIsLawful();
    TwoSegmentsAreTwo(name);
    var x := TwoSegments(name);
    forall i: u32 | i < x.Count()
      ensures LibraryKeepsPromise(Layouts.Greedy(), WidePlant().Object(x, i), WIDE)
    {
      var n := WideObject(name, i);
      Layouts.GreedyPartitions(Padded(WidePlant().Object(x, i), WIDE), WIDE, n);
    }
  }

  lemma WideIsSendable(name: Utf8.Utf8String)
    ensures AllSendable(WidePlant(), TwoSegments(name))
    ensures forall i: u32 :: i < 2 ==> Room(WidePlant(), TwoSegments(name), i) == if i == 0 then 54 else 86
  {
    WidePlantSuits(name);
    var p, x := WidePlant(), TwoSegments(name);
    forall i: u32 | i < x.Count()
      ensures SegmentSendable(p, x, i)
    {
      var n := WideObject(name, i);
      SegmentsAreSendable(p, x, i);
    }
    forall i: u32 | i < 2
      ensures Room(p, x, i) == if i == 0 then 54 else 86
    {
      var n := WideObject(name, i);
      RoomIs(p, x, i);
    }
  }

  lemma {:induction false} AsciiIsValid(s: Bytes)
    requires forall i :: 0 <= i < |s| ==> s[i] < 0x80
    ensures Utf8.Valid(s)
    decreases |s|
  {
    if s != [] {
      AsciiIsValid(s[1..]);
    }
  }

  /** Sixty letters. */
  function LongName(): Utf8.Utf8String
  {
    AsciiIsValid(seq(60, _ => 0x61));
    seq(60, _ => 0x61)
  }

  /** A transfer every segment of which can be sent, but not under one name: the first segment has
      room for 54 bytes of the 60, the last for all of them. */
  lemma NamesDiverge()
    ensures AllSendable(WidePlant(), TwoSegments(LongName()))
    ensures !exists name :: Sendable(WidePlant(), TwoSegments(LongName()), name)
  {
    var p, x := WidePlant(), TwoSegments(LongName());
    WideIsSendable(LongName());
    assert Utf8.Boundary(x.name, 55);
    assert !NoneBeyond(x.name, Room(p, x, 0), Room(p, x, 1));
    OneNameExactly(p, x);
  }

  // ----- And one that is recovered

  lemma NamelessIsSendable()
    ensures Sendable(WidePlant(), TwoSegments([]), [])
  {
    var p, x := WidePlant(), TwoSegments([]);
    WideIsSendable([]);
    NoneBetweenMeansOneName(p, x);
    NameIsCut(p, x, 0);
    assert NameOf(p, x, 0) == [];
  }

  lemma WideChildIsAccepted(i: u32)
    requires i < 2
    ensures Sendable(WidePlant(), TwoSegments([]), []) && TwoSegments([]).Count() == 2
    ensures var c := Child(WidePlant(), TwoSegments([]), i, []); c.Valid() && Accepted(c)
  {
    NamelessIsSendable();
    TwoSegmentsAreTwo([]);
    var p, x := WidePlant(), TwoSegments([]);
    var n := WideObject([], i);
    var padded := Padded(p.Object(x, i), WIDE);
    Layouts.GreedyIsValid(Repetition(), padded, WIDE, n);
    ChildCarriesSlice(p, x, i, []);
    assert SentAs(p, x, i, []);
    var c := Child(p, x, i, []);
    assert c.encoder == NewEncoder(Repetition(), Layouts.Greedy(), padded, WIDE).value;
    PaddingIsTight(p.Object(x, i), WIDE);
  }

  lemma NamelessIsAccepted()
    ensures Sendable(WidePlant(), TwoSegments([]), [])
    ensures Broadcasts.AllAccepted(WidePlant(), TwoSegments([]), [])
  {
    NamelessIsSendable();
    TwoSegmentsAreTwo([]);
    forall i: u32 | i < TwoSegments([]).Count()
      ensures Accepted(Child(WidePlant(), TwoSegments([]), i, []))
    {
      WideChildIsAccepted(i);
    }
  }

  lemma BothOrders(name: Utf8.Utf8String)
    ensures AllBelow([1, 0], TwoSegments(name).Count())
    ensures forall i: u32 :: i < TwoSegments(name).Count() ==> i in [1, 0]
  {
    TwoSegmentsAreTwo(name);
    assert [1 as u32, 0][0] == 1 && [1 as u32, 0][1] == 0;
  }

  /** A world, a plant and a transfer of two segments that meet every premise of the transfer theorems. */
  lemma PremisesHold() returns (w: World, p: Plant, x: Transfer, name: Utf8.Utf8String, order: seq<u32>)
    ensures w.Lawful() && w.codec == p.codec && |x.payload| == SEGMENT_RAW_BYTES + 1 && x.Count() == 2
    ensures Sendable(p, x, name) && Broadcasts.AllAccepted(p, x, name)
    ensures AllBelow(order, x.Count()) && forall i: u32 :: i < x.Count() ==> i in order
  {
    SmallWorldIsLawful();
    NamelessIsAccepted();
    TwoSegmentsAreTwo([]);
    BothOrders([]);
    w, p, x, name, order := SmallWorld(), WidePlant(), TwoSegments([]), [], [1, 0];
  }

  /** Calls to which they then apply, and what they say. */
  lemma TransferHappens()
    returns (w: World, p: Plant, x: Transfer, name: Utf8.Utf8String, calls: seq<seq<Call>>, order: seq<u32>)
    ensures w.Lawful() && w.codec == p.codec && |x.payload| == SEGMENT_RAW_BYTES + 1 && x.Count() == 2
    ensures Sendable(p, x, name) && Broadcasts.Recovers(w, p, x, name, calls, order)
  {
    w, p, x, name, order := PremisesHold();
    calls := Broadcasts.EveryTransferCanBeRecovered(w, p, x, name, order);
  }

  // ----- And one object that is sent but never received

  /** One byte over the object ceiling. */
  function Oversized(): Bytes { Zeros(MAX_OBJECT_BYTES + 1) }

  const OVERSIZED_FILE: FileMeta :=
    FileMeta([], MAX_OBJECT_BYTES + 1, 0, COMPRESSION_NONE, MAX_OBJECT_BYTES + 1, true, true)

  lemma OversizedIsLaidOut()
    ensures |Padded(Oversized(), WIDE)| == MAX_OBJECT_BYTES + WIDE
    ensures |Layouts.Blocks(Padded(Oversized(), WIDE), WIDE)| == 3
    ensures LibraryKeepsPromise(Layouts.Greedy(), Oversized(), WIDE)
  {
    var padded := Padded(Oversized(), WIDE);
    assert |padded| == 131_073 * WIDE;
    Layouts.BlockCount(padded, WIDE, 3);
    Layouts.GreedyCovers(padded, WIDE, 131_073);
  }

  /** A session over it is built without an error, yet nothing its receivers may hear completes them. */
  lemma OversizedIsSentInVain() returns (r: Result<Content, SenderError>)
    ensures SmallWorld().Lawful() && LibraryKeepsPromise(Layouts.Greedy(), Oversized(), WIDE)
    ensures |Padded(Oversized(), WIDE)| < U64
         && r == Prepare(Repetition(), Layouts.Greedy(), Oversized(), 7, WIDE_CONFIG, OVERSIZED_FILE, None)
    ensures r.Ok? && r.value.Valid() && !Acceptance.CanComplete(SmallWorld(), r.value)
  {
    SmallWorldIsLawful();
    OversizedIsLaidOut();
    PreparedExactly(Repetition(), Layouts.Greedy(), Oversized(), 7, WIDE_CONFIG, OVERSIZED_FILE, None);
    r := Prepare(Repetition(), Layouts.Greedy(), Oversized(), 7, WIDE_CONFIG, OVERSIZED_FILE, None);
    Acceptance.OversizeIsNeverReceived(SmallWorld(), Repetition(), Layouts.Greedy(), Oversized(), 7, WIDE_CONFIG,
                                       OVERSIZED_FILE);
  }
}
