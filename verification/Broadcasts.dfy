/** All segments of a transfer shown one after the other to cameras that miss nothing. */
module Broadcasts {
  import opened Words
  import opened Sums
  import opened Metadata
  import opened Senders
  import opened Splitters
  import opened ReceiverStates
  import opened LateJoin
  import opened EndToEnd
  import opened Transfers
  import Emissions
  import SessionIds
  import SourcePlans
  import Utf8

  /** Each segment's session is called often enough to send all its source symbols. */
  ghost predicate FullShow(p: Plant, x: Transfer, name: Utf8.Utf8String, calls: seq<seq<Emissions.Call>>)
    requires Sendable(p, x, name)
  {
    |calls| == x.Count() && forall i: u32 :: i < x.Count() ==> FullPass(Child(p, x, i, name), calls[i])
  }

  ghost predicate FullPass(c: Content, calls: seq<Emissions.Call>)
  {
    && c.Valid() && Accepted(c) && Emissions.Runnable(c.Blocks(), START, calls)
    && Emissions.After(c.Blocks(), START, calls).data >= TotalK(c.Blocks())
  }

  /** Calls at the default interval until the last source symbol of an accepted content is out. */
  lemma PassExists(c: Content) returns (calls: seq<Emissions.Call>)
    requires c.Valid() && Accepted(c)
    ensures FullPass(c, calls)
  {
    ValidIsCanonical(c);
    var k := TotalK(c.Blocks());
    SumAtLeast(Ks(c.Blocks()), 0);
    assert Ks(c.Blocks())[0] == c.Blocks()[0].numSourceSymbols > 0;
    var n := Emissions.DueAt(DEFAULT_DESCRIPTOR_INTERVAL, k - 1) + 1;
    var nows: seq<u64> := seq(n, _ => 0);
    calls := Emissions.Ticks(nows);
    Emissions.SourcePassLength(c.Blocks(), DEFAULT_DESCRIPTOR_INTERVAL, nows);
  }

  /** The frames of one such session. */
  ghost function Pass(c: Content, calls: seq<Emissions.Call>): (wire: seq<Bytes>)
    requires FullPass(c, calls)
  {
    RunIsShootable(c, START, calls);
    Wire(c, Emissions.Shots(c.Blocks(), START, calls))
  }

  /** One after the other. */
  function Joined(passes: seq<seq<Bytes>>): seq<Bytes>
  {
    if passes == [] then [] else Joined(passes[..|passes| - 1]) + passes[|passes| - 1]
  }

  /** The passes of all segments, in order. */
  ghost function Show(p: Plant, x: Transfer, name: Utf8.Utf8String, calls: seq<seq<Emissions.Call>>): (q: seq<seq<Bytes>>)
    requires Sendable(p, x, name) && FullShow(p, x, name, calls)
    ensures |q| == x.Count()
  {
    seq(x.Count(), i requires 0 <= i < x.Count() => PassOf(p, x, name, calls, i))
  }

  ghost function PassOf(p: Plant, x: Transfer, name: Utf8.Utf8String, calls: seq<seq<Emissions.Call>>, i: u32): seq<Bytes>
    requires Sendable(p, x, name) && FullShow(p, x, name, calls) && i < x.Count()
  {
    assert FullPass(Child(p, x, i, name), calls[i]);
    Pass(Child(p, x, i, name), calls[i])
  }

  /** The answers of `f`, end to end. */
  function Flat(f: Bytes -> seq<Input>, wire: seq<Bytes>): seq<Input>
  {
    if wire == [] then [] else Flat(f, wire[..|wire| - 1]) + f(wire[|wire| - 1])
  }

  function Hearing(sid: u128): Bytes -> seq<Input> { (b: Bytes) => HeardOne(sid, b) }

  lemma {:induction false} HeardIsFlat(sid: u128, wire: seq<Bytes>)
    ensures Heard(sid, wire) == Flat(Hearing(sid), wire)
    decreases |wire|
  {
    if wire != [] {
      HeardIsFlat(sid, wire[..|wire| - 1]);
    }
  }

  lemma {:induction false} FlatAppend(f: Bytes -> seq<Input>, a: seq<Bytes>, b: seq<Bytes>)
    ensures Flat(f, a + b) == Flat(f, a) + Flat(f, b)
    decreases |b|
  {
    if b == [] {
      assert a + b == a;
    } else {
      FlatAppend(f, a, b[..|b| - 1]);
      assert (a + b)[..|a + b| - 1] == a + b[..|b| - 1];
    }
  }

  /** What is heard of each pass, end to end. */
  function JoinedInputs(heard: seq<seq<Input>>): seq<Input>
  {
    if heard == [] then [] else JoinedInputs(heard[..|heard| - 1]) + heard[|heard| - 1]
  }

  ghost function HeardEach(f: Bytes -> seq<Input>, passes: seq<seq<Bytes>>): (q: seq<seq<Input>>)
    ensures |q| == |passes|
  {
    seq(|passes|, j requires 0 <= j < |passes| => Flat(f, passes[j]))
  }

  lemma {:induction false} FlatJoined(f: Bytes -> seq<Input>, passes: seq<seq<Bytes>>)
    ensures Flat(f, Joined(passes)) == JoinedInputs(HeardEach(f, passes))
    decreases |passes|
  {
    if passes != [] {
      var n := |passes| - 1;
      FlatJoined(f, passes[..n]);
      assert HeardEach(f, passes)[..n] == HeardEach(f, passes[..n]);
      FlatAppend(f, Joined(passes[..n]), passes[n]);
    }
  }

  ghost predicate AllForeign(inputs: seq<Input>)
  {
    forall i :: 0 <= i < |inputs| ==> inputs[i].Foreign?
  }

  /** The session itself hears its pass as a descriptor and then enough symbols. */
  lemma PassIsHeard(c: Content, calls: seq<Emissions.Call>)
    requires FullPass(c, calls)
    ensures var own := Heard(c.sessionId, Pass(c, calls));
            own != [] && own[0].Descriptor? && Enough(c, own)
    ensures forall k :: 0 <= k < |Pass(c, calls)| ==> Emitted(c, Pass(c, calls)[k])
  {
    RunIsShootable(c, START, calls);
    var shots := Emissions.Shots(c.Blocks(), START, calls);
    WireIsHeard(c, shots);
    SourcePassIsEnough(c, calls, shots);
    ValidIsCanonical(c);
    var shot := Emissions.SourcePassIsWhole(c.Blocks(), calls, SourcePlans.SymbolId(0, 0));
    Emissions.DescriptorFirst(c.Blocks(), calls);
    assert Inputs(c, shots)[0] == InputOf(c, shots[0]);
    WireIsEmitted(c, shots);
  }

  lemma {:induction false} WireIsEmitted(c: Content, shots: seq<Shot>)
    requires AllShootable(c, shots)
    ensures forall k :: 0 <= k < |shots| ==> Emitted(c, Wire(c, shots)[k])
    decreases |shots|
  {
    if shots != [] {
      WireIsEmitted(c, shots[..|shots| - 1]);
      assert Shootable(c, shots[|shots| - 1]);
    }
  }

  /** Any other session hears only foreign frames. */
  lemma OthersHearForeign(c: Content, sid: u128, wire: seq<Bytes>)
    requires sid != c.sessionId && forall k :: 0 <= k < |wire| ==> Emitted(c, wire[k])
    ensures AllForeign(Heard(sid, wire))
  {
    HeardIsFlat(sid, wire);
    forall k | 0 <= k < |wire|
      ensures AllForeign(Hearing(sid)(wire[k]))
    {
      assert Emitted(c, wire[k]);
      OneHearsForeign(c, sid, wire[k]);
    }
    FlatForeign(Hearing(sid), wire);
  }

  lemma OneHearsForeign(c: Content, sid: u128, b: Bytes)
    requires sid != c.sessionId && Emitted(c, b)
    ensures AllForeign(HeardOne(sid, b))
  {
    EmittedIsNamed(c, b);
  }

  lemma {:induction false} FlatForeign(f: Bytes -> seq<Input>, wire: seq<Bytes>)
    requires forall k :: 0 <= k < |wire| ==> AllForeign(f(wire[k]))
    ensures AllForeign(Flat(f, wire))
    decreases |wire|
  {
    if wire != [] {
      FlatForeign(f, wire[..|wire| - 1]);
    }
  }

  lemma SiblingHearsForeign(p: Plant, x: Transfer, name: Utf8.Utf8String, calls: seq<seq<Emissions.Call>>, i: u32, j: u32)
    requires Sendable(p, x, name) && FullShow(p, x, name, calls) && i < x.Count() && j < x.Count() && i != j
    ensures AllForeign(Heard(Child(p, x, i, name).sessionId, PassOf(p, x, name, calls, j)))
  {
    assert FullPass(Child(p, x, j, name), calls[j]);
    ChildCarriesSlice(p, x, i, name);
    ChildCarriesSlice(p, x, j, name);
    SessionIds.ChildIdsDistinct(x.root, i, j);
    PassIsHeard(Child(p, x, j, name), calls[j]);
    OthersHearForeign(Child(p, x, j, name), Child(p, x, i, name).sessionId, Pass(Child(p, x, j, name), calls[j]));
  }

  /** Its descriptor came before any symbol, and by now enough symbols have. */
  ghost predicate Served(c: Content, inputs: seq<Input>)
  {
    HasDescriptor(inputs) && Keys(Backlog(inputs)) == {} && Enough(c, inputs)
  }

  lemma {:induction false} ForeignHasNoKeys(a: seq<Input>)
    requires AllForeign(a)
    ensures Keys(a) == {}
    decreases |a|
  {
    if a != [] {
      ForeignHasNoKeys(a[..|a| - 1]);
    }
  }

  lemma EnoughGrows(c: Content, a: seq<Input>, own: seq<Input>, b: seq<Input>)
    requires c.encoder.codec.Monotone() && Enough(c, own)
    ensures Enough(c, a + own + b)
  {
    forall i | 0 <= i < |c.Blocks()|
      ensures c.encoder.codec.sufficient(c.Blocks()[i].numSourceSymbols, Delivered(c.Meta(), a + own + b, i))
    {
      DeliveredAppend(c.Meta(), a, own, i);
      DeliveredAppend(c.Meta(), a + own, b, i);
      assert Delivered(c.Meta(), own, i) <= Delivered(c.Meta(), a + own + b, i);
    }
  }

  lemma NowServed(c: Content, a: seq<Input>, own: seq<Input>)
    requires c.encoder.codec.Monotone() && AllForeign(a) && own != [] && own[0].Descriptor? && Enough(c, own)
    ensures Served(c, a + own)
  {
    BacklogIsBefore(a, own);
    ForeignHasNoKeys(a);
    EnoughGrows(c, a, own, []);
    assert a + own + [] == a + own;
  }

  lemma StaysServed(c: Content, a: seq<Input>, b: seq<Input>)
    requires c.encoder.codec.Monotone() && Served(c, a)
    ensures Served(c, a + b)
  {
    BacklogIgnoresRest(a, b);
    EnoughGrows(c, [], a, b);
    assert [] + a + b == a + b;
  }

  lemma {:induction false} JoinedForeign(heard: seq<seq<Input>>)
    requires forall j :: 0 <= j < |heard| ==> AllForeign(heard[j])
    ensures AllForeign(JoinedInputs(heard))
    decreases |heard|
  {
    if heard != [] {
      JoinedForeign(heard[..|heard| - 1]);
    }
  }

  /** A session's own pass at place `i`, among others foreign to it, serves its receiver. */
  lemma {:induction false} JoinedServes(c: Content, heard: seq<seq<Input>>, i: nat)
    requires c.encoder.codec.Monotone() && i < |heard|
    requires heard[i] != [] && heard[i][0].Descriptor? && Enough(c, heard[i])
    requires forall j :: 0 <= j < |heard| && j != i ==> AllForeign(heard[j])
    ensures Served(c, JoinedInputs(heard))
    decreases |heard|
  {
    var n := |heard| - 1;
    if i == n {
      JoinedForeign(heard[..n]);
      NowServed(c, JoinedInputs(heard[..n]), heard[n]);
    } else {
      JoinedServes(c, heard[..n], i);
      StaysServed(c, JoinedInputs(heard[..n]), heard[n]);
    }
  }

  lemma ShowServes(p: Plant, x: Transfer, name: Utf8.Utf8String, calls: seq<seq<Emissions.Call>>, i: u32)
    requires Sendable(p, x, name) && FullShow(p, x, name, calls) && i < x.Count()
    ensures var c := Child(p, x, i, name); Served(c, Heard(c.sessionId, Joined(Show(p, x, name, calls))))
  {
    var c, passes := Child(p, x, i, name), Show(p, x, name, calls);
    var f := Hearing(c.sessionId);
    HeardIsFlat(c.sessionId, Joined(passes));
    FlatJoined(f, passes);
    OwnIsHeard(p, x, name, calls, i);
    OthersAreForeign(p, x, name, calls, i);
    JoinedServes(c, HeardEach(f, passes), i);
  }

  lemma OthersAreForeign(p: Plant, x: Transfer, name: Utf8.Utf8String, calls: seq<seq<Emissions.Call>>, i: u32)
    requires Sendable(p, x, name) && FullShow(p, x, name, calls) && i < x.Count()
    ensures var f := Hearing(Child(p, x, i, name).sessionId);
            forall j :: 0 <= j < x.Count() && j != i ==> AllForeign(HeardEach(f, Show(p, x, name, calls))[j])
  {
    var sid, passes := Child(p, x, i, name).sessionId, Show(p, x, name, calls);
    forall j | 0 <= j < |passes| && j != i
      ensures AllForeign(HeardEach(Hearing(sid), passes)[j])
    {
      SiblingHearsForeign(p, x, name, calls, i, j);
      HeardIsFlat(sid, passes[j]);
    }
  }

  lemma OwnIsHeard(p: Plant, x: Transfer, name: Utf8.Utf8String, calls: seq<seq<Emissions.Call>>, i: u32)
    requires Sendable(p, x, name) && FullShow(p, x, name, calls) && i < x.Count()
    ensures var c := Child(p, x, i, name);
            var own := Flat(Hearing(c.sessionId), PassOf(p, x, name, calls, i));
            c.Valid() && own != [] && own[0].Descriptor? && Enough(c, own)
  {
    var c := Child(p, x, i, name);
    assert FullPass(c, calls[i]);
    PassIsHeard(c, calls[i]);
    HeardIsFlat(c.sessionId, Pass(c, calls[i]));
  }

  lemma {:induction false} JoinedFrom(passes: seq<seq<Bytes>>, k: nat) returns (j: nat, m: nat)
    requires k < |Joined(passes)|
    ensures j < |passes| && m < |passes[j]| && Joined(passes)[k] == passes[j][m]
    decreases |passes|
  {
    var n := |passes| - 1;
    if k < |Joined(passes[..n])| {
      j, m := JoinedFrom(passes[..n], k);
    } else {
      j, m := n, k - |Joined(passes[..n])|;
    }
  }

  lemma ShowIsOnAir(p: Plant, x: Transfer, name: Utf8.Utf8String, calls: seq<seq<Emissions.Call>>)
    requires Sendable(p, x, name) && FullShow(p, x, name, calls)
    ensures AllOnAir(p, x, name, Joined(Show(p, x, name, calls)))
  {
    var passes := Show(p, x, name, calls);
    forall k | 0 <= k < |Joined(passes)|
      ensures OnAir(p, x, name, Joined(passes)[k])
    {
      var j, m := JoinedFrom(passes, k);
      FrameIsOnAir(p, x, name, calls, j, m);
    }
  }

  lemma FrameIsOnAir(p: Plant, x: Transfer, name: Utf8.Utf8String, calls: seq<seq<Emissions.Call>>, j: u32, m: nat)
    requires Sendable(p, x, name) && FullShow(p, x, name, calls) && j < x.Count()
    requires m < |PassOf(p, x, name, calls, j)|
    ensures OnAir(p, x, name, PassOf(p, x, name, calls, j)[m])
  {
    assert FullPass(Child(p, x, j, name), calls[j]);
    PassIsHeard(Child(p, x, j, name), calls[j]);
    assert Emitted(Child(p, x, j, name), PassOf(p, x, name, calls, j)[m]);
  }

  /** Every receiver ends complete. */
  lemma ShowCompletesOne(w: World, p: Plant, x: Transfer, name: Utf8.Utf8String, calls: seq<seq<Emissions.Call>>, i: u32)
    requires w.Lawful() && w.codec == p.codec
    requires Sendable(p, x, name) && FullShow(p, x, name, calls) && i < x.Count()
    ensures IsComplete(EndOf(w, p, x, name, Joined(Show(p, x, name, calls)), i))
  {
    var c, wire := Child(p, x, i, name), Joined(Show(p, x, name, calls));
    ChildCarriesSlice(p, x, i, name);
    ShowServes(p, x, name, calls, i);
    ShowIsOnAir(p, x, name, calls);
    forall k | 0 <= k < |wire|
      ensures Harmless(c, wire[k])
    {
      assert OnAir(p, x, name, wire[k]);
      SiblingsAreHarmless(p, x, name, wire[k], i);
    }
    CompletesExactly(w, c, wire);
  }

  /** Show every segment's source pass once, one after the other, to a receiver for each: all end
      complete, and their results, handed over in any order, assemble to the payload. */
  lemma ShowRecoversTransfer(w: World, p: Plant, x: Transfer, name: Utf8.Utf8String, calls: seq<seq<Emissions.Call>>,
                             order: seq<u32>)
    requires w.Lawful() && w.codec == p.codec
    requires Sendable(p, x, name) && FullShow(p, x, name, calls)
    requires AllBelow(order, x.Count()) && forall i: u32 :: i < x.Count() ==> i in order
    ensures var wire := Joined(Show(p, x, name, calls));
            && AllOnAir(p, x, name, wire) && AllComplete(w, p, x, name, wire)
            && (forall i: u32 :: i < x.Count() ==> HandedOver(w, p, x, name, wire, i, OfferFor(Received(x, name), i)))
    ensures Offers(Received(x, name), order) != []
         && AssemblesTo(x.sha, Offers(Received(x, name), order), x.payload)
  {
    ShowIsOnAir(p, x, name, calls);
    forall i: u32 | i < x.Count()
      ensures IsComplete(EndOf(w, p, x, name, Joined(Show(p, x, name, calls)), i))
    {
      ShowCompletesOne(w, p, x, name, calls, i);
    }
    CompleteMeansHandover(w, p, x, name, Joined(Show(p, x, name, calls)));
    OffersAssemble(Received(x, name), order, Offers(Received(x, name), order));
  }

  lemma CompleteMeansHandover(w: World, p: Plant, x: Transfer, name: Utf8.Utf8String, wire: seq<Bytes>)
    requires w.Lawful() && w.codec == p.codec && Sendable(p, x, name) && AllOnAir(p, x, name, wire)
    requires AllComplete(w, p, x, name, wire)
    ensures forall i: u32 :: i < x.Count() ==> HandedOver(w, p, x, name, wire, i, OfferFor(Received(x, name), i))
  {
    forall i: u32 | i < x.Count()
      ensures HandedOver(w, p, x, name, wire, i, OfferFor(Received(x, name), i))
    {
      HandoverIsSlice(w, p, x, name, wire, i);
    }
  }

  /** Every segment's descriptor passes the receiver's gates. */
  ghost predicate AllAccepted(p: Plant, x: Transfer, name: Utf8.Utf8String)
    requires Sendable(p, x, name)
  {
    forall i: u32 :: i < x.Count() ==> Accepted(Child(p, x, i, name))
  }

  lemma {:induction false} PassesExist(contents: seq<Content>) returns (calls: seq<seq<Emissions.Call>>)
    requires forall i :: 0 <= i < |contents| ==> contents[i].Valid() && Accepted(contents[i])
    ensures |calls| == |contents| && forall i :: 0 <= i < |contents| ==> FullPass(contents[i], calls[i])
    decreases |contents|
  {
    if contents == [] {
      calls := [];
    } else {
      var n := |contents| - 1;
      var rest := PassesExist(contents[..n]);
      var pass := PassExists(contents[n]);
      calls := rest + [pass];
    }
  }

  ghost function Children(p: Plant, x: Transfer, name: Utf8.Utf8String): (q: seq<Content>)
    requires Sendable(p, x, name)
    ensures |q| == x.Count() && forall i: u32 :: i < x.Count() ==> q[i] == Child(p, x, i, name)
  {
    seq(x.Count(), i requires 0 <= i < x.Count() => Child(p, x, i, name))
  }

  lemma ShowExists(p: Plant, x: Transfer, name: Utf8.Utf8String) returns (calls: seq<seq<Emissions.Call>>)
    requires Sendable(p, x, name) && AllAccepted(p, x, name)
    ensures FullShow(p, x, name, calls)
  {
    forall i: u32 | i < x.Count()
      ensures Child(p, x, i, name).Valid()
    {
      ChildCarriesSlice(p, x, i, name);
    }
    calls := PassesExist(Children(p, x, name));
  }

  /** These calls put on the wire only frames of the transfer, enough for every receiver to end
      complete, and what the receivers hand over in this order assembles to the payload. */
  ghost predicate Recovers(w: World, p: Plant, x: Transfer, name: Utf8.Utf8String, calls: seq<seq<Emissions.Call>>,
                           order: seq<u32>)
    requires w.Lawful() && Sendable(p, x, name)
  {
    && FullShow(p, x, name, calls) && AllBelow(order, x.Count())
    && var wire := Joined(Show(p, x, name, calls));
    && AllOnAir(p, x, name, wire) && AllComplete(w, p, x, name, wire)
    && (forall i: u32 :: i < x.Count() ==> HandedOver(w, p, x, name, wire, i, OfferFor(Received(x, name), i)))
    && var offers := Offers(Received(x, name), order);
    && offers != [] && AssemblesTo(x.sha, offers, x.payload)
  }

  /** So every transfer whose segments can be sent under one name and are accepted can be shown in
      finitely many frames that recover it. */
  lemma EveryTransferCanBeRecovered(w: World, p: Plant, x: Transfer, name: Utf8.Utf8String, order: seq<u32>)
    returns (calls: seq<seq<Emissions.Call>>)
    requires w.Lawful() && w.codec == p.codec && Sendable(p, x, name) && AllAccepted(p, x, name)
    requires AllBelow(order, x.Count()) && forall i: u32 :: i < x.Count() ==> i in order
    ensures Recovers(w, p, x, name, calls, order)
  {
    calls := ShowExists(p, x, name);
    ShowRecoversTransfer(w, p, x, name, calls, order);
  }
}
