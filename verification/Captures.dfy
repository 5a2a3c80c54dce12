/** What sender and receiver objects have seen of each other. */
module Captures {
  import opened Words
  import opened Metadata
  import opened Senders
  import opened ReceiverStates
  import opened ReceiverInvariants
  import opened Receivers
  import opened EndToEnd
  import opened LateJoin
  import Frames

  /** A frame of the session itself resets the mismatch streak. */
  lemma OwnFrameResetsStreak(w: World, s: State, input: Input)
    requires w.Lawful() && Ready(s) && !input.Foreign?
    ensures Step(w, s, input).streak == 0
  {
  }

  lemma {:induction false} OwnFramesKeepStreak(w: World, c: Content, shots: seq<Shot>)
    requires w.Lawful() && AllShootable(c, shots)
    ensures Run(w, Pending(c.sessionId), Inputs(c, shots)).streak == 0
    decreases |shots|
  {
    if shots != [] {
      var n := |shots| - 1;
      var inputs := Inputs(c, shots);
      OwnFrameResetsStreak(w, Run(w, Pending(c.sessionId), inputs[..n]), inputs[n]);
    }
  }

  /** What is heard of these frames. */
  ghost predicate HeardAs(c: Content, shots: seq<Shot>, inputs: seq<Input>)
    requires AllShootable(c, shots)
  {
    inputs == Heard(c.sessionId, Wire(c, shots))
  }

  /** The state of a session that took in these inputs from its creation on, none of them foreign. */
  ghost predicate ReachedBy(w: World, sid: u128, inputs: seq<Input>, s: State)
    requires w.Lawful()
  {
    s == Run(w, Pending(sid), inputs) && Invariant(w, s) && s.streak == 0
  }

  /** A receiver that has heard these frames, and nothing else, from its creation on. */
  ghost predicate HasHeard(w: World, c: Content, s: State, shots: seq<Shot>)
    requires w.Lawful() && AllShootable(c, shots)
  {
    forall inputs :: HeardAs(c, shots, inputs) ==> ReachedBy(w, c.sessionId, inputs, s)
  }

  lemma WhatWasHeard(w: World, c: Content, s: State, shots: seq<Shot>)
    requires w.Lawful() && AllShootable(c, shots) && HasHeard(w, c, s, shots)
    ensures ReachedBy(w, c.sessionId, Heard(c.sessionId, Wire(c, shots)), s)
  {
    assert HeardAs(c, shots, Heard(c.sessionId, Wire(c, shots)));
  }

  lemma HearingOneMore(w: World, c: Content, s: State, shots: seq<Shot>, shot: Shot)
    requires w.Lawful() && AllShootable(c, shots) && Shootable(c, shot) && HasHeard(w, c, s, shots)
    requires w.codec == c.encoder.codec
    ensures AllShootable(c, shots + [shot]) && Ready(s)
    ensures HasHeard(w, c, Run(w, s, HeardOne(c.sessionId, Frames.WireBytes(FrameOf(c, shot)))), shots + [shot])
  {
    WhatWasHeard(w, c, s, shots);
    OneMoreShot(c, shots, shot);
    OneMoreOnWire(w, c.sessionId, Wire(c, shots), Frames.WireBytes(FrameOf(c, shot)));
    OwnFramesReach(w, c, shots + [shot]);
  }

  lemma OneMoreShot(c: Content, shots: seq<Shot>, shot: Shot)
    requires AllShootable(c, shots) && Shootable(c, shot)
    ensures AllShootable(c, shots + [shot])
    ensures Wire(c, shots + [shot]) == Wire(c, shots) + [Frames.WireBytes(FrameOf(c, shot))]
  {
    assert (shots + [shot])[..|shots|] == shots;
  }

  lemma OneMoreOnWire(w: World, sid: u128, wire: seq<Bytes>, b: Bytes)
    requires w.Lawful()
    ensures Run(w, Pending(sid), Heard(sid, wire + [b])) == Run(w, Run(w, Pending(sid), Heard(sid, wire)), HeardOne(sid, b))
  {
    HeardSnoc(sid, wire, b);
    RunAppend(w, Pending(sid), Heard(sid, wire), HeardOne(sid, b));
  }

  lemma OwnFramesReach(w: World, c: Content, shots: seq<Shot>)
    requires w.Lawful() && AllShootable(c, shots) && w.codec == c.encoder.codec
    requires shots != []
    ensures var inputs := Heard(c.sessionId, Wire(c, shots));
            ReachedBy(w, c.sessionId, inputs, Run(w, Pending(c.sessionId), inputs))
  {
    WireIsHeard(c, shots);
    WireIsHarmless(c, shots);
    WireIsGenuine(c, Wire(c, shots));
    assert Shootable(c, shots[0]);
    RunStaysFaithful(w, c, Heard(c.sessionId, Wire(c, shots)));
    OwnFramesKeepStreak(w, c, shots);
  }

  /** The receiver has heard exactly these frames of the session. */
  ghost predicate Hearing(receiver: ReceiverSession, c: Content, shots: seq<Shot>)
    reads receiver, receiver.decoder
  {
    && receiver.Valid() && receiver.sessionId == c.sessionId
    && receiver.world.Lawful() && receiver.world.codec == c.encoder.codec
    && AllShootable(c, shots) && HasHeard(receiver.world, c, receiver.View(), shots)
  }

  ghost predicate FaceToFace(sender: SenderSession, receiver: ReceiverSession, shots: seq<Shot>)
    reads sender, receiver, receiver.decoder
  {
    sender.Valid() && Hearing(receiver, sender.content, shots)
  }

  /** One call took a sender from `p` to `q` and put these frames on screen. */
  ghost predicate Sends(blocks: seq<SourceBlockMeta>, p: Position, now: u64, q: Position, sent: seq<Shot>)
  {
    && blocks != [] && p.interval > 0 && p.frames + 1 < U64
    && var e := Emit(blocks, p, now);
       q == e.next && sent == if e.result.Ok? then [e.result.value] else []
  }

  /** The bytes of the one frame sent, if one was. */
  ghost predicate OnScreen(c: Content, bytes: Option<Bytes>, sent: seq<Shot>)
  {
    match bytes
    case None => sent == []
    case Some(b) => |sent| == 1 && Shootable(c, sent[0]) && b == Frames.WireBytes(FrameOf(c, sent[0]))
  }
}
