/** The loops a host runs around the two session objects. */
module Hosts {
  import opened Words
  import opened Metadata
  import opened Senders
  import opened Emissions
  import opened ReceiverStates
  import opened ReceiverInvariants
  import opened Receivers
  import opened EndToEnd
  import opened IngestStatus
  import opened Captures
  import Frames
  import Descriptors

  lemma RunOne(w: World, s: State, inputs: seq<Input>, input: Input)
    requires w.Lawful() && Ready(s)
    ensures Run(w, s, inputs + [input]) == Step(w, Run(w, s, inputs), input)
  {
    assert (inputs + [input])[..|inputs|] == inputs;
  }

  /** The status word for a frame that took the session from `s` to `t`. */
  function StatusWord(s: State, t: State): nat
  {
    Layout(IsComplete(t), t.progress.receivedSymbols > s.progress.receivedSymbols,
           t.progress.sessionMismatchStreak, t.progress.receivedSymbols)
  }

  /** Bit 0: complete; bit 1: a symbol was taken in; bits 8 to 23: mismatches in a row; from bit 32:
      the symbols held. */
  lemma StatusReads(s: State, t: State)
    ensures var word := StatusWord(s, t);
            && (word % 2 == 1 <==> IsComplete(t))
            && (word / 2 % 2 == 1 <==> t.progress.receivedSymbols > s.progress.receivedSymbols)
            && word / 0x100 % 0x1_0000 == t.progress.sessionMismatchStreak % 0x1_0000
            && word / 0x1_0000_0000 == t.progress.receivedSymbols
  {
    Unpacks(IsComplete(t), t.progress.receivedSymbols > s.progress.receivedSymbols,
            t.progress.sessionMismatchStreak, t.progress.receivedSymbols);
  }

  /** One captured QR payload: the session moves as the parsed frame says, or not at all, and
      the answer is the status word, or the error sentinel, which no status word equals. */
  method IngestBytes(session: ReceiverSession, bytes: Bytes) returns (status: nat)
    requires session.Valid() && session.world.Lawful() && Invariant(session.world, session.View())
    requires |bytes| < U32 && session.View().streak + 1 < U32
    modifies session, session.decoder
    ensures session.Valid() && (session.decoder != old(session.decoder) ==> fresh(session.decoder))
    ensures Invariant(session.world, session.View())
    ensures session.View() == Run(session.world, old(session.View()), HeardOne(session.sessionId, bytes))
    ensures status == if Frames.FromBytes(bytes).Ok? then StatusWord(old(session.View()), session.View()) else INGEST_ERROR
    ensures status == INGEST_ERROR <==> Frames.FromBytes(bytes).Err?
  {
    var parsed := Frames.ParseFrame(bytes);
    if parsed.Err? {
      return INGEST_ERROR;
    }
    var prevReceived := session.progress.receivedSymbols;
    Hear(session, parsed.value);
    status := Status(session, prevReceived);
  }

  method Hear(session: ReceiverSession, frame: Frames.Frame)
    requires session.Valid() && session.world.Lawful() && Invariant(session.world, session.View())
    requires |frame.payload| < U32
    modifies session, session.decoder
    ensures session.Valid() && (session.decoder != old(session.decoder) ==> fresh(session.decoder))
    ensures Invariant(session.world, session.View()) && session.View().streak <= old(session.View()).streak + 1
    ensures session.View() == Run(session.world, old(session.View()), [Classify(session.sessionId, frame)])
  {
    ghost var before := session.View();
    var r := session.Ingest(frame);
    RunOne(session.world, before, [], Classify(session.sessionId, frame));
    assert [] + [Classify(session.sessionId, frame)] == [Classify(session.sessionId, frame)];
    IngestKeeps(session.world, before, session.sessionId, frame);
  }

  /** Packing never overflows a field, and never gives the sentinel. */
  method Status(session: ReceiverSession, prevReceived: nat) returns (status: nat)
    requires session.Valid() && session.world.Lawful() && Invariant(session.world, session.View())
    requires session.View().streak < U32
    ensures var p := session.View().progress;
            status == Layout(IsComplete(session.View()), p.receivedSymbols > prevReceived,
                             p.sessionMismatchStreak, p.receivedSymbols)
    ensures status != INGEST_ERROR
  {
    ReceivedSymbolsBound(session.world, session.View());
    var p := session.progress;
    StatusIsNeverTheSentinel(session.world, session.View(), [], p.receivedSymbols > prevReceived);
    status := Pack(session.Complete(), p.receivedSymbols > prevReceived, p.sessionMismatchStreak, p.receivedSymbols);
  }

  lemma IngestKeeps(w: World, s: State, sid: u128, f: Frames.Frame)
    requires w.Lawful() && Invariant(w, s)
    ensures Invariant(w, Step(w, s, Classify(sid, f)))
    ensures Step(w, s, Classify(sid, f)).streak <= s.streak + 1
  {
    ClassifiedIsAdmissible(sid, f);
    StepKeepsInvariant(w, s, Classify(sid, f));
    StreakGrowsByOne(w, s, Classify(sid, f));
  }

  lemma ClassifiedIsAdmissible(sid: u128, f: Frames.Frame)
    ensures Admissible(Classify(sid, f))
  {
  }

  lemma StreakGrowsByOne(w: World, s: State, input: Input)
    requires w.Lawful() && Ready(s)
    ensures Step(w, s, input).streak <= s.streak + 1
  {
  }

  /** Every frame of a session fills the same number of bytes. */
  lemma FrameFillsWire(c: Content, shot: Shot)
    requires Shootable(c, shot)
    ensures |Frames.WireBytes(FrameOf(c, shot))| == Frames.WireSize(c.Meta().symbolSize)
  {
    if shot.DataShot? {
      SymbolHasSymbolSize(c, shot.id.sbn, shot.id.esi);
    } else {
      Descriptors.BuildSucceedsExactly(c.Meta(), c.fileMeta, c.segment);
    }
  }

  /** Which is far below 4 GiB. */
  lemma FrameIsShort(c: Content, shot: Shot)
    requires Shootable(c, shot)
    ensures |Frames.WireBytes(FrameOf(c, shot))| < U32
  {
    FrameFillsWire(c, shot);
    assert c.Meta().symbolSize <= MAX_SYMBOL_SIZE;
  }

  /** Sender and receiver objects face to face, the camera missing nothing: after enough frames
      the receiver object hands out the payload. */
  method Loopback(world: World, sender: SenderSession, nows: seq<u64>, ghost payload: Bytes)
    returns (r: Result<Option<Bytes>, AssembleError>)
    requires sender.Valid() && sender.View() == START && |nows| + 1 < U64
    requires world.Lawful() && world.codec == sender.content.encoder.codec
    requires Carries(sender.content, payload) && Accepted(sender.content)
    requires sender.content.fileMeta.compression == COMPRESSION_NONE
    requires Runnable(sender.content.Blocks(), START, Ticks(nows))
    requires After(sender.content.Blocks(), START, Ticks(nows)).data >= TotalK(sender.content.Blocks())
    modifies sender
    ensures r == Ok(Some(payload))
  {
    var receiver := new ReceiverSession.NewPending(world, sender.content.sessionId);
    PendingInvariant(world, sender.content.sessionId);
    PlayAll(sender, receiver, nows);
    LosslessCaptureCompletes(world, sender.content, payload, Ticks(nows));
    WhatWasHeard(world, sender.content, receiver.View(), Shots(sender.content.Blocks(), START, Ticks(nows)));
    r := receiver.Assemble();
  }

  /** Every frame of a run, one after the other, from screen to camera. */
  method PlayAll(sender: SenderSession, receiver: ReceiverSession, nows: seq<u64>)
    requires FaceToFace(sender, receiver, []) && sender.View() == START && |nows| + 1 < U64
    requires Runnable(sender.content.Blocks(), START, Ticks(nows))
    modifies sender, receiver, receiver.decoder
    ensures FaceToFace(sender, receiver, Shots(sender.content.Blocks(), START, Ticks(nows)))
  {
    ghost var shots: seq<Shot> := [];
    for i := 0 to |nows|
      invariant FaceToFace(sender, receiver, shots)
      invariant receiver.decoder == old(receiver.decoder) || fresh(receiver.decoder)
      invariant Played(sender.content.Blocks(), nows, i, sender.View(), shots)
    {
      ghost var before := sender.View();
      TickMore(sender.content.Blocks(), nows, i, before, shots);
      ghost var sent := Forward(sender, receiver, nows[i], shots);
      shots := shots + sent;
    }
    assert nows[..|nows|] == nows;
  }

  /** Where a sender stands, and what it has shown, after the first `n` calls. */
  ghost predicate Played(blocks: seq<SourceBlockMeta>, nows: seq<u64>, n: nat, p: Position, shots: seq<Shot>)
  {
    && n <= |nows| && Runnable(blocks, START, Ticks(nows[..n]))
    && p == After(blocks, START, Ticks(nows[..n])) && shots == Shots(blocks, START, Ticks(nows[..n]))
  }

  /** The bytes of the next frame, if there is one. Too small a buffer changes nothing, and a
      frame put into the buffer fills exactly the size asked for. */
  method NextBytes(sender: SenderSession, now: u64, cap: nat) returns (r: Option<Bytes>, ghost sent: seq<Shot>)
    requires sender.Valid() && sender.frameIndex + 1 < U64
    modifies sender
    ensures sender.Valid()
    ensures cap < Capacity(sender) ==> sent == [] && sender.View() == old(sender.View())
    ensures cap >= Capacity(sender) ==> Sends(sender.content.Blocks(), old(sender.View()), now, sender.View(), sent)
    ensures OnScreen(sender.content, r, sent) && (r.Some? ==> |r.value| == Capacity(sender))
  {
    if cap < Capacity(sender) {
      return None, [];
    }
    ghost var e := Emit(sender.content.Blocks(), sender.View(), now);
    var frame := sender.NextFrame(now);
    if frame.Err? {
      return None, [];
    }
    var bytes := Frames.ToBytes(frame.value);
    FrameFillsWire(sender.content, e.result.value);
    return Some(bytes), [e.result.value];
  }

  /** The buffer one frame of this sender needs. */
  function Capacity(sender: SenderSession): nat { Frames.WireSize(sender.content.Meta().symbolSize) }

  /** One frame from screen to camera. */
  method Forward(sender: SenderSession, receiver: ReceiverSession, now: u64, ghost shots: seq<Shot>)
    returns (ghost sent: seq<Shot>)
    requires FaceToFace(sender, receiver, shots) && sender.View().frames + 1 < U64
    modifies sender, receiver, receiver.decoder
    ensures receiver.decoder != old(receiver.decoder) ==> fresh(receiver.decoder)
    ensures FaceToFace(sender, receiver, shots + sent)
    ensures Sends(sender.content.Blocks(), old(sender.View()), now, sender.View(), sent)
  {
    var bytes;
    bytes, sent := NextBytes(sender, now, Capacity(sender));
    Catch(receiver, bytes, sender.content, shots, sent);
  }

  /** The receiver hears what was shown of the frames of `c`. */
  method Catch(receiver: ReceiverSession, bytes: Option<Bytes>, ghost c: Content, ghost shots: seq<Shot>, ghost sent: seq<Shot>)
    requires Hearing(receiver, c, shots) && OnScreen(c, bytes, sent)
    modifies receiver, receiver.decoder
    ensures receiver.decoder != old(receiver.decoder) ==> fresh(receiver.decoder)
    ensures Hearing(receiver, c, shots + sent)
  {
    if bytes.None? {
      assert shots + sent == shots;
      return;
    }
    assert sent == [sent[0]];
    FrameIsShort(c, sent[0]);
    WhatWasHeard(receiver.world, c, receiver.View(), shots);
    HearingOneMore(receiver.world, c, receiver.View(), shots, sent[0]);
    var status := IngestBytes(receiver, bytes.value);
  }

  lemma TickMore(blocks: seq<SourceBlockMeta>, nows: seq<u64>, i: nat, p: Position, shots: seq<Shot>)
    requires i < |nows| && Runnable(blocks, START, Ticks(nows)) && Played(blocks, nows, i, p, shots)
    ensures p.frames + 1 < U64 && p.interval > 0
    ensures var e := Emit(blocks, p, nows[i]);
            Played(blocks, nows, i + 1, e.next, shots + (if e.result.Ok? then [e.result.value] else []))
  {
    var calls := Ticks(nows[..i + 1]);
    assert calls[..i] == Ticks(nows[..i]) && calls[i] == Next(nows[i]);
  }
}
