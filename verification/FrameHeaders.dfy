/** What the header of every frame a session sends says. */
module FrameHeaders {
  import opened Words
  import opened Metadata
  import opened SourcePlans
  import opened Senders
  import opened Emissions
  import opened EndToEnd
  import Descriptors
  import Frames

  /** The fields that say which frame it is: flags, block and symbol. */
  predicate Names(h: Frames.FrameHeader, shot: Shot)
  {
    match shot
    case DescriptorShot(_, _) => h.flags == 1 && h.sbn == 0 && h.esi == 0
    case DataShot(id, _, _) => h.flags == 0 && h.sbn == id.sbn && h.esi == id.esi
  }

  /** Parsed again, a frame carries the session's id and sizes, its own number, the clock of its
      call and its coordinates, and a symbol or a descriptor that reads as announced. */
  lemma HeaderOfShot(c: Content, shot: Shot)
    requires Shootable(c, shot)
    ensures var r := Frames.FromBytes(Frames.WireBytes(FrameOf(c, shot)));
            && r.Ok?
            && var h := r.value.header;
            && h.sessionId == c.sessionId && h.symbolSize == c.Meta().symbolSize
            && h.totalBlocks == |c.Blocks()| && h.totalSymbols == TotalK(c.Blocks())
            && h.frameIndex == shot.frameIndex && h.timestampMs == shot.now
            && Names(h, shot)
            && (shot.DataShot? ==> r.value.payload == c.encoder.Packet(shot.id.sbn, shot.id.esi))
            && (shot.DescriptorShot? ==> Descriptors.ParsePayload(r.value.payload) == Some(c.Announced()))
  {
    if shot.DataShot? {
      SymbolHasSymbolSize(c, shot.id.sbn, shot.id.esi);
    } else {
      Descriptors.BuildSucceedsExactly(c.Meta(), c.fileMeta, c.segment);
      Descriptors.BuiltParsesBack(c.Meta(), c.fileMeta, c.segment);
    }
    Frames.ParseOfWireBytes(FrameOf(c, shot));
  }

  /** What the header of call `n` at interval `d` says, when the clock is `now`. */
  ghost predicate SaysCall(c: Content, h: Frames.FrameHeader, d: nat, n: nat, now: u64)
    requires c.Blocks() != [] && d > 0
  {
    && h.frameIndex == n + 1 && h.timestampMs == now && (h.flags == 1 <==> n % d == 0)
    && (h.flags == 0 ==>
         DataBefore(d, n) >= 0 && DataId(c.Blocks(), DataBefore(d, n)) == Some(SymbolId(h.sbn, h.esi)))
  }

  lemma ShotSaysCall(c: Content, d: nat, n: nat, now: u64, shot: Shot)
    requires Shootable(c, shot) && c.Blocks() != [] && d > 0
    requires shot.frameIndex == n + 1 && shot.now == now && (shot.DescriptorShot? <==> n % d == 0)
    requires shot.DataShot? ==> DataBefore(d, n) >= 0 && DataId(c.Blocks(), DataBefore(d, n)) == Some(shot.id)
    ensures var frame := Frames.FromBytes(Frames.WireBytes(FrameOf(c, shot)));
            frame.Ok? && SaysCall(c, frame.value.header, d, n, now)
  {
    HeaderOfShot(c, shot);
  }

  /** At a fixed interval the frame of call `n`, if there is one, carries number `n + 1` and the
      clock of that call; a descriptor when the interval divides `n`, else the next data symbol. */
  lemma FrameAtCall(c: Content, d: nat, nows: seq<u64>, now: u64)
    requires c.Valid() && Runnable(c.Blocks(), Position(0, 0, d), Ticks(nows + [now]))
    ensures Runnable(c.Blocks(), Position(0, 0, d), Ticks(nows))
    ensures var r := Emit(c.Blocks(), After(c.Blocks(), Position(0, 0, d), Ticks(nows)), now).result;
            r.Ok? ==>
              && Shootable(c, r.value)
              && var frame := Frames.FromBytes(Frames.WireBytes(FrameOf(c, r.value)));
              frame.Ok? && SaysCall(c, frame.value.header, d, |nows|, now)
  {
    CadenceIsExact(c.Blocks(), d, nows, now);
    var p := After(c.Blocks(), Position(0, 0, d), Ticks(nows));
    EmissionsAreShootable(c, p, now);
    EmitStamps(c.Blocks(), p, now);
    var r := Emit(c.Blocks(), p, now).result;
    if r.Ok? {
      ShotSaysCall(c, d, |nows|, now, r.value);
    }
  }

  lemma EmitStamps(blocks: seq<SourceBlockMeta>, p: Position, now: u64)
    requires blocks != [] && p.interval > 0 && p.frames + 1 < U64
    ensures var r := Emit(blocks, p, now).result; r.Ok? ==> r.value.now == now
  {
  }
}
