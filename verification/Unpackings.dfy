/** What a finished session answers, compressed or not, and each of its errors. */
module Unpackings {
  import opened Words
  import opened Metadata
  import opened Decoders
  import opened Encoders
  import opened Senders
  import opened ReceiverStates
  import opened EndToEnd
  import opened Origins
  import opened Beginnings

  /** The most a decompressor may put out: the announced size, or 256 MiB when it is zero. */
  function OutputCap(fm: FileMeta): nat
  {
    if fm.originalSize == 0 then 0x1000_0000 else fm.originalSize
  }

  /** What unpacking `packed` under this file metadata may give. */
  ghost predicate UnpacksTo(w: World, packed: Bytes, fm: FileMeta, file: Bytes)
  {
    if fm.compression == 0 then file == packed
    else
      && fm.originalSize <= 0x1000_0000
      && w.decompress(packed, fm.compression, OutputCap(fm)) == Some(file)
      && (fm.originalSize == 0 || |file| == fm.originalSize)
  }

  /** The recovered object without its padding, when its true length was announced. */
  function Trimmed(raw: Bytes, fm: FileMeta): Bytes
    requires fm.compressedSizeKnown ==> fm.compressedSize <= |raw|
  {
    if fm.compressedSizeKnown then raw[..fm.compressedSize] else raw
  }

  /** The announced length exceeds what was recovered. */
  predicate Overclaims(raw: Bytes, fm: FileMeta)
  {
    fm.compressedSizeKnown && fm.compressedSize > |raw|
  }

  lemma FileExactly(w: World, s: State, raw: Bytes, file: Bytes)
    requires Shaped(s) && IsComplete(s) && Assembled(s.meta.value, s.book.blocks) == Some(raw)
    ensures AssembleResult(w, s) == Ok(Some(file))
       <==> !Overclaims(raw, s.fileMeta) && UnpacksTo(w, Trimmed(raw, s.fileMeta), s.fileMeta, file)
    ensures AssembleResult(w, s) != Ok(None)
  {
  }

  lemma OverclaimExactly(w: World, s: State, raw: Bytes, claimed: nat, recovered: nat)
    requires Shaped(s) && IsComplete(s) && Assembled(s.meta.value, s.book.blocks) == Some(raw)
    ensures AssembleResult(w, s) == Err(ClaimsMoreThanRecovered(claimed, recovered))
       <==> Overclaims(raw, s.fileMeta) && claimed == s.fileMeta.compressedSize && recovered == |raw|
  {
  }

  lemma ErrorsExactly(w: World, s: State, raw: Bytes, expected: nat, got: nat)
    requires Shaped(s) && IsComplete(s) && Assembled(s.meta.value, s.book.blocks) == Some(raw)
    requires !Overclaims(raw, s.fileMeta)
    ensures var fm := s.fileMeta;
            var out := w.decompress(Trimmed(raw, fm), fm.compression, OutputCap(fm));
            && (AssembleResult(w, s) == Err(OriginalSizeOverLimit) <==> fm.compression != 0 && fm.originalSize > 0x1000_0000)
            && (AssembleResult(w, s) == Err(DecompressionFailed)
                <==> fm.compression != 0 && fm.originalSize <= 0x1000_0000 && out.None?)
            && (AssembleResult(w, s) == Err(WrongOriginalSize(expected, got))
                <==> && fm.compression != 0 && 0 < fm.originalSize <= 0x1000_0000 && out.Some?
                     && expected == fm.originalSize != |out.value| == got)
  {
  }

  // ----- What the receiver of a sender's content answers

  lemma CompleteHolds(w: World, c: Content, payload: Bytes, o: Origin, wire: seq<Bytes>)
    requires w.Lawful() && w.codec == c.encoder.codec && Carries(c, payload) && AllHarmless(c, wire)
    requires o.Legal() && BegunFor(o, c) && HasDescriptor(Heard(c.sessionId, wire))
    requires IsComplete(Run(w, o.Start(w), Heard(c.sessionId, wire)))
    ensures var s := Run(w, o.Start(w), Heard(c.sessionId, wire));
            && s.meta.Some? && Shaped(s)
            && s.fileMeta == c.Announced().fileMeta
            && Assembled(s.meta.value, s.book.blocks) == Some(Padded(payload, c.Meta().symbolSize))
    ensures var raw := Padded(payload, c.Meta().symbolSize);
            var fm := c.Announced().fileMeta;
            !Overclaims(raw, fm) && Trimmed(raw, fm) == payload
  {
    var inputs := Heard(c.sessionId, wire);
    WireIsGenuine(c, wire);
    StartInvariant(w, o);
    BeginsFaithful(w, c, o);
    FaithFromHere(w, c, o.Start(w), inputs);
    CompleteMeansObject(w, c, Run(w, o.Start(w), inputs));
    PaddingIsTight(payload, c.Meta().symbolSize);
  }

  /** A complete session that has heard the descriptor hands out a file if and only if unpacking
      the payload its sender packed, as announced, gives that file. */
  lemma HandsOutFileExactly(w: World, c: Content, payload: Bytes, o: Origin, wire: seq<Bytes>, file: Bytes)
    requires w.Lawful() && w.codec == c.encoder.codec && Carries(c, payload) && AllHarmless(c, wire)
    requires o.Legal() && BegunFor(o, c) && HasDescriptor(Heard(c.sessionId, wire))
    requires IsComplete(Run(w, o.Start(w), Heard(c.sessionId, wire)))
    ensures AssembleResult(w, Run(w, o.Start(w), Heard(c.sessionId, wire))) == Ok(Some(file))
       <==> UnpacksTo(w, payload, c.fileMeta, file)
  {
    var s := Run(w, o.Start(w), Heard(c.sessionId, wire));
    CompleteHolds(w, c, payload, o, wire);
    FileExactly(w, s, Padded(payload, c.Meta().symbolSize), file);
  }

  /** And fails for these reasons and no others. */
  lemma FailsExactly(w: World, c: Content, payload: Bytes, o: Origin, wire: seq<Bytes>, error: AssembleError)
    requires w.Lawful() && w.codec == c.encoder.codec && Carries(c, payload) && AllHarmless(c, wire)
    requires o.Legal() && BegunFor(o, c) && HasDescriptor(Heard(c.sessionId, wire))
    requires IsComplete(Run(w, o.Start(w), Heard(c.sessionId, wire)))
    ensures var fm := c.fileMeta;
            var out := w.decompress(payload, fm.compression, OutputCap(fm));
            AssembleResult(w, Run(w, o.Start(w), Heard(c.sessionId, wire))) == Err(error)
            <==> && fm.compression != 0
                 && (|| (error == OriginalSizeOverLimit && fm.originalSize > 0x1000_0000)
                     || (error == DecompressionFailed && fm.originalSize <= 0x1000_0000 && out.None?)
                     || (&& 0 < fm.originalSize <= 0x1000_0000 && out.Some? && fm.originalSize != |out.value|
                         && error == WrongOriginalSize(fm.originalSize, |out.value|)))
  {
    var s := Run(w, o.Start(w), Heard(c.sessionId, wire));
    CompleteHolds(w, c, payload, o, wire);
    var raw := Padded(payload, c.Meta().symbolSize);
    match error
    case ClaimsMoreThanRecovered(a, b) => OverclaimExactly(w, s, raw, a, b);
    case WrongOriginalSize(a, b) => ErrorsExactly(w, s, raw, a, b);
    case _ => ErrorsExactly(w, s, raw, 0, 0);
  }

  /** The decompressor gives back whatever was compressed, given room for it. */
  ghost predicate Undoes(w: World, compress: Bytes -> Bytes, tag: u8)
  {
    forall file: Bytes, cap: nat :: |file| <= cap ==> w.decompress(compress(file), tag, cap) == Some(file)
  }

  /** So a file compressed by what the decompressor undoes, announced with its true size or none,
      comes out as it was. */
  lemma FileComesBack(w: World, c: Content, compress: Bytes -> Bytes, file: Bytes, o: Origin, wire: seq<Bytes>)
    requires w.Lawful() && w.codec == c.encoder.codec && Carries(c, compress(file)) && AllHarmless(c, wire)
    requires o.Legal() && BegunFor(o, c) && HasDescriptor(Heard(c.sessionId, wire))
    requires IsComplete(Run(w, o.Start(w), Heard(c.sessionId, wire)))
    requires c.fileMeta.compression != 0 && Undoes(w, compress, c.fileMeta.compression)
    requires |file| <= 0x1000_0000 && (c.fileMeta.originalSize == |file| || c.fileMeta.originalSize == 0)
    ensures AssembleResult(w, Run(w, o.Start(w), Heard(c.sessionId, wire))) == Ok(Some(file))
  {
    HandsOutFileExactly(w, c, compress(file), o, wire, file);
  }
}
