/** The per-object decoder: one solver state per source block. */
module Decoders {
  import opened Words
  import opened Metadata
  import opened BlockCodecs

  /** The symbols a block's solver holds (first copy of each id) and, once solved, its bytes. */
  datatype BlockState = BlockState(held: map<nat, Bytes>, decoded: Option<Bytes>)

  const FRESH: BlockState := BlockState(map[], None)

  /** One symbol enters one block's solver. */
  function AddToBlock(codec: BlockCodec, oti: Oti, k: nat, b: BlockState, esi: nat, data: Bytes): BlockState
  {
    if b.decoded.Some? then b
    else
      var held := if esi in b.held then b.held else b.held[esi := data];
      BlockState(held, if codec.sufficient(k, held.Keys) then Some(codec.solve(oti, k, held)) else None)
  }

  predicate AllDecoded(blocks: seq<BlockState>)
  {
    forall i :: 0 <= i < |blocks| ==> blocks[i].decoded.Some?
  }

  /** Concatenation of the first `n` recovered blocks. */
  function Joined(blocks: seq<BlockState>, n: nat): Bytes
    requires n <= |blocks| && AllDecoded(blocks)
  {
    if n == 0 then [] else Joined(blocks, n - 1) + blocks[n - 1].decoded.value
  }

  /** `Vec::truncate`. */
  function Cut(b: Bytes, n: nat): Bytes
  {
    if n <= |b| then b[..n] else b
  }

  function Assembled(m: ObjectMeta, blocks: seq<BlockState>): Option<Bytes>
  {
    if AllDecoded(blocks) then Some(Cut(Joined(blocks, |blocks|), m.transferLength)) else None
  }

  datatype DecoderError = BlockOutOfRange(sbn: u32, total: nat)

  class Decoder {
    const codec: BlockCodec
    const meta: ObjectMeta
    var blocks: seq<BlockState>

    constructor (codec: BlockCodec, meta: ObjectMeta)
      requires ValidMeta(meta)
      ensures this.codec == codec && this.meta == meta
      ensures blocks == seq(|meta.blocks|, _ => FRESH)
    {
      this.codec := codec;
      this.meta := meta;
      blocks := seq(|meta.blocks|, _ => FRESH);
    }

    predicate Valid()
      reads this
    {
      |blocks| == |meta.blocks|
    }

    /** K once block `sbn` is recovered. */
    function BlockProgress(sbn: u32): Option<u32>
      requires Valid()
      reads this
    {
      if sbn < |blocks| && blocks[sbn].decoded.Some? then Some(meta.blocks[sbn].numSourceSymbols) else None
    }

    method AddSymbol(sbn: u32, esi: u32, data: Bytes) returns (r: Result<bool, DecoderError>)
      requires Valid()
      modifies this
      ensures Valid()
      ensures r.Err? <==> sbn >= |meta.blocks|
      ensures r.Ok? ==> r.value == AllDecoded(blocks)
      ensures blocks == if sbn < |meta.blocks| && esi < ESI_LIMIT && |data| == meta.symbolSize
                        then old(blocks)[sbn := AddToBlock(codec, meta.otiBytes, meta.blocks[sbn].numSourceSymbols, old(blocks)[sbn], esi, data)]
                        else old(blocks)
    {
      if sbn >= |blocks| {
        return Err(BlockOutOfRange(sbn, |blocks|));
      }
      if esi >= ESI_LIMIT || |data| != meta.symbolSize {
        return Ok(AllDecoded(blocks));
      }
      var b := blocks[sbn];
      if b.decoded.Some? {
        assert blocks == blocks[sbn := b];
        return Ok(AllDecoded(blocks));
      }
      var k := meta.blocks[sbn].numSourceSymbols;
      var held := if esi in b.held then b.held else b.held[esi := data];
      if codec.sufficient(k, held.Keys) {
        blocks := blocks[sbn := BlockState(held, Some(codec.solve(meta.otiBytes, k, held)))];
      } else {
        blocks := blocks[sbn := BlockState(held, None)];
      }
      return Ok(AllDecoded(blocks));
    }

    method Assemble() returns (r: Option<Bytes>)
      requires Valid()
      ensures r == Assembled(meta, blocks)
    {
      if !AllDecoded(blocks) {
        return None;
      }
      var out: Bytes := [];
      for i := 0 to |blocks|
        invariant out == Joined(blocks, i)
      {
        out := out + blocks[i].decoded.value;
      }
      return Some(Cut(out, meta.transferLength));
    }
  }
}
