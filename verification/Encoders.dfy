/** Padding an object to whole symbols, and handing out the encoding symbols of its blocks. */
module Encoders {
  import opened Words
  import opened Division
  import opened Metadata
  import opened BlockCodecs

  // ----- Padding

  /** `data` with zeros up to a whole number of `t`-byte symbols. */
  function Padded(data: Bytes, t: nat): Bytes
    requires t > 0
  {
    if |data| % t == 0 then data else data + Zeros(t - |data| % t)
  }

  method PadToSymbols(data: Bytes, symbolSize: u32) returns (out: Bytes)
    requires symbolSize > 0
    ensures out == Padded(data, symbolSize)
  {
    var rem := |data| % symbolSize;
    if rem == 0 {
      return data;
    }
    out := data;
    var n: nat := |data| + (symbolSize - rem);
    while |out| < n
      invariant |data| <= |out| <= n && out == data + Zeros(|out| - |data|)
    {
      out := out + [0];
    }
  }

  /** Whole symbols, less than one symbol of padding, and cutting it off gives the data back. */
  lemma PaddingIsTight(data: Bytes, t: nat)
    requires t > 0
    ensures |Padded(data, t)| % t == 0 && |data| <= |Padded(data, t)| < |data| + t
    ensures Padded(data, t)[..|data|] == data
    ensures forall i :: |data| <= i < |Padded(data, t)| ==> Padded(data, t)[i] == 0
  {
    var q: nat, r: nat := |data| / t, |data| % t;
    assert |data| == q * t + r;
    if r != 0 {
      assert |Padded(data, t)| == (q + 1) * t;
      DivMod(|Padded(data, t)|, t, q + 1, 0);
    }
  }

  lemma PaddingOfNothing(data: Bytes, t: nat)
    requires t > 0
    ensures Padded(data, t) == [] <==> data == []
  {
    if data == [] {
      DivMod(0, t, 0, 0);
    }
  }

  // ----- The split into source blocks

  /** How the RaptorQ library lays an object out: its transmission information and its source
      blocks.  The choice of block sizes is the library's. */
  datatype Layout = Layout(oti: Oti, source: seq<SourceBlock>)

  /** The bytes of the first `n` blocks. */
  function BytesOf(source: seq<SourceBlock>, n: nat): Bytes
    requires n <= |source|
  {
    if n == 0 then [] else BytesOf(source, n - 1) + source[n - 1].bytes
  }

  /** What the library promises: non-empty blocks of whole symbols that make up the data. */
  ghost predicate Partitions(l: Layout, data: Bytes, t: nat)
  {
    && 0 < |l.source| < U32
    && (forall i :: 0 <= i < |l.source| ==> l.source[i].k <= MAX_SOURCE_SYMBOLS_PER_BLOCK && l.source[i].Whole(t))
    && BytesOf(l.source, |l.source|) == data
  }

  /** The promise can be kept: one block does for any object it can hold. */
  lemma OneBlockPartitions(data: Bytes, t: nat, n: nat, oti: Oti)
    requires 0 < n <= MAX_SOURCE_SYMBOLS_PER_BLOCK && |data| == n * t
    ensures Partitions(Layout(oti, [SourceBlock(n, data)]), data, t)
  {
    var source := [SourceBlock(n, data)];
    assert BytesOf(source, 1) == BytesOf(source, 0) + source[0].bytes;
  }

  // ----- The encoder

  datatype Symbol = Symbol(sbn: u32, esi: u32, data: Bytes)

  datatype CodecError =
    | EmptyData
    | InvalidSymbolSize
    | BlockOutOfRange(sbn: u32, total: nat)
    | UnknownSymbol(sbn: u32, esi: u32)

  lemma BlockLengthFits(k: nat, t: nat)
    requires k <= MAX_SOURCE_SYMBOLS_PER_BLOCK && t <= MAX_SYMBOL_SIZE
    ensures k * t < U64
  {
    TimesKeepsOrder(k, t, MAX_SYMBOL_SIZE);
  }

  function BlockMeta(l: Layout, t: u32, i: nat): SourceBlockMeta
    requires i < |l.source| < U32 && l.source[i].k <= MAX_SOURCE_SYMBOLS_PER_BLOCK && t <= MAX_SYMBOL_SIZE
  {
    BlockLengthFits(l.source[i].k, t);
    SourceBlockMeta(i, l.source[i].k, l.source[i].k * t)
  }

  function MetaOf(l: Layout, len: u64, t: u32): (m: ObjectMeta)
    requires |l.source| < U32 && t <= MAX_SYMBOL_SIZE
    requires forall i :: 0 <= i < |l.source| ==> l.source[i].k <= MAX_SOURCE_SYMBOLS_PER_BLOCK
  {
    ObjectMeta(len, t, l.oti, seq(|l.source|, i requires 0 <= i < |l.source| => BlockMeta(l, t, i)))
  }

  /** `cached` holds the source symbols of every block, encoded once. */
  datatype Encoder = Encoder(codec: BlockCodec, meta: ObjectMeta, source: seq<SourceBlock>, cached: seq<seq<Bytes>>)
  {
    /** Symbol `esi` of block `i`. */
    function Packet(i: nat, esi: nat): Bytes
      requires i < |source|
    {
      codec.encode(meta.otiBytes, source[i], esi)
    }

    /** The layout describes the source blocks, and the cache holds their source symbols. */
    ghost predicate Valid()
    {
      && ConfigOk(meta.symbolSize)
      && 0 < |source| == |meta.blocks| == |cached| < U32
      && (forall i :: 0 <= i < |source| ==>
           && BlockOk(meta, i)
           && source[i].k == meta.blocks[i].numSourceSymbols && source[i].Whole(meta.symbolSize)
           && |cached[i]| == source[i].k
           && (forall e :: 0 <= e < |cached[i]| ==> cached[i][e] == Packet(i, e)))
      && |BytesOf(source, |source|)| == meta.transferLength
    }

    function SourceSymbol(sbn: u32, esi: u32): Result<Symbol, CodecError>
      requires |source| == |meta.blocks| == |cached|
    {
      if sbn >= |source| then Err(BlockOutOfRange(sbn, |source|))
      else if esi >= meta.blocks[sbn].numSourceSymbols || esi >= |cached[sbn]| then Err(UnknownSymbol(sbn, esi))
      else Ok(Symbol(sbn, esi, cached[sbn][esi]))
    }

    /** `count` consecutive repair symbols from offset `start` past the source symbols. */
    function RepairSymbols(sbn: u32, start: u32, count: u32): Result<seq<Symbol>, CodecError>
      requires |source| == |meta.blocks|
    {
      if sbn >= |source| then Err(BlockOutOfRange(sbn, |source|))
      else if count == 0 then Ok([])
      else
        var k := meta.blocks[sbn].numSourceSymbols;
        if k + start >= U32 || k + start + (count - 1) >= U32 then Err(UnknownSymbol(sbn, U32 - 1))
        else if k + start + (count - 1) >= ESI_LIMIT then Err(UnknownSymbol(sbn, k + start + (count - 1)))
        else Ok(seq(count, i requires 0 <= i < count =>
                  Symbol(sbn, k + start + i, Packet(sbn, k + start + i))))
    }
  }

  /** `layout` is what the library answers for the object. */
  function NewEncoder(codec: BlockCodec, layout: (Bytes, nat) -> Layout, data: Bytes, t: u32): Result<Encoder, CodecError>
    requires |data| < U64
    requires data != [] && ConfigOk(t) ==> Partitions(layout(data, t), data, t)
  {
    if data == [] then Err(EmptyData)
    else if !ConfigOk(t) then Err(InvalidSymbolSize)
    else
      var l := layout(data, t);
      Ok(Encoder(codec, MetaOf(l, |data|, t), l.source,
                 seq(|l.source|, i requires 0 <= i < |l.source| => SourcePackets(codec, l.oti, l.source[i]))))
  }

  /** All source symbols of a block. */
  function SourcePackets(codec: BlockCodec, oti: Oti, block: SourceBlock): seq<Bytes>
  {
    seq(block.k, e requires 0 <= e < block.k => codec.encode(oti, block, e))
  }

  /** A new encoder describes its data truthfully. */
  lemma NewEncoderIsValid(codec: BlockCodec, layout: (Bytes, nat) -> Layout, data: Bytes, t: u32)
    requires |data| < U64
    requires data != [] && ConfigOk(t) ==> Partitions(layout(data, t), data, t)
    ensures var r := NewEncoder(codec, layout, data, t);
            && (r.Ok? <==> data != [] && ConfigOk(t))
            && (r.Ok? ==> r.value.Valid() && BytesOf(r.value.source, |r.value.source|) == data)
  {
  }

  /** A source id of an existing block is fetched from the cached packets. */
  lemma SourceIdsFetch(e: Encoder, sbn: u32, esi: u32)
    requires e.Valid()
    ensures e.SourceSymbol(sbn, esi).Ok? <==> sbn < |e.source| && esi < e.meta.blocks[sbn].numSourceSymbols
    ensures e.SourceSymbol(sbn, esi).Ok? ==> e.SourceSymbol(sbn, esi).value == Symbol(sbn, esi, e.Packet(sbn, esi))
  {
  }

  /** A repair id is fetched exactly up to the 24-bit limit. */
  lemma RepairIdsFetch(e: Encoder, sbn: u32, offset: u32)
    requires |e.source| == |e.meta.blocks|
    ensures var r := e.RepairSymbols(sbn, offset, 1);
            && (r.Ok? <==> sbn < |e.source| && e.meta.blocks[sbn].numSourceSymbols + offset < ESI_LIMIT)
            && (r.Ok? ==>
                 var esi := e.meta.blocks[sbn].numSourceSymbols + offset;
                 r.value == [Symbol(sbn, esi, e.Packet(sbn, esi))])
  {
  }
}
