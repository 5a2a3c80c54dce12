/** A way to cut objects into source blocks that keeps the library's promise for every object:
    full blocks from the end, the remainder in front. */
module Layouts {
  import opened Words
  import opened Sums
  import opened Division
  import opened Metadata
  import opened BlockCodecs
  import opened Encoders

  function FullBlock(t: nat): nat { MAX_SOURCE_SYMBOLS_PER_BLOCK * t }

  function Blocks(data: Bytes, t: nat): (q: seq<SourceBlock>)
    requires t > 0
    ensures q != []
    decreases |data|
  {
    if |data| <= FullBlock(t) then [SourceBlock(|data| / t, data)]
    else
      var cut := |data| - FullBlock(t);
      Blocks(data[..cut], t) + [SourceBlock(MAX_SOURCE_SYMBOLS_PER_BLOCK, data[cut..])]
  }

  /** One sub-block, alignment eight. */
  function OtiFor(len: nat, t: nat, blocks: nat): Oti
  {
    Be(len, W5) + [0] + Be(t, W2) + [blocks % 0x100] + [0, 1] + [8]
  }

  const W5: nat := 5

  function Greedy(): (Bytes, nat) -> Layout
  {
    (data: Bytes, t: nat) =>
      if t == 0 then Layout(OtiFor(0, 0, 0), [])
      else Layout(OtiFor(|data|, t, |Blocks(data, t)|), Blocks(data, t))
  }

  lemma {:induction false} BlocksCover(data: Bytes, t: nat, n: nat)
    requires t > 0 && n > 0 && |data| == n * t
    ensures var q := Blocks(data, t);
            && BytesOf(q, |q|) == data
            && forall i :: 0 <= i < |q| ==> q[i].k <= MAX_SOURCE_SYMBOLS_PER_BLOCK && q[i].Whole(t)
    decreases |data|
  {
    var q := Blocks(data, t);
    if |data| <= FullBlock(t) {
      DivMod(|data|, t, n, 0);
      TimesCancels(n, MAX_SOURCE_SYMBOLS_PER_BLOCK, t);
      assert BytesOf(q, 1) == BytesOf(q, 0) + q[0].bytes;
    } else {
      var cut := |data| - FullBlock(t);
      WithoutFullBlock(n, t);
      BlocksCover(data[..cut], t, n - MAX_SOURCE_SYMBOLS_PER_BLOCK);
      BytesSnoc(Blocks(data[..cut], t), SourceBlock(MAX_SOURCE_SYMBOLS_PER_BLOCK, data[cut..]));
      assert data == data[..cut] + data[cut..];
    }
  }

  lemma WithoutFullBlock(n: nat, t: nat)
    requires t > 0 && n * t > FullBlock(t)
    ensures n > MAX_SOURCE_SYMBOLS_PER_BLOCK
    ensures n * t - FullBlock(t) == (n - MAX_SOURCE_SYMBOLS_PER_BLOCK) * t
  {
    TimesCancels(n, MAX_SOURCE_SYMBOLS_PER_BLOCK, t);
    Distribute(n - MAX_SOURCE_SYMBOLS_PER_BLOCK, MAX_SOURCE_SYMBOLS_PER_BLOCK, t);
  }

  lemma TimesCancels(a: nat, b: nat, t: nat)
    requires t > 0
    ensures a * t <= b * t <==> a <= b
  {
  }

  lemma {:induction false} BytesOfPrefix(q: seq<SourceBlock>, b: SourceBlock, n: nat)
    requires n <= |q|
    ensures BytesOf(q + [b], n) == BytesOf(q, n)
  {
    if n > 0 {
      BytesOfPrefix(q, b, n - 1);
    }
  }

  lemma BytesSnoc(q: seq<SourceBlock>, b: SourceBlock)
    ensures BytesOf(q + [b], |q| + 1) == BytesOf(q, |q|) + b.bytes
  {
    BytesOfPrefix(q, b, |q|);
  }

  /** As many blocks as it takes. */
  lemma {:induction false} BlockCount(data: Bytes, t: nat, n: nat)
    requires t > 0 && n > 0 && (n - 1) * FullBlock(t) < |data| <= n * FullBlock(t)
    ensures |Blocks(data, t)| == n
    decreases n
  {
    if n > 1 {
      assert (n - 1) * FullBlock(t) == (n - 2) * FullBlock(t) + FullBlock(t);
      assert n * FullBlock(t) == (n - 1) * FullBlock(t) + FullBlock(t);
      BlockCount(data[..|data| - FullBlock(t)], t, n - 1);
    }
  }

  /** Every object within the limits is cut into few enough blocks. */
  lemma FewBlocks(data: Bytes, t: nat)
    requires MIN_SYMBOL_SIZE <= t && 0 < |data| <= MAX_OBJECT_BYTES
    ensures |Blocks(data, t)| <= 10
  {
    var b := FullBlock(t);
    TimesKeepsOrder(MAX_SOURCE_SYMBOLS_PER_BLOCK, MIN_SYMBOL_SIZE, t);
    var n := (|data| - 1) / b + 1;
    Enclosed(|data|, b, n);
    BlockCount(data, t, n);
  }

  lemma Enclosed(len: nat, b: nat, n: nat)
    requires 3_609_792 <= b && 0 < len <= MAX_OBJECT_BYTES && n == (len - 1) / b + 1
    ensures (n - 1) * b < len <= n * b && n <= 10
  {
    var q: nat, r: nat := (len - 1) / b, (len - 1) % b;
    assert len - 1 == b * q + r;
    TimesKeepsOrder(b, 10, q);
    assert (q + 1) * b == b * q + b;
  }

  lemma GreedyPartitions(data: Bytes, t: nat, n: nat)
    requires MIN_SYMBOL_SIZE <= t && n > 0 && |data| == n * t && |data| <= MAX_OBJECT_BYTES
    ensures Partitions(Greedy()(data, t), data, t)
  {
    FewBlocks(data, t);
    GreedyCovers(data, t, n);
  }

  /** A larger object is laid out just as well. */
  lemma GreedyCovers(data: Bytes, t: nat, n: nat)
    requires t > 0 && n > 0 && |data| == n * t && |Blocks(data, t)| < U32
    ensures Partitions(Greedy()(data, t), data, t)
  {
    BlocksCover(data, t, n);
  }

  // ----- Its layouts pass the receiver's gate

  /** Blocks of whole symbols: their bytes are as many symbols as the layout says. */
  lemma {:induction false} BytesAreSymbols(source: seq<SourceBlock>, blocks: seq<SourceBlockMeta>, t: nat, n: nat)
    requires n <= |source| == |blocks|
    requires forall i :: 0 <= i < |source| ==> source[i].k == blocks[i].numSourceSymbols && source[i].Whole(t)
    ensures |BytesOf(source, n)| == Sum(Ks(blocks)[..n]) * t
  {
    if n > 0 {
      BytesAreSymbols(source, blocks, t, n - 1);
      SumPrefix(Ks(blocks), n - 1);
      Distribute(Sum(Ks(blocks)[..n - 1]), source[n - 1].k, t);
    }
  }

  /** The transfer length is that many symbols. */
  lemma LengthIsSymbols(e: Encoder)
    requires e.Valid()
    ensures e.meta.transferLength == TotalK(e.meta.blocks) * e.meta.symbolSize
  {
    BytesAreSymbols(e.source, e.meta.blocks, e.meta.symbolSize, |e.source|);
    assert Ks(e.meta.blocks)[..|e.source|] == Ks(e.meta.blocks);
  }

  lemma OtiReads(len: nat, t: nat, blocks: nat)
    requires len < Pow256(W5) && t < 0x1_0000 && blocks < 0x100
    ensures var o := OtiFor(len, t, blocks);
            && OtiTransferLength(o) == len && OtiSymbolSize(o) == t && OtiSourceBlocks(o) == blocks
            && OtiSubBlocks(o) == 1 && OtiAlignment(o) == 8 && o[5] == 0
  {
    var o := OtiFor(len, t, blocks);
    assert o[0..5] == Be(len, W5) && o[6..8] == Be(t, W2) && o[9..11] == [0, 1];
    UnbeBe(len, W5);
    Pow256Values();
    UnbeBe(t, W2);
    assert [0, 1][..1] == [0] && [0][..0] == [];
    assert Unbe([0]) == 0;
  }

  lemma FiveBytesHold(len: nat)
    requires len <= MAX_OBJECT_BYTES
    ensures len < Pow256(W5)
  {
    Pow256Values();
    assert Pow256(5) == 256 * Pow256(4);
  }

  lemma SymbolsBound(total: nat, t: nat, len: nat)
    requires total * t == len <= MAX_OBJECT_BYTES && MIN_SYMBOL_SIZE <= t
    ensures total <= MAX_TOTAL_SOURCE_SYMBOLS
  {
    TimesKeepsOrder(total, MIN_SYMBOL_SIZE, t);
  }

  /** Any object within the limits gets a layout that the gate lets through. */
  lemma GreedyIsValid(codec: BlockCodec, data: Bytes, t: u32, n: nat)
    requires ConfigOk(t) && n > 0 && |data| == n * t && |data| <= MAX_OBJECT_BYTES
    ensures Partitions(Greedy()(data, t), data, t)
    ensures NewEncoder(codec, Greedy(), data, t).Ok?
    ensures ValidMeta(NewEncoder(codec, Greedy(), data, t).value.meta)
  {
    GreedyPartitions(data, t, n);
    assert data != [] by { TimesCancels(n, 0, t); }
    NewEncoderIsValid(codec, Greedy(), data, t);
    var e := NewEncoder(codec, Greedy(), data, t).value;
    FewBlocks(data, t);
    FiveBytesHold(|data|);
    OtiReads(|data|, t, |Blocks(data, t)|);
    LengthIsSymbols(e);
    SymbolsBound(TotalK(e.meta.blocks), t, |data|);
    GateOpens(e.meta);
  }

  lemma GateOpens(m: ObjectMeta)
    requires ConfigOk(m.symbolSize) && 0 < |m.blocks| <= 10 && 0 < m.transferLength <= MAX_OBJECT_BYTES
    requires forall i :: 0 <= i < |m.blocks| ==> BlockOk(m, i)
    requires OtiTransferLength(m.otiBytes) == m.transferLength && OtiSymbolSize(m.otiBytes) == m.symbolSize
    requires OtiSourceBlocks(m.otiBytes) == |m.blocks| && OtiSubBlocks(m.otiBytes) == 1
    requires OtiAlignment(m.otiBytes) == 8 && m.otiBytes[5] == 0
    requires TotalK(m.blocks) <= MAX_TOTAL_SOURCE_SYMBOLS && m.transferLength == TotalK(m.blocks) * m.symbolSize
    ensures ValidMeta(m)
  {
  }
}
