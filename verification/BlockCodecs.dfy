/** One source block's erasure code, as a parameter with laws.  The RaptorQ solver is a
    foreign library; only what the rest of the system relies on is stated. */
module BlockCodecs {
  import opened Words
  import opened Division
  import opened Metadata

  /** The `k * symbolSize` bytes of one source block.  How the library spreads them over the
      block's symbols, sub-blocks included, is its own affair. */
  datatype SourceBlock = SourceBlock(k: nat, bytes: Bytes)
  {
    /** The block is `k` whole symbols of `t` bytes. */
    ghost predicate Whole(t: nat)
    {
      k > 0 && |bytes| == k * t
    }
  }

  /** `encode(oti, block, esi)` is an encoding symbol, source or repair, under this transmission
      information; `sufficient(K, esis)` says whether a block can be solved from symbols with
      these ids; `solve(oti, K, held)` is the block recovered from the symbols held. */
  datatype BlockCodec = BlockCodec(
    encode: (Oti, SourceBlock, nat) -> Bytes,
    sufficient: (nat, set<nat>) -> bool,
    solve: (Oti, nat, map<nat, Bytes>) -> Bytes)
  {
    /** More symbols never hurt. */
    ghost predicate Monotone()
    {
      forall k: nat, s: set<nat>, t: set<nat> :: sufficient(k, s) && s <= t ==> sufficient(k, t)
    }

    /** A block of K symbols needs at least K. */
    ghost predicate NoFreeLunch()
    {
      forall k: nat, s: set<nat> :: sufficient(k, s) ==> |s| >= k
    }

    ghost predicate Genuine(oti: Oti, block: SourceBlock, held: map<nat, Bytes>)
    {
      forall e :: e in held ==> held[e] == encode(oti, block, e)
    }

    /** Genuine symbols give back the block. */
    ghost predicate Sound()
    {
      forall oti: Oti, block: SourceBlock, t: nat, held: map<nat, Bytes> ::
        block.Whole(t) && Genuine(oti, block, held) && sufficient(block.k, held.Keys)
        ==> solve(oti, block.k, held) == block.bytes
    }

    /** Every encoding symbol has the symbol size. */
    ghost predicate Sized()
    {
      forall oti: Oti, block: SourceBlock, t: nat, e: nat :: block.Whole(t) ==> |encode(oti, block, e)| == t
    }

    /** The K source symbols suffice. */
    ghost predicate SourceSuffices()
    {
      forall k: nat :: sufficient(k, Ids(k))
    }

    ghost predicate Lawful()
    {
      Monotone() && NoFreeLunch() && Sound() && Sized() && SourceSuffices()
    }
  }

  /** The ids 0 .. k-1. */
  ghost function Ids(k: nat): (s: set<nat>)
    ensures forall e: nat :: e in s <==> e < k
  {
    if k == 0 then {} else Ids(k - 1) + {k - 1}
  }

  lemma {:induction false} CardIds(k: nat)
    ensures |Ids(k)| == k
  {
    if k > 0 {
      CardIds(k - 1);
    }
  }

  // ----- The laws can be met: repeating the source symbols forever is such a code

  ghost predicate HasResidue(k: nat, i: nat, s: set<nat>)
    requires k > 0
  {
    exists e :: e in s && e % k == i
  }

  ghost predicate CoversAll(k: nat, s: set<nat>)
  {
    forall i :: 0 <= i < k ==> HasResidue(k, i, s)
  }

  ghost function AnyOf(k: nat, i: nat, s: set<nat>): (e: nat)
    requires 0 < k && HasResidue(k, i, s)
    ensures e in s && e % k == i
  {
    var e :| e in s && e % k == i;
    e
  }

  /** Share `i` of `k` equal shares. */
  function Share(block: SourceBlock, i: nat): Bytes
    requires i < block.k
  {
    var t := |block.bytes| / block.k;
    ShareFits(|block.bytes|, block.k, i);
    block.bytes[i * t..(i + 1) * t]
  }

  lemma ShareFits(n: nat, k: nat, i: nat)
    requires i < k
    ensures 0 <= i * (n / k) <= (i + 1) * (n / k) <= n
  {
    TimesKeepsOrder(n / k, i, i + 1);
    TimesKeepsOrder(n / k, i + 1, k);
    assert n == k * (n / k) + n % k;
  }

  /** One held symbol for each of the first `n` residues, end to end. */
  ghost function Gathered(k: nat, n: nat, held: map<nat, Bytes>): Bytes
    requires n <= k && CoversAll(k, held.Keys)
  {
    if n == 0 then [] else Gathered(k, n - 1, held) + held[AnyOf(k, n - 1, held.Keys)]
  }

  ghost function Repetition(): BlockCodec
  {
    BlockCodec(
      (oti: Oti, block: SourceBlock, e: nat) => if block.k == 0 then [] else Share(block, e % block.k),
      (k: nat, s: set<nat>) => CoversAll(k, s),
      (oti: Oti, k: nat, held: map<nat, Bytes>) => if CoversAll(k, held.Keys) then Gathered(k, k, held) else [])
  }

  lemma {:induction false} ResiduesNeedMembers(k: nat, n: nat, s: set<nat>)
    requires n <= k && forall i :: 0 <= i < n ==> HasResidue(k, i, s)
    ensures |s| >= n
  {
    if n > 0 {
      var e := AnyOf(k, n - 1, s);
      forall i | 0 <= i < n - 1
        ensures HasResidue(k, i, s - {e})
      {
        assert AnyOf(k, i, s) in s - {e};
      }
      ResiduesNeedMembers(k, n - 1, s - {e});
    }
  }

  lemma WholeShares(block: SourceBlock, t: nat)
    requires block.Whole(t)
    ensures |block.bytes| / block.k == t
  {
    DivMod(|block.bytes|, block.k, t, 0);
  }

  lemma {:induction false} GatheredIsPrefix(oti: Oti, block: SourceBlock, t: nat, n: nat, held: map<nat, Bytes>)
    requires block.Whole(t) && n <= block.k && CoversAll(block.k, held.Keys)
    requires Repetition().Genuine(oti, block, held)
    ensures 0 <= n * t <= |block.bytes| && Gathered(block.k, n, held) == block.bytes[..n * t]
  {
    WholeShares(block, t);
    if n > 0 {
      GatheredIsPrefix(oti, block, t, n - 1, held);
      var e := AnyOf(block.k, n - 1, held.Keys);
      assert held[e] == Repetition().encode(oti, block, e) == Share(block, n - 1);
      ShareFits(|block.bytes|, block.k, n - 1);
    }
  }

  lemma RepetitionIsSound()
    ensures Repetition().Sound()
  {
    var c := Repetition();
    forall oti: Oti, block: SourceBlock, t: nat, held: map<nat, Bytes> |
      block.Whole(t) && c.Genuine(oti, block, held) && c.sufficient(block.k, held.Keys)
      ensures c.solve(oti, block.k, held) == block.bytes
    {
      GatheredIsPrefix(oti, block, t, block.k, held);
      assert block.bytes[..|block.bytes|] == block.bytes;
    }
  }

  lemma RepetitionIsSized()
    ensures Repetition().Sized()
  {
    var c := Repetition();
    forall oti: Oti, block: SourceBlock, t: nat, e: nat | block.Whole(t)
      ensures |c.encode(oti, block, e)| == t
    {
      WholeShares(block, t);
      ShareFits(|block.bytes|, block.k, e % block.k);
      Distribute(e % block.k, 1, t);
    }
  }

  lemma RepetitionIsMonotone()
    ensures Repetition().Monotone()
  {
    var c := Repetition();
    forall k: nat, s: set<nat>, t: set<nat> | c.sufficient(k, s) && s <= t
      ensures c.sufficient(k, t)
    {
      forall i | 0 <= i < k
        ensures HasResidue(k, i, t)
      {
        assert AnyOf(k, i, s) in t;
      }
    }
  }

  lemma RepetitionTakesSource()
    ensures Repetition().SourceSuffices()
  {
    var c := Repetition();
    forall k: nat
      ensures c.sufficient(k, Ids(k))
    {
      forall i | 0 <= i < k
        ensures HasResidue(k, i, Ids(k))
      {
        OwnResidue(k, i);
      }
    }
  }

  lemma OwnResidue(k: nat, i: nat)
    requires i < k
    ensures HasResidue(k, i, Ids(k))
  {
    DivMod(i, k, 0, i);
    assert i in Ids(k) && i % k == i;
  }

  lemma RepetitionNeedsK()
    ensures Repetition().NoFreeLunch()
  {
    var c := Repetition();
    forall k: nat, s: set<nat> | c.sufficient(k, s)
      ensures |s| >= k
    {
      ResiduesNeedMembers(k, k, s);
    }
  }

  /** So the assumptions on the codec are consistent. */
  lemma RepetitionIsLawful()
    ensures Repetition().Lawful()
  {
    RepetitionIsSound();
    RepetitionIsSized();
    RepetitionIsMonotone();
    RepetitionTakesSource();
    RepetitionNeedsK();
  }
}
