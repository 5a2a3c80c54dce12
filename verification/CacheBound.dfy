/** How much payload the bootstrap cache can hold. */
module CacheBound {
  import opened Words
  import opened Bits
  import opened Sums
  import opened Division
  import opened Metadata
  import opened ReceiverStates
  import opened ReceiverInvariants
  import opened LateJoin

  /** Frames that came through the wire parser: the payload has the declared size. */
  ghost predicate Parsed(inputs: seq<Input>)
  {
    forall i :: 0 <= i < |inputs| && inputs[i].Data? ==> inputs[i].symbolSize == |inputs[i].payload|
  }

  /** The frame enters the cache. */
  predicate Enters(cache: map<Key, Bytes>, input: Input)
  {
    input.Data? && Key(input.sbn, input.esi) !in cache && |cache| < PreMetaCacheMax(input.symbolSize)
  }

  /** The keys of the cache in the order they entered it. */
  function Log(inputs: seq<Input>): (log: seq<Key>)
    ensures forall k :: k in log ==> k in CacheOf(inputs)
    decreases |inputs|
  {
    if inputs == [] then []
    else
      var rest, last := inputs[..|inputs| - 1], inputs[|inputs| - 1];
      Log(rest) + (if Enters(CacheOf(rest), last) then [Key(last.sbn, last.esi)] else [])
  }

  function Sizes(cache: map<Key, Bytes>, log: seq<Key>): (s: seq<nat>)
    requires forall k :: k in log ==> k in cache
    ensures |s| == |log|
  {
    seq(|log|, i requires 0 <= i < |log| => |cache[log[i]]|)
  }

  /** Payload bytes in the cache: `Log` lists every key once. */
  function CachedBytes(inputs: seq<Input>): nat
  {
    Sum(Sizes(CacheOf(inputs), Log(inputs)))
  }

  /** An entry admitted when m are present carries fewer than 2^25 / m bytes. */
  ghost predicate Budgeted(sizes: seq<nat>)
  {
    forall m :: 0 <= m < |sizes| ==> sizes[m] * m < MAX_OBJECT_BYTES
  }

  lemma {:induction false} LogListsTheCache(inputs: seq<Input>)
    ensures Enumerates(Log(inputs), CacheOf(inputs).Keys)
    ensures |Log(inputs)| == |CacheOf(inputs)|
    decreases |inputs|
  {
    if inputs != [] {
      LogListsTheCache(inputs[..|inputs| - 1]);
    }
    NoRepeatsLength(Log(inputs), CacheOf(inputs).Keys);
  }

  /** One frame more: its size joins the list exactly when it enters. */
  lemma LogStep(inputs: seq<Input>)
    requires inputs != []
    ensures var rest, last := inputs[..|inputs| - 1], inputs[|inputs| - 1];
            if Enters(CacheOf(rest), last)
            then && |CacheOf(inputs)| == |CacheOf(rest)| + 1
                 && Sizes(CacheOf(inputs), Log(inputs)) == Sizes(CacheOf(rest), Log(rest)) + [|last.payload|]
            else && CacheOf(inputs) == CacheOf(rest)
                 && Sizes(CacheOf(inputs), Log(inputs)) == Sizes(CacheOf(rest), Log(rest))
  {
    var rest, last := inputs[..|inputs| - 1], inputs[|inputs| - 1];
    if Enters(CacheOf(rest), last) {
      assert Sizes(CacheOf(inputs), Log(inputs)) == Sizes(CacheOf(rest), Log(rest)) + [|last.payload|];
    } else {
      assert Log(inputs) == Log(rest);
    }
  }

  lemma {:induction false} EntriesAreBudgeted(inputs: seq<Input>)
    requires Parsed(inputs)
    ensures |CacheOf(inputs)| <= MAX_CACHE_ENTRIES
    ensures Budgeted(Sizes(CacheOf(inputs), Log(inputs)))
    decreases |inputs|
  {
    if inputs != [] {
      var rest, last := inputs[..|inputs| - 1], inputs[|inputs| - 1];
      EntriesAreBudgeted(rest);
      LogStep(inputs);
      if Enters(CacheOf(rest), last) {
        LogListsTheCache(rest);
        CapMeansBudget(last.symbolSize, |CacheOf(rest)|);
        OneMoreBudgeted(Sizes(CacheOf(rest), Log(rest)), |last.payload|);
      }
    }
  }

  lemma OneMoreBudgeted(sizes: seq<nat>, size: nat)
    requires Budgeted(sizes) && size * |sizes| < MAX_OBJECT_BYTES
    ensures Budgeted(sizes + [size])
  {
  }

  // ----- One symbol size

  lemma {:induction false} SumOfEqual(s: seq<nat>, x: nat)
    requires forall i :: 0 <= i < |s| ==> s[i] == x
    ensures Sum(s) == |s| * x
  {
    if s != [] {
      SumOfEqual(s[..|s| - 1], x);
    }
  }

  lemma {:induction false} CachedPayloadsHaveSize(inputs: seq<Input>, size: nat)
    requires forall i :: 0 <= i < |inputs| && inputs[i].Data? ==> |inputs[i].payload| == size
    ensures forall k :: k in CacheOf(inputs) ==> |CacheOf(inputs)[k]| == size
    decreases |inputs|
  {
    if inputs != [] {
      CachedPayloadsHaveSize(inputs[..|inputs| - 1], size);
    }
  }

  /** With one symbol size s the cache stays below 2^25 + s bytes. */
  lemma UniformBound(inputs: seq<Input>, size: nat)
    requires Parsed(inputs)
    requires forall i :: 0 <= i < |inputs| && inputs[i].Data? ==> |inputs[i].payload| == size
    ensures CachedBytes(inputs) < MAX_OBJECT_BYTES + size
  {
    EntriesAreBudgeted(inputs);
    CachedPayloadsHaveSize(inputs, size);
    var sizes := Sizes(CacheOf(inputs), Log(inputs));
    SumOfEqual(sizes, size);
    if sizes != [] {
      var n := |sizes| - 1;
      assert sizes[n] * n < MAX_OBJECT_BYTES;
      LastEntry(n, size);
    }
  }

  // ----- Any sizes: a harmonic sum

  lemma BudgetIsPow2(j: nat)
    requires j <= 25
    ensures Pow2(j) * Pow2(25 - j) == MAX_OBJECT_BYTES
    ensures Pow2(19) == MAX_CACHE_ENTRIES
  {
    Pow2Values();
    Pow2Add(j, 25 - j);
    assert Pow2(25) == 2 * Pow2(24);
    Pow2Add(16, 3);
    assert Pow2(3) == 8;
  }

  lemma OctaveEntries(sizes: seq<nat>, lo: nat, hi: nat, cap: nat)
    requires Budgeted(sizes) && lo <= hi <= |sizes| && lo * cap == MAX_OBJECT_BYTES
    ensures forall i :: 0 <= i < hi - lo ==> sizes[lo..hi][i] < cap
  {
    forall i | 0 <= i < hi - lo
      ensures sizes[lo..hi][i] < cap
    {
      assert sizes[lo + i] * (lo + i) < MAX_OBJECT_BYTES;
      SmallFactor(sizes[lo + i], lo + i, lo, cap);
    }
  }

  /** Entries 2^j .. 2^(j+1) - 1 together stay below the budget. */
  lemma OctaveBound(sizes: seq<nat>, j: nat, lo: nat, hi: nat)
    requires Budgeted(sizes) && j < 25 && lo == Pow2(j) && lo <= hi <= |sizes| && hi <= 2 * lo
    ensures Sum(sizes[lo..hi]) < MAX_OBJECT_BYTES
  {
    var cap := Pow2(25 - j);
    BudgetIsPow2(j);
    OctaveEntries(sizes, lo, hi, cap);
    SumBound(sizes[lo..hi], cap - 1);
    OctaveProduct(hi - lo, lo, cap);
  }

  lemma OctaveProduct(n: nat, lo: nat, cap: nat)
    requires n <= lo && lo > 0 && cap > 0
    ensures n * (cap - 1) < lo * cap
  {
    TimesKeepsOrder(cap - 1, n, lo);
  }

  lemma SmallFactor(x: nat, m: nat, lo: nat, cap: nat)
    requires lo <= m && x * m < lo * cap
    ensures x < cap
  {
    assert x * lo <= x * m;
    assert (cap - x) * lo > 0;
  }

  lemma {:induction false} HarmonicBound(sizes: seq<nat>, j: nat)
    requires Budgeted(sizes) && sizes != [] && j <= 19
    ensures Sum(sizes[..Min(|sizes|, Pow2(j))]) <= sizes[0] + j * MAX_OBJECT_BYTES
    ensures j > 0 ==> Sum(sizes[..Min(|sizes|, Pow2(j))]) < sizes[0] + j * MAX_OBJECT_BYTES
  {
    if j == 0 {
      assert sizes[..1][..0] == [];
    } else {
      HarmonicBound(sizes, j - 1);
      NextOctave(sizes, j - 1);
    }
  }

  lemma NextOctave(sizes: seq<nat>, j: nat)
    requires Budgeted(sizes) && j < 25
    ensures Sum(sizes[..Min(|sizes|, Pow2(j + 1))]) < Sum(sizes[..Min(|sizes|, Pow2(j))]) + MAX_OBJECT_BYTES
  {
    var lo := Pow2(j);
    if lo < |sizes| {
      var hi := Min(|sizes|, Pow2(j + 1));
      OctaveBound(sizes, j, lo, hi);
      SumAppend(sizes[..lo], sizes[lo..hi]);
      assert sizes[..hi] == sizes[..lo] + sizes[lo..hi];
    }
  }

  /** Whatever the sizes, the cache stays below the first entry plus nineteen budgets. */
  lemma MixedBound(inputs: seq<Input>)
    requires Parsed(inputs) && Log(inputs) != []
    ensures CachedBytes(inputs) < |CacheOf(inputs)[Log(inputs)[0]]| + 19 * MAX_OBJECT_BYTES
  {
    EntriesAreBudgeted(inputs);
    LogListsTheCache(inputs);
    var sizes := Sizes(CacheOf(inputs), Log(inputs));
    HarmonicBound(sizes, 19);
    BudgetIsPow2(19);
    assert sizes[..|sizes|] == sizes;
  }

  /** While the sizes that enter never shrink, the budget is exceeded by less than the last one. */
  lemma GrowingSizesKeepBudget(inputs: seq<Input>)
    requires Parsed(inputs) && Log(inputs) != []
    requires var sizes := Sizes(CacheOf(inputs), Log(inputs));
             forall i, j :: 0 <= i < j < |sizes| ==> sizes[i] <= sizes[j]
    ensures var sizes := Sizes(CacheOf(inputs), Log(inputs));
            CachedBytes(inputs) < MAX_OBJECT_BYTES + sizes[|sizes| - 1]
  {
    EntriesAreBudgeted(inputs);
    GrowingBudget(Sizes(CacheOf(inputs), Log(inputs)));
  }

  lemma GrowingBudget(sizes: seq<nat>)
    requires Budgeted(sizes) && sizes != [] && forall i, j :: 0 <= i < j < |sizes| ==> sizes[i] <= sizes[j]
    ensures Sum(sizes) < MAX_OBJECT_BYTES + sizes[|sizes| - 1]
  {
    var n: nat, last := |sizes| - 1, sizes[|sizes| - 1];
    SumBound(sizes, last);
    assert last * n < MAX_OBJECT_BYTES;
    LastEntry(n, last);
  }

  lemma LastEntry(n: nat, size: nat)
    ensures (n + 1) * size == size * n + size
  {
    Distribute(n, 1, size);
  }

  // ----- Shrinking sizes do break the budget

  /** The largest aligned payload whose frame a version 40 code at the lowest correction level
      (2953 bytes) carries. */
  const QR_PAYLOAD: nat := 2888

  function RampSize(turn: nat, a: u32, b: u32, i: nat): u32 { if i < turn then a else b }

  /** `n` data frames of distinct ids, the first `turn` with `a` bytes and the rest with `b`. */
  function Ramp(turn: nat, a: u32, b: u32, n: nat): (inputs: seq<Input>)
    requires n <= U32
    ensures |inputs| == n
  {
    if n == 0 then []
    else
      var size := RampSize(turn, a, b, n - 1);
      Ramp(turn, a, b, n - 1) + [Data(0, n - 1, size, Zeros(size))]
  }

  ghost predicate Roomy(turn: nat, a: u32, b: u32, n: nat)
  {
    n <= U32 && forall i :: 0 <= i < n ==> i < PreMetaCacheMax(RampSize(turn, a, b, i))
  }

  /** Frames that each meet a cap with room are all cached. */
  lemma {:induction false} RampIsCached(turn: nat, a: u32, b: u32, n: nat)
    requires Roomy(turn, a, b, n)
    ensures var inputs := Ramp(turn, a, b, n);
            Parsed(inputs) && |CacheOf(inputs)| == n && forall k :: k in CacheOf(inputs) ==> k.esi < n
  {
    if n > 0 {
      RampIsCached(turn, a, b, n - 1);
      var size := RampSize(turn, a, b, n - 1);
      OneMoreCached(Ramp(turn, a, b, n - 1), Data(0, n - 1, size, Zeros(size)));
    }
  }

  function RampTotal(turn: nat, a: u32, b: u32, n: nat): nat
  {
    if n == 0 then 0 else RampTotal(turn, a, b, n - 1) + RampSize(turn, a, b, n - 1)
  }

  ghost predicate Grows(turn: nat, a: u32, b: u32, n: nat)
    requires 0 < n <= U32
  {
    CachedBytes(Ramp(turn, a, b, n)) == CachedBytes(Ramp(turn, a, b, n - 1)) + RampSize(turn, a, b, n - 1)
  }

  lemma {:induction false} RampBytes(turn: nat, a: u32, b: u32, n: nat)
    requires n <= U32 && forall i :: 0 < i <= n ==> Grows(turn, a, b, i)
    ensures CachedBytes(Ramp(turn, a, b, n)) == RampTotal(turn, a, b, n)
  {
    if n > 0 {
      RampBytes(turn, a, b, n - 1);
      assert Grows(turn, a, b, n);
    }
  }

  lemma RampGrows(turn: nat, a: u32, b: u32, n: nat)
    requires n > 0 && Roomy(turn, a, b, n)
    ensures Grows(turn, a, b, n)
  {
    RampIsCached(turn, a, b, n - 1);
    var size := RampSize(turn, a, b, n - 1);
    OneMoreCached(Ramp(turn, a, b, n - 1), Data(0, n - 1, size, Zeros(size)));
  }

  lemma {:induction false} RampTotalIs(turn: nat, a: u32, b: u32, n: nat)
    ensures RampTotal(turn, a, b, n) == if n <= turn then n * a else turn * a + (n - turn) * b
  {
    if n > 0 {
      RampTotalIs(turn, a, b, n - 1);
      if n <= turn {
        Distribute(n - 1, 1, a);
      } else {
        Distribute(n - 1 - turn, 1, b);
      }
    }
  }

  lemma OneMoreCached(rest: seq<Input>, last: Input)
    requires Parsed(rest) && last.Data? && last.symbolSize == |last.payload| && Enters(CacheOf(rest), last)
    ensures Parsed(rest + [last]) && CacheOf(rest + [last]) == CacheOf(rest)[Key(last.sbn, last.esi) := last.payload]
    ensures CachedBytes(rest + [last]) == CachedBytes(rest) + |last.payload|
  {
    var all := rest + [last];
    assert all[..|rest|] == rest;
    LogStep(all);
    SumSnoc(Sizes(CacheOf(rest), Log(rest)), |last.payload|);
  }

  const TURN: nat := 11_618

  /** The budget itself is not a bound once sizes shrink: frames that fit real codes, large ones
      first and then the smallest, fill nearly two budgets. */
  lemma MixedSizesPassTheBudget() returns (inputs: seq<Input>)
    ensures Parsed(inputs)
    ensures forall i :: 0 <= i < |inputs| ==> inputs[i].Data? && |inputs[i].payload| <= QR_PAYLOAD
    ensures CachedBytes(inputs) == 66_363_664 > MAX_OBJECT_BYTES + MAX_OBJECT_BYTES * 9 / 10
  {
    assert PreMetaCacheMax(QR_PAYLOAD) == 11_619 && PreMetaCacheMax(MIN_SYMBOL_SIZE) == MAX_CACHE_ENTRIES;
    inputs := FullRamp(TURN, QR_PAYLOAD, MIN_SYMBOL_SIZE, MAX_CACHE_ENTRIES);
    assert TURN * QR_PAYLOAD + (MAX_CACHE_ENTRIES - TURN) * MIN_SYMBOL_SIZE == 66_363_664;
  }

  lemma FullRamp(turn: nat, a: u32, b: u32, n: nat) returns (inputs: seq<Input>)
    requires n <= U32 && b <= a && turn <= PreMetaCacheMax(a) && turn < n <= PreMetaCacheMax(b)
    ensures Parsed(inputs) && CachedBytes(inputs) == turn * a + (n - turn) * b
    ensures forall i :: 0 <= i < |inputs| ==> inputs[i].Data? && |inputs[i].payload| <= a
  {
    inputs := Ramp(turn, a, b, n);
    RampIsCached(turn, a, b, n);
    forall i | 0 < i <= n
      ensures Grows(turn, a, b, i)
    {
      RampGrows(turn, a, b, i);
    }
    RampBytes(turn, a, b, n);
    RampTotalIs(turn, a, b, n);
    RampSizes(turn, a, b, n);
  }

  lemma {:induction false} RampSizes(turn: nat, a: u32, b: u32, n: nat)
    requires n <= U32 && b <= a
    ensures var inputs := Ramp(turn, a, b, n);
            forall i :: 0 <= i < |inputs| ==> inputs[i].Data? && |inputs[i].payload| <= a
  {
    if n > 0 {
      RampSizes(turn, a, b, n - 1);
      var size := RampSize(turn, a, b, n - 1);
      assert Ramp(turn, a, b, n) == Ramp(turn, a, b, n - 1) + [Data(0, n - 1, size, Zeros(size))];
      assert |Zeros(size)| == size;
    }
  }
}
