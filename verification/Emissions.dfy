/** Whole runs of a sender: what the stream of frames looks like, and when it ends. */
module Emissions {
  import opened Words
  import opened Division
  import opened Metadata
  import opened SourcePlans
  import opened Senders

  /** What a caller does to a session. */
  datatype Call = SetInterval(interval: u32) | Next(now: u64)

  ghost predicate Runnable(blocks: seq<SourceBlockMeta>, p: Position, calls: seq<Call>)
  {
    && Canonical(blocks) && 0 < |blocks| < U32
    && p.interval > 0 && p.frames + |calls| < U64 && p.data <= DataSupply(blocks)
  }

  function Perform(blocks: seq<SourceBlockMeta>, p: Position, call: Call): Position
    requires blocks != [] && p.interval > 0 && p.frames + 1 < U64
  {
    match call
    case SetInterval(interval) => p.(interval := if interval == 0 then 1 else interval)
    case Next(now) => Emit(blocks, p, now).next
  }

  /** The ids of the data frames a call puts on screen. */
  function NewId(blocks: seq<SourceBlockMeta>, p: Position, call: Call): seq<SymbolId>
    requires blocks != [] && p.interval > 0 && p.frames + 1 < U64
  {
    if !call.Next? then []
    else
      match Emit(blocks, p, call.now).result
      case Ok(DataShot(id, _, _)) => [id]
      case _ => []
  }

  lemma PerformKeeps(blocks: seq<SourceBlockMeta>, p: Position, call: Call)
    requires Runnable(blocks, p, [call])
    ensures var q := Perform(blocks, p, call);
            && q.interval > 0 && p.frames <= q.frames <= p.frames + 1
            && p.data <= q.data <= DataSupply(blocks)
            && q.data - p.data == |NewId(blocks, p, call)| <= 1
            && (q.data > p.data ==> DataId(blocks, p.data) == Some(NewId(blocks, p, call)[0]))
  {
    DataSupplyIsExact(blocks, p.data);
  }

  ghost function After(blocks: seq<SourceBlockMeta>, p: Position, calls: seq<Call>): (q: Position)
    requires Runnable(blocks, p, calls)
    ensures q.interval > 0 && p.frames <= q.frames <= p.frames + |calls| && p.data <= q.data <= DataSupply(blocks)
    decreases |calls|
  {
    if calls == [] then p
    else
      var q := After(blocks, p, calls[..|calls| - 1]);
      PerformKeeps(blocks, q, calls[|calls| - 1]);
      Perform(blocks, q, calls[|calls| - 1])
  }

  /** All data ids of a run, in order. */
  ghost function Emitted(blocks: seq<SourceBlockMeta>, p: Position, calls: seq<Call>): seq<SymbolId>
    requires Runnable(blocks, p, calls)
    decreases |calls|
  {
    if calls == [] then []
    else
      Emitted(blocks, p, calls[..|calls| - 1])
      + NewId(blocks, After(blocks, p, calls[..|calls| - 1]), calls[|calls| - 1])
  }

  /** All frames of a run, in order. */
  ghost function Shots(blocks: seq<SourceBlockMeta>, p: Position, calls: seq<Call>): seq<Shot>
    requires Runnable(blocks, p, calls)
    decreases |calls|
  {
    if calls == [] then []
    else
      Shots(blocks, p, calls[..|calls| - 1])
      + NewShot(blocks, After(blocks, p, calls[..|calls| - 1]), calls[|calls| - 1])
  }

  function NewShot(blocks: seq<SourceBlockMeta>, p: Position, call: Call): seq<Shot>
    requires blocks != [] && p.interval > 0 && p.frames + 1 < U64
  {
    if !call.Next? then []
    else
      match Emit(blocks, p, call.now).result
      case Ok(shot) => [shot]
      case Err(_) => []
  }

  lemma OneStepShoots(blocks: seq<SourceBlockMeta>, q: Position, call: Call)
    requires Runnable(blocks, q, [call])
    ensures |NewId(blocks, q, call)| <= |NewShot(blocks, q, call)| <= 1
    ensures NewId(blocks, q, call) != [] ==>
              NewShot(blocks, q, call)[0].DataShot? && NewShot(blocks, q, call)[0].id == NewId(blocks, q, call)[0]
    ensures NewShot(blocks, q, call) == [] ==> Perform(blocks, q, call).frames == q.frames
    ensures q.frames == 0 && NewShot(blocks, q, call) != [] ==> NewShot(blocks, q, call)[0].DescriptorShot?
  {
    if q.frames == 0 {
      DivMod(0, q.interval, 0, 0);
    }
  }

  /** Every data id of a run goes out in a frame. */
  lemma {:induction false} IdIsShot(blocks: seq<SourceBlockMeta>, p: Position, calls: seq<Call>, k: nat) returns (shot: Shot)
    requires Runnable(blocks, p, calls) && k < |Emitted(blocks, p, calls)|
    ensures shot in Shots(blocks, p, calls) && shot.DataShot? && shot.id == Emitted(blocks, p, calls)[k]
    decreases |calls|
  {
    var rest, last := calls[..|calls| - 1], calls[|calls| - 1];
    if k < |Emitted(blocks, p, rest)| {
      shot := IdIsShot(blocks, p, rest, k);
    } else {
      OneStepShoots(blocks, After(blocks, p, rest), last);
      shot := NewShot(blocks, After(blocks, p, rest), last)[0];
    }
  }

  /** The first frame of a session is a descriptor. */
  lemma {:induction false} DescriptorFirst(blocks: seq<SourceBlockMeta>, calls: seq<Call>)
    requires Runnable(blocks, START, calls)
    ensures Shots(blocks, START, calls) == [] ==> After(blocks, START, calls).frames == 0
    ensures Shots(blocks, START, calls) != [] ==> Shots(blocks, START, calls)[0].DescriptorShot?
    decreases |calls|
  {
    if calls != [] {
      var rest := calls[..|calls| - 1];
      DescriptorFirst(blocks, rest);
      OneStepShoots(blocks, After(blocks, START, rest), calls[|calls| - 1]);
    }
  }

  /** Once as many data frames have gone out as there are source symbols, each of them has. */
  lemma SourcePassIsWhole(blocks: seq<SourceBlockMeta>, calls: seq<Call>, x: SymbolId) returns (shot: Shot)
    requires Runnable(blocks, START, calls) && After(blocks, START, calls).data >= TotalK(blocks)
    requires x.sbn < |blocks| && x.esi < blocks[x.sbn].numSourceSymbols
    ensures shot in Shots(blocks, START, calls) && shot.DataShot? && shot.id == x
  {
    var k := PlanPlace(blocks, x);
    DataFramesInOrder(blocks, START, calls);
    assert DataId(blocks, START.data + k) == Some(x);
    shot := IdIsShot(blocks, START, calls, k);
  }

  lemma PlanPlace(blocks: seq<SourceBlockMeta>, x: SymbolId) returns (k: nat)
    requires Canonical(blocks) && |blocks| < U32
    requires x.sbn < |blocks| && x.esi < blocks[x.sbn].numSourceSymbols
    ensures k < |Plan(blocks)| == TotalK(blocks) && Plan(blocks)[k] == x
  {
    PlanIsExact(blocks);
    k :| 0 <= k < |Plan(blocks)| && Plan(blocks)[k] == x;
  }

  /** Whatever the interval is set to on the way, the data frames carry the ids 0, 1, 2, … of
      the data sequence, none skipped. */
  lemma {:induction false} DataFramesInOrder(blocks: seq<SourceBlockMeta>, p: Position, calls: seq<Call>)
    requires Runnable(blocks, p, calls)
    ensures |Emitted(blocks, p, calls)| == After(blocks, p, calls).data - p.data
    ensures forall k :: 0 <= k < |Emitted(blocks, p, calls)| ==>
              DataId(blocks, p.data + k) == Some(Emitted(blocks, p, calls)[k])
    decreases |calls|
  {
    if calls != [] {
      var rest, last := calls[..|calls| - 1], calls[|calls| - 1];
      DataFramesInOrder(blocks, p, rest);
      PerformKeeps(blocks, After(blocks, p, rest), last);
    }
  }

  /** No run ever sends the same symbol twice. */
  lemma DataNeverRepeats(blocks: seq<SourceBlockMeta>, p: Position, calls: seq<Call>)
    requires Runnable(blocks, p, calls)
    ensures forall i, j :: 0 <= i < j < |Emitted(blocks, p, calls)| ==>
              Emitted(blocks, p, calls)[i] != Emitted(blocks, p, calls)[j]
  {
    DataFramesInOrder(blocks, p, calls);
    var ids := Emitted(blocks, p, calls);
    forall i, j | 0 <= i < j < |ids|
      ensures ids[i] != ids[j]
    {
      if ids[i] == ids[j] {
        DataIdsDistinct(blocks, p.data + i, p.data + j);
      }
    }
  }

  /** A call fails exactly when a data frame is due and the supply is used up; it then moves
      nothing, so every later call fails too until the interval changes. */
  lemma FailsExactlyWhenSpent(blocks: seq<SourceBlockMeta>, p: Position, now: u64)
    requires Runnable(blocks, p, [Next(now)])
    ensures Emit(blocks, p, now).result.Err? <==> p.frames % p.interval != 0 && p.data == DataSupply(blocks)
    ensures Emit(blocks, p, now).result.Err? ==> Emit(blocks, p, now).next == p
  {
    DataSupplyIsExact(blocks, p.data);
  }

  // ----- A fixed interval

  /** Descriptors among the first `n` frames at interval `d`. */
  function DescriptorsBefore(d: nat, n: nat): nat
    requires d > 0
  {
    n / d + (if n % d == 0 then 0 else 1)
  }

  function DataBefore(d: nat, n: nat): int
    requires d > 0
  {
    n - DescriptorsBefore(d, n)
  }

  lemma OneFrameMore(d: nat, n: nat)
    requires d > 0
    ensures DataBefore(d, n + 1) == DataBefore(d, n) + (if n % d == 0 then 0 else 1)
  {
    NextDivMod(n, d);
    if d == 1 {
      DivMod(n, 1, n, 0);
      DivMod(n + 1, 1, n + 1, 0);
    }
  }

  /** The call at which data frame number `j` is due. */
  function DueAt(d: nat, j: nat): nat
    requires d >= 2
  {
    j + j / (d - 1) + 1
  }

  lemma DueExactly(d: nat, n: nat, j: nat)
    requires d >= 2
    ensures n % d != 0 && DataBefore(d, n) == j <==> n == DueAt(d, j)
  {
    var q: nat, r: nat := n / d, n % d;
    assert n == d * q + r;
    if r != 0 && DataBefore(d, n) == j {
      DueOnly(d, n, q, r, j);
    }
    if n == DueAt(d, j) {
      DueThen(d, n, j / (d - 1), j % (d - 1), j);
    }
  }

  lemma DueThen(d: nat, n: nat, q: nat, r: nat, j: nat)
    requires d >= 2 && q == j / (d - 1) && r == j % (d - 1) && n == j + q + 1
    ensures n / d == q && n % d == r + 1
  {
    assert j == (d - 1) * q + r;
    Distribute(d - 1, 1, q);
    DivMod(n, d, q, r + 1);
  }

  lemma DueOnly(d: nat, n: nat, q: nat, r: nat, j: nat)
    requires d >= 2 && n == d * q + r && 0 < r < d && n - q - 1 == j
    ensures n == DueAt(d, j)
  {
    Distribute(d - 1, 1, q);
    DivMod(j, d - 1, q, r - 1);
  }

  function Ticks(nows: seq<u64>): (calls: seq<Call>)
    ensures |calls| == |nows|
  {
    seq(|nows|, i requires 0 <= i < |nows| => Next(nows[i]))
  }

  /** Where a session of fixed interval stands after `n` calls: data frames stop for good at
      the call where the first symbol beyond the supply is due; at interval 1 none is ever due. */
  function Standing(blocks: seq<SourceBlockMeta>, d: nat, n: nat): Position
    requires Canonical(blocks) && blocks != [] && d > 0
  {
    var supply := DataSupply(blocks);
    if d >= 2 && n >= DueAt(d, supply) then Position(DueAt(d, supply), supply, d)
    else Position(n, Max(0, DataBefore(d, n)), d)
  }

  lemma StandingSteps(blocks: seq<SourceBlockMeta>, d: nat, n: nat, now: u64)
    requires Canonical(blocks) && 0 < |blocks| < U32 && d > 0
    requires Runnable(blocks, Standing(blocks, d, n), [Next(now)])
    requires d >= 2 && n < DueAt(d, DataSupply(blocks)) ==> 0 <= DataBefore(d, n)
    requires d == 1 ==> DataBefore(d, n) == 0
    ensures Emit(blocks, Standing(blocks, d, n), now).next == Standing(blocks, d, n + 1)
    ensures d >= 2 && n + 1 < DueAt(d, DataSupply(blocks)) ==> 0 <= DataBefore(d, n + 1)
    ensures d == 1 ==> DataBefore(d, n + 1) == 0
  {
    var supply, p := DataSupply(blocks), Standing(blocks, d, n);
    FailsExactlyWhenSpent(blocks, p, now);
    OneFrameMore(d, n);
    if d == 1 {
      DivMod(n, 1, n, 0);
    } else {
      DueExactly(d, n, supply);
      DueExactly(d, DueAt(d, supply), supply);
    }
  }

  lemma NothingYet(d: nat)
    requires d > 0
    ensures DataBefore(d, 0) == 0
  {
    DivMod(0, d, 0, 0);
  }

  /** The run of a fixed interval in closed form. */
  lemma {:induction false} FixedIntervalRun(blocks: seq<SourceBlockMeta>, d: nat, nows: seq<u64>)
    requires Runnable(blocks, Position(0, 0, d), Ticks(nows))
    ensures After(blocks, Position(0, 0, d), Ticks(nows)) == Standing(blocks, d, |nows|)
    ensures d >= 2 && |nows| < DueAt(d, DataSupply(blocks)) ==> 0 <= DataBefore(d, |nows|)
    ensures d == 1 ==> DataBefore(d, |nows|) == 0
    decreases |nows|
  {
    if nows == [] {
      NothingYet(d);
      assert Ticks(nows) == [];
    } else {
      var n := |nows| - 1;
      FixedIntervalRun(blocks, d, nows[..n]);
      assert Ticks(nows)[..n] == Ticks(nows[..n]);
      StandingSteps(blocks, d, n, nows[n]);
    }
  }

  /** The frame of call number `n`: a descriptor exactly when `d` divides `n`, numbered `n + 1`;
      otherwise the data frame of the next id; an error from the stopping call on. */
  lemma CadenceIsExact(blocks: seq<SourceBlockMeta>, d: nat, nows: seq<u64>, now: u64)
    requires Runnable(blocks, Position(0, 0, d), Ticks(nows + [now]))
    ensures Runnable(blocks, Position(0, 0, d), Ticks(nows))
    ensures var n := |nows|;
            var r := Emit(blocks, After(blocks, Position(0, 0, d), Ticks(nows)), now).result;
            && (r.Err? <==> d >= 2 && n >= DueAt(d, DataSupply(blocks)))
            && (r.Ok? ==> r.value.frameIndex == n + 1)
            && (r.Ok? ==> (r.value.DescriptorShot? <==> n % d == 0))
            && (r.Ok? && r.value.DataShot? ==>
                 DataBefore(d, n) >= 0 && DataId(blocks, DataBefore(d, n)) == Some(r.value.id))
  {
    var n := |nows|;
    FixedIntervalRun(blocks, d, nows);
    FailsExactlyWhenSpent(blocks, Standing(blocks, d, n), now);
    if d == 1 {
      DivMod(n, 1, n, 0);
    } else {
      DueExactly(d, n, DataSupply(blocks));
      DueExactly(d, DueAt(d, DataSupply(blocks)), DataSupply(blocks));
    }
  }

  /** Calls until the last source symbol is out. */
  lemma SourcePassLength(blocks: seq<SourceBlockMeta>, d: nat, nows: seq<u64>)
    requires d >= 2 && Runnable(blocks, Position(0, 0, d), Ticks(nows))
    requires TotalK(blocks) > 0 && |nows| == DueAt(d, TotalK(blocks) - 1) + 1
    ensures After(blocks, Position(0, 0, d), Ticks(nows)).data == TotalK(blocks)
  {
    FixedIntervalRun(blocks, d, nows);
    SupplyExceedsSource(blocks);
    AfterDue(d, TotalK(blocks), |nows|, DataSupply(blocks));
  }

  lemma AfterDue(d: nat, k: nat, n: nat, supply: nat)
    requires d >= 2 && 0 < k < supply && n == DueAt(d, k - 1) + 1
    ensures DataBefore(d, n) == k && n < DueAt(d, supply)
  {
    DueExactly(d, DueAt(d, k - 1), k - 1);
    OneFrameMore(d, DueAt(d, k - 1));
    DueComesLater(d, k - 1, k);
    DueComesLater(d, k, supply);
  }

  lemma SupplyExceedsSource(blocks: seq<SourceBlockMeta>)
    requires Canonical(blocks) && blocks != []
    ensures DataSupply(blocks) > TotalK(blocks)
  {
    ProductPositive(|blocks|, Room(blocks));
  }

  lemma DueComesLater(d: nat, i: nat, j: nat)
    requires d >= 2 && i < j
    ensures DueAt(d, i) < DueAt(d, j)
  {
    QuotientGrows(d - 1, i, j);
  }

  lemma QuotientGrows(n: nat, i: nat, j: nat)
    requires n > 0 && i <= j
    ensures i / n <= j / n
  {
    TimesKeepsOrder(n, j / n + 1, i / n);
    assert i == n * (i / n) + i % n && j == n * (j / n) + j % n;
    assert n * (j / n + 1) == n * (j / n) + n;
  }
}
