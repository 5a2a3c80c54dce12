/** No block is starved: how the frames a sender emits are shared among the source blocks. */
module Fairness {
  import opened Words
  import opened Division
  import opened Metadata
  import opened SourcePlans
  import opened Senders
  import opened Emissions

  /** Symbols of block `b`, of K source symbols, among `ids`: its source or its repair ones. */
  function Sent(ids: seq<SymbolId>, b: nat, k: nat, repair: bool): nat
  {
    if ids == [] then 0
    else
      var x := ids[|ids| - 1];
      Sent(ids[..|ids| - 1], b, k, repair) + (if x.sbn == b && (x.esi >= k <==> repair) then 1 else 0)
  }

  function SourcesSent(blocks: seq<SourceBlockMeta>, ids: seq<SymbolId>, b: nat): nat
    requires b < |blocks|
  {
    Sent(ids, b, blocks[b].numSourceSymbols, false)
  }

  function RepairsSent(blocks: seq<SourceBlockMeta>, ids: seq<SymbolId>, b: nat): nat
    requires b < |blocks|
  {
    Sent(ids, b, blocks[b].numSourceSymbols, true)
  }

  /** These are the first data ids, in order. */
  ghost predicate Leading(blocks: seq<SourceBlockMeta>, ids: seq<SymbolId>)
  {
    && Canonical(blocks) && 0 < |blocks| < U32
    && forall k :: 0 <= k < |ids| ==> DataId(blocks, k) == Some(ids[k])
  }

  lemma {:induction false} SourcePassTally(blocks: seq<SourceBlockMeta>, ids: seq<SymbolId>, b: nat)
    requires Leading(blocks, ids) && |ids| <= |Plan(blocks)| && b < |blocks|
    ensures SourcesSent(blocks, ids, b) == |SentSource(blocks, |ids|, b)|
    ensures RepairsSent(blocks, ids, b) == 0
    decreases |ids|
  {
    if ids == [] {
      assert SentSource(blocks, 0, b) == {};
    } else {
      var n := |ids| - 1;
      SourcePassTally(blocks, ids[..n], b);
      assert ids[n] == Plan(blocks)[n];
      PlanEntryInRange(blocks, n);
      OneMoreSource(blocks, n, b);
    }
  }

  lemma SortedNeverRepeats(q: seq<SymbolId>, n: nat)
    requires Sorted(q) && n < |q|
    ensures q[n] !in q[..n]
  {
  }

  lemma OneMoreSource(blocks: seq<SourceBlockMeta>, n: nat, b: nat)
    requires Canonical(blocks) && 0 < |blocks| < U32 && n < |Plan(blocks)|
    ensures |SentSource(blocks, n + 1, b)| == |SentSource(blocks, n, b)| + (if Plan(blocks)[n].sbn == b then 1 else 0)
  {
    PlanIsExact(blocks);
    var plan, x := Plan(blocks), Plan(blocks)[n];
    var before, after := SentSource(blocks, n, b), SentSource(blocks, n + 1, b);
    assert plan[..n + 1] == plan[..n] + [x];
    if x.sbn == b {
      forall e: nat
        ensures e in after <==> e in before + {x.esi as nat}
      {
        if e in before + {x.esi as nat} && e < U32 {
          assert SymbolId(b, e) in plan[..n + 1] <==> SymbolId(b, e) in plan[..n] || SymbolId(b, e) == x;
        }
      }
      assert after == before + {x.esi as nat};
      SortedNeverRepeats(plan, n);
      assert forall y :: y in plan[..n] && y.sbn == b ==> y.esi != x.esi;
    } else {
      assert after == before;
    }
  }

  /** Past the source pass the repair symbols of a block are one per full round, and one more
      for the blocks the current round has reached. */
  lemma {:induction false} RepairTally(blocks: seq<SourceBlockMeta>, ids: seq<SymbolId>, b: nat)
    requires Leading(blocks, ids) && |ids| >= |Plan(blocks)| && b < |blocks|
    ensures var c := |ids| - |Plan(blocks)|;
            RepairsSent(blocks, ids, b) == c / |blocks| + (if b < c % |blocks| then 1 else 0)
    ensures SourcesSent(blocks, ids, b) == SourcesSent(blocks, ids[..|Plan(blocks)|], b)
    decreases |ids|
  {
    if |ids| == |Plan(blocks)| {
      SourcePassTally(blocks, ids, b);
      assert ids[..|ids|] == ids;
      DivMod(0, |blocks|, 0, 0);
    } else {
      var n := |ids| - 1;
      var c := n - |Plan(blocks)|;
      RepairTally(blocks, ids[..n], b);
      assert ids[..n][..|Plan(blocks)|] == ids[..|Plan(blocks)|];
      assert DataId(blocks, n) == RepairId(blocks, c) == Some(ids[n]);
      RepairIdBlock(blocks, c);
      NextDivMod(c, |blocks|);
    }
  }

  /** Repair symbol `c` belongs to block `c % n`. */
  lemma RepairIdBlock(blocks: seq<SourceBlockMeta>, c: nat)
    requires blocks != [] && Canonical(blocks) && RepairId(blocks, c).Some?
    ensures RepairId(blocks, c).value.sbn == c % |blocks|
    ensures RepairId(blocks, c).value.esi >= blocks[c % |blocks|].numSourceSymbols
  {
    var r: nat := c % |blocks|;
    assert blocks[r].sbn == r;
  }

  /** In the source pass no block is more than one symbol ahead of one that still has source
      symbols left; past it no block has two repair symbols more than another. */
  lemma LeadingIdsAreFair(blocks: seq<SourceBlockMeta>, ids: seq<SymbolId>, a: nat, b: nat)
    requires Leading(blocks, ids) && a < |blocks| && b < |blocks|
    ensures SourcesSent(blocks, ids, a) <= SourcesSent(blocks, ids, b) + 1
         || SourcesSent(blocks, ids, b) == blocks[b].numSourceSymbols
    ensures RepairsSent(blocks, ids, a) <= RepairsSent(blocks, ids, b) + 1
  {
    var p := |Plan(blocks)|;
    if |ids| > p {
      RepairTally(blocks, ids, a);
      RepairTally(blocks, ids, b);
    } else {
      assert ids[..|ids|] == ids;
    }
    var n := if |ids| > p then p else |ids|;
    SourcePassTally(blocks, ids[..n], a);
    SourcePassTally(blocks, ids[..n], b);
    SourcePassIsFair(blocks, n, a, b);
  }

  /** So it is in every run of a session, whatever the interval is set to on the way, up to the
      last symbol the id space yields. */
  lemma EmissionIsFair(blocks: seq<SourceBlockMeta>, calls: seq<Call>, a: nat, b: nat)
    requires Runnable(blocks, START, calls) && a < |blocks| && b < |blocks|
    ensures var ids := Emitted(blocks, START, calls);
            && (SourcesSent(blocks, ids, a) <= SourcesSent(blocks, ids, b) + 1
                || SourcesSent(blocks, ids, b) == blocks[b].numSourceSymbols)
            && RepairsSent(blocks, ids, a) <= RepairsSent(blocks, ids, b) + 1
  {
    DataFramesInOrder(blocks, START, calls);
    var ids := Emitted(blocks, START, calls);
    assert forall k :: 0 <= k < |ids| ==> DataId(blocks, START.data + k) == Some(ids[k]);
    LeadingIdsAreFair(blocks, ids, a, b);
  }
}
