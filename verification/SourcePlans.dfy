/** The order in which a sender names symbols: a round-robin source pass, then fresh
    repair ids until the 24-bit id space of some block runs out. */
module SourcePlans {
  import opened Words
  import opened Sums
  import opened Division
  import opened Metadata
  import opened BlockCodecs

  datatype SymbolId = SymbolId(sbn: u32, esi: u32)

  /** Blocks as the encoder numbers them, each small enough to have repair ids. */
  predicate Canonical(blocks: seq<SourceBlockMeta>)
  {
    forall i :: 0 <= i < |blocks| ==>
      blocks[i].sbn == i && 0 < blocks[i].numSourceSymbols <= MAX_SOURCE_SYMBOLS_PER_BLOCK
  }

  // ----- The source pass

  /** Symbol `esi` of each of the first `n` blocks that has one. */
  function Row(blocks: seq<SourceBlockMeta>, esi: u32, n: nat): seq<SymbolId>
    requires n <= |blocks|
  {
    if n == 0 then []
    else Row(blocks, esi, n - 1)
         + (if esi < blocks[n - 1].numSourceSymbols then [SymbolId(blocks[n - 1].sbn, esi)] else [])
  }

  function Rows(blocks: seq<SourceBlockMeta>, rows: nat): seq<SymbolId>
    requires rows <= U32
  {
    if rows == 0 then [] else Rows(blocks, rows - 1) + Row(blocks, rows - 1, |blocks|)
  }

  function MaxK(blocks: seq<SourceBlockMeta>): (k: u32)
    ensures forall i :: 0 <= i < |blocks| ==> blocks[i].numSourceSymbols <= k
    ensures blocks != [] ==> exists i :: 0 <= i < |blocks| && blocks[i].numSourceSymbols == k
  {
    if blocks == [] then 0
    else
      var k, last := MaxK(blocks[..|blocks| - 1]), blocks[|blocks| - 1].numSourceSymbols;
      assert forall i :: 0 <= i < |blocks| - 1 ==> blocks[i] == blocks[..|blocks| - 1][i];
      assert |blocks| > 1 ==> exists i :: 0 <= i < |blocks| - 1 && blocks[i].numSourceSymbols == k by {
        if |blocks| > 1 {
          var i :| 0 <= i < |blocks| - 1 && blocks[..|blocks| - 1][i].numSourceSymbols == k;
          assert blocks[i].numSourceSymbols == k;
        }
      }
      if k < last then last else k
  }

  function Plan(blocks: seq<SourceBlockMeta>): seq<SymbolId>
  {
    Rows(blocks, MaxK(blocks))
  }

  method BuildSourcePlan(blocks: seq<SourceBlockMeta>) returns (plan: seq<SymbolId>)
    ensures plan == Plan(blocks)
  {
    plan := [];
    var maxK := MaxK(blocks);
    for esi: int := 0 to maxK
      invariant plan == Rows(blocks, esi)
    {
      for i := 0 to |blocks|
        invariant plan == Rows(blocks, esi) + Row(blocks, esi, i)
      {
        if esi < blocks[i].numSourceSymbols {
          plan := plan + [SymbolId(blocks[i].sbn, esi)];
        }
      }
    }
  }

  /** The order of emission: by id within the block first, then by block. */
  predicate Before(a: SymbolId, b: SymbolId)
  {
    a.esi < b.esi || (a.esi == b.esi && a.sbn < b.sbn)
  }

  predicate Sorted(q: seq<SymbolId>)
  {
    forall i, j :: 0 <= i < j < |q| ==> Before(q[i], q[j])
  }

  /** `x` is a source symbol of one of the first `n` blocks, with an id below `rows`. */
  predicate SourceId(blocks: seq<SourceBlockMeta>, rows: nat, n: nat, x: SymbolId)
    requires n <= |blocks|
  {
    x.sbn < n && x.esi < rows && x.esi < blocks[x.sbn].numSourceSymbols
  }

  lemma {:induction false} RowContents(blocks: seq<SourceBlockMeta>, esi: u32, n: nat)
    requires Canonical(blocks) && n <= |blocks| < U32
    ensures Sorted(Row(blocks, esi, n))
    ensures forall x :: x in Row(blocks, esi, n) <==> x.esi == esi && SourceId(blocks, esi + 1, n, x)
  {
    if n > 0 {
      RowContents(blocks, esi, n - 1);
    }
  }

  lemma SortedJoin(a: seq<SymbolId>, b: seq<SymbolId>)
    requires Sorted(a) && Sorted(b)
    requires forall x, y :: x in a && y in b ==> Before(x, y)
    ensures Sorted(a + b)
  {
    var c := a + b;
    forall i, j | 0 <= i < j < |c|
      ensures Before(c[i], c[j])
    {
      if i < |a| <= j {
        assert c[i] in a && c[j] in b;
      }
    }
  }

  lemma {:induction false} RowsContents(blocks: seq<SourceBlockMeta>, rows: nat)
    requires Canonical(blocks) && |blocks| < U32 && rows <= U32
    ensures Sorted(Rows(blocks, rows))
    ensures forall x :: x in Rows(blocks, rows) <==> SourceId(blocks, rows, |blocks|, x)
  {
    if rows > 0 {
      RowsContents(blocks, rows - 1);
      RowContents(blocks, rows - 1, |blocks|);
      var a, b := Rows(blocks, rows - 1), Row(blocks, rows - 1, |blocks|);
      SortedJoin(a, b);
      forall x
        ensures x in a + b <==> x in a || x in b
      {
      }
    }
  }

  /** The source plan lists every source symbol, once, in order. */
  lemma PlanIsExact(blocks: seq<SourceBlockMeta>)
    requires Canonical(blocks) && |blocks| < U32
    ensures Sorted(Plan(blocks))
    ensures forall x :: x in Plan(blocks) <==> x.sbn < |blocks| && x.esi < blocks[x.sbn].numSourceSymbols
    ensures |Plan(blocks)| == TotalK(blocks)
  {
    RowsContents(blocks, MaxK(blocks));
    PlanLength(blocks, |blocks|);
    assert blocks[..|blocks|] == blocks;
  }

  /** Entries of the first `rows` rows over the first `n` blocks. */
  function Area(blocks: seq<SourceBlockMeta>, rows: nat, n: nat): nat
    requires rows <= U32 && n <= |blocks|
  {
    if rows == 0 then 0 else Area(blocks, rows - 1, n) + |Row(blocks, rows - 1, n)|
  }

  lemma {:induction false} AreaIsLength(blocks: seq<SourceBlockMeta>, rows: nat)
    requires rows <= U32
    ensures |Rows(blocks, rows)| == Area(blocks, rows, |blocks|)
  {
    if rows > 0 {
      AreaIsLength(blocks, rows - 1);
    }
  }

  /** One more block adds as many entries as it has symbols within the rows. */
  lemma {:induction false} AreaByColumn(blocks: seq<SourceBlockMeta>, rows: nat, n: nat)
    requires rows <= U32 && 0 < n <= |blocks|
    ensures Area(blocks, rows, n) == Area(blocks, rows, n - 1) + Min(rows, blocks[n - 1].numSourceSymbols)
  {
    if rows > 0 {
      AreaByColumn(blocks, rows - 1, n);
    }
  }

  lemma {:induction false} AreaOfNothing(blocks: seq<SourceBlockMeta>, rows: nat)
    requires rows <= U32
    ensures Area(blocks, rows, 0) == 0
  {
    if rows > 0 {
      AreaOfNothing(blocks, rows - 1);
    }
  }

  lemma {:induction false} AreaIsSum(blocks: seq<SourceBlockMeta>, n: nat)
    requires n <= |blocks|
    ensures Area(blocks, MaxK(blocks), n) == Sum(Ks(blocks)[..n])
  {
    if n == 0 {
      AreaOfNothing(blocks, MaxK(blocks));
    } else {
      AreaIsSum(blocks, n - 1);
      AreaByColumn(blocks, MaxK(blocks), n);
      SumPrefix(Ks(blocks), n - 1);
    }
  }

  lemma PlanLength(blocks: seq<SourceBlockMeta>, n: nat)
    requires n == |blocks|
    ensures |Plan(blocks)| == TotalK(blocks)
  {
    AreaIsLength(blocks, MaxK(blocks));
    AreaIsSum(blocks, n);
    assert Ks(blocks)[..n] == Ks(blocks);
  }

  // ----- Fairness of the source pass

  /** Ids of block `b` among the first `p` entries of the plan. */
  function SentSource(blocks: seq<SourceBlockMeta>, p: nat, b: nat): set<nat>
    requires p <= |Plan(blocks)|
  {
    set x | x in Plan(blocks)[..p] && x.sbn == b :: x.esi as nat
  }

  /** Where an entry of the plan stands relative to position `p - 1`. */
  lemma PlaceInPlan(q: seq<SymbolId>, p: nat, x: SymbolId)
    requires Sorted(q) && 0 < p <= |q| && x in q
    ensures x in q[..p] <==> x == q[p - 1] || Before(x, q[p - 1])
  {
    var i :| 0 <= i < |q| && q[i] == x;
    if i < p {
      assert q[..p][i] == x;
    } else {
      assert Before(q[p - 1], x);
      assert forall k :: 0 <= k < p ==> q[k] == x || Before(q[k], q[i]);
    }
  }

  /** After any prefix of the source pass, block `b` has sent exactly its first few symbols. */
  lemma SentSourceIsPrefix(blocks: seq<SourceBlockMeta>, p: nat, b: nat)
    requires Canonical(blocks) && |blocks| < U32 && 0 < p <= |Plan(blocks)| && b < |blocks|
    ensures var last := Plan(blocks)[p - 1];
            SentSource(blocks, p, b)
            == Ids(Min(blocks[b].numSourceSymbols, last.esi as nat + (if b <= last.sbn then 1 else 0)))
  {
    PlanIsExact(blocks);
    var plan, last := Plan(blocks), Plan(blocks)[p - 1];
    var n: nat := Min(blocks[b].numSourceSymbols, last.esi as nat + (if b <= last.sbn then 1 else 0));
    forall e: nat
      ensures e in SentSource(blocks, p, b) <==> e in Ids(n)
    {
      if e < blocks[b].numSourceSymbols {
        var x := SymbolId(b, e);
        PlaceInPlan(plan, p, x);
      }
    }
  }

  /** A block is never more than one symbol ahead of one that still has symbols left. */
  lemma SourcePassIsFair(blocks: seq<SourceBlockMeta>, p: nat, a: nat, b: nat)
    requires Canonical(blocks) && |blocks| < U32 && p <= |Plan(blocks)| && a < |blocks| && b < |blocks|
    ensures |SentSource(blocks, p, a)| <= |SentSource(blocks, p, b)| + 1
         || |SentSource(blocks, p, b)| == blocks[b].numSourceSymbols
  {
    if p == 0 {
      assert SentSource(blocks, p, a) == {};
    } else {
      SentSourceIsPrefix(blocks, p, a);
      SentSourceIsPrefix(blocks, p, b);
      var last := Plan(blocks)[p - 1];
      CardIds(Min(blocks[a].numSourceSymbols, last.esi as nat + (if a <= last.sbn then 1 else 0)));
      CardIds(Min(blocks[b].numSourceSymbols, last.esi as nat + (if b <= last.sbn then 1 else 0)));
    }
  }

  // ----- Repair ids

  /** The id of the `cursor`-th repair symbol, if its block still has ids. */
  function RepairId(blocks: seq<SourceBlockMeta>, cursor: nat): Option<SymbolId>
    requires blocks != []
  {
    var b := blocks[cursor % |blocks|];
    var offset := cursor / |blocks|;
    if offset >= U32 || b.numSourceSymbols + offset >= U32 then None
    else if b.numSourceSymbols + offset >= ESI_LIMIT then None
    else Some(SymbolId(b.sbn, b.numSourceSymbols + offset))
  }

  function FirstWithMaxK(blocks: seq<SourceBlockMeta>, n: nat): (i: nat)
    requires n < |blocks|
    requires exists j :: n <= j < |blocks| && blocks[j].numSourceSymbols == MaxK(blocks)
    ensures n <= i < |blocks| && blocks[i].numSourceSymbols == MaxK(blocks)
    ensures forall j :: n <= j < i ==> blocks[j].numSourceSymbols < MaxK(blocks)
    decreases |blocks| - n
  {
    if blocks[n].numSourceSymbols == MaxK(blocks) then n else FirstWithMaxK(blocks, n + 1)
  }

  /** The first of the largest blocks. */
  function FirstLargest(blocks: seq<SourceBlockMeta>): (i: nat)
    requires blocks != []
    ensures i < |blocks| && blocks[i].numSourceSymbols == MaxK(blocks)
    ensures forall j :: 0 <= j < i ==> blocks[j].numSourceSymbols < MaxK(blocks)
  {
    var k := MaxK(blocks);
    assert exists j :: 0 <= j < |blocks| && blocks[j].numSourceSymbols == k;
    FirstWithMaxK(blocks, 0)
  }

  /** Repair ids left to a largest block. */
  function Room(blocks: seq<SourceBlockMeta>): (r: nat)
    requires blocks != [] && Canonical(blocks)
    ensures r == ESI_LIMIT - MaxK(blocks) && 0 < r
  {
    assert MaxK(blocks) == blocks[FirstLargest(blocks)].numSourceSymbols;
    ESI_LIMIT - MaxK(blocks)
  }

  /** Repair symbol `c` belongs to block `c mod n` and is its `c / n`-th past the source symbols, as
      long as its id has 24 bits. */
  lemma RepairIdExactly(blocks: seq<SourceBlockMeta>, c: nat)
    requires blocks != [] && Canonical(blocks)
    ensures var n := |blocks|;
            var esi := blocks[c % n].numSourceSymbols + c / n;
            && (RepairId(blocks, c).Some? <==> esi < 0x100_0000)
            && (RepairId(blocks, c).Some? ==>
                 RepairId(blocks, c).value.sbn == c % n && RepairId(blocks, c).value.esi == esi)
  {
    var r: nat := c % |blocks|;
    assert blocks[r].sbn == r;
  }

  /** Repair symbols there are before the first block runs out. */
  function RepairSupply(blocks: seq<SourceBlockMeta>): nat
    requires blocks != [] && Canonical(blocks)
  {
    |blocks| * Room(blocks) + FirstLargest(blocks)
  }

  /** When the symbol named by row `q`, block `r` exists. */
  lemma RepairIdExists(blocks: seq<SourceBlockMeta>, cursor: nat)
    requires blocks != [] && Canonical(blocks)
    ensures RepairId(blocks, cursor).Some?
        <==> blocks[cursor % |blocks|].numSourceSymbols + cursor / |blocks| < ESI_LIMIT
  {
  }

  /** The supply is exact: every cursor below it names a symbol, and the cursor there does not. */
  lemma RepairSupplyIsExact(blocks: seq<SourceBlockMeta>, cursor: nat)
    requires blocks != [] && Canonical(blocks)
    ensures cursor < RepairSupply(blocks) ==> RepairId(blocks, cursor).Some?
    ensures cursor == RepairSupply(blocks) ==> RepairId(blocks, cursor).None?
  {
    RepairIdExists(blocks, cursor);
    WithinSupply(|blocks|, cursor, Room(blocks), FirstLargest(blocks));
  }

  /** Where a cursor below or at `n * room + first` stands in a table with `n` columns. */
  lemma WithinSupply(n: nat, c: nat, room: nat, first: nat)
    requires first < n
    ensures c < n * room + first ==> c / n < room || (c / n == room && c % n < first)
    ensures c == n * room + first ==> c / n == room && c % n == first
  {
    if c == n * room + first {
      DivMod(c, n, room, first);
    } else if c < n * room + first {
      QuotientBelow(n, c, c / n, c % n, room, first);
    }
  }

  lemma QuotientBelow(n: nat, c: nat, q: nat, r: nat, room: nat, first: nat)
    requires r < n && first < n && q == c / n && r == c % n && c < n * room + first
    ensures q < room || (q == room && r < first)
  {
    assert c == n * q + r;
    assert q >= room + 1 ==> n * q >= n * (room + 1) == n * room + n;
    assert q == room ==> n * q == n * room;
  }

  /** Distinct cursors never name the same symbol. */
  lemma RepairIdsDistinct(blocks: seq<SourceBlockMeta>, c: nat, d: nat)
    requires blocks != [] && Canonical(blocks)
    requires RepairId(blocks, c).Some? && RepairId(blocks, c) == RepairId(blocks, d)
    ensures c == d
  {
    var n := |blocks|;
    assert c == n * (c / n) + c % n && d == n * (d / n) + d % n;
  }

  // ----- The whole sequence of data ids

  /** The id of the `j`-th data frame. */
  function DataId(blocks: seq<SourceBlockMeta>, j: nat): Option<SymbolId>
    requires blocks != []
  {
    if j < |Plan(blocks)| then Some(Plan(blocks)[j]) else RepairId(blocks, j - |Plan(blocks)|)
  }

  /** Data frames a sender can emit. */
  function DataSupply(blocks: seq<SourceBlockMeta>): nat
    requires blocks != [] && Canonical(blocks)
  {
    TotalK(blocks) + RepairSupply(blocks)
  }

  lemma DataSupplyIsExact(blocks: seq<SourceBlockMeta>, j: nat)
    requires blocks != [] && Canonical(blocks)
    ensures j < DataSupply(blocks) ==> DataId(blocks, j).Some?
    ensures j == DataSupply(blocks) ==> DataId(blocks, j).None?
  {
    PlanLength(blocks, |blocks|);
    if j >= |Plan(blocks)| {
      RepairSupplyIsExact(blocks, j - |Plan(blocks)|);
    }
  }

  lemma PlanEntryInRange(blocks: seq<SourceBlockMeta>, j: nat)
    requires Canonical(blocks) && |blocks| < U32 && j < |Plan(blocks)|
    ensures var id := Plan(blocks)[j]; id.sbn < |blocks| && id.esi < blocks[id.sbn].numSourceSymbols
  {
    PlanIsExact(blocks);
    assert Plan(blocks)[j] in Plan(blocks);
  }

  lemma RepairIdInRange(blocks: seq<SourceBlockMeta>, c: nat)
    requires blocks != [] && Canonical(blocks) && RepairId(blocks, c).Some?
    ensures var id := RepairId(blocks, c).value;
            id.sbn < |blocks| && blocks[id.sbn].numSourceSymbols <= id.esi < ESI_LIMIT
  {
  }

  /** Every data id is a source symbol or a repair symbol of an existing block, within 24 bits. */
  lemma DataIdInRange(blocks: seq<SourceBlockMeta>, j: nat)
    requires blocks != [] && Canonical(blocks) && |blocks| < U32 && DataId(blocks, j).Some?
    ensures var id := DataId(blocks, j).value;
            id.sbn < |blocks| && id.esi < ESI_LIMIT
            && (id.esi < blocks[id.sbn].numSourceSymbols <==> j < TotalK(blocks))
  {
    PlanLength(blocks, |blocks|);
    if j < |Plan(blocks)| {
      PlanEntryInRange(blocks, j);
    } else {
      RepairIdInRange(blocks, j - |Plan(blocks)|);
    }
  }

  /** No data id is ever sent twice. */
  lemma DataIdsDistinct(blocks: seq<SourceBlockMeta>, i: nat, j: nat)
    requires blocks != [] && Canonical(blocks) && |blocks| < U32
    requires DataId(blocks, i).Some? && DataId(blocks, i) == DataId(blocks, j)
    ensures i == j
  {
    DataIdInRange(blocks, i);
    DataIdInRange(blocks, j);
    PlanIsExact(blocks);
    var n := |Plan(blocks)|;
    if i < n && j < n {
      assert i < j ==> Before(Plan(blocks)[i], Plan(blocks)[j]);
      assert j < i ==> Before(Plan(blocks)[j], Plan(blocks)[i]);
    } else if i >= n && j >= n {
      RepairIdsDistinct(blocks, i - n, j - n);
    }
  }
}
