/** Live rates over the last three seconds, kept in a bounded queue of samples. */
module Windows {
  import opened Words
  import opened Sums

  const STATS_WINDOW_MS: nat := 3000
  const STATS_MAX_SAMPLES: nat := 4096

  datatype Sample = Sample(t: u64, bytes: nat)

  /** Span, frames and bytes over the samples inside a window. */
  datatype Rates = Rates(spanMs: nat, frames: nat, bytes: nat)

  // ----- What the rates of a list of samples are

  function Cutoff(now: nat): nat
  {
    Max(0, now - STATS_WINDOW_MS)
  }

  /** The samples not older than `cutoff`. */
  function Live(q: seq<Sample>, cutoff: nat): seq<Sample>
  {
    if q == [] then []
    else Live(q[..|q| - 1], cutoff) + (if q[|q| - 1].t < cutoff then [] else [q[|q| - 1]])
  }

  function BytesOf(q: seq<Sample>): nat
  {
    if q == [] then 0 else BytesOf(q[..|q| - 1]) + q[|q| - 1].bytes
  }

  function Scan(q: seq<Sample>, now: nat): Rates
  {
    var live := Live(q, Cutoff(now));
    Rates(if live == [] then 0 else Max(0, live[|live| - 1].t as int - live[0].t as int), |live|, BytesOf(live))
  }

  function LastOf(q: seq<Sample>, n: nat): seq<Sample>
  {
    if |q| > n then q[|q| - n..] else q
  }

  /** No sample is stamped later than `now`. */
  ghost predicate StampedBy(h: seq<Sample>, now: nat)
  {
    forall s :: s in h ==> s.t <= now
  }

  // ----- The same by positions

  /** Where the samples of the last three seconds stand. */
  function LiveAt(q: seq<Sample>, now: nat): set<nat>
  {
    set i: nat | i < |q| && q[i].t + 3000 >= now
  }

  function BytesAt(q: seq<Sample>, now: nat): seq<nat>
  {
    seq(|q|, i requires 0 <= i < |q| => if q[i].t + 3000 >= now then q[i].bytes else 0)
  }

  ghost predicate First(s: set<nat>, i: nat)
  {
    i in s && forall k :: k in s ==> i <= k
  }

  ghost predicate Last(s: set<nat>, i: nat)
  {
    i in s && forall k :: k in s ==> k <= i
  }

  /** How many there are, their bytes, and the time from the first of them to the last, zero when
      there is none or the clock ran backwards between them. */
  ghost predicate RatesAt(q: seq<Sample>, now: nat, r: Rates)
  {
    && r.frames == |LiveAt(q, now)| && r.bytes == Sum(BytesAt(q, now))
    && (LiveAt(q, now) == {} ==> r.spanMs == 0)
    && forall i: nat, j: nat :: First(LiveAt(q, now), i) && Last(LiveAt(q, now), j) ==>
         r.spanMs == Max(0, q[j].t as int - q[i].t as int)
  }

  /** The sample is not older than three seconds. */
  predicate Recent(s: Sample, now: nat) { s.t + 3000 >= now }

  lemma OneMoreLive(q: seq<Sample>, s: Sample, now: nat)
    ensures Live(q + [s], Cutoff(now)) == Live(q, Cutoff(now)) + if Recent(s, now) then [s] else []
  {
    assert (q + [s])[..|q|] == q;
  }

  lemma OneMoreAt(q: seq<Sample>, s: Sample, now: nat)
    ensures LiveAt(q + [s], now) == LiveAt(q, now) + if Recent(s, now) then {|q|} else {}
    ensures |LiveAt(q + [s], now)| == |LiveAt(q, now)| + if Recent(s, now) then 1 else 0
  {
    forall i: nat
      ensures i in LiveAt(q + [s], now) <==> i in LiveAt(q, now) || (i == |q| && Recent(s, now))
    {
      MemberAt(q, s, now, i);
    }
    var before, n := LiveAt(q, now), |q| as nat;
    assert n !in before;
    if Recent(s, now) {
      assert LiveAt(q + [s], now) == before + {n};
    } else {
      assert LiveAt(q + [s], now) == before;
      assert before + {} == before;
    }
  }

  lemma MemberAt(q: seq<Sample>, s: Sample, now: nat, i: nat)
    ensures i in LiveAt(q + [s], now) <==> i in LiveAt(q, now) || (i == |q| && Recent(s, now))
  {
    assert i < |q| ==> (q + [s])[i] == q[i];
  }

  lemma OneMoreBytes(q: seq<Sample>, s: Sample, now: nat)
    ensures Sum(BytesAt(q + [s], now)) == Sum(BytesAt(q, now)) + if Recent(s, now) then s.bytes else 0
  {
    var b: nat := if Recent(s, now) then s.bytes else 0;
    assert BytesAt(q + [s], now) == BytesAt(q, now) + [b];
    SumSnoc(BytesAt(q, now), b);
  }

  lemma {:induction false} LiveCountsAt(q: seq<Sample>, now: nat)
    ensures |Live(q, Cutoff(now))| == |LiveAt(q, now)|
    decreases |q|
  {
    if q == [] {
      assert LiveAt(q, now) == {};
    } else {
      var rest, s := q[..|q| - 1], q[|q| - 1];
      assert q == rest + [s];
      LiveCountsAt(rest, now);
      OneMoreLive(rest, s, now);
      OneMoreAt(rest, s, now);
    }
  }

  lemma {:induction false} LiveBytesAt(q: seq<Sample>, now: nat)
    ensures BytesOf(Live(q, Cutoff(now))) == Sum(BytesAt(q, now))
    decreases |q|
  {
    if q == [] {
      assert BytesAt(q, now) == [];
    } else {
      var rest, s := q[..|q| - 1], q[|q| - 1];
      assert q == rest + [s];
      LiveBytesAt(rest, now);
      OneMoreBytes(rest, s, now);
      OneMoreLiveBytes(rest, s, now);
    }
  }

  lemma OneMoreLiveBytes(q: seq<Sample>, s: Sample, now: nat)
    ensures BytesOf(Live(q + [s], Cutoff(now))) == BytesOf(Live(q, Cutoff(now))) + if Recent(s, now) then s.bytes else 0
  {
    OneMoreLive(q, s, now);
    var live := Live(q, Cutoff(now));
    if Recent(s, now) {
      BytesSnoc(live, s);
    } else {
      assert live + [] == live;
    }
  }

  /** The live samples begin and end with the first and the last live position. */
  lemma {:induction false} LiveEnds(q: seq<Sample>, now: nat) returns (i: nat, j: nat)
    requires Live(q, Cutoff(now)) != []
    ensures First(LiveAt(q, now), i) && Last(LiveAt(q, now), j)
    ensures var live := Live(q, Cutoff(now)); live[0] == q[i] && live[|live| - 1] == q[j]
    decreases |q|
  {
    var rest, s := q[..|q| - 1], q[|q| - 1];
    assert q == rest + [s];
    OneMoreLive(rest, s, now);
    OneMoreAt(rest, s, now);
    var n: nat := |rest|;
    if Live(rest, Cutoff(now)) == [] {
      LiveCountsAt(rest, now);
      assert LiveAt(rest, now) == {};
      i, j := n, n;
    } else {
      i, j := LiveEnds(rest, now);
      if Recent(s, now) {
        j := n;
      }
    }
  }

  lemma OneFirst(s: set<nat>, i: nat, j: nat)
    requires (First(s, i) && First(s, j)) || (Last(s, i) && Last(s, j))
    ensures i == j
  {
  }

  /** Scanning gives just that. */
  lemma ScanIsAt(q: seq<Sample>, now: nat)
    ensures RatesAt(q, now, Scan(q, now))
  {
    LiveCountsAt(q, now);
    LiveBytesAt(q, now);
    if Live(q, Cutoff(now)) == [] {
      assert LiveAt(q, now) == {};
    } else {
      var a, b := LiveEnds(q, now);
      forall i: nat, j: nat | First(LiveAt(q, now), i) && Last(LiveAt(q, now), j)
        ensures i == a && j == b
      {
        OneFirst(LiveAt(q, now), i, a);
        OneFirst(LiveAt(q, now), j, b);
      }
    }
  }

  /** No more than the three seconds, when nothing is stamped later than the clock. */
  lemma SpanIsShort(q: seq<Sample>, now: nat)
    requires StampedBy(q, now)
    ensures Scan(q, now).spanMs <= 3000
  {
    if Live(q, Cutoff(now)) != [] {
      var i, j := LiveEnds(q, now);
      assert q[j] in q;
    }
  }

  // ----- What the queue holds

  /** Stale samples leave from the front, but two always stay. */
  function Evicted(q: seq<Sample>, cutoff: nat): seq<Sample>
  {
    if |q| > 2 && q[0].t < cutoff then Evicted(q[1..], cutoff) else q
  }

  function Pushed(q: seq<Sample>, s: Sample): seq<Sample>
  {
    LastOf(Evicted(q + [s], Cutoff(s.t)), STATS_MAX_SAMPLES)
  }

  /** The queue after these pushes. */
  function Queue(history: seq<Sample>): seq<Sample>
  {
    if history == [] then [] else Pushed(Queue(history[..|history| - 1]), history[|history| - 1])
  }

  lemma LiveSnoc(q: seq<Sample>, i: nat, cutoff: nat)
    requires i < |q|
    ensures Live(q[..i + 1], cutoff) == Live(q[..i], cutoff) + (if q[i].t < cutoff then [] else [q[i]])
  {
    assert q[..i + 1][..i] == q[..i];
  }

  lemma BytesSnoc(q: seq<Sample>, s: Sample)
    ensures BytesOf(q + [s]) == BytesOf(q) + s.bytes
  {
    assert (q + [s])[..|q|] == q;
  }

  /** What the loop over these live samples has gathered. */
  ghost predicate Tally(live: seq<Sample>, first: Option<u64>, last: Option<u64>, count: nat, total: nat)
  {
    && count == |live| && total == BytesOf(live)
    && first == (if live == [] then None else Some(live[0].t))
    && last == (if live == [] then None else Some(live[|live| - 1].t))
  }

  function Span(first: Option<u64>, last: Option<u64>): nat
  {
    if first.Some? && last.Some? && last.value > first.value then last.value as int - first.value as int else 0
  }

  lemma TallyMore(live: seq<Sample>, first: Option<u64>, last: Option<u64>, count: nat, total: nat, s: Sample)
    requires Tally(live, first, last, count, total)
    ensures Tally(live + [s], if first.None? then Some(s.t) else first, Some(s.t), count + 1, total + s.bytes)
  {
    BytesSnoc(live, s);
  }

  class Stats {
    var bytes: nat
    var frames: nat
    var window: seq<Sample>
    /** Every sample ever pushed. */
    ghost var history: seq<Sample>

    ghost predicate Valid()
      reads this
    {
      window == Queue(history) && frames == |history| && bytes == BytesOf(history)
    }

    constructor ()
      ensures Valid() && history == []
    {
      bytes, frames, window, history := 0, 0, [], [];
    }

    method RecordSent(now: u64, payloadBytes: nat)
      requires Valid()
      modifies this
      ensures Valid() && history == old(history) + [Sample(now, payloadBytes)]
    {
      bytes := bytes + payloadBytes;
      frames := frames + 1;
      PushSampleAt(now, payloadBytes);
    }

    /** A duplicate takes up the channel but brings no bytes. */
    method RecordReceived(now: u64, payloadBytes: nat, unique: bool)
      requires Valid()
      modifies this
      ensures Valid() && history == old(history) + [Sample(now, if unique then payloadBytes else 0)]
    {
      var counted := if unique then payloadBytes else 0;
      if unique {
        bytes := bytes + payloadBytes;
      }
      frames := frames + 1;
      PushSampleAt(now, counted);
    }

    method PushSampleAt(t: u64, sampleBytes: nat)
      requires window == Queue(history)
      modifies `window, `history
      ensures window == Queue(history) && history == old(history) + [Sample(t, sampleBytes)]
      ensures BytesOf(history) == BytesOf(old(history)) + sampleBytes
    {
      history := history + [Sample(t, sampleBytes)];
      assert history[..|history| - 1] == old(history);
      window := window + [Sample(t, sampleBytes)];
      ghost var all, pushed := window, history;
      var cutoff := if t >= STATS_WINDOW_MS then t - STATS_WINDOW_MS else 0;
      while |window| > 2 && window[0].t < cutoff
        invariant history == pushed && Evicted(window, cutoff) == Evicted(all, cutoff)
        decreases |window|
      {
        window := window[1..];
      }
      ghost var evicted := window;
      assert evicted == Evicted(all, Cutoff(t)) && Queue(history) == LastOf(evicted, STATS_MAX_SAMPLES);
      while |window| > STATS_MAX_SAMPLES
        invariant history == pushed && LastOf(window, STATS_MAX_SAMPLES) == LastOf(evicted, STATS_MAX_SAMPLES)
        decreases |window|
      {
        window := window[1..];
      }
    }

    /** The live rates; of the whole history when the clock has not gone back. */
    method WindowRates(now: u64) returns (r: Rates)
      requires Valid()
      ensures r == Scan(window, now)
      ensures StampedBy(history, now) ==> r == Scan(LastOf(history, STATS_MAX_SAMPLES), now)
      ensures RatesAt(window, now, r)
      ensures StampedBy(history, now) ==> RatesAt(history[Max(0, |history| - 4096)..], now, r) && r.spanMs <= 3000
    {
      var cutoff := if now >= STATS_WINDOW_MS then now - STATS_WINDOW_MS else 0;
      var first: Option<u64>, last: Option<u64> := None, None;
      var count: nat, total: nat := 0, 0;
      ghost var live: seq<Sample> := [];
      ghost var q := window;
      for i := 0 to |window|
        invariant live == Live(q[..i], cutoff) && Tally(live, first, last, count, total)
      {
        LiveSnoc(q, i, cutoff);
        var s := window[i];
        if s.t >= cutoff {
          TallyMore(live, first, last, count, total, s);
          if first.None? {
            first := Some(s.t);
          }
          last := Some(s.t);
          count := count + 1;
          total := total + s.bytes;
          live := live + [s];
        }
      }
      assert q[..|q|] == q;
      r := Rates(Span(first, last), count, total);
      RefinesWhenStamped(history, now);
      RatesAreAt(history, now);
    }
  }

  lemma RatesAreAt(h: seq<Sample>, now: nat)
    ensures RatesAt(Queue(h), now, Scan(Queue(h), now))
    ensures var last := h[Max(0, |h| - 4096)..];
            StampedBy(h, now) ==>
              last == LastOf(h, STATS_MAX_SAMPLES) && RatesAt(last, now, Scan(last, now)) && Scan(last, now).spanMs <= 3000
  {
    ScanIsAt(Queue(h), now);
    var last := h[Max(0, |h| - 4096)..];
    assert last == LastOf(h, STATS_MAX_SAMPLES);
    ScanIsAt(last, now);
    if StampedBy(h, now) {
      SpanIsShort(last, now);
    }
  }

  // ----- The queue forgets nothing the rates can see

  lemma {:induction false} EvictedDrops(q: seq<Sample>, cutoff: nat) returns (k: nat)
    ensures k <= |q| && Evicted(q, cutoff) == q[k..]
    ensures forall i :: 0 <= i < k ==> q[i].t < cutoff
  {
    if |q| > 2 && q[0].t < cutoff {
      var j := EvictedDrops(q[1..], cutoff);
      k := j + 1;
      assert forall i :: 1 <= i < k ==> q[i] == q[1..][i - 1];
    } else {
      k := 0;
    }
  }

  /** Sample `i` is beyond the cap, or already stale by the clock of some push. */
  ghost predicate Forgettable(h: seq<Sample>, i: nat)
    requires i < |h|
  {
    i + STATS_MAX_SAMPLES < |h| || exists j :: 0 <= j < |h| && h[i].t < Cutoff(h[j].t)
  }

  lemma StaysForgettable(h: seq<Sample>, s: Sample, i: nat)
    requires i < |h| && Forgettable(h, i)
    ensures Forgettable(h + [s], i)
  {
    if i + STATS_MAX_SAMPLES >= |h| {
      var j :| 0 <= j < |h| && h[i].t < Cutoff(h[j].t);
      assert (h + [s])[j] == h[j] && (h + [s])[i] == h[i];
    }
  }

  /** What a push drops is stale by its clock or beyond the cap. */
  lemma PushDrops(q: seq<Sample>, s: Sample) returns (k: nat)
    ensures k <= |q| + 1 && Pushed(q, s) == (q + [s])[k..] && |Pushed(q, s)| <= STATS_MAX_SAMPLES
    ensures forall i :: 0 <= i < k ==> (q + [s])[i].t < Cutoff(s.t) || i + STATS_MAX_SAMPLES < |q| + 1
  {
    var p := q + [s];
    k := EvictedDrops(p, Cutoff(s.t));
    if |p| - k > STATS_MAX_SAMPLES {
      assert p[k..][|p| - k - STATS_MAX_SAMPLES..] == p[|p| - STATS_MAX_SAMPLES..];
      k := |p| - STATS_MAX_SAMPLES;
    }
  }

  /** What a push leaves: stale samples go from the front while more than two remain, then all but
      the last 4096. */
  lemma PushExactly(q: seq<Sample>, s: Sample) returns (k: nat)
    ensures var n, p := |q| + 1, q + [s];
            && k <= n
            && (k > 0 ==> n - k >= 2) && (forall i :: 0 <= i < k ==> p[i].t + 3000 < s.t)
            && (n - k <= 2 || p[k].t + 3000 >= s.t)
            && Pushed(q, s) == p[Max(k, n - 4096)..]
  {
    var p := q + [s];
    k := EvictsExactly(p, Cutoff(s.t));
    var n := |p|;
    LastOfIs(p[k..], STATS_MAX_SAMPLES);
    var beyond: nat := Max(0, n - k - 4096);
    Dropped(p, k, beyond);
    assert k + beyond == Max(k, n - 4096);
  }

  lemma LastOfIs(q: seq<Sample>, n: nat)
    ensures LastOf(q, n) == q[Max(0, |q| - n)..]
  {
  }

  lemma Dropped(q: seq<Sample>, a: nat, b: nat)
    requires a + b <= |q|
    ensures q[a..][b..] == q[a + b..]
  {
  }

  lemma {:induction false} EvictsExactly(q: seq<Sample>, cutoff: nat) returns (k: nat)
    ensures k <= |q| && Evicted(q, cutoff) == q[k..]
    ensures (k > 0 ==> |q| - k >= 2) && forall i :: 0 <= i < k ==> q[i].t < cutoff
    ensures |q| - k <= 2 || q[k].t >= cutoff
    decreases |q|
  {
    if |q| > 2 && q[0].t < cutoff {
      var j := EvictsExactly(q[1..], cutoff);
      k := j + 1;
      Dropped(q, 1, j);
      forall i | 0 <= i < k
        ensures q[i].t < cutoff
      {
        assert i > 0 ==> q[i] == q[1..][i - 1];
      }
      assert j < |q[1..]| ==> q[k] == q[1..][j];
    } else {
      k := 0;
    }
  }

  /** The queue is what is left after dropping forgettable samples from the front. */
  lemma {:induction false} QueueIsSuffix(h: seq<Sample>) returns (k: nat)
    ensures k <= |h| && Queue(h) == h[k..] && |Queue(h)| <= STATS_MAX_SAMPLES
    ensures forall i :: 0 <= i < k ==> Forgettable(h, i)
    decreases |h|
  {
    if h == [] {
      k := 0;
    } else {
      var rest, s := h[..|h| - 1], h[|h| - 1];
      var a := QueueIsSuffix(rest);
      var b := PushDrops(rest[a..], s);
      assert h == rest + [s] && rest[a..] + [s] == h[a..] && h[a..][b..] == h[a + b..];
      k := a + b;
      forall i | 0 <= i < k
        ensures Forgettable(h, i)
      {
        if i < a {
          StaysForgettable(rest, s, i);
        } else {
          DroppedNow(h, a, b, i);
        }
      }
    }
  }

  lemma DroppedNow(h: seq<Sample>, a: nat, b: nat, i: nat)
    requires a + b <= |h| && a <= i < a + b
    requires forall j :: 0 <= j < b ==> h[a..][j].t < Cutoff(h[|h| - 1].t) || j + STATS_MAX_SAMPLES < |h| - a
    ensures Forgettable(h, i)
  {
    assert h[a..][i - a] == h[i];
  }

  lemma {:induction false} LiveAppend(a: seq<Sample>, b: seq<Sample>, cutoff: nat)
    ensures Live(a + b, cutoff) == Live(a, cutoff) + Live(b, cutoff)
    decreases |b|
  {
    if b == [] {
      assert a + b == a;
    } else {
      LiveAppend(a, b[..|b| - 1], cutoff);
      assert (a + b)[..|a + b| - 1] == a + b[..|b| - 1];
    }
  }

  /** What the queue no longer holds of the last samples pushed. */
  ghost function Forgotten(h: seq<Sample>): seq<Sample>
  {
    QueueIsShort(h);
    var last := LastOf(h, STATS_MAX_SAMPLES);
    last[..|last| - |Queue(h)|]
  }

  lemma QueueIsShort(h: seq<Sample>)
    ensures |Queue(h)| <= |LastOf(h, STATS_MAX_SAMPLES)| <= STATS_MAX_SAMPLES
  {
    var k := QueueIsSuffix(h);
  }

  lemma LastIsForgottenAndQueue(h: seq<Sample>)
    ensures LastOf(h, STATS_MAX_SAMPLES) == Forgotten(h) + Queue(h)
  {
    QueueIsShort(h);
    var k := QueueIsSuffix(h);
    SuffixOfSuffix(h, |h| - |LastOf(h, STATS_MAX_SAMPLES)|, k);
  }

  lemma SuffixOfSuffix(h: seq<Sample>, m: nat, k: nat)
    requires m <= k <= |h|
    ensures h[m..] == h[m..][..k - m] + h[k..]
  {
  }

  /** From this clock reading on, all of these samples are outside the window. */
  function Settled(q: seq<Sample>): nat
  {
    if q == [] then 0 else Max(Settled(q[..|q| - 1]), q[|q| - 1].t as nat + STATS_WINDOW_MS + 1)
  }

  lemma {:induction false} StaleExactly(q: seq<Sample>, now: nat)
    ensures Live(q, Cutoff(now)) == [] <==> now >= Settled(q)
    decreases |q|
  {
    if q != [] {
      StaleExactly(q[..|q| - 1], now);
    }
  }

  /** The bounded queue gives the same rates as the last 4096 samples of everything ever pushed,
      in whatever order they were stamped, exactly from the clock reading on at which all that
      it forgot of them is outside the window. */
  lemma QueueRefinesExactly(h: seq<Sample>, now: nat)
    ensures Scan(Queue(h), now) == Scan(LastOf(h, STATS_MAX_SAMPLES), now) <==> now >= Settled(Forgotten(h))
    ensures |Queue(h)| <= STATS_MAX_SAMPLES
  {
    QueueIsShort(h);
    LastIsForgottenAndQueue(h);
    LiveAppend(Forgotten(h), Queue(h), Cutoff(now));
    StaleExactly(Forgotten(h), now);
    var live := Live(Queue(h), Cutoff(now));
    assert Scan(LastOf(h, STATS_MAX_SAMPLES), now).frames == |Live(Forgotten(h), Cutoff(now))| + |live|;
    assert [] + live == live;
  }

  /** That reading is never later than a clock that has not gone back. */
  lemma SettledByNow(h: seq<Sample>, now: nat)
    requires StampedBy(h, now)
    ensures now >= Settled(Forgotten(h))
  {
    var f := Forgotten(h);
    QueueIsShort(h);
    var k := QueueIsSuffix(h);
    var m: nat := |h| - |LastOf(h, STATS_MAX_SAMPLES)|;
    forall i | 0 <= i < |f|
      ensures f[i].t < Cutoff(now)
    {
      assert f[i] == h[m + i] && Forgettable(h, m + i);
      var j :| 0 <= j < |h| && h[m + i].t < Cutoff(h[j].t);
      assert h[j] in h;
    }
    StaleSettles(f, now);
  }

  lemma {:induction false} StaleSettles(q: seq<Sample>, now: nat)
    requires forall i :: 0 <= i < |q| ==> q[i].t < Cutoff(now)
    ensures now >= Settled(q)
    decreases |q|
  {
    if q != [] {
      StaleSettles(q[..|q| - 1], now);
    }
  }

  /** So as long as the clock has not gone back, they agree. */
  lemma QueueRefinesHistory(h: seq<Sample>, now: nat)
    requires StampedBy(h, now)
    ensures Scan(Queue(h), now) == Scan(LastOf(h, STATS_MAX_SAMPLES), now)
  {
    QueueRefinesExactly(h, now);
    SettledByNow(h, now);
  }

  lemma RefinesWhenStamped(h: seq<Sample>, now: nat)
    ensures StampedBy(h, now) ==> Scan(Queue(h), now) == Scan(LastOf(h, STATS_MAX_SAMPLES), now)
  {
    if StampedBy(h, now) {
      QueueRefinesHistory(h, now);
    }
  }

  /** After a step back of the clock, forgotten samples can count again. */
  lemma ClockStepBackShows()
    ensures var h := [Sample(0, 1), Sample(0, 1), Sample(10_000, 1)];
            Scan(Queue(h), 100).frames == 2 && Scan(LastOf(h, STATS_MAX_SAMPLES), 100).frames == 3
  {
    var a, b, c := Sample(0, 1), Sample(0, 1), Sample(10_000, 1);
    var h := [a, b, c];
    assert h[..2] == [a, b] && [a, b][..1] == [a];
    assert Queue([]) == [];
    PushOne([], a);
    PushOne([a], b);
    assert [a] + [b] == [a, b] && [] + [a] == [a];
    assert [a, b] + [c] == h && h[1..] == [b, c];
    assert Evicted(h, 7000) == Evicted([b, c], 7000) == [b, c];
    NothingIsOlderThanZero([b, c]);
    NothingIsOlderThanZero(h);
  }

  lemma PushOne(q: seq<Sample>, s: Sample)
    requires |q| <= 1
    ensures Pushed(q, s) == q + [s]
  {
  }

  lemma {:induction false} NothingIsOlderThanZero(q: seq<Sample>)
    ensures Live(q, 0) == q
  {
    if q != [] {
      NothingIsOlderThanZero(q[..|q| - 1]);
    }
  }
}
