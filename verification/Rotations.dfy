/** Several codes on screen at once: which slots a session's descriptors reach. */
module Rotations {
  import opened Words
  import opened Division
  import opened Metadata
  import opened SourcePlans
  import opened Senders
  import opened Emissions

  /** With `slots` codes on screen, frame `n` of a session goes to slot `n % slots`. */
  predicate DescriptorInSlot(d: nat, slots: nat, n: nat, slot: nat)
    requires d > 0 && slots > 0
  {
    n % d == 0 && n % slots == slot
  }

  /** A session run at interval `d` from its start. */
  ghost predicate Running(blocks: seq<SourceBlockMeta>, d: nat, nows: seq<u64>)
  {
    d > 0 && Runnable(blocks, Position(0, 0, d), Ticks(nows))
  }

  /** What call `n` of such a run answers. */
  ghost function Answer(blocks: seq<SourceBlockMeta>, d: nat, nows: seq<u64>, n: nat): Result<Shot, SenderError>
    requires Running(blocks, d, nows) && n < |nows|
  {
    Emit(blocks, After(blocks, Position(0, 0, d), Ticks(nows[..n])), nows[n]).result
  }

  /** Call `n` puts a descriptor into this slot. */
  ghost predicate ShownInSlot(blocks: seq<SourceBlockMeta>, d: nat, nows: seq<u64>, slots: nat, n: nat, slot: nat)
    requires Running(blocks, d, nows) && slots > 0
  {
    n < |nows|
    && match Answer(blocks, d, nows, n)
       case Ok(DescriptorShot(frameIndex, _)) => (frameIndex - 1) % slots == slot
       case _ => false
  }

  /** Calls before `n` still send. */
  predicate Alive(blocks: seq<SourceBlockMeta>, d: nat, n: nat)
    requires Canonical(blocks) && blocks != []
  {
    d >= 2 ==> n <= DueAt(d, DataSupply(blocks))
  }

  /** It does so exactly when interval and slot count say so and the id space is not yet spent. */
  lemma ShownExactly(blocks: seq<SourceBlockMeta>, d: nat, nows: seq<u64>, slots: nat, n: nat, slot: nat)
    requires Running(blocks, d, nows) && slots > 0 && n < |nows|
    ensures ShownInSlot(blocks, d, nows, slots, n, slot)
       <==> DescriptorInSlot(d, slots, n, slot) && Alive(blocks, d, n + 1)
  {
    CadenceIsExact(blocks, d, nows[..n], nows[n]);
  }

  // ----- The arithmetic of one period

  /** Any integer moved by whole periods into the period that starts at `from`. */
  lemma Shifted(goal: int, period: int, from: nat) returns (n: nat, shift: int)
    requires period > 0
    ensures n == goal - shift * period && from <= n < from + period
  {
    shift := (goal - from) / period;
    n := from + (goal - from) % period;
    assert goal - from == period * shift + (goal - from) % period;
  }

  lemma SlotOf(d: int, s: int, x: int, y: int, g: int, slot: int, k: int, shift: int, n: int)
    requires d * x + s * y == g && slot == g * k && n == d * x * k - shift * (d * s)
    ensures n == d * (x * k - shift * s)
    ensures n == slot + s * (-y * k - shift * d)
  {
    assert shift * (d * s) == d * (shift * s) == s * (shift * d);
    assert (d * x + s * y) * k == slot;
    assert s * (-y * k - shift * d) == -(s * y * k) - s * (shift * d);
  }

  /** A slot whose number the greatest common divisor divides gets a descriptor in every period. */
  lemma SlotReached(d: nat, slots: nat, from: nat, slot: nat) returns (n: nat)
    requires d > 0 && slot < slots && slot % Gcd(d, slots) == 0
    ensures from <= n < from + d * slots && DescriptorInSlot(d, slots, n, slot)
  {
    var g := Gcd(d, slots);
    var x, y := Bezout(d, slots);
    var k := slot / g;
    ProductPositive(d, slots);
    var shift;
    n, shift := Shifted(d * x * k, d * slots, from);
    SlotOf(d, slots, x, y, g, slot, k, shift, n);
    RemaindersOf(n, d, x * k - shift * slots, slots, slot, -y * k - shift * d);
  }

  /** No other slot ever gets one. */
  lemma SlotDivides(d: nat, slots: nat, n: nat, slot: nat)
    requires d > 0 && slots > 0 && DescriptorInSlot(d, slots, n, slot)
    ensures slot % Gcd(d, slots) == 0
  {
    var g := Gcd(d, slots);
    var u, v := GcdDivides(d, slots);
    var a, b := n / d, n / slots;
    Digits(n, d);
    Digits(n, slots);
    Remainder(n, g, u, a, v, b, slot);
    MultipleOf(slot, g, u * a - v * b);
  }

  lemma Remainder(n: int, g: int, u: int, a: int, v: int, b: int, slot: int)
    requires n == (g * u) * a && n == (g * v) * b + slot
    ensures slot == g * (u * a - v * b)
  {
    assert (g * u) * a == g * (u * a) && (g * v) * b == g * (v * b);
  }

  lemma MultipleOf(n: nat, g: nat, w: int)
    requires g > 0 && n == g * w
    ensures n % g == 0
  {
    FactorIsNat(g, w);
    DivMod(n, g, w, 0);
  }

  /** With coprime interval and slot count, two descriptors of one slot are a whole period apart. */
  lemma OnlyOne(d: nat, s: nat, n: nat, k: nat)
    requires d > 0 && s > 0 && Gcd(d, s) == 1
    requires n % d == k % d && n % s == k % s && -(d * s) < k - n < d * s
    ensures k == n
  {
    var x, y := Bezout(d, s);
    var e := k - n;
    var v, u := k / d - n / d, k / s - n / s;
    SameRemainder(n, k, d);
    SameRemainder(n, k, s);
    CommonMultiple(d, s, x, y, e, v, u);
    ProductPositive(d, s);
    SmallMultiple(d * s, u * x + v * y, e);
  }

  lemma CommonMultiple(d: int, s: int, x: int, y: int, e: int, v: int, u: int)
    requires d * x + s * y == 1 && e == d * v == s * u
    ensures e == d * s * (u * x + v * y)
  {
    assert e == e * (d * x + s * y) == (s * u) * (d * x) + (d * v) * (s * y);
    assert (s * u) * (d * x) == d * s * (u * x) && (d * v) * (s * y) == d * s * (v * y);
  }

  lemma SmallMultiple(p: int, w: int, e: int)
    requires p > 0 && e == p * w && -p < e < p
    ensures e == 0
  {
    assert w >= 1 ==> p * w >= p;
    assert w <= -1 ==> p * w <= -p;
  }

  // ----- What a run shows in a period

  /** Whole periods of calls that end before the session falls silent. */
  ghost predicate WholePeriod(blocks: seq<SourceBlockMeta>, d: nat, nows: seq<u64>, slots: nat, from: nat)
    requires Running(blocks, d, nows)
  {
    slots > 0 && from + d * slots <= |nows| && Alive(blocks, d, from + d * slots)
  }

  /** Some call of the period that starts at `from` puts a descriptor into this slot. */
  ghost predicate Reached(blocks: seq<SourceBlockMeta>, d: nat, nows: seq<u64>, slots: nat, from: nat, slot: nat)
    requires Running(blocks, d, nows) && slots > 0
  {
    exists n :: from <= n < from + d * slots && ShownInSlot(blocks, d, nows, slots, n, slot)
  }

  /** In every such period a slot is reached exactly when its number is a multiple of the
      greatest common divisor of interval and slot count. */
  lemma SlotIsReachedExactly(blocks: seq<SourceBlockMeta>, d: nat, nows: seq<u64>, slots: nat, from: nat, slot: nat)
    requires Running(blocks, d, nows) && WholePeriod(blocks, d, nows, slots, from) && slot < slots
    ensures Reached(blocks, d, nows, slots, from, slot) <==> slot % Gcd(d, slots) == 0
  {
    if slot % Gcd(d, slots) == 0 {
      var n := SlotReached(d, slots, from, slot);
      ShownExactly(blocks, d, nows, slots, n, slot);
    }
    if n :| from <= n < from + d * slots && ShownInSlot(blocks, d, nows, slots, n, slot) {
      ShownExactly(blocks, d, nows, slots, n, slot);
      SlotDivides(d, slots, n, slot);
    }
  }

  /** A coprime interval puts exactly one descriptor into every slot in each period. */
  lemma SlotsRotate(blocks: seq<SourceBlockMeta>, d: nat, nows: seq<u64>, slots: nat, from: nat, slot: nat) returns (n: nat)
    requires Running(blocks, d, nows) && WholePeriod(blocks, d, nows, slots, from) && slot < slots && Gcd(d, slots) == 1
    ensures from <= n < from + d * slots && ShownInSlot(blocks, d, nows, slots, n, slot)
    ensures forall k :: from <= k < from + d * slots && ShownInSlot(blocks, d, nows, slots, k, slot) ==> k == n
  {
    n := SlotReached(d, slots, from, slot);
    ShownExactly(blocks, d, nows, slots, n, slot);
    forall k | from <= k < from + d * slots && ShownInSlot(blocks, d, nows, slots, k, slot)
      ensures k == n
    {
      ShownExactly(blocks, d, nows, slots, k, slot);
      OnlyOne(d, slots, n, k);
    }
  }

  /** A period fits into the life of a session at all. */
  predicate PeriodFits(blocks: seq<SourceBlockMeta>, d: nat, slots: nat)
    requires Canonical(blocks) && blocks != []
  {
    d * slots < U64 && Alive(blocks, d, d * slots)
  }

  /** Every slot gets a descriptor in every period of every run. */
  ghost predicate Rotates(blocks: seq<SourceBlockMeta>, d: nat, slots: nat)
  {
    forall nows, from: nat, slot: nat ::
      Running(blocks, d, nows) && WholePeriod(blocks, d, nows, slots, from) && slot < slots
      ==> Reached(blocks, d, nows, slots, from, slot)
  }

  /** So descriptors keep reaching every slot, as long as any frame goes out, exactly when interval
      and slot count are coprime, or one period already outlasts the id space. */
  lemma RotationExactlyWhenCoprime(blocks: seq<SourceBlockMeta>, d: nat, slots: nat)
    requires Canonical(blocks) && 0 < |blocks| < U32 && d > 0 && slots > 0
    ensures Rotates(blocks, d, slots) <==> Gcd(d, slots) == 1 || !PeriodFits(blocks, d, slots)
  {
    if Gcd(d, slots) == 1 || !PeriodFits(blocks, d, slots) {
      forall nows, from: nat, slot: nat | Running(blocks, d, nows) && WholePeriod(blocks, d, nows, slots, from) && slot < slots
        ensures Reached(blocks, d, nows, slots, from, slot)
      {
        SlotIsReachedExactly(blocks, d, nows, slots, from, slot);
      }
    } else {
      var nows: seq<u64> := seq(d * slots, _ => 0);
      CommonFactorMeansTwoSlots(d, slots);
      SlotIsReachedExactly(blocks, d, nows, slots, 0, 1);
      assert WholePeriod(blocks, d, nows, slots, 0);
    }
  }

  lemma CommonFactorMeansTwoSlots(d: nat, slots: nat)
    requires d > 0 && slots > 0 && Gcd(d, slots) > 1
    ensures slots > 1
  {
    DivMod(d, 1, d, 0);
  }

  /** The default interval reaches every slot of one, two and four codes within its first period;
      16 did not reach a second slot at any time. */
  lemma DefaultReachesEverySlot(blocks: seq<SourceBlockMeta>, nows: seq<u64>, slots: nat, slot: nat)
    requires slots in {1, 2, 4} && slot < slots
    requires Running(blocks, DEFAULT_DESCRIPTOR_INTERVAL, nows) && |nows| >= DEFAULT_DESCRIPTOR_INTERVAL * slots
    ensures Reached(blocks, DEFAULT_DESCRIPTOR_INTERVAL, nows, slots, 0, slot)
  {
    DefaultIntervalRotates();
    SupplyIsAmple(blocks);
    SlotIsReachedExactly(blocks, DEFAULT_DESCRIPTOR_INTERVAL, nows, slots, 0, slot);
  }

  lemma SupplyIsAmple(blocks: seq<SourceBlockMeta>)
    requires Canonical(blocks) && blocks != []
    ensures DataSupply(blocks) >= ESI_LIMIT - MAX_SOURCE_SYMBOLS_PER_BLOCK
  {
    var rounds := |blocks| * Room(blocks);
    OnceAtLeast(|blocks|, Room(blocks));
    assert DataSupply(blocks) >= rounds;
  }

  lemma OnceAtLeast(n: nat, x: nat)
    requires n > 0
    ensures x <= n * x
  {
  }

  lemma OldIntervalSticks(blocks: seq<SourceBlockMeta>, nows: seq<u64>, slots: nat, n: nat)
    requires slots in {2, 4} && Running(blocks, 16, nows)
    ensures !ShownInSlot(blocks, 16, nows, slots, n, 1)
  {
    if n < |nows| && ShownInSlot(blocks, 16, nows, slots, n, 1) {
      DefaultIntervalRotates();
      ShownExactly(blocks, 16, nows, slots, n, 1);
      SlotDivides(16, slots, n, 1);
    }
  }

  lemma DefaultIntervalRotates()
    ensures Gcd(DEFAULT_DESCRIPTOR_INTERVAL, 1) == Gcd(DEFAULT_DESCRIPTOR_INTERVAL, 2)
         == Gcd(DEFAULT_DESCRIPTOR_INTERVAL, 4) == 1
    ensures Gcd(16, 2) > 1 && Gcd(16, 4) > 1
  {
    assert Gcd(17, 4) == Gcd(4, 1) == Gcd(1, 0);
    assert Gcd(16, 4) == Gcd(4, 0);
  }
}
