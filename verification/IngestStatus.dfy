/** The 64-bit status word handed to hosts after every frame. */
module IngestStatus {
  import opened Words
  import opened Division
  import opened Bits
  import opened ReceiverStates
  import opened ReceiverInvariants

  const STREAK_WIDTH: nat := 16
  const INGEST_ERROR: u64 := 0xFFFF_FFFF * U32

  function Flag(b: bool): nat { if b then 1 else 0 }

  /** The documented layout: two flags, sixteen bits of streak, the symbol count. */
  function Layout(complete: bool, accepted: bool, streak: nat, received: nat): nat
  {
    Flag(complete) + 2 * Flag(accepted) + 0x100 * (streak % 0x1_0000) + U32 * received
  }

  method Pack(complete: bool, accepted: bool, mismatchStreak: u32, receivedSymbols: u32) returns (bits: nat)
    ensures bits == Layout(complete, accepted, mismatchStreak, receivedSymbols) < U64
  {
    bits := 0;
    if complete {
      SetField(0, 1, 0);
      bits := Or(bits, 1);
    }
    if accepted {
      SetField(bits, 1, 1);
      bits := Or(bits, 2);
    }
    assert bits == Flag(complete) + 2 * Flag(accepted);
    var streak := And(mismatchStreak, 0xFFFF);
    StreakMask(mismatchStreak);
    SetField(bits, streak, 8);
    bits := Or(bits, streak * 0x100);
    assert bits == Flag(complete) + 2 * Flag(accepted) + 0x100 * streak;
    SetField(bits, receivedSymbols, 32);
    bits := Or(bits, receivedSymbols * U32);
  }

  lemma StreakMask(streak: nat)
    ensures And(streak, 0xFFFF) == streak % 0x1_0000
  {
    Pow2Values();
    MaskIsModulo(streak, STREAK_WIDTH);
  }

  /** Oring a field in above the bits already set adds it. */
  lemma SetField(bits: nat, field: nat, at: nat)
    requires at in {0, 1, 8, 32}
    requires at == 0 ==> bits == 0
    requires at == 1 ==> bits < 2
    requires at == 8 ==> bits < 0x100
    requires at == 32 ==> bits < U32
    ensures at == 0 ==> Or(bits, field) == bits + field
    ensures at == 1 ==> Or(bits, field * 2) == bits + field * 2
    ensures at == 8 ==> Or(bits, field * 0x100) == bits + field * 0x100
    ensures at == 32 ==> Or(bits, field * U32) == bits + field * U32
  {
    Pow2Values();
    assert Pow2(1) == 2 && Pow2(0) == 1;
    OrOfFields(bits, field, at);
  }

  /** A host that unpacks the word gets the flags, the streak modulo 2^16, and the count. */
  lemma Unpacks(complete: bool, accepted: bool, streak: nat, received: nat)
    ensures var word := Layout(complete, accepted, streak, received);
            && (word % 2 == 1 <==> complete)
            && (word / 2 % 2 == 1 <==> accepted)
            && word / 0x100 % 0x1_0000 == streak % 0x1_0000
            && word / U32 == received
  {
    var low, field := Flag(complete) + 2 * Flag(accepted), streak % 0x1_0000;
    Fields(low, field, received);
  }

  lemma Fields(low: nat, field: nat, received: nat)
    requires low < 4 && field < 0x1_0000
    ensures var word := low + 0x100 * field + U32 * received;
            && word % 2 == low % 2 && word / 2 % 2 == low / 2
            && word / 0x100 % 0x1_0000 == field && word / U32 == received
  {
    LowFields(low, 0x40 * field + U32 / 4 * received);
    DivMod(low + 0x100 * field + U32 * received, U32, received, low + 0x100 * field);
    MiddleField(low, field, received);
  }

  lemma LowFields(low: nat, above: nat)
    requires low < 4
    ensures (low + 4 * above) % 2 == low % 2 && (low + 4 * above) / 2 % 2 == low / 2
  {
  }

  lemma MiddleField(low: nat, field: nat, received: nat)
    requires low < 0x100 && field < 0x1_0000
    ensures (low + 0x100 * field + U32 * received) / 0x100 % 0x1_0000 == field
  {
    var above := field + 0x100_0000 * received;
    DivMod(low + 0x100 * above, 0x100, above, low);
    DivMod(above, 0x1_0000, 0x100 * received, field);
  }

  /** The error sentinel is hit by exactly one family of arguments... */
  lemma SentinelExactly(complete: bool, accepted: bool, streak: nat, received: nat)
    ensures Layout(complete, accepted, streak, received) == INGEST_ERROR
       <==> !complete && !accepted && streak % 0x1_0000 == 0 && received == 0xFFFF_FFFF
  {
    Unpacks(complete, accepted, streak, received);
    Unpacks(false, false, 0, 0xFFFF_FFFF);
  }

  /** ...which no session ever produces: the count of any reachable state fits 32 bits
      and its status word is never the sentinel. */
  lemma StatusIsNeverTheSentinel(w: World, s: State, inputs: seq<Input>, accepted: bool)
    requires w.Lawful() && Invariant(w, s) && AllAdmissible(inputs)
    ensures var t := Run(w, s, inputs);
            && t.progress.receivedSymbols < U32
            && Layout(IsComplete(t), accepted, t.streak, t.progress.receivedSymbols) != INGEST_ERROR
  {
    RunKeepsInvariant(w, s, inputs);
    var t := Run(w, s, inputs);
    ReceivedSymbolsBound(w, t);
    SentinelExactly(IsComplete(t), accepted, t.streak, t.progress.receivedSymbols);
  }

  /** The streak is masked, not clamped: the field reads as the clamped streak exactly up to
      2^16 - 1, and beyond that only when the low sixteen bits happen to be all ones. */
  lemma StreakReadsClampedExactly(complete: bool, accepted: bool, streak: nat, received: nat)
    ensures Layout(complete, accepted, streak, received) / 0x100 % 0x1_0000 == Min(streak, 0xFFFF)
       <==> streak <= 0xFFFF || streak % 0x1_0000 == 0xFFFF
  {
    Unpacks(complete, accepted, streak, received);
  }

  /** So 2^16 mismatches in a row read as none. */
  lemma StreakWraps(complete: bool, accepted: bool, received: nat)
    ensures Layout(complete, accepted, 0x1_0000, received) == Layout(complete, accepted, 0, received)
  {
  }
}
