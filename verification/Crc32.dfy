/** CRC-32 (reflected polynomial 0xEDB88320), bit by bit and by table. */
module Crc32 {
  import opened Words
  import opened Bits

  const POLYNOMIAL: u32 := 0xEDB88320
  const BITS: nat := 8
  const ONES: u32 := 0xFFFF_FFFF

  function Xor32(a: u32, b: u32): u32
  {
    Pow2Values();
    XorBound(a, b, 32);
    Xor(a, b)
  }

  /** One bit of the polynomial division. */
  function Shift(c: u32): u32
  {
    if c % 2 == 1 then Xor32(POLYNOMIAL, c / 2) else c / 2
  }

  function Shifts(n: nat, c: u32): u32
  {
    if n == 0 then c else Shift(Shifts(n - 1, c))
  }

  function Step(c: u32, b: u8): u32
  {
    Shifts(BITS, Xor32(c, b))
  }

  function Fold(c: u32, data: Bytes): u32
    decreases |data|
  {
    if data == [] then c else Fold(Step(c, data[0]), data[1..])
  }

  function Checksum(data: Bytes): u32
  {
    Xor32(Fold(ONES, data), ONES)
  }

  // ----- Algebra of a step

  lemma ShiftInjective(c: u32, d: u32)
    requires Shift(c) == Shift(d)
    ensures c == d
  {
    Pow2Values();
    XorKeepsHighBit(POLYNOMIAL, c / 2, 31);
    XorKeepsHighBit(POLYNOMIAL, d / 2, 31);
    if c % 2 == 1 && d % 2 == 1 {
      XorInjective(POLYNOMIAL, c / 2, d / 2);
    }
  }

  lemma {:induction false} ShiftsInjective(n: nat, c: u32, d: u32)
    requires Shifts(n, c) == Shifts(n, d)
    ensures c == d
  {
    if n > 0 {
      ShiftInjective(Shifts(n - 1, c), Shifts(n - 1, d));
      ShiftsInjective(n - 1, c, d);
    }
  }

  /** The polynomial, if the bit shifted out was set. */
  function Feedback(p: u32, bit: nat): u32
  {
    if bit == 1 then p else 0
  }

  lemma ShiftByFeedback(c: u32)
    ensures Shift(c) == Xor(Feedback(POLYNOMIAL, c % 2), c / 2)
  {
    XorZero(c / 2);
  }

  lemma FeedbackLinear(p: u32, a: nat, b: nat)
    ensures Feedback(p, (a + b) % 2) == Xor(Feedback(p, a % 2), Feedback(p, b % 2))
  {
    XorSelf(p);
    XorZero(p);
    XorZero(0);
  }

  lemma ShiftLinear(c: u32, d: u32)
    ensures Shift(Xor32(c, d)) == Xor32(Shift(c), Shift(d))
  {
    XorHalf(c, d);
    ShiftByFeedback(Xor32(c, d));
    ShiftByFeedback(c);
    ShiftByFeedback(d);
    FeedbackLinear(POLYNOMIAL, c, d);
    Interchange(Feedback(POLYNOMIAL, c % 2), Feedback(POLYNOMIAL, d % 2), c / 2, d / 2);
  }

  lemma Regroup(p: nat, a: nat, b: nat)
    ensures Xor(p, Xor(a, b)) == Xor(Xor(p, a), b) == Xor(a, Xor(p, b))
    ensures Xor(Xor(p, a), Xor(p, b)) == Xor(a, b)
  {
    XorAssociates(p, a, b);
    XorAssociates(a, p, b);
    XorCommutes(a, p);
    XorAssociates(Xor(p, a), p, b);
    XorAssociates(a, p, p);
    XorSelf(p);
    XorZero(a);
  }

  lemma {:induction false} ShiftsLinear(n: nat, c: u32, d: u32)
    ensures Shifts(n, Xor32(c, d)) == Xor32(Shifts(n, c), Shifts(n, d))
  {
    if n > 0 {
      ShiftsLinear(n - 1, c, d);
      ShiftLinear(Shifts(n - 1, c), Shifts(n - 1, d));
    }
  }

  /** Low zero bits are shifted out without feedback. */
  lemma {:induction false} ShiftsOut(n: nat, y: u32)
    requires y * Pow2(n) < U32
    ensures Shifts(n, y * Pow2(n)) == y
  {
    if n > 0 {
      TwiceProduct(y, Pow2(n - 1));
      ShiftsFromFirst(n, y * Pow2(n));
      ShiftsOut(n - 1, y);
    }
  }

  lemma {:induction false} ShiftsFromFirst(n: nat, c: u32)
    requires n > 0
    ensures Shifts(n, c) == Shifts(n - 1, Shift(c))
  {
    if n > 1 {
      ShiftsFromFirst(n - 1, c);
    }
  }

  // ----- The table form computes the same checksum

  method BuildTable() returns (table: array<u32>)
    ensures fresh(table) && table.Length == 256
    ensures forall i :: 0 <= i < 256 ==> table[i] == Shifts(BITS, i)
  {
    table := new u32[256](_ => 0);
    for i: int := 0 to 256
      invariant forall j :: 0 <= j < i ==> table[j] == Shifts(BITS, j)
    {
      var c: u32 := i;
      for k := 0 to BITS
        invariant c == Shifts(k, i)
      {
        c := if c % 2 == 1 then Xor32(POLYNOMIAL, c / 2) else c / 2;
      }
      table[i] := c;
    }
  }

  /** One round of the table form keeps the value of the whole fold. */
  lemma TableRound(c: u32, data: Bytes, i: nat, k: u32, entry: u32)
    requires i < |data| && k == Xor32(c, data[i]) % 256 && entry == Shifts(BITS, k)
    ensures Fold(Xor32(c / 256, entry), data[i + 1..]) == Fold(c, data[i..])
  {
    assert data[i..][0] == data[i] && data[i..][1..] == data[i + 1..];
    TableStep(c, data[i]);
  }

  method TableChecksum(data: Bytes) returns (crc: u32)
    ensures crc == Checksum(data)
  {
    var table := BuildTable();
    crc := ONES;
    for i := 0 to |data|
      invariant forall k :: 0 <= k < 256 ==> table[k] == Shifts(BITS, k)
      invariant Fold(crc, data[i..]) == Fold(ONES, data)
    {
      var k := Xor32(crc, data[i]) % 256;
      var entry := table[k];
      TableRound(crc, data, i, k, entry);
      crc := Xor32(crc / 256, entry);
    }
    crc := Xor32(crc, ONES);
  }

  lemma ByteBelow(e: nat, w: u8)
    ensures Xor(e * 256, w) == e * 256 + w
  {
    var t := e * 256;
    assert t % 256 == 0;
    Pow2Values();
    XorSplit(t, 0, w, BITS);
    XorZero(w);
  }

  lemma HighPartKept(h: nat, l: u8, b: u8)
    ensures Xor(h * 256 + l, b) == h * 256 + Xor(l, b) && Xor(l, b) < 256
  {
    Pow2Values();
    assert (h * 256) % 256 == 0;
    XorSplit(h * 256, l, b, BITS);
    XorBound(l, b, BITS);
  }

  /** The low byte changes, the rest does not. */
  lemma ByteXor(c: u32, b: u8)
    ensures Xor32(c, b) / 256 == c / 256
    ensures Xor32(c, b) == Xor(c / 256 * 256, Xor32(c, b) % 256)
  {
    var h, l := c / 256, c % 256;
    HighPartKept(h, l, b);
    ByteBelow(h, Xor(l, b));
  }

  lemma TableStep(c: u32, b: u8)
    ensures Xor32(c / 256, Shifts(BITS, Xor32(c, b) % 256)) == Step(c, b)
  {
    var x := Xor32(c, b);
    ByteXor(c, b);
    assert x == Xor32(x / 256 * 256, x % 256);
    ShiftsLinear(BITS, x / 256 * 256, x % 256);
    Pow2Values();
    ShiftsOut(BITS, x / 256);
  }

  // ----- A burst inside four consecutive bytes always shows

  lemma Interchange(c: nat, d: nat, w: nat, v: nat)
    ensures Xor(Xor(c, w), Xor(d, v)) == Xor(Xor(c, d), Xor(w, v))
  {
    XorAssociates(c, w, Xor(d, v));
    XorAssociates(w, d, v);
    XorCommutes(w, d);
    XorAssociates(d, w, v);
    XorAssociates(c, d, Xor(w, v));
  }

  /** The difference of two states after a step, from the differences before it. */
  lemma StepDifference(c: u32, d: u32, a: u8, b: u8)
    ensures Xor32(Step(c, a), Step(d, b)) == Shifts(BITS, Xor32(Xor32(c, d), Xor32(a, b)))
  {
    ShiftsLinear(BITS, Xor32(c, a), Xor32(d, b));
    Interchange(c, d, a, b);
  }

  lemma Pow256Is(k: nat)
    ensures Pow256(k) == Pow2(8 * k)
  {
    if k > 0 {
      Pow256Is(k - 1);
      Pow2Add(8 * (k - 1), 8);
      Pow2Values();
    }
  }

  lemma XorBack(g: nat, w: nat, x: nat)
    requires Xor(g, w) == x
    ensures g == Xor(x, w)
  {
    XorAssociates(g, w, w);
    XorSelf(w);
    XorZero(g);
  }

  /** A step that turned the state difference `g` and byte difference `w` into a
      difference confined to the low `k - 1` bytes. */
  lemma Unstep(g: u32, w: u8, e: u32, k: nat)
    requires Shifts(BITS, Xor32(g, w)) == e
    requires 1 <= k <= 4 && e < Pow256(k - 1)
    ensures g < Pow256(k)
    ensures g == 0 ==> e == 0 && w == 0
  {
    Pow2Values();
    SmallPowers(k - 1);
    ShiftsOut(BITS, e);
    ShiftsInjective(BITS, Xor32(g, w), e * 256);
    XorBack(g, w, e * 256);
    ByteBelow(e, w);
    assert Pow256(k) == 256 * Pow256(k - 1);
  }

  lemma SmallPowers(k: nat)
    requires k <= 3
    ensures Pow256(k) <= 0x100_0000
  {
    assert Pow256(1) == 256 && Pow256(2) == 0x1_0000 && Pow256(3) == 0x100_0000;
  }

  /** Running two checksums backwards: if they end within `j` low bytes of each other
      after reading `w` and `v`, and at most four bytes are involved, then from the
      same state `w` and `v` were the same bytes. */
  lemma {:induction false} BurstBackwards(c: u32, d: u32, w: Bytes, v: Bytes, j: nat)
    requires |w| == |v| && |w| + j <= 4
    requires Xor32(Fold(c, w), Fold(d, v)) < Pow256(j)
    ensures Xor32(c, d) < Pow256(|w| + j)
    ensures c == d ==> w == v
    decreases |w|
  {
    if w != [] {
      var c1, d1 := Step(c, w[0]), Step(d, v[0]);
      BurstBackwards(c1, d1, w[1..], v[1..], j);
      StepDifference(c, d, w[0], v[0]);
      Pow2Values();
      XorBound(w[0], v[0], BITS);
      Unstep(Xor32(c, d), Xor32(w[0], v[0]), Xor32(c1, d1), |w| + j);
      XorVanishes(c, d);
      XorVanishes(c1, d1);
      XorVanishes(w[0], v[0]);
      assert w == [w[0]] + w[1..] && v == [v[0]] + v[1..];
    }
  }

  lemma {:induction false} FoldAppend(c: u32, s: Bytes, t: Bytes)
    ensures Fold(c, s + t) == Fold(Fold(c, s), t)
    decreases |s|
  {
    if s == [] {
      assert s + t == t;
    } else {
      assert (s + t)[1..] == s[1..] + t;
      FoldAppend(Step(c, s[0]), s[1..], t);
    }
  }

  lemma XorCancel(c: u32, d: u32, w: u32)
    requires Xor32(c, w) == Xor32(d, w)
    ensures c == d
  {
    XorCommutes(c, w);
    XorCommutes(d, w);
    XorInjective(w, c, d);
  }

  lemma {:induction false} FoldInjective(c: u32, d: u32, t: Bytes)
    requires Fold(c, t) == Fold(d, t)
    ensures c == d
    decreases |t|
  {
    if t != [] {
      FoldInjective(Step(c, t[0]), Step(d, t[0]), t[1..]);
      ShiftsInjective(BITS, Xor32(c, t[0]), Xor32(d, t[0]));
      XorCancel(c, d, t[0]);
    }
  }

  /** Two byte strings that differ only inside a window of four bytes have different
      checksums. */
  lemma BurstChangesChecksum(s: Bytes, w: Bytes, v: Bytes, t: Bytes)
    requires |w| == |v| && |w| <= 4 && w != v
    ensures Checksum(s + w + t) != Checksum(s + v + t)
  {
    if Checksum(s + w + t) == Checksum(s + v + t) {
      var c := Fold(ONES, s);
      FoldAppend(ONES, s, w);
      FoldAppend(ONES, s, v);
      FoldAppend(ONES, s + w, t);
      FoldAppend(ONES, s + v, t);
      XorCancel(Fold(ONES, s + w + t), Fold(ONES, s + v + t), ONES);
      FoldInjective(Fold(c, w), Fold(c, v), t);
      XorSelf(Fold(c, w));
      BurstBackwards(c, c, w, v, 0);
    }
  }

  /** The last bytes of a string and the low bytes of its stored checksum cannot be
      altered consistently when together they span at most four bytes. */
  lemma TailAndChecksum(s: Bytes, w: Bytes, v: Bytes, j: nat)
    requires |w| == |v| && |w| + j <= 4
    requires Checksum(s + w) / Pow256(j) == Checksum(s + v) / Pow256(j)
    ensures w == v
  {
    var c := Fold(ONES, s);
    FoldAppend(ONES, s, w);
    FoldAppend(ONES, s, v);
    Pow256Is(j);
    XorOfNeighbours(Checksum(s + w), Checksum(s + v), 8 * j);
    Regroup(ONES, Fold(c, w), Fold(c, v));
    XorCommutes(ONES, Fold(c, w));
    XorCommutes(ONES, Fold(c, v));
    BurstBackwards(c, c, w, v, j);
  }
}
