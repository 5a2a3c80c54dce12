/** FNV-1a over 128 bits, and how little of its input it confuses. */
module Fnv {
  import opened Words
  import opened Bits

  const FNV_OFFSET: u128 := 0x6c62272e07bb01426b82175983ad0b58
  const FNV_PRIME: u128 := 0x0000000001000000000000000000013b

  function Xor8(l: u8, b: u8): u8
  {
    Pow2Values();
    XorBound(l, b, 8);
    Xor(l, b)
  }

  /** `h ^ b`: a byte reaches only the low byte of the state. */
  function XorByte(h: u128, b: u8): u128
  {
    h / 256 * 256 + Xor8(h % 256, b)
  }

  /** One FNV-1a step: XOR, then multiply modulo 2^128. */
  function Absorb(h: u128, b: u8): u128
  {
    (XorByte(h, b) * FNV_PRIME) % U128
  }

  function Feed(h: u128, bytes: Bytes): u128
  {
    if bytes == [] then h else Absorb(Feed(h, bytes[..|bytes| - 1]), bytes[|bytes| - 1])
  }

  method FeedAll(h0: u128, bytes: Bytes) returns (h: u128)
    ensures h == Feed(h0, bytes)
  {
    h := h0;
    for i := 0 to |bytes|
      invariant h == Feed(h0, bytes[..i])
    {
      assert bytes[..i + 1][..i] == bytes[..i];
      h := XorByte(h, bytes[i]);
      h := (h * FNV_PRIME) % U128;
    }
    assert bytes[..|bytes|] == bytes;
  }

  lemma {:induction false} FeedAppend(h: u128, s: Bytes, t: Bytes)
    ensures Feed(h, s + t) == Feed(Feed(h, s), t)
    decreases |t|
  {
    if t == [] {
      assert s + t == s;
    } else {
      var n := |t| - 1;
      FeedAppend(h, s, t[..n]);
      assert (s + t)[..|s + t| - 1] == s + t[..n];
    }
  }

  // ----- How far two runs drift apart

  lemma XorByteInjective(h: u128, b: u8, c: u8)
    requires XorByte(h, b) == XorByte(h, c)
    ensures b == c
  {
    XorInjective(h % 256, b, c);
  }

  /** How far a step's multiplication carries two states apart, as an exact
      integer difference up to a multiple of 2^128. */
  lemma AbsorbDifference(x: u128, y: u128) returns (m: int)
    ensures (x * FNV_PRIME) % U128 - (y * FNV_PRIME) % U128 == (x - y) * FNV_PRIME + m * U128
  {
    m := (y * FNV_PRIME) / U128 - (x * FNV_PRIME) / U128;
  }

  /** One step from two states: the XOR moves their difference by at most 510,
      the multiplication then scales it modulo 2^128. */
  lemma StepDifference(h: u128, k: u128, b: u8, c: u8) returns (e: int, m: int)
    ensures -510 <= e <= 510
    ensures h == k && e == 0 ==> b == c
    ensures Absorb(h, b) - Absorb(k, c) == (h - k + e) * FNV_PRIME + m * U128
  {
    e := XorByte(h, b) - XorByte(k, c) - (h - k);
    m := AbsorbDifference(XorByte(h, b), XorByte(k, c));
    if h == k && e == 0 {
      XorByteInjective(h, b, c);
    }
  }

  /** The value at `x` of the polynomial with these coefficients, the leading one first. */
  function Horner(e: seq<int>, x: int): int
  {
    if e == [] then 0 else Horner(e[..|e| - 1], x) * x + e[|e| - 1]
  }

  /** The value of its derivative. */
  function Slope(e: seq<int>, x: int): int
  {
    if e == [] then 0 else Slope(e[..|e| - 1], x) * x + Horner(e[..|e| - 1], x)
  }

  ghost predicate Small(e: seq<int>)
  {
    forall i :: 0 <= i < |e| ==> -510 <= e[i] <= 510
  }

  /** Two runs from one state end as far apart as a polynomial with small coefficients, taken at
      the prime, modulo 2^128; and the zero polynomial means equal input. */
  lemma {:induction false} Drift(h: u128, x: Bytes, y: Bytes) returns (e: seq<int>, m: int)
    requires |x| == |y|
    ensures |e| == |x| && Small(e)
    ensures Feed(h, x) - Feed(h, y) == Horner(e, FNV_PRIME) * FNV_PRIME + m * U128
    ensures (forall i :: 0 <= i < |e| ==> e[i] == 0) ==> x == y
    decreases |x|
  {
    if x == [] {
      e, m := [], 0;
    } else {
      var n := |x| - 1;
      var e0, m0 := Drift(h, x[..n], y[..n]);
      var d, k := StepDifference(Feed(h, x[..n]), Feed(h, y[..n]), x[n], y[n]);
      e, m := e0 + [d], m0 * FNV_PRIME + k;
      assert e[..n] == e0;
      assert x == x[..n] + [x[n]] && y == y[..n] + [y[n]];
      if forall i :: 0 <= i < |e| ==> e[i] == 0 {
        assert forall i :: 0 <= i < |e0| ==> e0[i] == e[i];
        assert e[n] == d;
      }
    }
  }

  /** The prime is odd, so multiplying by it modulo 2^128 loses nothing. */
  lemma PrimeInvertible(d: int, m: int) returns (k: int)
    requires d * FNV_PRIME == m * U128
    ensures d == k * U128
  {
    var inverse, wraps := 0xb1041ad2562ff2ff2ff2ff2ff2ff2ff3, 0xb1041ad2562ff2ff2ff3d9;
    assert FNV_PRIME * inverse == 1 + wraps * U128;
    assert d * (FNV_PRIME * inverse) == m * U128 * inverse;
    k := m * inverse - d * wraps;
  }

  // ----- Small polynomials do not vanish at the prime

  const TWO_88: int := 0x10000000000000000000000
  const TWO_40: int := 0x100_0000_0000

  /** The prime is 2^88 + 315, and 2^176 is a multiple of 2^128: a polynomial taken at the prime is
      its value at 315, plus 2^88 times its slope there. */
  lemma {:induction false} AtThePrime(e: seq<int>) returns (t: int)
    ensures Horner(e, FNV_PRIME) == Slope(e, 315) * TWO_88 + Horner(e, 315) + t * U128
    decreases |e|
  {
    if e == [] {
      t := 0;
    } else {
      var t0 := AtThePrime(e[..|e| - 1]);
      t := t0 * FNV_PRIME + Slope(e[..|e| - 1], 315) * 0x1_0000_0000_0000;
    }
  }

  function Pow315(n: nat): nat
  {
    if n == 0 then 1 else 315 * Pow315(n - 1)
  }

  lemma {:induction false} HornerBound(e: seq<int>)
    requires Small(e)
    ensures -2 * (Pow315(|e|) - 1) <= Horner(e, 315) <= 2 * (Pow315(|e|) - 1)
    decreases |e|
  {
    if e != [] {
      HornerBound(e[..|e| - 1]);
    }
  }

  lemma SplitsAt88(hi: int, lo: int, m: int)
    requires -TWO_88 < lo < TWO_88 && hi * TWO_88 + lo == m * U128
    ensures lo == 0 && hi == m * TWO_40
  {
  }

  /** Where a small polynomial vanishes at 315, its leading parts are -1, 0 or 1 there. */
  lemma {:induction false} LeadingIsUnit(e: seq<int>, k: nat)
    requires Small(e) && k <= |e| && Unit(Horner(e, 315))
    ensures Unit(Horner(e[..k], 315))
    decreases |e|
  {
    if k == |e| {
      assert e[..k] == e;
    } else {
      LeadingIsUnit(e[..|e| - 1], k);
      assert e[..|e| - 1][..k] == e[..k];
    }
  }

  lemma OneMore(e: seq<int>, k: nat)
    requires k < |e|
    ensures Slope(e[..k + 1], 315) == Slope(e[..k], 315) * 315 + Horner(e[..k], 315)
    ensures Horner(e[..k + 1], 315) == Horner(e[..k], 315) * 315 + e[k]
  {
    assert e[..k + 1][..k] == e[..k];
  }

  /** Four steps of the slope at once. */
  lemma FourMore(e: seq<int>, k: nat)
    requires k + 4 <= |e|
    ensures var h := i requires 0 <= i <= |e| => Horner(e[..i], 315);
            Slope(e[..k + 4], 315)
            == (((Slope(e[..k], 315) * 315 + h(k)) * 315 + h(k + 1)) * 315 + h(k + 2)) * 315 + h(k + 3)
  {
    OneMore(e, k);
    OneMore(e, k + 1);
    OneMore(e, k + 2);
    OneMore(e, k + 3);
  }

  /** The slope from the leading parts. */
  lemma SlopeOfEight(e: seq<int>)
    requires |e| == 8
    ensures var h := k requires 0 <= k <= 8 => Horner(e[..k], 315);
            Slope(e, 315) == (((((h(1) * 315 + h(2)) * 315 + h(3)) * 315 + h(4)) * 315 + h(5)) * 315 + h(6)) * 315 + h(7)
  {
    FourMore(e, 0);
    FourMore(e, 4);
    assert e[..8] == e && e[..0] == [];
  }

  const POW_315_4: int := 0x2_4AD7_F171

  /** No number with three digits -1, 0 and 1 in base 315, times 315^4, comes near a multiple of 2^40. */
  lemma HighVanishes(a: int, b: int, c: int, low: int, m: int)
    requires Unit(a) && Unit(b) && Unit(c) && -0x200_0000 < low < 0x200_0000
    requires ((a * 315 + b) * 315 + c) * POW_315_4 + low == m * TWO_40
    ensures (a * 315 + b) * 315 + c == 0 && low == 0
  {
  }

  predicate Unit(a: int) { a == -1 || a == 0 || a == 1 }

  lemma DigitsVanish(a: int, b: int, c: int)
    requires Unit(a) && Unit(b) && Unit(c) && (a * 315 + b) * 315 + c == 0
    ensures a == 0 && b == 0 && c == 0
  {
  }

  /** No nonzero polynomial of degree six with coefficients -1, 0 and 1 is a multiple of 2^40 at 315. */
  lemma NoUnitMultiple(a: int, b: int, c: int, d: int, e: int, f: int, g: int, m: int)
    requires Unit(a) && Unit(b) && Unit(c) && Unit(d) && Unit(e) && Unit(f) && Unit(g)
    requires (((((a * 315 + b) * 315 + c) * 315 + d) * 315 + e) * 315 + f) * 315 + g == m * TWO_40
    ensures a == 0 && b == 0 && c == 0 && d == 0 && e == 0 && f == 0 && g == 0
  {
    var low := ((d * 315 + e) * 315 + f) * 315 + g;
    HighVanishes(a, b, c, low, m);
    DigitsVanish(a, b, c);
    DigitsVanish(d, e, f);
  }

  /** A small polynomial of degree seven that vanishes at 315, with a slope there divisible by
      2^40, is zero. */
  lemma OnlyZero(e: seq<int>, m: int)
    requires |e| == 8 && Small(e) && Horner(e, 315) == 0 && Slope(e, 315) == m * TWO_40
    ensures forall i :: 0 <= i < |e| ==> e[i] == 0
  {
    forall k | 0 <= k <= 8
      ensures Unit(Horner(e[..k], 315))
    {
      LeadingIsUnit(e, k);
    }
    SlopeOfEight(e);
    NoUnitMultiple(Horner(e[..1], 315), Horner(e[..2], 315), Horner(e[..3], 315), Horner(e[..4], 315),
                   Horner(e[..5], 315), Horner(e[..6], 315), Horner(e[..7], 315), m);
    assert e[..0] == [] && e[..8] == e;
    forall i | 0 <= i < |e|
      ensures e[i] == 0
    {
      OneMore(e, i);
    }
  }

  lemma VanishesOnlyAsZero(e: seq<int>, m: int)
    requires |e| == 8 && Small(e) && Horner(e, FNV_PRIME) == m * U128
    ensures forall i :: 0 <= i < |e| ==> e[i] == 0
  {
    var t := AtThePrime(e);
    HornerBound(e);
    assert Pow315(8) == 315 * 315 * 315 * 315 * 315 * 315 * 315 * 315;
    SplitsAt88(Slope(e, 315), Horner(e, 315), m - t);
    OnlyZero(e, m - t);
  }

  // ----- What a run determines

  lemma EightTellApart(h: u128, x: Bytes, y: Bytes)
    requires |x| == |y| == 8 && Feed(h, x) == Feed(h, y)
    ensures x == y
  {
    var e, m := Drift(h, x, y);
    var k := PrimeInvertible(Horner(e, FNV_PRIME), -m);
    VanishesOnlyAsZero(e, k);
  }

  /** Up to eight bytes absorbed by one state are determined by the state they lead to. */
  lemma ShortTellApart(h: u128, x: Bytes, y: Bytes)
    requires |x| == |y| <= 8 && Feed(h, x) == Feed(h, y)
    ensures x == y
  {
    var pad := Zeros(8 - |x|);
    FeedAppend(h, x, pad);
    FeedAppend(h, y, pad);
    EightTellApart(h, x + pad, y + pad);
    assert x == (x + pad)[..|x|] && y == (y + pad)[..|y|];
  }

  lemma LowByteIsRemainder(p: nat, q: nat, x: u8, y: u8)
    requires p * 256 + x == q * 256 + y
    ensures p == q && x == y
  {
  }

  lemma XorByteKeepsStates(h: u128, k: u128, b: u8)
    requires XorByte(h, b) == XorByte(k, b)
    ensures h == k
  {
    var x: u8, y: u8 := h % 256, k % 256;
    LowByteIsRemainder(h / 256, k / 256, Xor8(x, b), Xor8(y, b));
    XorCommutes(x, b);
    XorCommutes(y, b);
    XorInjective(b, x, y);
  }

  /** One byte absorbed by two states keeps them apart. */
  lemma AbsorbKeepsStates(h: u128, k: u128, b: u8)
    requires Absorb(h, b) == Absorb(k, b)
    ensures h == k
  {
    var m := AbsorbDifference(XorByte(h, b), XorByte(k, b));
    var times := PrimeInvertible(XorByte(h, b) - XorByte(k, b), -m);
    XorByteKeepsStates(h, k, b);
  }

  lemma {:induction false} FeedKeepsStates(h: u128, k: u128, z: Bytes)
    requires Feed(h, z) == Feed(k, z)
    ensures h == k
    decreases |z|
  {
    if z != [] {
      var n := |z| - 1;
      AbsorbKeepsStates(Feed(h, z[..n]), Feed(k, z[..n]), z[n]);
      FeedKeepsStates(h, k, z[..n]);
    }
  }

  /** Input changed within eight neighbouring bytes always gives another result. */
  lemma WindowChangesId(h: u128, s: Bytes, x: Bytes, y: Bytes, z: Bytes)
    requires |x| == |y| <= 8 && x != y
    ensures Feed(h, s + x + z) != Feed(h, s + y + z)
  {
    FeedAppend(h, s + x, z);
    FeedAppend(h, s + y, z);
    FeedAppend(h, s, x);
    FeedAppend(h, s, y);
    if Feed(h, s + x + z) == Feed(h, s + y + z) {
      FeedKeepsStates(Feed(h, s + x), Feed(h, s + y), z);
      ShortTellApart(Feed(h, s), x, y);
    }
  }
}
