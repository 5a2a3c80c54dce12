/** The checksum as division of polynomials over the field of two elements. */
module CrcPolynomials {
  import opened Words
  import opened Bits
  import opened Crc32

  /** A polynomial is the set of the exponents it has. */
  type Polynomial = set<nat>

  function Plus(a: Polynomial, b: Polynomial): Polynomial { (a - b) + (b - a) }

  /** Times x to the power `k`. */
  function Raised(a: Polynomial, k: nat): Polynomial
  {
    set e | e in a :: e + k
  }

  /** The generator of CRC-32 (IEEE 802.3). */
  const GENERATOR: Polynomial := {32, 26, 23, 22, 16, 12, 11, 10, 8, 7, 5, 4, 2, 1, 0}

  /** The bits of `c`, the lowest one at exponent `e`, each next one below. */
  function Reflected(c: nat, e: nat): Polynomial
    decreases e
  {
    (if c % 2 == 1 then {e} else {}) + (if e == 0 then {} else Reflected(c / 2, e - 1))
  }

  const TOP: nat := 31

  /** The register holds the coefficient of x^31 in its lowest bit. */
  function Register(c: u32): Polynomial { Reflected(c, TOP) }

  /** The bit at exponent `e`, if it is set. */
  function Bit(c: nat, e: nat): Polynomial { if c % 2 == 1 then {e} else {} }

  lemma OneBit(c: nat, e: nat)
    requires e > 0
    ensures Reflected(c, e) == Bit(c, e) + Reflected(c / 2, e - 1)
  {
  }

  lemma {:induction false} ReflectedBelow(c: nat, e: nat)
    ensures forall k :: k in Reflected(c, e) ==> k <= e
    decreases e
  {
    if e > 0 {
      ReflectedBelow(c / 2, e - 1);
    }
  }

  lemma {:induction false} ReflectedXor(a: nat, b: nat, e: nat)
    ensures Reflected(Xor(a, b), e) == Plus(Reflected(a, e), Reflected(b, e))
    decreases e
  {
    XorHalf(a, b);
    BitXor(a, b, e);
    if e > 0 {
      ReflectedXor(a / 2, b / 2, e - 1);
      ReflectedBelow(a / 2, e - 1);
      ReflectedBelow(b / 2, e - 1);
      OneBit(a, e);
      OneBit(b, e);
      OneBit(Xor(a, b), e);
      PlusParts(Bit(a, e), Reflected(a / 2, e - 1), Bit(b, e), Reflected(b / 2, e - 1), e);
    }
  }

  lemma BitXor(a: nat, b: nat, e: nat)
    ensures Bit(Xor(a, b), e) == Plus(Bit(a, e), Bit(b, e))
  {
    XorHalf(a, b);
    BitSum(a, b, Xor(a, b), e);
  }

  lemma BitSum(a: nat, b: nat, c: nat, e: nat)
    requires c % 2 == (a + b) % 2
    ensures Bit(c, e) == Plus(Bit(a, e), Bit(b, e))
  {
    if a % 2 == b % 2 {
      assert c % 2 == 0;
      PlusSelf(Bit(a, e));
    } else {
      assert c % 2 == 1;
      PlusEmpty({e});
    }
  }

  lemma PlusSelf(a: Polynomial)
    ensures Plus(a, a) == {}
  {
  }

  lemma PlusEmpty(a: Polynomial)
    ensures Plus(a, {}) == a == Plus({}, a)
  {
  }

  lemma PlusParts(a: Polynomial, c: Polynomial, b: Polynomial, d: Polynomial, e: nat)
    requires a <= {e} && b <= {e} && e !in c && e !in d
    ensures Plus(a + c, b + d) == Plus(a, b) + Plus(c, d)
  {
  }

  /** A number without its highest bit, read one place higher. */
  lemma {:induction false} ReflectedHigher(c: nat, e: nat)
    requires c < Pow2(e + 1)
    ensures Reflected(c, e + 1) == Raised(Reflected(c, e), 1)
    decreases e
  {
    if e == 0 {
      assert c < 2;
      assert Reflected(c / 2, 0) == {};
    } else {
      ReflectedHigher(c / 2, e - 1);
    }
  }

  // ----- The polynomial in use

  /** The eight lowest bits. */
  function Octet(c: nat, e: nat): Polynomial
    requires e >= 7
  {
    Bit(c, e) + Bit(c / 2, e - 1) + Bit(c / 4, e - 2) + Bit(c / 8, e - 3)
    + Bit(c / 16, e - 4) + Bit(c / 32, e - 5) + Bit(c / 64, e - 6) + Bit(c / 128, e - 7)
  }

  lemma ByOctets(c: nat, e: nat)
    requires e > 7
    ensures Reflected(c, e) == Octet(c, e) + Reflected(c / 256, e - 8)
  {
    FourBits(c, e);
    FourBits(c / 16, e - 4);
    assert c / 16 / 2 == c / 32 && c / 16 / 4 == c / 64 && c / 16 / 8 == c / 128 && c / 16 / 16 == c / 256;
    PlusFive(Bit(c, e) + Bit(c / 2, e - 1) + Bit(c / 4, e - 2) + Bit(c / 8, e - 3),
             Bit(c / 16, e - 4), Bit(c / 32, e - 5), Bit(c / 64, e - 6), Bit(c / 128, e - 7), Reflected(c / 256, e - 8));
  }

  lemma PlusFive(x: Polynomial, a: Polynomial, b: Polynomial, c: Polynomial, d: Polynomial, y: Polynomial)
    ensures x + (a + b + c + d + y) == x + a + b + c + d + y
  {
  }

  lemma FourBits(c: nat, e: nat)
    requires e > 3
    ensures Reflected(c, e) == Bit(c, e) + Bit(c / 2, e - 1) + Bit(c / 4, e - 2) + Bit(c / 8, e - 3)
                               + Reflected(c / 16, e - 4)
  {
    OneBit(c, e);
    OneBit(c / 2, e - 1);
    OneBit(c / 2 / 2, e - 2);
    OneBit(c / 2 / 2 / 2, e - 3);
    assert c / 2 / 2 == c / 4 && c / 4 / 2 == c / 8 && c / 8 / 2 == c / 16;
  }

  lemma {:induction false} ReflectedZero(e: nat)
    ensures Reflected(0, e) == {}
    decreases e
  {
    if e > 0 {
      ReflectedZero(e - 1);
    }
  }

  /** A number by its two lowest bytes. */
  lemma TwoOctets(c: nat, e: nat)
    requires e > 15
    ensures Reflected(c, e) == Octet(c, e) + Octet(c / 0x100, e - 8) + Reflected(c / 0x1_0000, e - 16)
  {
    ByOctets(c, e);
    ByOctets(c / 0x100, e - 8);
    assert c / 0x100 / 256 == c / 0x1_0000;
  }

  lemma Octet0(e: nat)
    requires e >= 7
    ensures Octet(0xEDB88320, e) == {e - 5}
  {
  }

  lemma Octet1(e: nat)
    requires e >= 7
    ensures Octet(0xEDB883, e) == {e, e - 1, e - 7}
  {
  }

  lemma Octet2(e: nat)
    requires e >= 7
    ensures Octet(0xEDB8, e) == {e - 3, e - 4, e - 5, e - 7}
  {
  }

  lemma Octet3(e: nat)
    requires e >= 7
    ensures Octet(0xED, e) == {e, e - 2, e - 3, e - 5, e - 6, e - 7}
  {
  }

  lemma LastOctets(c: nat, e: nat)
    requires c < 0x1_0000 && e > 15
    ensures Reflected(c, e) == Octet(c, e) + Octet(c / 0x100, e - 8)
  {
    TwoOctets(c, e);
    assert c / 0x1_0000 == 0;
    ReflectedZero(e - 16);
    PlusNothing(Octet(c, e) + Octet(c / 0x100, e - 8));
  }

  lemma PlusNothing(a: Polynomial)
    ensures a + {} == a
  {
  }

  lemma UpperHalf(c: nat, e: nat)
    requires c == 0xEDB8 && e > 15
    ensures Reflected(c, e) == {e - 3, e - 4, e - 5, e - 7} + {e - 8, e - 10, e - 11, e - 13, e - 14, e - 15}
  {
    LastOctets(c, e);
    assert c / 0x100 == 0xED;
    Octet2(e);
    Octet3(e - 8);
  }

  /** The generator without its leading term, read one place up. */
  lemma PolynomialAbove(c: nat, e: nat)
    requires c == POLYNOMIAL && e > 31
    ensures Reflected(c, e)
         == {e - 5} + {e - 8, e - 9, e - 15}
            + ({e - 19, e - 20, e - 21, e - 23} + {e - 24, e - 26, e - 27, e - 29, e - 30, e - 31})
  {
    TwoOctets(c, e);
    assert c / 0x100 == 0xEDB883 && c / 0x1_0000 == 0xEDB8;
    Octet0(e);
    Octet1(e - 8);
    UpperHalf(c / 0x1_0000, e - 16);
  }

  lemma GeneratorAbove()
    ensures Raised(GENERATOR - {32}, 1) == {27} + {24, 23, 17} + ({13, 12, 11, 9} + {8, 6, 5, 3, 2, 1})
  {
    var low := GENERATOR - {32};
    var up := {27} + {24, 23, 17} + ({13, 12, 11, 9} + {8, 6, 5, 3, 2, 1});
    forall k: nat
      ensures k in Raised(low, 1) <==> k in up
    {
      if k in up {
        assert k - 1 in low;
      }
    }
  }

  /** It is the generator without its leading term. */
  lemma PolynomialIsGenerator()
    ensures Register(POLYNOMIAL) == GENERATOR - {32}
  {
    PolynomialAbove(POLYNOMIAL, TOP + 1);
    Pow2Values();
    ReflectedHigher(POLYNOMIAL, TOP);
    GeneratorAbove();
    LowerAgain(Register(POLYNOMIAL), GENERATOR - {32});
  }

  lemma LowerAgain(a: Polynomial, b: Polynomial)
    requires Raised(a, 1) == Raised(b, 1)
    ensures a == b
  {
    forall e: nat
      ensures e in a <==> e in b
    {
      assert e in a <==> e + 1 in Raised(a, 1);
      assert e in b <==> e + 1 in Raised(b, 1);
    }
  }

  // ----- Division

  lemma PlusAssociates(a: Polynomial, b: Polynomial, c: Polynomial)
    ensures Plus(Plus(a, b), c) == Plus(a, Plus(b, c))
  {
  }

  lemma PlusSwaps(a: Polynomial, b: Polynomial, c: Polynomial)
    ensures Plus(Plus(a, b), c) == Plus(Plus(a, c), b)
  {
  }

  lemma RaisedMember(a: Polynomial, k: nat, e: nat)
    ensures e in Raised(a, k) <==> e >= k && e - k in a
  {
    if e >= k && e - k in a {
      var d := e - k;
      assert d in a;
    }
  }

  lemma RaisedPlus(a: Polynomial, b: Polynomial, k: nat)
    ensures Raised(Plus(a, b), k) == Plus(Raised(a, k), Raised(b, k))
  {
    forall e: nat
      ensures e in Raised(Plus(a, b), k) <==> e in Plus(Raised(a, k), Raised(b, k))
    {
      RaisedMember(Plus(a, b), k, e);
      RaisedMember(a, k, e);
      RaisedMember(b, k, e);
    }
  }

  lemma RaisedTwice(a: Polynomial, j: nat, k: nat)
    ensures Raised(Raised(a, j), k) == Raised(a, j + k)
  {
    forall e: nat
      ensures e in Raised(Raised(a, j), k) <==> e in Raised(a, j + k)
    {
      RaisedMember(Raised(a, j), k, e);
      RaisedMember(a, j + k, e);
      if e >= k {
        RaisedMember(a, j, e - k);
      }
    }
  }

  lemma RaisedByNone(a: Polynomial)
    ensures Raised(a, 0) == a
  {
    forall e: nat
      ensures e in Raised(a, 0) <==> e in a
    {
      RaisedMember(a, 0, e);
    }
  }

  /** `a` with these multiples of the generator subtracted, one after the other. */
  function Divided(a: Polynomial, q: seq<nat>): Polynomial
  {
    if q == [] then a else Plus(Divided(a, q[..|q| - 1]), Raised(GENERATOR, q[|q| - 1]))
  }

  /** The two leave the same remainder by the generator. */
  ghost predicate Congruent(a: Polynomial, b: Polynomial)
  {
    exists q :: Divided(a, q) == b
  }

  function Up(q: seq<nat>, k: nat): (r: seq<nat>)
    ensures |r| == |q|
  {
    seq(|q|, i requires 0 <= i < |q| => q[i] + k)
  }

  lemma {:induction false} DividedRaised(a: Polynomial, q: seq<nat>, k: nat)
    ensures Raised(Divided(a, q), k) == Divided(Raised(a, k), Up(q, k))
    decreases |q|
  {
    if q != [] {
      var n := |q| - 1;
      DividedRaised(a, q[..n], k);
      assert Up(q, k)[..n] == Up(q[..n], k);
      RaisedPlus(Divided(a, q[..n]), Raised(GENERATOR, q[n]), k);
      RaisedTwice(GENERATOR, q[n], k);
    }
  }

  lemma {:induction false} DividedPlus(a: Polynomial, q: seq<nat>, t: Polynomial)
    ensures Plus(Divided(a, q), t) == Divided(Plus(a, t), q)
    decreases |q|
  {
    if q != [] {
      var n := |q| - 1;
      DividedPlus(a, q[..n], t);
      PlusSwaps(Divided(a, q[..n]), Raised(GENERATOR, q[n]), t);
    }
  }

  lemma {:induction false} DividedAppend(a: Polynomial, q: seq<nat>, r: seq<nat>)
    ensures Divided(Divided(a, q), r) == Divided(a, q + r)
    decreases |r|
  {
    if r == [] {
      assert q + r == q;
    } else {
      var n := |r| - 1;
      DividedAppend(a, q, r[..n]);
      assert (q + r)[..|q + r| - 1] == q + r[..n];
    }
  }

  lemma CongruentRaised(a: Polynomial, b: Polynomial, k: nat)
    requires Congruent(a, b)
    ensures Congruent(Raised(a, k), Raised(b, k))
  {
    var q :| Divided(a, q) == b;
    DividedRaised(a, q, k);
  }

  lemma CongruentPlus(a: Polynomial, b: Polynomial, t: Polynomial)
    requires Congruent(a, b)
    ensures Congruent(Plus(a, t), Plus(b, t))
  {
    var q :| Divided(a, q) == b;
    DividedPlus(a, q, t);
  }

  lemma CongruentThrough(a: Polynomial, b: Polynomial, c: Polynomial)
    requires Congruent(a, b) && Congruent(b, c)
    ensures Congruent(a, c)
  {
    var q :| Divided(a, q) == b;
    var r :| Divided(b, r) == c;
    DividedAppend(a, q, r);
  }

  lemma DividedIsPlus(a: Polynomial, q: seq<nat>)
    ensures Divided(a, q) == Plus(Divided({}, q), a)
  {
    DividedPlus({}, q, a);
    PlusEmpty(a);
  }

  lemma CongruentBack(a: Polynomial, b: Polynomial)
    requires Congruent(a, b)
    ensures Congruent(b, a)
  {
    var q :| Divided(a, q) == b;
    DividedIsPlus(a, q);
    DividedIsPlus(b, q);
    assert Plus(Divided({}, q), Plus(Divided({}, q), a)) == a;
  }

  lemma CongruentSelf(a: Polynomial)
    ensures Congruent(a, a)
  {
    assert Divided(a, []) == a;
  }

  // ----- Remainders are unique

  predicate Falling(q: seq<nat>)
  {
    forall i, j :: 0 <= i < j < |q| ==> q[i] > q[j]
  }

  lemma PlusCancels(a: Polynomial, b: Polynomial)
    ensures Plus(Plus(a, b), b) == a
  {
  }

  lemma DividedSnoc(a: Polynomial, q: seq<nat>, k: nat)
    ensures Divided(a, q + [k]) == Plus(Divided(a, q), Raised(GENERATOR, k))
  {
    assert (q + [k])[..|q|] == q;
  }

  lemma FallingSnoc(q: seq<nat>, k: nat)
    requires Falling(q) && forall x :: x in q ==> x > k
    ensures Falling(q + [k])
  {
    forall i | 0 <= i < |q|
      ensures q[i] > k
    {
      assert q[i] in q;
    }
  }

  lemma FallingFront(q: seq<nat>)
    requires Falling(q) && q != []
    ensures Falling(q[..|q| - 1])
    ensures forall x :: x in q[..|q| - 1] ==> x > q[|q| - 1] && x in q
  {
  }

  lemma LastIsLeast(q: seq<nat>)
    requires Falling(q)
    ensures forall x :: x in q ==> x >= q[|q| - 1]
  {
    forall x | x in q
      ensures x >= q[|q| - 1]
    {
      var i :| 0 <= i < |q| && q[i] == x;
    }
  }

  /** One more multiple taken in its place, or cancelled. */
  lemma {:induction false} Inserted(a: Polynomial, q: seq<nat>, k: nat) returns (r: seq<nat>)
    requires Falling(q)
    ensures Falling(r) && Divided(a, r) == Plus(Divided(a, q), Raised(GENERATOR, k))
    ensures forall x :: x in r ==> x == k || x in q
    decreases |q|
  {
    if q == [] || k < q[|q| - 1] {
      LastIsLeast(q);
      r := q + [k];
      FallingSnoc(q, k);
      DividedSnoc(a, q, k);
    } else {
      var rest, last := q[..|q| - 1], q[|q| - 1];
      FallingFront(q);
      if k == last {
        r := rest;
        PlusCancels(Divided(a, rest), Raised(GENERATOR, k));
      } else {
        var s := Inserted(a, rest, k);
        r := s + [last];
        FallingSnoc(s, last);
        DividedSnoc(a, s, last);
        PlusSwaps(Divided(a, rest), Raised(GENERATOR, last), Raised(GENERATOR, k));
      }
    }
  }

  lemma {:induction false} Ordered(a: Polynomial, q: seq<nat>) returns (r: seq<nat>)
    ensures Falling(r) && Divided(a, r) == Divided(a, q)
    decreases |q|
  {
    if q == [] {
      r := [];
    } else {
      var s := Ordered(a, q[..|q| - 1]);
      r := Inserted(a, s, q[|q| - 1]);
    }
  }

  lemma GeneratorRaised(k: nat)
    ensures k + 32 in Raised(GENERATOR, k) && forall e :: e in Raised(GENERATOR, k) ==> e <= k + 32
  {
    RaisedMember(GENERATOR, k, k + 32);
  }

  /** The highest multiple leaves its leading term. */
  lemma {:induction false} LeadingStays(a: Polynomial, q: seq<nat>)
    requires Falling(q) && q != [] && forall e :: e in a ==> e < 32
    ensures q[0] + 32 in Divided(a, q)
    decreases |q|
  {
    var rest, last := q[..|q| - 1], q[|q| - 1];
    GeneratorRaised(last);
    if rest != [] {
      LeadingStays(a, rest);
    }
  }

  /** Polynomials of degree below 32 that are congruent are equal: there is one remainder. */
  lemma RemainderIsUnique(a: Polynomial, b: Polynomial)
    requires Congruent(a, b) && (forall e :: e in a ==> e < 32) && forall e :: e in b ==> e < 32
    ensures a == b
  {
    var q :| Divided(a, q) == b;
    var r := Ordered(a, q);
    if r != [] {
      LeadingStays(a, r);
    }
  }

  // ----- The register divides

  lemma TimesX(c: u32)
    ensures Raised(Register(c), 1) == Bit(c, 32) + Reflected(c / 2, TOP)
  {
    OneBit(c, TOP);
    Pow2Values();
    ReflectedHigher(c / 2, TOP - 1);
    RaisedParts(Bit(c, TOP), Reflected(c / 2, TOP - 1));
    RaisedBit(c, TOP);
  }

  lemma RaisedBit(c: nat, e: nat)
    ensures Raised(Bit(c, e), 1) == Bit(c, e + 1)
  {
    forall k: nat
      ensures k in Raised(Bit(c, e), 1) <==> k in Bit(c, e + 1)
    {
      RaisedMember(Bit(c, e), 1, k);
    }
  }

  lemma RaisedParts(a: Polynomial, b: Polynomial)
    ensures Raised(a + b, 1) == Raised(a, 1) + Raised(b, 1)
  {
    forall e: nat
      ensures e in Raised(a + b, 1) <==> e in Raised(a, 1) + Raised(b, 1)
    {
      RaisedMember(a + b, 1, e);
      RaisedMember(a, 1, e);
      RaisedMember(b, 1, e);
    }
  }

  lemma LeadingCancels(r: Polynomial)
    requires 32 !in r
    ensures Plus({32} + r, GENERATOR) == Plus(GENERATOR - {32}, r)
  {
  }

  /** Shifting multiplies by x and takes the generator off once when x^32 comes up. */
  lemma ShiftDivides(c: u32)
    ensures Register(Shift(c))
         == if c % 2 == 1 then Plus(Raised(Register(c), 1), GENERATOR) else Raised(Register(c), 1)
  {
    TimesX(c);
    if c % 2 == 1 {
      PolynomialIsGenerator();
      ReflectedXor(POLYNOMIAL, c / 2, TOP);
      ReflectedBelow(c / 2, TOP);
      LeadingCancels(Reflected(c / 2, TOP));
    }
  }

  lemma ShiftIsCongruent(c: u32)
    ensures Congruent(Raised(Register(c), 1), Register(Shift(c)))
  {
    ShiftDivides(c);
    var p := Raised(Register(c), 1);
    RaisedByNone(GENERATOR);
    assert Divided(p, []) == p && [0 as nat][..0] == [];
    assert Divided(p, [0]) == Plus(p, GENERATOR);
  }

  lemma {:induction false} ShiftsAreCongruent(n: nat, c: u32)
    ensures Congruent(Raised(Register(c), n), Register(Shifts(n, c)))
  {
    if n == 0 {
      RaisedByNone(Register(c));
      CongruentSelf(Register(c));
    } else {
      ShiftsAreCongruent(n - 1, c);
      RaisedTwice(Register(c), n - 1, 1);
      ShiftMore(Raised(Register(c), n - 1), Shifts(n - 1, c));
    }
  }

  lemma ShiftMore(a: Polynomial, c: u32)
    requires Congruent(a, Register(c))
    ensures Congruent(Raised(a, 1), Register(Shift(c)))
  {
    CongruentRaised(a, Register(c), 1);
    ShiftIsCongruent(c);
    CongruentThrough(Raised(a, 1), Raised(Register(c), 1), Register(Shift(c)));
  }

  // ----- Messages

  const LOW: nat := 7

  /** Eight bits of a byte, the lowest one first. */
  function Octets(b: u8): Polynomial { Reflected(b, LOW) }

  /** The bits of a message in the order they are sent, the last one at exponent 0. */
  function Message(data: Bytes): Polynomial
    decreases |data|
  {
    if data == [] then {} else Plus(Raised(Octets(data[0]), 8 * (|data| - 1)), Message(data[1..]))
  }

  lemma {:induction false} ReflectedMuchHigher(c: nat, e: nat, k: nat)
    requires c < Pow2(e + 1)
    ensures Reflected(c, e + k) == Raised(Reflected(c, e), k)
    decreases k
  {
    if k == 0 {
      RaisedByNone(Reflected(c, e));
    } else {
      ReflectedMuchHigher(c, e, k - 1);
      Pow2Grows(e + 1, k - 1);
      ReflectedHigher(c, e + k - 1);
      RaisedTwice(Reflected(c, e), k - 1, 1);
    }
  }

  lemma {:induction false} Pow2Grows(w: nat, k: nat)
    ensures Pow2(w) <= Pow2(w + k)
    decreases k
  {
    if k > 0 {
      Pow2Grows(w, k - 1);
    }
  }

  lemma OctetsAtTop(b: u8)
    ensures Reflected(b, TOP) == Raised(Octets(b), 24)
  {
    Pow2Values();
    ReflectedMuchHigher(b, LOW, 24);
  }

  /** One byte: the register times x^8, and the byte times x^32. */
  lemma StepIsCongruent(c: u32, b: u8)
    ensures Congruent(Plus(Raised(Register(c), BITS), Raised(Octets(b), 32)), Register(Step(c, b)))
  {
    var x := Xor32(c, b);
    ReflectedXor(c, b, TOP);
    OctetsAtTop(b);
    ShiftsAreCongruent(BITS, x);
    RaisedPlus(Register(c), Raised(Octets(b), 24), BITS);
    RaisedTwice(Octets(b), 24, BITS);
  }

  /** What is divided: the initial register in front of the message, and 32 zeros after it. */
  function Dividend(c: u32, data: Bytes): Polynomial
  {
    Plus(Raised(Register(c), 8 * |data|), Raised(Message(data), 32))
  }

  lemma ThreeParts(r: Polynomial, o: Polynomial, t: Polynomial, k: nat, m: nat)
    ensures Plus(Raised(Plus(Raised(r, k), Raised(o, 32)), m), t) == Plus(Raised(r, k + m), Plus(Raised(o, m + 32), t))
  {
    RaisedPlus(Raised(r, k), Raised(o, 32), m);
    RaisedTwice(r, k, m);
    RaisedTwice(o, 32, m);
    PlusAssociates(Raised(r, k + m), Raised(o, 32 + m), t);
  }

  lemma TwoParts(o: Polynomial, t: Polynomial, m: nat)
    ensures Raised(Plus(Raised(o, m), t), 32) == Plus(Raised(o, m + 32), Raised(t, 32))
  {
    RaisedPlus(Raised(o, m), t, 32);
    RaisedTwice(o, m, 32);
  }

  lemma DividendIs(c: u32, data: Bytes, m: nat)
    requires data != [] && m == 8 * (|data| - 1)
    ensures Dividend(c, data)
         == Plus(Raised(Register(c), BITS + m), Plus(Raised(Octets(data[0]), m + 32), Raised(Message(data[1..]), 32)))
  {
    TwoParts(Octets(data[0]), Message(data[1..]), m);
    assert Message(data) == Plus(Raised(Octets(data[0]), m), Message(data[1..]));
    assert 8 * |data| == BITS + m;
  }

  lemma Carried(a: Polynomial, b: Polynomial, m: nat, t: Polynomial)
    requires Congruent(a, b)
    ensures Congruent(Plus(Raised(a, m), t), Plus(Raised(b, m), t))
  {
    CongruentRaised(a, b, m);
    CongruentPlus(Raised(a, m), Raised(b, m), t);
  }

  lemma DividendRest(c: u32, rest: Bytes, m: nat)
    requires m == 8 * |rest|
    ensures Dividend(c, rest) == Plus(Raised(Register(c), m), Raised(Message(rest), 32))
  {
  }

  lemma FirstByte(c: u32, data: Bytes, m: nat)
    requires data != [] && m == 8 * (|data| - 1)
    ensures Congruent(Dividend(c, data), Dividend(Step(c, data[0]), data[1..]))
  {
    var t := Raised(Message(data[1..]), 32);
    StepCarried(c, data[0], m, t);
    DividendIs(c, data, m);
    DividendRest(Step(c, data[0]), data[1..], m);
  }

  lemma StepCarried(c: u32, b: u8, m: nat, t: Polynomial)
    ensures Congruent(Plus(Raised(Register(c), BITS + m), Plus(Raised(Octets(b), m + 32), t)),
                      Plus(Raised(Register(Step(c, b)), m), t))
  {
    StepIsCongruent(c, b);
    Carried(Plus(Raised(Register(c), BITS), Raised(Octets(b), 32)), Register(Step(c, b)), m, t);
    ThreeParts(Register(c), Octets(b), t, BITS, m);
  }

  lemma {:induction false} FoldIsCongruent(c: u32, data: Bytes)
    ensures Congruent(Dividend(c, data), Register(Fold(c, data)))
    decreases |data|
  {
    if data == [] {
      RaisedByNone(Register(c));
      assert Raised({}, 32) == {};
      PlusEmpty(Register(c));
      CongruentSelf(Register(c));
    } else {
      FirstByte(c, data, 8 * (|data| - 1));
      FoldIsCongruent(Step(c, data[0]), data[1..]);
      CongruentThrough(Dividend(c, data), Dividend(Step(c, data[0]), data[1..]), Register(Fold(c, data)));
    }
  }

  lemma {:induction false} AllOnes(c: nat, e: nat)
    requires c == Pow2(e + 1) - 1
    ensures forall k: nat :: k in Reflected(c, e) <==> k <= e
    decreases e
  {
    if e > 0 {
      AllOnes(c / 2, e - 1);
    } else {
      assert Pow2(1) == 2;
    }
  }

  /** The register begins with 32 ones. */
  lemma OnesRegister()
    ensures forall k: nat :: k in Register(ONES) <==> k < 32
  {
    Pow2Values();
    AllOnes(ONES, TOP);
  }

  /** The checksum is what CRC-32 is defined to be: its complement is the remainder, by the
      generator, of the message with 32 ones added at its front and 32 zeros after it. */
  lemma ChecksumIsRemainder(data: Bytes, r: Polynomial)
    requires forall k :: k in r ==> k < 32
    ensures r == Register(Xor32(Checksum(data), ONES)) <==> Congruent(Dividend(ONES, data), r)
  {
    var register := Register(Fold(ONES, data));
    ComplementTwice(Fold(ONES, data));
    FoldIsCongruent(ONES, data);
    ReflectedBelow(Fold(ONES, data), TOP);
    if Congruent(Dividend(ONES, data), r) {
      CongruentBack(Dividend(ONES, data), register);
      CongruentThrough(register, Dividend(ONES, data), r);
      RemainderIsUnique(register, r);
    }
  }

  lemma ComplementTwice(c: u32)
    ensures Xor32(Xor32(c, ONES), ONES) == c
  {
    XorAssociates(c, ONES, ONES);
    XorSelf(ONES);
    XorZero(c);
  }
}
