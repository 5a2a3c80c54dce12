/** Bitwise operations on naturals, defined bit by bit. */
module Bits {
  import opened Division

  function Pow2(w: nat): (p: nat)
    ensures p > 0
  {
    if w == 0 then 1 else 2 * Pow2(w - 1)
  }

  lemma Pow2Values()
    ensures Pow2(8) == 0x100 && Pow2(16) == 0x1_0000 && Pow2(24) == 0x100_0000
    ensures Pow2(31) == 0x8000_0000 && Pow2(32) == 0x1_0000_0000
  {
    assert Pow2(8) == 256 by { assert Pow2(4) == 16; }
    Pow2Add(8, 8);
    Pow2Add(16, 8);
    Pow2Add(16, 16);
    assert Pow2(32) == 2 * Pow2(31);
  }

  lemma {:induction false} Pow2Add(a: nat, b: nat)
    ensures Pow2(a + b) == Pow2(a) * Pow2(b)
  {
    if b > 0 {
      Pow2Add(a, b - 1);
      assert Pow2(a + b) == 2 * Pow2(a + b - 1);
      assert 2 * (Pow2(a) * Pow2(b - 1)) == Pow2(a) * (2 * Pow2(b - 1));
    }
  }

  /** Bitwise exclusive or. */
  function Xor(a: nat, b: nat): nat
  {
    if a == 0 && b == 0 then 0 else 2 * Xor(a / 2, b / 2) + (a + b) % 2
  }

  /** `c` is the bitwise difference of `a` and `b`, all of them below 2^n. */
  predicate XorHolds(a: nat, b: nat, c: nat, n: nat)
    decreases n
  {
    if n == 0 then a == b == c == 0
    else c % 2 == (a + b) % 2 && XorHolds(a / 2, b / 2, c / 2, n - 1)
  }

  lemma {:induction false} XorChecked(a: nat, b: nat, c: nat, n: nat)
    requires XorHolds(a, b, c, n)
    ensures Xor(a, b) == c
    decreases n
  {
    if n > 0 {
      XorChecked(a / 2, b / 2, c / 2, n - 1);
    }
  }

  lemma {:induction false} XorBound(a: nat, b: nat, w: nat)
    requires a < Pow2(w) && b < Pow2(w)
    ensures Xor(a, b) < Pow2(w)
  {
    if w > 0 {
      XorBound(a / 2, b / 2, w - 1);
    }
  }

  lemma {:induction false} XorInjective(a: nat, b: nat, c: nat)
    requires Xor(a, b) == Xor(a, c)
    ensures b == c
    decreases a + b + c
  {
    if a + b + c > 0 {
      XorInjective(a / 2, b / 2, c / 2);
    }
  }

  lemma {:induction false} XorCommutes(a: nat, b: nat)
    ensures Xor(a, b) == Xor(b, a)
    decreases a + b
  {
    if a + b > 0 {
      XorCommutes(a / 2, b / 2);
    }
  }

  lemma {:induction false} XorAssociates(a: nat, b: nat, c: nat)
    ensures Xor(Xor(a, b), c) == Xor(a, Xor(b, c))
    decreases a + b + c
  {
    if a + b + c > 0 {
      XorAssociates(a / 2, b / 2, c / 2);
      XorHalf(a, b);
      XorHalf(b, c);
      XorHalf(Xor(a, b), c);
      XorHalf(a, Xor(b, c));
      SameParts(Xor(Xor(a, b), c), Xor(a, Xor(b, c)), Xor(a, b), Xor(b, c), a, b, c);
    }
  }

  lemma {:induction false} XorZero(a: nat)
    ensures Xor(a, 0) == a && Xor(0, a) == a
  {
    if a > 0 {
      XorZero(a / 2);
    }
  }

  lemma {:induction false} XorSelf(a: nat)
    ensures Xor(a, a) == 0
  {
    if a > 0 {
      XorSelf(a / 2);
    }
  }

  lemma XorVanishes(a: nat, b: nat)
    ensures Xor(a, b) == 0 <==> a == b
  {
    XorSelf(a);
    if Xor(a, b) == 0 {
      XorInjective(a, b, a);
    }
  }

  lemma XorHalf(a: nat, b: nat)
    ensures Xor(a, b) / 2 == Xor(a / 2, b / 2) && Xor(a, b) % 2 == (a + b) % 2
  {
  }

  lemma SameParts(x: nat, y: nat, u: nat, v: nat, a: nat, b: nat, c: nat)
    requires x / 2 == y / 2
    requires u % 2 == (a + b) % 2 && v % 2 == (b + c) % 2
    requires x % 2 == (u + c) % 2 && y % 2 == (a + v) % 2
    ensures x == y
  {
  }

  /** A high bit present in one operand only survives. */
  lemma {:induction false} XorKeepsHighBit(a: nat, b: nat, w: nat)
    requires Pow2(w) <= a < Pow2(w + 1) && b < Pow2(w)
    ensures Xor(a, b) >= Pow2(w)
  {
    if w > 0 {
      assert Pow2(w + 1) == 2 * Pow2(w) && Pow2(w) == 2 * Pow2(w - 1);
      XorKeepsHighBit(a / 2, b / 2, w - 1);
    }
  }

  /** Operands that agree above bit `w` differ only below it. */
  lemma {:induction false} XorOfNeighbours(a: nat, b: nat, w: nat)
    requires a / Pow2(w) == b / Pow2(w)
    ensures Xor(a, b) < Pow2(w)
  {
    if w == 0 {
      XorSelf(a);
    } else {
      HalfQuotient(a, w);
      HalfQuotient(b, w);
      XorOfNeighbours(a / 2, b / 2, w - 1);
    }
  }

  lemma HalfQuotient(a: nat, w: nat)
    requires w > 0
    ensures (a / 2) / Pow2(w - 1) == a / Pow2(w)
  {
    DivideTwice(a, 2, Pow2(w - 1));
  }

  /** An operand below bit `w` leaves a multiple of 2^w alone. */
  lemma {:induction false} XorSplit(t: nat, l: nat, m: nat, w: nat)
    requires t % Pow2(w) == 0 && l < Pow2(w) && m < Pow2(w)
    ensures Xor(t + l, m) == t + Xor(l, m)
  {
    if w == 0 {
      XorZero(t);
    } else {
      DivideTwice(t, 2, Pow2(w - 1));
      var s := t / 2;
      XorSplit(s, l / 2, m / 2, w - 1);
      SplitStep(s, l, m);
    }
  }

  lemma TwiceProduct(h: nat, p: nat)
    ensures h * (2 * p) == 2 * (h * p)
  {
  }

  lemma SplitStep(t: nat, l: nat, m: nat)
    requires Xor(t + l / 2, m / 2) == t + Xor(l / 2, m / 2)
    ensures Xor(2 * t + l, m) == 2 * t + Xor(l, m)
  {
    assert (2 * t + l) / 2 == t + l / 2;
    XorHalf(2 * t + l, m);
    XorHalf(l, m);
    SplitParts(Xor(2 * t + l, m), Xor(l, m), t, l, m);
  }

  lemma SplitParts(x: nat, y: nat, t: nat, l: nat, m: nat)
    requires x / 2 == t + y / 2 && x % 2 == (2 * t + l + m) % 2 && y % 2 == (l + m) % 2
    ensures x == 2 * t + y
  {
  }

  /** Bitwise or. */
  function Or(a: nat, b: nat): nat
  {
    if a == 0 && b == 0 then 0 else 2 * Or(a / 2, b / 2) + (if a % 2 == 1 || b % 2 == 1 then 1 else 0)
  }

  /** Fields that do not overlap are simply added. */
  lemma {:induction false} OrOfFields(a: nat, b: nat, w: nat)
    requires a < Pow2(w)
    ensures Or(a, b * Pow2(w)) == a + b * Pow2(w)
  {
    if w == 0 {
      OrZero(b);
    } else {
      OrOfFields(a / 2, b, w - 1);
      TwiceProduct(b, Pow2(w - 1));
      OrStep(a, b * Pow2(w - 1));
    }
  }

  lemma OrStep(a: nat, t: nat)
    requires Or(a / 2, t) == a / 2 + t
    ensures Or(a, 2 * t) == a + 2 * t
  {
    assert (2 * t) / 2 == t;
  }

  lemma {:induction false} OrZero(b: nat)
    ensures Or(0, b) == b
  {
    if b > 0 {
      OrZero(b / 2);
    }
  }

  /** Bitwise and. */
  function And(a: nat, b: nat): nat
  {
    if a == 0 || b == 0 then 0 else 2 * And(a / 2, b / 2) + (if a % 2 == 1 && b % 2 == 1 then 1 else 0)
  }

  /** Masking with `w` one bits keeps the value modulo 2^w. */
  lemma {:induction false} MaskIsModulo(a: nat, w: nat)
    ensures And(a, Pow2(w) - 1) == a % Pow2(w)
    decreases w
  {
    if w > 0 {
      if a == 0 {
        ModuloZero(Pow2(w));
      } else {
        MaskIsModulo(a / 2, w - 1);
        DivideTwice(a, 2, Pow2(w - 1));
        AndOdd(a, Pow2(w) - 1);
      }
    }
  }

  lemma ModuloZero(p: nat)
    requires p > 0
    ensures 0 % p == 0
  {
  }

  lemma AndOdd(a: nat, b: nat)
    requires a > 0 && b % 2 == 1
    ensures And(a, b) == 2 * And(a / 2, b / 2) + a % 2
  {
  }
}
