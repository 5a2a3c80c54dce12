/** Machine words as bounded integers, byte strings, and big-endian integers. */
module Words {

  const U32: int := 0x1_0000_0000
  const U64: int := 0x1_0000_0000_0000_0000
  const U128: int := 0x1_0000_0000_0000_0000_0000_0000_0000_0000
  /** One past the largest encoding symbol id (section 3.2 of RFC 6330). */
  const ESI_LIMIT: int := 0x100_0000

  type u8 = x: int | 0 <= x < 0x100
  type u32 = x: int | 0 <= x < U32
  type u64 = x: int | 0 <= x < U64
  type u128 = x: int | 0 <= x < U128

  type Bytes = seq<u8>

  /** Field widths of the wire formats, in bytes. */
  const W2: nat := 2
  const W4: nat := 4
  const W8: nat := 8
  const W16: nat := 16

  datatype Option<+T> = None | Some(value: T)
  datatype Result<+T, +E> = Ok(value: T) | Err(error: E)

  function Min(a: int, b: int): int { if a <= b then a else b }
  function Max(a: int, b: int): int { if a <= b then b else a }

  /** `n` zero bytes. */
  function Zeros(n: nat): (z: Bytes)
    ensures |z| == n
  {
    seq(n, _ => 0)
  }

  function Pow256(w: nat): (p: nat)
    ensures p > 0
  {
    if w == 0 then 1 else 256 * Pow256(w - 1)
  }

  lemma Pow256Values()
    ensures Pow256(4) == U32 && Pow256(8) == U64 && Pow256(16) == U128 && Pow256(2) == 0x1_0000
  {
    assert Pow256(4) == 256 * 256 * 256 * 256;
    assert Pow256(8) == 256 * 256 * 256 * 256 * Pow256(4);
    assert Pow256(12) == 256 * 256 * 256 * 256 * Pow256(8);
    assert Pow256(16) == 256 * 256 * 256 * 256 * Pow256(12);
  }

  /** The `w`-byte big-endian form of `n`. */
  function Be(n: nat, w: nat): (b: Bytes)
    ensures |b| == w
  {
    if w == 0 then [] else Be(n / 256, w - 1) + [n % 256]
  }

  /** The integer a big-endian byte string stands for. */
  function Unbe(b: Bytes): nat
  {
    if b == [] then 0 else 256 * Unbe(b[..|b| - 1]) + b[|b| - 1]
  }

  lemma UnbeSnoc(b: Bytes, x: u8)
    ensures Unbe(b + [x]) == 256 * Unbe(b) + x
  {
    assert (b + [x])[..|b|] == b;
  }

  lemma {:induction false} UnbeBound(b: Bytes)
    ensures Unbe(b) < Pow256(|b|)
  {
    if b != [] {
      UnbeBound(b[..|b| - 1]);
    }
  }

  lemma {:induction false} UnbeBe(n: nat, w: nat)
    requires n < Pow256(w)
    ensures Unbe(Be(n, w)) == n
  {
    if w > 0 {
      UnbeBe(n / 256, w - 1);
      assert Be(n, w)[..w - 1] == Be(n / 256, w - 1);
    }
  }

  lemma {:induction false} BeUnbe(b: Bytes)
    ensures Be(Unbe(b), |b|) == b
  {
    if b != [] {
      BeUnbe(b[..|b| - 1]);
      assert b == b[..|b| - 1] + [b[|b| - 1]];
    }
  }

  /** Big-endian reads of the widths the wire formats use. */
  function ReadU32(b: Bytes): (n: u32)
    requires |b| == 4
    ensures Be(n, W4) == b
  {
    UnbeBound(b); Pow256Values(); BeUnbe(b);
    Unbe(b)
  }

  function ReadU64(b: Bytes): (n: u64)
    requires |b| == 8
    ensures Be(n, W8) == b
  {
    UnbeBound(b); Pow256Values(); BeUnbe(b);
    Unbe(b)
  }

  function ReadU128(b: Bytes): (n: u128)
    requires |b| == 16
    ensures Be(n, W16) == b
  {
    UnbeBound(b); Pow256Values(); BeUnbe(b);
    Unbe(b)
  }

  /** Reading back what was written, at every width. */
  lemma ReadBackU32(n: u32)
    ensures ReadU32(Be(n, W4)) == n
  {
    Pow256Values(); UnbeBe(n, W4);
  }

  lemma ReadBackU64(n: u64)
    ensures ReadU64(Be(n, W8)) == n
  {
    Pow256Values(); UnbeBe(n, W8);
  }

  lemma ReadBackU128(n: u128)
    ensures ReadU128(Be(n, W16)) == n
  {
    Pow256Values(); UnbeBe(n, W16);
  }
}

/** Sums of sequences of naturals. */
module Sums {

  function Sum(s: seq<nat>): nat
  {
    if s == [] then 0 else Sum(s[..|s| - 1]) + s[|s| - 1]
  }

  lemma SumSnoc(s: seq<nat>, x: nat)
    ensures Sum(s + [x]) == Sum(s) + x
  {
    assert (s + [x])[..|s|] == s;
  }

  lemma SumPrefix(s: seq<nat>, i: nat)
    requires i < |s|
    ensures Sum(s[..i + 1]) == Sum(s[..i]) + s[i]
  {
    assert s[..i + 1][..i] == s[..i];
  }

  lemma FewerMembers<T>(a: set<T>, b: set<T>)
    requires a <= b
    ensures |a| <= |b|
  {
    assert b == a + (b - a);
  }

  lemma {:induction false} SumUpdate(s: seq<nat>, i: nat, x: nat)
    requires i < |s|
    ensures Sum(s[i := x]) == Sum(s) - s[i] + x
  {
    var n := |s| - 1;
    if i == n {
      assert s[i := x][..n] == s[..n];
    } else {
      SumUpdate(s[..n], i, x);
      assert s[i := x][..n] == s[..n][i := x];
    }
  }

  lemma {:induction false} SumMono(s: seq<nat>, t: seq<nat>)
    requires |s| == |t| && forall i :: 0 <= i < |s| ==> s[i] <= t[i]
    ensures Sum(s) <= Sum(t)
    ensures Sum(s) == Sum(t) <==> s == t
  {
    if s != [] {
      var n := |s| - 1;
      SumMono(s[..n], t[..n]);
      assert s == s[..n] + [s[n]] && t == t[..n] + [t[n]];
    }
  }

  lemma {:induction false} SumBound(s: seq<nat>, b: nat)
    requires forall i :: 0 <= i < |s| ==> s[i] <= b
    ensures Sum(s) <= |s| * b
  {
    if s != [] {
      SumBound(s[..|s| - 1], b);
      assert |s| * b == (|s| - 1) * b + b;
    }
  }

  lemma {:induction false} SumAtLeast(s: seq<nat>, i: nat)
    requires i < |s|
    ensures s[i] <= Sum(s)
  {
    if i < |s| - 1 {
      SumAtLeast(s[..|s| - 1], i);
    }
  }

  lemma {:induction false} SumZeros(s: seq<nat>)
    requires forall i :: 0 <= i < |s| ==> s[i] == 0
    ensures Sum(s) == 0
  {
    if s != [] {
      SumZeros(s[..|s| - 1]);
    }
  }

  lemma {:induction false} SumAppend(s: seq<nat>, t: seq<nat>)
    ensures Sum(s + t) == Sum(s) + Sum(t)
  {
    if t == [] {
      assert s + t == s;
    } else {
      SumAppend(s, t[..|t| - 1]);
      assert (s + t)[..|s + t| - 1] == s + t[..|t| - 1];
    }
  }
}

/** Quotients and remainders. */
module Division {

  /** They are unique. */
  lemma DivMod(a: nat, n: nat, q: nat, r: nat)
    requires r < n && a == n * q + r
    ensures a / n == q && a % n == r
  {
    var d := a / n - q;
    assert a == n * (a / n) + a % n;
    assert n * d == r - a % n;
  }

  /** Quotient and remainder of the next number. */
  lemma NextDivMod(c: nat, n: nat)
    requires n > 0
    ensures c % n + 1 < n ==> (c + 1) / n == c / n && (c + 1) % n == c % n + 1
    ensures c % n + 1 == n ==> (c + 1) / n == c / n + 1 && (c + 1) % n == 0
  {
    var q: nat, r: nat := c / n, c % n;
    assert c == n * q + r;
    if r + 1 < n {
      DivMod(c + 1, n, q, r + 1);
    } else {
      assert n * (q + 1) == n * q + n;
      DivMod(c + 1, n, q + 1, 0);
    }
  }

  /** Dividing by d, then by p, is dividing by their product. */
  lemma DivideTwice(a: nat, d: nat, p: nat)
    requires d > 0 && p > 0
    ensures d * p > 0 && (a / d) / p == a / (d * p) && a % (d * p) == d * ((a / d) % p) + a % d
  {
    var q, r, s := (a / d) / p, (a / d) % p, a % d;
    Digits(a / d, p);
    Digits(a, d);
    Regroup(d, p, q, r, s);
    DivMod(a, d * p, q, d * r + s);
  }

  lemma Digits(a: nat, d: nat)
    requires d > 0
    ensures a == d * (a / d) + a % d && a % d < d && a / d >= 0
  {
  }

  /** A two-digit remainder stays below the product of the bases. */
  lemma Regroup(d: nat, p: nat, q: nat, r: nat, s: nat)
    requires r < p && s < d
    ensures d * (p * q + r) + s == (d * p) * q + (d * r + s)
    ensures d * r + s < d * p
  {
    TimesKeepsOrder(d, r + 1, p);
    assert d * (r + 1) == d * r + d;
  }

  /** A multiple of `d`, and `r` more than a multiple of `s`, by any integer factors. */
  lemma RemaindersOf(n: nat, d: nat, a: int, s: nat, r: nat, b: int)
    requires d > 0 && r < s && n == d * a && n == r + s * b
    ensures n % d == 0 && n % s == r
  {
    FactorIsNat(d, a);
    FactorAbove(s, r, b);
    DivMod(n, d, a, 0);
    DivMod(n, s, b, r);
  }

  lemma FactorIsNat(d: nat, a: int)
    requires d > 0 && d * a >= 0
    ensures a >= 0
  {
  }

  lemma FactorAbove(s: int, r: int, b: int)
    requires r < s && r + s * b >= 0 && s > 0
    ensures b >= 0
  {
    TimesKeepsOrder(s, b, -1);
  }

  lemma TimesKeepsOrder(s: int, x: int, y: int)
    requires s >= 0
    ensures x <= y ==> s * x <= s * y
  {
  }

  lemma Distribute(a: int, b: int, t: int)
    ensures (a + b) * t == a * t + b * t
  {
  }

  lemma ProductPositive(a: nat, b: nat)
    requires a > 0 && b > 0
    ensures a * b > 0
  {
  }

  /** Numbers with equal remainders differ by a multiple. */
  lemma SameRemainder(n: nat, k: nat, d: nat)
    requires d > 0 && n % d == k % d
    ensures k - n == d * (k / d - n / d)
  {
    assert k == d * (k / d) + k % d && n == d * (n / d) + n % d;
  }

  // ----- Greatest common divisors

  function Gcd(a: nat, b: nat): (g: nat)
    requires a > 0
    ensures g > 0
    decreases b
  {
    if b == 0 then a else Gcd(b, a % b)
  }

  /** The greatest common divisor is a combination of the two numbers. */
  lemma {:induction false} Bezout(a: nat, b: nat) returns (x: int, y: int)
    requires a > 0
    ensures a * x + b * y == Gcd(a, b)
    decreases b
  {
    if b == 0 {
      x, y := 1, 0;
    } else {
      var u, v := Bezout(b, a % b);
      x, y := v, u - (a / b) * v;
      BezoutStep(a, b, a / b, a % b, u, v);
    }
  }

  lemma BezoutStep(a: int, b: int, q: int, r: int, u: int, v: int)
    requires a == b * q + r
    ensures a * v + b * (u - q * v) == b * u + r * v
  {
    assert a * v == b * q * v + r * v;
    assert b * (u - q * v) == b * u - b * q * v;
  }

  /** And it divides both. */
  lemma {:induction false} GcdDivides(a: nat, b: nat) returns (u: nat, v: nat)
    requires a > 0
    ensures a == Gcd(a, b) * u && b == Gcd(a, b) * v
    decreases b
  {
    if b == 0 {
      u, v := 1, 0;
    } else {
      var p, q := GcdDivides(b, a % b);
      var g := Gcd(a, b);
      u, v := p * (a / b) + q, p;
      assert a == b * (a / b) + a % b;
      assert g * (p * (a / b) + q) == g * p * (a / b) + g * q;
    }
  }
}
