/** UTF-8 (section 4 of RFC 3629): validity, character boundaries, safe truncation. */
module Utf8 {
  import opened Words

  predicate Continuation(b: u8) { 0x80 <= b <= 0xBF }

  /** Length of the well-formed scalar at the head of `s`; 0 if there is none. */
  function ScalarLength(s: Bytes): (n: nat)
    ensures n <= 4 && n <= |s|
  {
    if |s| >= 1 && s[0] <= 0x7F then 1
    else if |s| >= 2 && 0xC2 <= s[0] <= 0xDF && Continuation(s[1]) then 2
    else if |s| >= 3 && ThreeByteHead(s[0], s[1]) && Continuation(s[2]) then 3
    else if |s| >= 4 && FourByteHead(s[0], s[1]) && Continuation(s[2]) && Continuation(s[3]) then 4
    else 0
  }

  predicate ThreeByteHead(a: u8, b: u8)
  {
    || (a == 0xE0 && 0xA0 <= b <= 0xBF)
    || ((0xE1 <= a <= 0xEC || 0xEE <= a <= 0xEF) && Continuation(b))
    || (a == 0xED && 0x80 <= b <= 0x9F)
  }

  predicate FourByteHead(a: u8, b: u8)
  {
    || (a == 0xF0 && 0x90 <= b <= 0xBF)
    || (0xF1 <= a <= 0xF3 && Continuation(b))
    || (a == 0xF4 && 0x80 <= b <= 0x8F)
  }

  predicate Valid(s: Bytes)
    decreases |s|
  {
    s == [] || (ScalarLength(s) > 0 && Valid(s[ScalarLength(s)..]))
  }

  type Utf8String = s: Bytes | Valid(s)

  /** `is_char_boundary`. */
  predicate Boundary(s: Bytes, i: nat)
  {
    i == 0 || i == |s| || (i < |s| && !Continuation(s[i]))
  }

  /** A prefix of valid text is valid exactly when it ends at a character boundary. */
  lemma {:induction false} ValidPrefix(s: Bytes, i: nat)
    requires Valid(s) && i <= |s|
    ensures Valid(s[..i]) <==> Boundary(s, i)
    decreases |s|
  {
    if s == [] || i == 0 {
      assert s[..i] == [];
    } else {
      var n := ScalarLength(s);
      if i >= n {
        var rest := s[n..];
        ValidPrefix(rest, i - n);
        assert s[..i][n..] == rest[..i - n];
        assert ScalarLength(s[..i]) == n;
        if i < |s| {
          assert rest[i - n] == s[i];
        }
      }
    }
  }

  /** The largest boundary not above `n`. */
  function BoundaryBelow(s: Bytes, n: nat): (m: nat)
    requires n <= |s|
    ensures m <= n && Boundary(s, m)
    ensures forall i :: m < i <= n ==> !Boundary(s, i)
  {
    if Boundary(s, n) then n else BoundaryBelow(s, n - 1)
  }

  /** Valid text cut to at most `limit` bytes without splitting a character. */
  function Truncate(s: Utf8String, limit: nat): (t: Utf8String)
    ensures t <= s && |t| <= limit
    ensures forall i :: |t| < i <= Min(|s|, limit) ==> !Valid(s[..i])
  {
    var m := BoundaryBelow(s, Min(|s|, limit));
    assert forall i :: 0 <= i <= |s| ==> (Valid(s[..i]) <==> Boundary(s, i)) by {
      forall i | 0 <= i <= |s| ensures Valid(s[..i]) <==> Boundary(s, i) { ValidPrefix(s, i); }
    }
    s[..m]
  }

  /** Two limits cut a text alike exactly when no character ends between them. */
  lemma TruncateAgrees(s: Utf8String, p: nat, q: nat)
    requires p <= q
    ensures Truncate(s, p) == Truncate(s, q) <==> forall i :: p < i <= Min(|s|, q) ==> !Boundary(s, i)
  {
    var m, n := BoundaryBelow(s, Min(|s|, p)), BoundaryBelow(s, Min(|s|, q));
    assert |Truncate(s, p)| == m && |Truncate(s, q)| == n;
  }

  // ----- Validity by what is encoded

  /** A Unicode scalar value: up to 0x10FFFF, the surrogates left out. */
  predicate Scalar(c: nat)
  {
    c <= 0x10_FFFF && !(0xD800 <= c <= 0xDFFF)
  }

  /** Its bytes: seven, eleven, sixteen or twenty-one bits, six to each byte after the first. */
  function Encode(c: nat): (s: Bytes)
    requires Scalar(c)
    ensures 1 <= |s| <= 4
  {
    if c < 0x80 then [c]
    else if c < 0x800 then [0xC0 + c / 0x40, 0x80 + c % 0x40]
    else if c < 0x1_0000 then [0xE0 + c / 0x1000, 0x80 + c / 0x40 % 0x40, 0x80 + c % 0x40]
    else [0xF0 + c / 0x4_0000, 0x80 + c / 0x1000 % 0x40, 0x80 + c / 0x40 % 0x40, 0x80 + c % 0x40]
  }

  predicate Scalars(text: seq<nat>)
  {
    forall i :: 0 <= i < |text| ==> Scalar(text[i])
  }

  function EncodeAll(text: seq<nat>): Bytes
    requires Scalars(text)
  {
    if text == [] then [] else Encode(text[0]) + EncodeAll(text[1..])
  }

  /** The scalar a well-formed head spells. */
  function Decode(s: Bytes): nat
    requires ScalarLength(s) > 0
  {
    var n := ScalarLength(s);
    if n == 1 then s[0]
    else if n == 2 then 0x40 * (s[0] as nat - 0xC0) + (s[1] as nat - 0x80)
    else if n == 3 then 0x1000 * (s[0] as nat - 0xE0) + 0x40 * (s[1] as nat - 0x80) + (s[2] as nat - 0x80)
    else 0x4_0000 * (s[0] as nat - 0xF0) + 0x1000 * (s[1] as nat - 0x80) + 0x40 * (s[2] as nat - 0x80) + (s[3] as nat - 0x80)
  }

  lemma HeadDecodes(s: Bytes)
    requires ScalarLength(s) > 0
    ensures Scalar(Decode(s)) && Encode(Decode(s)) == s[..ScalarLength(s)]
  {
    match ScalarLength(s)
    case 1 =>
    case 2 => TwoDigits(s[0] as nat - 0xC0, s[1] as nat - 0x80);
    case 3 => ThreeDecode(s);
    case 4 => FourDecode(s);
  }

  lemma ThreeDecode(s: Bytes)
    requires ScalarLength(s) == 3
    ensures Scalar(Decode(s)) && Encode(Decode(s)) == s[..3]
  {
    ThreeDigits(s[0] as nat - 0xE0, s[1] as nat - 0x80, s[2] as nat - 0x80);
  }

  lemma FourDecode(s: Bytes)
    requires ScalarLength(s) == 4
    ensures Scalar(Decode(s)) && Encode(Decode(s)) == s[..4]
  {
    FourDigits(s[0] as nat - 0xF0, s[1] as nat - 0x80, s[2] as nat - 0x80, s[3] as nat - 0x80);
  }

  /** Digits to base 64. */
  lemma TwoDigits(a: nat, b: nat)
    requires b < 0x40
    ensures (0x40 * a + b) / 0x40 == a && (0x40 * a + b) % 0x40 == b
  {
  }

  lemma ThreeDigits(a: nat, b: nat, c: nat)
    requires b < 0x40 && c < 0x40
    ensures var n := 0x1000 * a + 0x40 * b + c; n / 0x1000 == a && n / 0x40 % 0x40 == b && n % 0x40 == c
  {
    TwoDigits(0x40 * a + b, c);
    TwoDigits(a, b);
    assert (0x1000 * a + 0x40 * b + c) / 0x40 / 0x40 == (0x1000 * a + 0x40 * b + c) / 0x1000;
  }

  lemma FourDigits(a: nat, b: nat, c: nat, d: nat)
    requires b < 0x40 && c < 0x40 && d < 0x40
    ensures var n := 0x4_0000 * a + 0x1000 * b + 0x40 * c + d;
            n / 0x4_0000 == a && n / 0x1000 % 0x40 == b && n / 0x40 % 0x40 == c && n % 0x40 == d
  {
    var n := 0x4_0000 * a + 0x1000 * b + 0x40 * c + d;
    TwoDigits(0x1000 * a + 0x40 * b + c, d);
    ThreeDigits(a, b, c);
    assert n / 0x40 / 0x40 == n / 0x1000 && n / 0x40 / 0x1000 == n / 0x4_0000;
  }

  lemma EncodedIsHead(c: nat, rest: Bytes)
    requires Scalar(c)
    ensures ScalarLength(Encode(c) + rest) == |Encode(c)|
  {
  }

  lemma {:induction false} EncodedIsValid(text: seq<nat>)
    requires Scalars(text)
    ensures Valid(EncodeAll(text))
    decreases |text|
  {
    if text != [] {
      var head, rest := Encode(text[0]), EncodeAll(text[1..]);
      EncodedIsValid(text[1..]);
      EncodedIsHead(text[0], rest);
      assert (head + rest)[|head|..] == rest;
    }
  }

  lemma {:induction false} ValidDecodes(s: Bytes) returns (text: seq<nat>)
    requires Valid(s)
    ensures Scalars(text) && EncodeAll(text) == s
    decreases |s|
  {
    if s == [] {
      text := [];
    } else {
      var n := ScalarLength(s);
      HeadDecodes(s);
      var rest := ValidDecodes(s[n..]);
      text := [Decode(s)] + rest;
      assert s == s[..n] + s[n..];
    }
  }

  /** Valid text is exactly what encoding some scalar values gives. */
  lemma ValidExactly(s: Bytes)
    ensures Valid(s) <==> exists text: seq<nat> :: Scalars(text) && EncodeAll(text) == s
  {
    if Valid(s) {
      var text := ValidDecodes(s);
    }
    if text: seq<nat> :| Scalars(text) && EncodeAll(text) == s {
      EncodedIsValid(text);
    }
  }
}
