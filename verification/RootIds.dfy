/** Session ids of whole transfers: FNV-1a over the identity of the file. */
module RootIds {
  import opened Words
  import opened Fnv

  // ----- The content fingerprint, over 64 bits

  const FNV64_OFFSET: u64 := 0xcbf29ce484222325
  const FNV64_PRIME: u64 := 0x100000001b3
  const FINGERPRINT_SPAN: nat := 1024

  function XorByte64(h: u64, b: u8): u64
  {
    h / 256 * 256 + Xor8(h % 256, b)
  }

  function Absorb64(h: u64, b: u8): u64
  {
    (XorByte64(h, b) * FNV64_PRIME) % U64
  }

  function Feed64(h: u64, bytes: Bytes): u64
  {
    if bytes == [] then h
    else Absorb64(Feed64(h, bytes[..|bytes| - 1]), bytes[|bytes| - 1])
  }

  /** The `w`-byte little-endian form of `n`. */
  function Le(n: nat, w: nat): (b: Bytes)
    ensures |b| == w
  {
    if w == 0 then [] else [n % 256] + Le(n / 256, w - 1)
  }

  /** The first and the last kibibyte, overlapping when the payload is shorter than both. */
  function Ends(payload: Bytes): Bytes
  {
    payload[..Min(|payload|, FINGERPRINT_SPAN)] + payload[Max(0, |payload| - FINGERPRINT_SPAN)..]
  }

  function Fingerprint(payload: Bytes): (f: Bytes)
    ensures |f| == W8
  {
    Le(Feed64(FNV64_OFFSET, Ends(payload)), W8)
  }

  method ContentFingerprint(head: Bytes, tail: Bytes) returns (f: Bytes)
    ensures f == Le(Feed64(FNV64_OFFSET, head + tail), W8)
  {
    var material := head + tail;
    var h := FNV64_OFFSET;
    for i := 0 to |material|
      invariant h == Feed64(FNV64_OFFSET, material[..i])
    {
      assert material[..i + 1][..i] == material[..i];
      h := XorByte64(h, material[i]);
      h := (h * FNV64_PRIME) % U64;
    }
    assert material[..|material|] == material;
    f := Le(h, W8);
  }

  // ----- The id, over 128 bits

  /** The identity material: name, size, modification time and fingerprint. */
  function Material(name: Bytes, size: u64, mtime: u64, fingerprint: Bytes): Bytes
  {
    name + Le(size, W8) + Le(mtime, W8) + fingerprint
  }

  function Derive(name: Bytes, size: u64, mtime: u64, fingerprint: Bytes): u128
  {
    Feed(FNV_OFFSET, Material(name, size, mtime, fingerprint))
  }

  /** The four fields are fed one after the other. */
  method DeriveRootId(name: Bytes, size: u64, mtime: u64, fingerprint: Bytes) returns (h: u128)
    ensures h == Derive(name, size, mtime, fingerprint)
  {
    h := FeedAll(FNV_OFFSET, name);
    h := FeedAll(h, Le(size, W8));
    h := FeedAll(h, Le(mtime, W8));
    h := FeedAll(h, fingerprint);
    FeedAppend(FNV_OFFSET, name, Le(size, W8));
    FeedAppend(FNV_OFFSET, name + Le(size, W8), Le(mtime, W8));
    FeedAppend(FNV_OFFSET, name + Le(size, W8) + Le(mtime, W8), fingerprint);
  }

  // ----- Files told apart

  lemma {:induction false} LeInjective(n: nat, k: nat, w: nat)
    requires n < Pow256(w) && k < Pow256(w) && Le(n, w) == Le(k, w)
    ensures n == k
    decreases w
  {
    if w > 0 {
      assert Le(n, w)[0] == n % 256 && Le(k, w)[0] == k % 256;
      assert Le(n, w)[1..] == Le(n / 256, w - 1) && Le(k, w)[1..] == Le(k / 256, w - 1);
      LeInjective(n / 256, k / 256, w - 1);
    }
  }

  lemma WordsDiffer(a: u64, b: u64)
    requires a != b
    ensures Le(a, W8) != Le(b, W8)
  {
    Pow256Values();
    if Le(a, W8) == Le(b, W8) {
      LeInjective(a, b, W8);
    }
  }

  /** Files that differ only in their size never share an id... */
  lemma SizesTellFilesApart(name: Bytes, a: u64, b: u64, mtime: u64, fingerprint: Bytes)
    requires a != b
    ensures Derive(name, a, mtime, fingerprint) != Derive(name, b, mtime, fingerprint)
  {
    WordsDiffer(a, b);
    WindowChangesId(FNV_OFFSET, name, Le(a, W8), Le(b, W8), Le(mtime, W8) + fingerprint);
    Regroup(name, a, mtime, fingerprint);
    Regroup(name, b, mtime, fingerprint);
  }

  lemma Regroup(name: Bytes, size: u64, mtime: u64, fingerprint: Bytes)
    ensures Material(name, size, mtime, fingerprint) == name + Le(size, W8) + (Le(mtime, W8) + fingerprint)
  {
    AddAssociates(name + Le(size, W8), Le(mtime, W8), fingerprint);
  }

  lemma AddAssociates(a: Bytes, b: Bytes, c: Bytes)
    ensures a + b + c == a + (b + c)
  {
  }

  /** ...nor do files that differ only in their modification time... */
  lemma TimesTellFilesApart(name: Bytes, size: u64, a: u64, b: u64, fingerprint: Bytes)
    requires a != b
    ensures Derive(name, size, a, fingerprint) != Derive(name, size, b, fingerprint)
  {
    WordsDiffer(a, b);
    WindowChangesId(FNV_OFFSET, name + Le(size, W8), Le(a, W8), Le(b, W8), fingerprint);
  }

  /** ...nor do files of different fingerprints. */
  lemma FingerprintsTellFilesApart(name: Bytes, size: u64, mtime: u64, a: Bytes, b: Bytes)
    requires |a| == |b| == W8 && a != b
    ensures Derive(name, size, mtime, a) != Derive(name, size, mtime, b)
  {
    var s := name + Le(size, W8) + Le(mtime, W8);
    WindowChangesId(FNV_OFFSET, s, a, b, []);
    assert s + a + [] == s + a && s + b + [] == s + b;
  }
}
