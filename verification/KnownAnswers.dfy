/** Check values of the hashes, and the material they are given, byte by byte. */
module KnownAnswers {
  import opened Words
  import opened Bits
  import opened Division
  import opened WireOrder
  import Fnv
  import RootIds
  import SessionIds

  lemma FeedOne(h: u128, b: u8, text: Bytes)
    requires text == [b]
    ensures Fnv.Feed(h, text) == Fnv.Absorb(h, b)
  {
    assert text[..0] == [];
  }

  lemma FeedOne64(h: u64, b: u8, text: Bytes)
    requires text == [b]
    ensures RootIds.Feed64(h, text) == RootIds.Absorb64(h, b)
  {
    assert text[..0] == [];
  }

  /** The XOR, given the low byte of the state and what it becomes. */
  lemma LowByte(h: u128, low: u8, b: u8, x: u8, n: nat)
    requires low == h % 256 && XorHolds(low, b, x, n)
    ensures Fnv.XorByte(h, b) == h - low + x
  {
    XorChecked(low, b, x, n);
  }

  lemma LowByte64(h: u64, low: u8, b: u8, x: u8, n: nat)
    requires low == h % 256 && XorHolds(low, b, x, n)
    ensures RootIds.XorByte64(h, b) == h - low + x
  {
    XorChecked(low, b, x, n);
  }

  /** The product. */
  lemma Times(h: u128, b: u8, y: u128)
    requires Fnv.XorByte(h, b) == y
    ensures Fnv.Absorb(h, b) == (y * 0x100_0000_0000_0000_0000_013b) % 0x1_0000_0000_0000_0000_0000_0000_0000_0000
  {
  }

  lemma Times64(h: u64, b: u8, y: u64)
    requires RootIds.XorByte64(h, b) == y
    ensures RootIds.Absorb64(h, b) == (y * 0x100_0000_01b3) % 0x1_0000_0000_0000_0000
  {
  }

  lemma LowUse() returns (n: nat)
    ensures XorHolds(0x58, 0x61, 0x39, n)
  {
    assert XorHolds(0x58, 0x61, 0x39, 8);
    n := 8;
  }

  lemma LowPublished() returns (n: nat)
    ensures XorHolds(0x8d, 0x61, 0xec, n)
  {
    assert XorHolds(0x8d, 0x61, 0xec, 8);
    n := 8;
  }

  lemma Low64() returns (n: nat)
    ensures XorHolds(0x25, 0x61, 0x44, n)
  {
    assert XorHolds(0x25, 0x61, 0x44, 8);
    n := 8;
  }

  lemma XorInUse()
    ensures Fnv.XorByte(0x6c62272e07bb01426b82175983ad0b58, 0x61) == 0x6c62272e07bb01426b82175983ad0b39
  {
    var n := LowUse();
    LowByte(0x6c62272e07bb01426b82175983ad0b58, 0x58, 0x61, 0x39, n);
  }

  lemma XorPublished()
    ensures Fnv.XorByte(0x6c62272e07bb014262b821756295c58d, 0x61) == 0x6c62272e07bb014262b821756295c5ec
  {
    var n := LowPublished();
    LowByte(0x6c62272e07bb014262b821756295c58d, 0x8d, 0x61, 0xec, n);
  }

  lemma Xor64()
    ensures RootIds.XorByte64(0xcbf29ce484222325, 0x61) == 0xcbf29ce484222344
  {
    var n := Low64();
    LowByte64(0xcbf29ce484222325, 0x25, 0x61, 0x44, n);
  }

  lemma TimesInUse(h: u128, b: u8)
    requires Fnv.XorByte(h, b) == 0x6c62272e07bb01426b82175983ad0b39
    ensures Fnv.Absorb(h, b) == 0xb649e2aebc1a8cba4912bb2505eccf23
  {
    Times(h, b, 0x6c62272e07bb01426b82175983ad0b39);
  }

  lemma TimesPublished(h: u128, b: u8)
    requires Fnv.XorByte(h, b) == 0x6c62272e07bb014262b821756295c5ec
    ensures Fnv.Absorb(h, b) == 0xd228cb696f1a8caf78912b704e4a8964
  {
    Times(h, b, 0x6c62272e07bb014262b821756295c5ec);
  }

  lemma TimesPublished64(h: u64, b: u8)
    requires RootIds.XorByte64(h, b) == 0xcbf29ce484222344
    ensures RootIds.Absorb64(h, b) == 0xaf63dc4c8601ec8c
  {
    Times64(h, b, 0xcbf29ce484222344);
  }

  /** The letter "a" absorbed from the offset in use... */
  lemma AnswerOfA(h: u128, b: u8)
    requires h == Fnv.FNV_OFFSET && b == 0x61
    ensures Fnv.Absorb(h, b) == 0xb649e2aebc1a8cba4912bb2505eccf23
  {
    XorInUse();
    TimesInUse(h, b);
  }

  /** ...and from the published offset of 128-bit FNV-1a, with the published answer. */
  lemma PublishedAnswerOfA(h: u128, b: u8)
    requires h == 0x6c62272e07bb014262b821756295c58d && b == 0x61
    ensures Fnv.Absorb(h, b) == 0xd228cb696f1a8caf78912b704e4a8964
    ensures Fnv.FNV_OFFSET != h
  {
    XorPublished();
    TimesPublished(h, b);
  }

  /** The 64-bit hash is the published one. */
  lemma PublishedAnswerOfA64(h: u64, b: u8)
    requires h == RootIds.FNV64_OFFSET && b == 0x61
    ensures RootIds.Absorb64(h, b) == 0xaf63dc4c8601ec8c
  {
    Xor64();
    TimesPublished64(h, b);
  }

  /** A one-letter text is that one step. */
  lemma AnswersOfText(text: Bytes)
    requires text == [0x61]
    ensures Fnv.Feed(Fnv.FNV_OFFSET, text) == 0xb649e2aebc1a8cba4912bb2505eccf23
    ensures RootIds.Feed64(RootIds.FNV64_OFFSET, text) == 0xaf63dc4c8601ec8c
  {
    FeedOne(Fnv.FNV_OFFSET, 0x61, text);
    AnswerOfA(Fnv.FNV_OFFSET, 0x61);
    FeedOne64(RootIds.FNV64_OFFSET, 0x61, text);
    PublishedAnswerOfA64(RootIds.FNV64_OFFSET, 0x61);
  }

  // ----- What is hashed

  /** A child id is the hash of the text "AirFerry.segment.v1", the root and the index, both with
      the most significant byte first. */
  lemma ChildMaterial(root: u128, index: u32)
    ensures var m := SessionIds.SEGMENT_TAG + Be(root, W16) + Be(index, W4);
            && |m| == 39
            && (forall i :: 0 <= i < 19 ==> m[i] == "AirFerry.segment.v1"[i] as int)
            && N16(m, 19) == root && N4(m, 35) == index
            && SessionIds.DeriveSegment(root, index) == Fnv.Feed(0x6c62272e07bb01426b82175983ad0b58, m)
  {
    var m := SessionIds.SEGMENT_TAG + Be(root, W16) + Be(index, W4);
    assert m[19..19 + 16] == Be(root, W16) && m[35..35 + 4] == Be(index, W4);
    Reads16(m, 19);
    Reads4(m, 35);
    ReadBackU128(root);
    ReadBackU32(index);
    TagIsText();
    assert m[..19] == SessionIds.SEGMENT_TAG;
  }

  lemma TagIsText()
    ensures |SessionIds.SEGMENT_TAG| == 19
    ensures forall i :: 0 <= i < 19 ==> SessionIds.SEGMENT_TAG[i] == "AirFerry.segment.v1"[i] as int
  {
  }

  /** The numbers bytes spell, the least significant first. */
  function L4(b: Bytes, o: nat): nat
    requires o + 4 <= |b|
  {
    (b[o] as nat) + 0x100 * (b[o + 1] as nat) + 0x1_0000 * (b[o + 2] as nat) + 0x100_0000 * (b[o + 3] as nat)
  }

  function L8(b: Bytes, o: nat): nat
    requires o + 8 <= |b|
  {
    L4(b, o) + 0x1_0000_0000 * L4(b, o + 4)
  }

  lemma LeStep(n: nat, w: nat)
    requires w > 0
    ensures RootIds.Le(n, w) == [n % 256] + RootIds.Le(n / 256, w - 1)
  {
  }

  lemma FourStep(n: nat, w: nat)
    requires w >= 4
    ensures RootIds.Le(n, w) == [n % 256, n / 256 % 256, n / 0x1_0000 % 256, n / 0x100_0000 % 256]
                                + RootIds.Le(n / 0x1_0000_0000, w - 4)
  {
    LeStep(n, w);
    LeStep(n / 256, w - 1);
    LeStep(n / 256 / 256, w - 2);
    LeStep(n / 256 / 256 / 256, w - 3);
    assert n / 256 / 256 == n / 0x1_0000 && n / 256 / 256 / 256 == n / 0x100_0000;
    assert n / 256 / 256 / 256 / 256 == n / 0x1_0000_0000;
  }

  lemma LeSpells(n: u64, b: Bytes, o: nat)
    requires o + 8 <= |b| && b[o..o + 8] == RootIds.Le(n, W8)
    ensures L8(b, o) == n
  {
    var high := n / 0x1_0000_0000;
    var low4, high4 := RootIds.Le(n, W8)[..4], RootIds.Le(n, W8)[4..];
    FourStep(n, W8);
    FourStep(high, 4);
    assert RootIds.Le(high / 0x1_0000_0000, 0) == [];
    Spells(low4, n);
    Spells(high4, high);
    assert b[o..o + 8] == low4 + high4;
    assert b[o..o + 4] == low4 && b[o + 4..o + 8] == high4;
  }

  lemma Spells(b: Bytes, n: nat)
    requires b == [n % 256, n / 256 % 256, n / 0x1_0000 % 256, n / 0x100_0000 % 256]
    ensures L4(b, 0) == n % 0x1_0000_0000
  {
    DivideTwice(n, 256, 0x100_0000);
    DivideTwice(n / 256, 256, 0x1_0000);
    DivideTwice(n / 256 / 256, 256, 256);
    assert n / 256 / 256 == n / 0x1_0000 && n / 256 / 256 / 256 == n / 0x100_0000;
  }

  /** A root id is the hash of the name, the size, the time and the fingerprint, numbers with the
      least significant byte first. */
  lemma RootMaterial(name: Bytes, size: u64, mtime: u64, fingerprint: Bytes)
    ensures var m, n := RootIds.Material(name, size, mtime, fingerprint), |name|;
            && |m| == n + 16 + |fingerprint| && m[..n] == name && m[n + 16..] == fingerprint
            && L8(m, n) == size && L8(m, n + 8) == mtime
            && RootIds.Derive(name, size, mtime, fingerprint) == Fnv.Feed(0x6c62272e07bb01426b82175983ad0b58, m)
  {
    var m, n := RootIds.Material(name, size, mtime, fingerprint), |name|;
    assert m[n..n + 8] == RootIds.Le(size, W8) && m[n + 8..n + 8 + 8] == RootIds.Le(mtime, W8);
    LeSpells(size, m, n);
    LeSpells(mtime, m, n + 8);
  }

  /** The fingerprint spells the 64-bit hash of the first 1024 bytes and the last 1024 bytes. */
  lemma FingerprintMaterial(payload: Bytes)
    ensures var ends := payload[..Min(|payload|, 1024)] + payload[Max(0, |payload| - 1024)..];
            L8(RootIds.Fingerprint(payload), 0) == RootIds.Feed64(0xcbf29ce484222325, ends)
  {
    var f := RootIds.Fingerprint(payload);
    assert f[0..0 + 8] == f;
    LeSpells(RootIds.Feed64(RootIds.FNV64_OFFSET, RootIds.Ends(payload)), f, 0);
  }
}
