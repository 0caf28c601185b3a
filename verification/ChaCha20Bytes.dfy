/**
 What the words and bytes of the ChaCha20 stream are as numbers: words are read and written least
 significant byte first, the block counter counts modulo 2^32, and a byte of the stream is the
 byte of the keystream block its place in the buffer falls in.
 */
module ChaCha20Bytes {
  import opened Bits
  import opened ChaCha20Spec
  import opened CounterMode

  function Joined(b0: bv8, b1: bv8, b2: bv8, b3: bv8): (w: Word) {
    (b0 as bv32) | ((b1 as bv32) << 8) | ((b2 as bv32) << 16) | ((b3 as bv32) << 24)
  }

  lemma ShiftedSum(b0: bv8, b1: bv8, b2: bv8, b3: bv8)
    ensures ((b0 as bv32) | ((b1 as bv32) << 8) | ((b2 as bv32) << 16) | ((b3 as bv32) << 24)) as nat
      == b0 as nat + 0x100 * (b1 as nat) + 0x1_0000 * (b2 as nat) + 0x100_0000 * (b3 as nat)
  {
  }

  lemma JoinedValue(b0: bv8, b1: bv8, b2: bv8, b3: bv8)
    ensures Joined(b0, b1, b2, b3) as nat
      == b0 as nat + 0x100 * (b1 as nat) + 0x1_0000 * (b2 as nat) + 0x100_0000 * (b3 as nat)
  {
    var w := (b0 as bv32) | ((b1 as bv32) << 8) | ((b2 as bv32) << 16) | ((b3 as bv32) << 24);
    ShiftedSum(b0, b1, b2, b3);
    assert w as nat == b0 as nat + 0x100 * (b1 as nat) + 0x1_0000 * (b2 as nat) + 0x100_0000 * (b3 as nat);
    assert Joined(b0, b1, b2, b3) == w;
  }

  /** A word is read from four bytes, the first of them the least significant. */
  lemma LoadValue(bs: seq<bv8>, off: nat)
    requires off + 4 <= |bs|
    ensures Load(bs, off) as nat == bs[off] as nat + 0x100 * (bs[off + 1] as nat)
      + 0x1_0000 * (bs[off + 2] as nat) + 0x100_0000 * (bs[off + 3] as nat)
  {
    ShiftedSum(bs[off], bs[off + 1], bs[off + 2], bs[off + 3]);
  }

  // The bytes of a word

  lemma Rejoined(w: Word)
    ensures Joined(ByteOf(w, 0), ByteOf(w, 1), ByteOf(w, 2), ByteOf(w, 3)) == w
  {
  }

  lemma Digits(b0: nat, b1: nat, b2: nat, b3: nat, w: nat)
    requires b0 < 0x100 && b1 < 0x100 && b2 < 0x100 && b3 < 0x100
    requires w == b0 + 0x100 * b1 + 0x1_0000 * b2 + 0x100_0000 * b3
    ensures w % 0x100 == b0
    ensures w / 0x100 % 0x100 == b1
    ensures w / 0x1_0000 % 0x100 == b2
    ensures w / 0x100_0000 % 0x100 == b3
  {
  }

  lemma ByteValues(w: Word)
    ensures ByteOf(w, 0) as nat == w as nat % 0x100
    ensures ByteOf(w, 1) as nat == w as nat / 0x100 % 0x100
    ensures ByteOf(w, 2) as nat == w as nat / 0x1_0000 % 0x100
    ensures ByteOf(w, 3) as nat == w as nat / 0x100_0000 % 0x100
  {
    var b0, b1, b2, b3 := ByteOf(w, 0), ByteOf(w, 1), ByteOf(w, 2), ByteOf(w, 3);
    Rejoined(w);
    JoinedValue(b0, b1, b2, b3);
    Digits(b0 as nat, b1 as nat, b2 as nat, b3 as nat, w as nat);
  }

  /** A block is written four bytes to the word, the first of them the least significant. */
  lemma SerializeValues(x: seq<Word>, j: nat)
    requires |x| == 16 && j < 16
    ensures Serialize(x)[4 * j] as nat == x[j] as nat % 0x100
    ensures Serialize(x)[4 * j + 1] as nat == x[j] as nat / 0x100 % 0x100
    ensures Serialize(x)[4 * j + 2] as nat == x[j] as nat / 0x1_0000 % 0x100
    ensures Serialize(x)[4 * j + 3] as nat == x[j] as nat / 0x100_0000 % 0x100
  {
    ByteValues(x[j]);
  }

  // The counter

  lemma NextByte(b: bv8)
    requires b != 0xFF
    ensures (b + 1) as nat == b as nat + 1
  {
  }

  lemma Carry(w: Word)
    ensures ByteOf(w, 0) != 0xFF ==> w + 1 == Joined(ByteOf(w, 0) + 1, ByteOf(w, 1), ByteOf(w, 2), ByteOf(w, 3))
    ensures ByteOf(w, 0) == 0xFF && ByteOf(w, 1) != 0xFF
      ==> w + 1 == Joined(0, ByteOf(w, 1) + 1, ByteOf(w, 2), ByteOf(w, 3))
    ensures ByteOf(w, 0) == 0xFF && ByteOf(w, 1) == 0xFF && ByteOf(w, 2) != 0xFF
      ==> w + 1 == Joined(0, 0, ByteOf(w, 2) + 1, ByteOf(w, 3))
    ensures ByteOf(w, 0) == 0xFF && ByteOf(w, 1) == 0xFF && ByteOf(w, 2) == 0xFF && ByteOf(w, 3) != 0xFF
      ==> w + 1 == Joined(0, 0, 0, ByteOf(w, 3) + 1)
  {
  }

  /** A word one larger than another, told by their bytes. */
  lemma OneLarger(w: Word, v: Word, b0: bv8, b1: bv8, b2: bv8, b3: bv8, c0: bv8, c1: bv8, c2: bv8, c3: bv8)
    requires w == Joined(b0, b1, b2, b3) && v == Joined(c0, c1, c2, c3)
    requires c0 as nat + 0x100 * (c1 as nat) + 0x1_0000 * (c2 as nat) + 0x100_0000 * (c3 as nat)
      == b0 as nat + 0x100 * (b1 as nat) + 0x1_0000 * (b2 as nat) + 0x100_0000 * (b3 as nat) + 1
    ensures v as nat == w as nat + 1
  {
    JoinedValue(b0, b1, b2, b3);
    JoinedValue(c0, c1, c2, c3);
  }

  lemma FirstCarry(w: Word)
    requires ByteOf(w, 0) != 0xFF
    ensures (w + 1) as nat == w as nat + 1
  {
    var b0, b1, b2, b3 := ByteOf(w, 0), ByteOf(w, 1), ByteOf(w, 2), ByteOf(w, 3);
    Rejoined(w);
    Carry(w);
    NextByte(b0);
    OneLarger(w, w + 1, b0, b1, b2, b3, b0 + 1, b1, b2, b3);
  }

  lemma SecondCarry(w: Word)
    requires ByteOf(w, 0) == 0xFF && ByteOf(w, 1) != 0xFF
    ensures (w + 1) as nat == w as nat + 1
  {
    var b0, b1, b2, b3 := ByteOf(w, 0), ByteOf(w, 1), ByteOf(w, 2), ByteOf(w, 3);
    Rejoined(w);
    Carry(w);
    NextByte(b1);
    OneLarger(w, w + 1, b0, b1, b2, b3, 0, b1 + 1, b2, b3);
  }

  lemma ThirdCarry(w: Word)
    requires ByteOf(w, 0) == 0xFF && ByteOf(w, 1) == 0xFF && ByteOf(w, 2) != 0xFF
    ensures (w + 1) as nat == w as nat + 1
  {
    var b0, b1, b2, b3 := ByteOf(w, 0), ByteOf(w, 1), ByteOf(w, 2), ByteOf(w, 3);
    Rejoined(w);
    Carry(w);
    NextByte(b2);
    OneLarger(w, w + 1, b0, b1, b2, b3, 0, 0, b2 + 1, b3);
  }

  lemma FourthCarry(w: Word)
    requires ByteOf(w, 0) == 0xFF && ByteOf(w, 1) == 0xFF && ByteOf(w, 2) == 0xFF && ByteOf(w, 3) != 0xFF
    ensures (w + 1) as nat == w as nat + 1
  {
    var b0, b1, b2, b3 := ByteOf(w, 0), ByteOf(w, 1), ByteOf(w, 2), ByteOf(w, 3);
    Rejoined(w);
    Carry(w);
    NextByte(b3);
    OneLarger(w, w + 1, b0, b1, b2, b3, 0, 0, 0, b3 + 1);
  }

  lemma LastCarry(w: Word)
    requires ByteOf(w, 0) == 0xFF && ByteOf(w, 1) == 0xFF && ByteOf(w, 2) == 0xFF && ByteOf(w, 3) == 0xFF
    ensures w == 0xFFFF_FFFF && w + 1 == 0
  {
  }

  lemma Incremented(w: Word)
    requires w != 0xFFFF_FFFF
    ensures (w + 1) as nat == w as nat + 1
  {
    if ByteOf(w, 0) != 0xFF {
      FirstCarry(w);
    } else if ByteOf(w, 1) != 0xFF {
      SecondCarry(w);
    } else if ByteOf(w, 2) != 0xFF {
      ThirdCarry(w);
    } else {
      AllOnes(w);
      FourthCarry(w);
    }
  }

  lemma AllOnes(w: Word)
    ensures ByteOf(w, 0) == 0xFF && ByteOf(w, 1) == 0xFF && ByteOf(w, 2) == 0xFF && ByteOf(w, 3) == 0xFF
      ==> w == 0xFFFF_FFFF
  {
  }

  function Value(c: Word): (v: nat) {
    c as nat
  }

  const LIMIT := 0x1_0000_0000

  lemma Wraps()
    ensures Value(0xFFFF_FFFF) == LIMIT - 1 && Value(Succ(0xFFFF_FFFF)) == 0
  {
  }

  /** The block counter counts modulo 2^32. */
  lemma SuccValue(c: Word)
    ensures Value(c) < LIMIT && Value(Succ(c)) == if Value(c) == LIMIT - 1 then 0 else Value(c) + 1
  {
    if c == 0xFFFF_FFFF {
      Wraps();
    } else {
      Incremented(c);
    }
  }

  lemma {:induction false} Counts<C(!new), B(!new)>(m: Mode<C, B>, value: C -> nat, limit: nat, counter: C, n: nat)
    requires forall c :: value(c) < limit && value(m.next(c)) == if value(c) == limit - 1 then 0 else value(c) + 1
    ensures value(m.Advance(counter, n)) == (value(counter) + n) % limit
  {
    if n == 0 {
      Quotient(value(counter), value(counter), 0, limit);
    } else {
      var c := m.Advance(counter, n - 1);
      Counts(m, value, limit, counter, n - 1);
      OneOn(value(counter) + n - 1, limit);
      assert value(m.next(c)) == if value(c) == limit - 1 then 0 else value(c) + 1;
    }
  }

  lemma OneOn(a: nat, limit: nat)
    requires limit > 0
    ensures (a + 1) % limit == if a % limit == limit - 1 then 0 else a % limit + 1
  {
    var q, r := a / limit, a % limit;
    if r == limit - 1 {
      Quotient(a + 1, 0, q + 1, limit);
    } else {
      Quotient(a + 1, r + 1, q, limit);
    }
  }

  lemma CombinedWith(m: Mode<Word, bv8>, counter: Word, buf: seq<bv8>, i: nat, ks: Block64)
    requires i < |buf| && m.op == ByteXor && m.Gives(m.Advance(counter, i / 64), ks)
    ensures m.Combined(counter, buf)[i] == buf[i] ^ ks[i % 64]
  {
    m.CombinedByte(counter, buf, i, ks);
  }

  lemma CipherByte(cipher: Word -> Block64, counter: Word, buf: seq<bv8>, i: nat) returns (c: Word)
    requires i < |buf|
    ensures Value(c) == (Value(counter) + i / 64) % LIMIT
    ensures CipherMode(cipher).Combined(counter, buf)[i] == buf[i] ^ cipher(c)[i % 64]
  {
    var m := CipherMode(cipher);
    c := m.Advance(counter, i / 64);
    CounterValue(m, counter, i / 64);
    CipherGives(cipher, c);
    CombinedWith(m, counter, buf, i, cipher(c));
  }

  /** Byte i of the stream comes from the block whose counter is i / 64 past the first. */
  lemma StreamByte(key: Key, counter: Word, nonce: Nonce, buf: seq<bv8>, i: nat) returns (c: Word)
    requires i < |buf|
    ensures Value(c) == (Value(counter) + i / 64) % LIMIT
    ensures XorStream(key, counter, nonce, buf)[i] == buf[i] ^ KeyBlock(InitialState(key, c, nonce))[i % 64]
  {
    c := CipherByte(Cipher(key, nonce), counter, buf, i);
  }

  lemma CounterValue(m: Mode<Word, bv8>, counter: Word, n: nat)
    requires m.next == Succ
    ensures Value(m.Advance(counter, n)) == (Value(counter) + n) % LIMIT
  {
    forall c: Word
      ensures Value(c) < LIMIT && Value(m.next(c)) == if Value(c) == LIMIT - 1 then 0 else Value(c) + 1
    {
      SuccValue(c);
    }
    Counts(m, (c: Word) => Value(c), LIMIT, counter, n);
  }
}
