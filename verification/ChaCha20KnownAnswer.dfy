/**
 The keystream block worked out in section 2.3.2 of RFC 8439, round by round, from the key, the
 counter and the nonce given there. It fixes what no law of the stream can: the constants, the
 place of each word in the state, the order of the rounds and the order of the bytes.
 */
module ChaCha20KnownAnswer {
  import opened ChaCha20
  import opened ChaCha20Bytes
  import opened ChaCha20Spec

  const KEY: seq<bv8> := [
    0x00, 0x01, 0x02, 0x03, 0x04, 0x05, 0x06, 0x07, 0x08, 0x09, 0x0a, 0x0b, 0x0c, 0x0d, 0x0e, 0x0f,
    0x10, 0x11, 0x12, 0x13, 0x14, 0x15, 0x16, 0x17, 0x18, 0x19, 0x1a, 0x1b, 0x1c, 0x1d, 0x1e, 0x1f]

  const NONCE: seq<bv8> := [0x00, 0x00, 0x00, 0x09, 0x00, 0x00, 0x00, 0x4a, 0x00, 0x00, 0x00, 0x00]

  /** A state as its four columns. */
  type Square<W> = (Quad<W>, Quad<W>, Quad<W>, Quad<W>)

  function Laid<W>(s: Square<W>): (x: seq<W>)
    ensures |x| == 16
  {
    Upright(s.0, s.1, s.2, s.3)
  }

  function Mixed<W>(qr: Mixer<W>, s: Square<W>): Square<W> {
    (qr(s.0), qr(s.1), qr(s.2), qr(s.3))
  }

  /** The diagonals as columns. */
  function Turned<W>(s: Square<W>): Square<W> {
    ((s.0.0, s.1.1, s.2.2, s.3.3), (s.1.0, s.2.1, s.3.2, s.0.3),
     (s.2.0, s.3.1, s.0.2, s.1.3), (s.3.0, s.0.1, s.1.2, s.2.3))
  }

  function TurnedBack<W>(s: Square<W>): Square<W> {
    ((s.0.0, s.3.1, s.2.2, s.1.3), (s.1.0, s.0.1, s.3.2, s.2.3),
     (s.2.0, s.1.1, s.0.2, s.3.3), (s.3.0, s.2.1, s.1.2, s.0.3))
  }

  function MixedTwice<W>(qr: Mixer<W>, s: Square<W>): Square<W> {
    TurnedBack(Mixed(qr, Turned(Mixed(qr, s))))
  }

  lemma ColumnsMixed<W>(qr: Mixer<W>, s: Square<W>)
    ensures ColumnRound(qr, Laid(s)) == Laid(Mixed(qr, s))
  {
    ColumnRoundUpright(qr, Laid(s));
  }

  lemma DiagonalsMixed<W>(qr: Mixer<W>, s: Square<W>)
    ensures DiagonalRound(qr, Laid(s)) == Laid(TurnedBack(Mixed(qr, Turned(s))))
  {
    DiagonalRoundSlanted(qr, Laid(s));
  }

  lemma OneMore<W>(qr: Mixer<W>, first: Square<W>, n: nat, s: Square<W>, next: Square<W>)
    requires Rounds(qr, Laid(first), n) == Laid(s) && MixedTwice(qr, s) == next
    ensures Rounds(qr, Laid(first), n + 1) == Laid(next)
  {
    ColumnsMixed(qr, s);
    DiagonalsMixed(qr, Mixed(qr, s));
  }

  // The state before the first round, and after each double round

  const S0: Square<Word> := (
    (0x61707865, 0x03020100, 0x13121110, 0x00000001), (0x3320646e, 0x07060504, 0x17161514, 0x09000000),
    (0x79622d32, 0x0b0a0908, 0x1b1a1918, 0x4a000000), (0x6b206574, 0x0f0e0d0c, 0x1f1e1d1c, 0x00000000))
  const S1: Square<Word> := (
    (0xcd52e917, 0xc4b7cd22, 0x7bf7d740, 0x6b0d58a3), (0x85ab03b4, 0x5c2e187a, 0x7eddd644, 0x6798471a),
    (0xb3457395, 0xc95eb461, 0xf1a1bdf5, 0xd737f167), (0xf96de7dd, 0x316c801a, 0x761246ca, 0xf173888d))
  const S2: Square<Word> := (
    (0xcf1a7584, 0x901d2f40, 0x2dafb216, 0x10aef18d), (0x048927ec, 0x7974b81c, 0x27c89cd6, 0x16218765),
    (0x54051fda, 0x378dcfb4, 0xcd3c9aa0, 0x68f76705), (0xc244ff28, 0xcd47fd0e, 0x79fc89c7, 0x04d6ee22))
  const S3: Square<Word> := (
    (0x03a14032, 0xa7143ae0, 0xc90c6b18, 0xba35d777), (0x66b15927, 0xa09b33dd, 0x5a202413, 0xb360f1bf),
    (0x9d6b6b42, 0xa5daaf88, 0xc20e01b6, 0x8178315b), (0xb84c4109, 0x2fd91a73, 0x72cd6b74, 0x2cd11b1a))
  const S4: Square<Word> := (
    (0x9a2d3589, 0x0a1bffc6, 0xe46c6354, 0x2687d476), (0x0b23fc4e, 0x5e5993f7, 0xc9503229, 0x54e65231),
    (0x40af3b6b, 0x9904c2e7, 0x04fef5aa, 0x3594ffc5), (0xceea8144, 0x0d334718, 0xf8933f72, 0x2b3bb2ca))
  const S5: Square<Word> := (
    (0xc53318c5, 0x26d7cf73, 0xae2ca8db, 0x9e5ec228), (0xca325d96, 0x6088d379, 0x42f67c72, 0x7d85a9f3),
    (0x7e7d11cb, 0xc0f0e9bd, 0x71669aca, 0x201d0756), (0x3404e2ca, 0xe310cdb9, 0x975c171d, 0x63fa6953))
  const S6: Square<Word> := (
    (0x04a3131a, 0x36cc86c7, 0x07d13aca, 0x33b6686d), (0x66176309, 0xbf8a4465, 0xeb0be9af, 0x795cc671),
    (0x0415bab1, 0xf77dd720, 0x61599491, 0xc0049972), (0x61b880a2, 0xfc0bdc90, 0x918512dc, 0xa0a81bde))
  const S7: Square<Word> := (
    (0x9b70f51f, 0x93b08686, 0xd839165e, 0xa609f555), (0x7ea8ac11, 0x6a4c50ae, 0x4c06e28a, 0x2c246549),
    (0x21e54da9, 0x19212a5a, 0xd3fde99e, 0x95151853), (0xca393b2f, 0x9b032958, 0x26acc13d, 0x2c847a0d))
  const S8: Square<Word> := (
    (0xca5c85dd, 0x982563f8, 0x1c25931a, 0xa9b751fb), (0x93a4f90e, 0x712aa9ff, 0x5180bb10, 0x382f3ce2),
    (0xd9f0df58, 0x279a61e8, 0x779c27e7, 0x8db1757d), (0x26dd82dd, 0x970f72bd, 0x54077e08, 0xcc38080b))
  const S9: Square<Word> := (
    (0xb6b87de6, 0xdc33c122, 0x28c1fcb3, 0x21078b22), (0x9a016148, 0x98e18fa3, 0xc4b38f9d, 0xb193e7a3),
    (0x93859815, 0x5ffbe8fc, 0x83e2f5d7, 0xb2f49389), (0x4915e6cc, 0xf7154b8b, 0x7d24b98b, 0x6cde6026))
  const S10: Square<Word> := (
    (0x837778ab, 0xc4f2d0c7, 0x335271c2, 0xd19c12b4), (0xe238d763, 0xfc62bb2f, 0xf29489f3, 0xb04e16de),
    (0xa67ae21e, 0x8fa018fc, 0xeabda8fc, 0x9e83d0cb), (0x5950bb2f, 0x3f5ec7b7, 0x82e46ebd, 0x4e3c50a2))

  /** The sum of the first state and the last. */
  const SUM: Square<Word> := (
    (0xe4e7f110, 0xc7f4d1c7, 0x466482d2, 0xd19c12b5), (0x15593bd1, 0x0368c033, 0x09aa9f07, 0xb94e16de),
    (0x1fdd0f50, 0x9aaa2204, 0x05d7c214, 0xe883d0cb), (0xc47120a3, 0x4e6cd4c3, 0xa2028bd9, 0x4e3c50a2))

  const ROW0: seq<bv8> := [
    0x10, 0xf1, 0xe7, 0xe4, 0xd1, 0x3b, 0x59, 0x15, 0x50, 0x0f, 0xdd, 0x1f, 0xa3, 0x20, 0x71, 0xc4]
  const ROW1: seq<bv8> := [
    0xc7, 0xd1, 0xf4, 0xc7, 0x33, 0xc0, 0x68, 0x03, 0x04, 0x22, 0xaa, 0x9a, 0xc3, 0xd4, 0x6c, 0x4e]
  const ROW2: seq<bv8> := [
    0xd2, 0x82, 0x64, 0x46, 0x07, 0x9f, 0xaa, 0x09, 0x14, 0xc2, 0xd7, 0x05, 0xd9, 0x8b, 0x02, 0xa2]
  const ROW3: seq<bv8> := [
    0xb5, 0x12, 0x9c, 0xd1, 0xde, 0x16, 0x4e, 0xb9, 0xcb, 0xd0, 0x83, 0xe8, 0xa2, 0x50, 0x3c, 0x4e]
  const BLOCK: seq<bv8> := ROW0 + ROW1 + ROW2 + ROW3

  lemma After1()
    ensures Rounds(QuarterRound, Laid(S0), 1) == Laid(S1)
  {
    OneMore(QuarterRound, S0, 0, S0, S1);
  }

  lemma After2()
    ensures Rounds(QuarterRound, Laid(S0), 2) == Laid(S2)
  {
    After1();
    OneMore(QuarterRound, S0, 1, S1, S2);
  }

  lemma After3()
    ensures Rounds(QuarterRound, Laid(S0), 3) == Laid(S3)
  {
    After2();
    OneMore(QuarterRound, S0, 2, S2, S3);
  }

  lemma After4()
    ensures Rounds(QuarterRound, Laid(S0), 4) == Laid(S4)
  {
    After3();
    OneMore(QuarterRound, S0, 3, S3, S4);
  }

  lemma After5()
    ensures Rounds(QuarterRound, Laid(S0), 5) == Laid(S5)
  {
    After4();
    OneMore(QuarterRound, S0, 4, S4, S5);
  }

  lemma After6()
    ensures Rounds(QuarterRound, Laid(S0), 6) == Laid(S6)
  {
    After5();
    OneMore(QuarterRound, S0, 5, S5, S6);
  }

  lemma After7()
    ensures Rounds(QuarterRound, Laid(S0), 7) == Laid(S7)
  {
    After6();
    OneMore(QuarterRound, S0, 6, S6, S7);
  }

  lemma After8()
    ensures Rounds(QuarterRound, Laid(S0), 8) == Laid(S8)
  {
    After7();
    OneMore(QuarterRound, S0, 7, S7, S8);
  }

  lemma After9()
    ensures Rounds(QuarterRound, Laid(S0), 9) == Laid(S9)
  {
    After8();
    OneMore(QuarterRound, S0, 8, S8, S9);
  }

  lemma After10()
    ensures Rounds(QuarterRound, Laid(S0), 10) == Laid(S10)
  {
    After9();
    OneMore(QuarterRound, S0, 9, S9, S10);
  }

  /** The state, word by word. */
  lemma StateWords(key: Key, counter: Word, nonce: Nonce)
    ensures InitialState(key, counter, nonce) == CONSTANTS + [Load(key, 0), Load(key, 4), Load(key, 8), Load(key, 12),
      Load(key, 16), Load(key, 20), Load(key, 24), Load(key, 28)] + [counter]
      + [Load(nonce, 0), Load(nonce, 4), Load(nonce, 8)]
  {
  }

  lemma FirstKeyWords()
    ensures Load(KEY, 0) == 0x03020100 && Load(KEY, 4) == 0x07060504
  {
  }

  lemma NextKeyWords()
    ensures Load(KEY, 8) == 0x0b0a0908 && Load(KEY, 12) == 0x0f0e0d0c
  {
  }

  lemma LastKeyWords()
    ensures Load(KEY, 16) == 0x13121110 && Load(KEY, 20) == 0x17161514
    ensures Load(KEY, 24) == 0x1b1a1918 && Load(KEY, 28) == 0x1f1e1d1c
  {
  }

  lemma NonceWords()
    ensures Load(NONCE, 0) == 0x09000000 && Load(NONCE, 4) == 0x4a000000 && Load(NONCE, 8) == 0
  {
  }

  lemma FirstState()
    ensures InitialState(KEY, 1, NONCE) == Laid(S0)
  {
    StateWords(KEY, 1, NONCE);
    FirstKeyWords();
    NextKeyWords();
    LastKeyWords();
    NonceWords();
  }

  function Zip4<W>(op: (W, W) -> W, a: Quad<W>, b: Quad<W>): Quad<W> {
    (op(a.0, b.0), op(a.1, b.1), op(a.2, b.2), op(a.3, b.3))
  }

  function Zip16<W>(op: (W, W) -> W, s: Square<W>, t: Square<W>): Square<W> {
    (Zip4(op, s.0, t.0), Zip4(op, s.1, t.1), Zip4(op, s.2, t.2), Zip4(op, s.3, t.3))
  }

  lemma ZippedLaid<W>(op: (W, W) -> W, s: Square<W>, t: Square<W>)
    ensures Zipped(op, Laid(s), Laid(t)) == Laid(Zip16(op, s, t))
  {
  }

  lemma LastState()
    ensures Zipped(Plus, Laid(S10), Laid(S0)) == Laid(SUM)
  {
    ZippedLaid(Plus, S10, S0);
  }

  /** The four bytes of each of four places, from place j. */
  function Row<B>(at: (nat, nat) -> B, j: nat): (bs: seq<B>)
    ensures |bs| == 16
  {
    [at(j, 0), at(j, 1), at(j, 2), at(j, 3), at(j + 1, 0), at(j + 1, 1), at(j + 1, 2), at(j + 1, 3),
     at(j + 2, 0), at(j + 2, 1), at(j + 2, 2), at(j + 2, 3), at(j + 3, 0), at(j + 3, 1), at(j + 3, 2), at(j + 3, 3)]
  }

  lemma RowAt<B>(at: (nat, nat) -> B, j: nat, k: nat)
    requires k < 16
    ensures Row(at, j)[k] == at(j + k / 4, k % 4)
  {
  }

  lemma RowIndex(r: nat, k: nat)
    requires k < 16
    ensures (16 * r + k) / 4 == 4 * r + k / 4 && (16 * r + k) % 4 == k % 4
  {
  }

  lemma RowIs<B>(bs: seq<B>, at: (nat, nat) -> B, r: nat)
    requires |bs| == 64 && r < 4 && forall i :: 0 <= i < 64 ==> bs[i] == at(i / 4, i % 4)
    ensures bs[16 * r..16 * r + 16] == Row(at, 4 * r)
  {
    forall k | 0 <= k < 16 ensures bs[16 * r..16 * r + 16][k] == Row(at, 4 * r)[k] {
      RowAt(at, 4 * r, k);
      RowIndex(r, k);
    }
  }

  lemma Rows<B>(bs: seq<B>, at: (nat, nat) -> B)
    requires |bs| == 64 && forall i :: 0 <= i < 64 ==> bs[i] == at(i / 4, i % 4)
    ensures bs == Row(at, 0) + Row(at, 4) + Row(at, 8) + Row(at, 12)
  {
    RowIs(bs, at, 0);
    RowIs(bs, at, 1);
    RowIs(bs, at, 2);
    RowIs(bs, at, 3);
    Quarters(bs);
  }

  lemma Quarters<B>(bs: seq<B>)
    requires |bs| == 64
    ensures bs == bs[0..16] + bs[16..32] + bs[32..48] + bs[48..64]
  {
  }

  function SumByte(i: nat, k: nat): bv8 {
    if i < 16 && k < 4 then ByteOf(Laid(SUM)[i], k) else 0
  }

  lemma FirstRows()
    ensures Row((i: nat, k: nat) => SumByte(i, k), 0) == ROW0
    ensures Row((i: nat, k: nat) => SumByte(i, k), 4) == ROW1
  {
  }

  lemma LastRows()
    ensures Row((i: nat, k: nat) => SumByte(i, k), 8) == ROW2
    ensures Row((i: nat, k: nat) => SumByte(i, k), 12) == ROW3
  {
  }

  lemma LastBytes()
    ensures Serialize(Laid(SUM)) == BLOCK
  {
    Rows(Serialize(Laid(SUM)), (i: nat, k: nat) => SumByte(i, k));
    FirstRows();
    LastRows();
  }

  /** The keystream block of section 2.3.2 of RFC 8439. */
  lemma KnownBlock()
    ensures KeyBlock(InitialState(KEY, 1, NONCE)) == BLOCK
  {
    FirstState();
    After10();
    LastState();
    LastBytes();
  }

  /** Anything up to a block long, encrypted under that key, counter and nonce. */
  lemma KnownStream(buf: seq<bv8>, i: nat)
    requires i < |buf| <= 64
    ensures XorStream(KEY, 1, NONCE, buf)[i] == buf[i] ^ BLOCK[i]
  {
    KnownBlock();
    CipherGives(Cipher(KEY, NONCE), 1);
    CombinedWith(ChaCha(KEY, NONCE), 1, buf, i, BLOCK);
  }
}
