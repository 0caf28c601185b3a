/**
 The ChaCha20 stream of section 2 of RFC 8439: a keystream of 64-byte blocks, one for each
 value of a 32-bit block counter that wraps. Rounds are given by position: a column round
 mixes the four words of each column of the 4 by 4 state, a diagonal round the four words
 of each diagonal.
 */
module ChaCha20Spec {
  import opened CounterMode

  type Word = bv32
  type Key = k: seq<bv8> | |k| == 32 witness seq(32, i => 0)
  type Nonce = n: seq<bv8> | |n| == 12 witness seq(12, i => 0)
  type Block64 = b: seq<bv8> | |b| == 64 witness seq(64, i => 0)

  type Quad<W> = (W, W, W, W)

  function Pick<W>(q: Quad<W>, r: nat): W
    requires r < 4
  {
    if r == 0 then q.0 else if r == 1 then q.1 else if r == 2 then q.2 else q.3
  }

  // Rounds, for any words and any mixing of four of them

  type Mixer<!W> = Quad<W> -> Quad<W>

  function ColumnOf<W>(x: seq<W>, j: nat): Quad<W>
    requires |x| == 16 && j < 4
  {
    (x[j], x[4 + j], x[8 + j], x[12 + j])
  }

  /** A step of r columns to the right, around the end of the row. */
  function Around(k: nat, r: nat): (j: nat)
    requires k < 4 && r <= 4
    ensures j < 4
  {
    if k + r < 4 then k + r else k + r - 4
  }

  function DiagonalOf<W>(x: seq<W>, j: nat): Quad<W>
    requires |x| == 16 && j < 4
  {
    (x[j], x[4 + Around(j, 1)], x[8 + Around(j, 2)], x[12 + Around(j, 3)])
  }

  function ColumnRound<W>(qr: Mixer<W>, x: seq<W>): (y: seq<W>)
    requires |x| == 16
    ensures |y| == 16
  {
    seq(16, i requires 0 <= i < 16 => Pick(qr(ColumnOf(x, i % 4)), i / 4))
  }

  /** The word in row r and column k lies on the diagonal that starts in column k - r. */
  function DiagonalRound<W>(qr: Mixer<W>, x: seq<W>): (y: seq<W>)
    requires |x| == 16
    ensures |y| == 16
  {
    seq(16, i requires 0 <= i < 16 => Pick(qr(DiagonalOf(x, Around(i % 4, 4 - i / 4))), i / 4))
  }

  function DoubleRound<W>(qr: Mixer<W>, x: seq<W>): (y: seq<W>)
    requires |x| == 16
    ensures |y| == 16
  {
    DiagonalRound(qr, ColumnRound(qr, x))
  }

  function Rounds<W>(qr: Mixer<W>, x: seq<W>, n: nat): (y: seq<W>)
    requires |x| == 16
    ensures |y| == 16
  {
    if n == 0 then x else DoubleRound(qr, Rounds(qr, x, n - 1))
  }

  // The quarter-round

  function Left16(v: Word): Word { v.RotateLeft(16) }
  function Left12(v: Word): Word { v.RotateLeft(12) }
  function Left8(v: Word): Word { v.RotateLeft(8) }
  function Left7(v: Word): Word { v.RotateLeft(7) }

  function Plus(a: Word, b: Word): Word {
    a + b
  }

  function WordXor(a: Word, b: Word): Word {
    a ^ b
  }

  function AddXor(rotate: Word -> Word, a: Word, b: Word, d: Word): (r: (Word, Word)) {
    (Plus(a, b), rotate(WordXor(d, Plus(a, b))))
  }

  function QuarterRound(q: Quad<Word>): (r: Quad<Word>) {
    var (a1, d1) := AddXor(Left16, q.0, q.1, q.3);
    var (c1, b1) := AddXor(Left12, q.2, d1, q.1);
    var (a2, d2) := AddXor(Left8, a1, b1, d1);
    var (c2, b2) := AddXor(Left7, c1, d2, b1);
    (a2, b2, c2, d2)
  }

  /** The example of section 2.1.1 of RFC 8439. */
  lemma QuarterRoundExample()
    ensures QuarterRound((0x11111111, 0x01020304, 0x9b8d6f43, 0x01234567))
      == (0xea2a92f4, 0xcb1cf8ce, 0x4581472e, 0x5881c4bb)
  {
  }

  // The block function

  const CONSTANTS: seq<Word> := [0x61707865, 0x3320646e, 0x79622d32, 0x6b206574]

  /** Four bytes, least significant first, joined into a word. */
  function Load(bs: seq<bv8>, off: nat): (w: Word)
    requires off + 4 <= |bs|
  {
    (bs[off] as bv32) | ((bs[off + 1] as bv32) << 8) | ((bs[off + 2] as bv32) << 16) | ((bs[off + 3] as bv32) << 24)
  }

  function InitialState(key: Key, counter: Word, nonce: Nonce): (s: seq<Word>)
    ensures |s| == 16
  {
    CONSTANTS + seq(8, i requires 0 <= i < 8 => Load(key, 4 * i)) + [counter]
      + seq(3, i requires 0 <= i < 3 => Load(nonce, 4 * i))
  }

  /** Byte k of a word, counted from the least significant. */
  function ByteOf(w: Word, k: nat): (b: bv8)
    requires k < 4
  {
    if k == 0 then (w & 0xFF) as bv8
    else if k == 1 then ((w >> 8) & 0xFF) as bv8
    else if k == 2 then ((w >> 16) & 0xFF) as bv8
    else ((w >> 24) & 0xFF) as bv8
  }

  function Serialize(x: seq<Word>): (bs: Block64)
    requires |x| == 16
  {
    seq(64, i requires 0 <= i < 64 => ByteOf(x[i / 4], i % 4))
  }

  function Zipped<W>(op: (W, W) -> W, x: seq<W>, y: seq<W>): (r: seq<W>)
    requires |x| == |y|
    ensures |r| == |x|
  {
    seq(|x|, i requires 0 <= i < |x| => op(x[i], y[i]))
  }

  function KeyBlock(s: seq<Word>): (b: Block64)
    requires |s| == 16
  {
    Serialize(Zipped(Plus, Rounds(QuarterRound, s, 10), s))
  }

  // The stream

  /** The counter is a 32-bit word and wraps. */
  function Succ(counter: Word): Word {
    counter + 1
  }

  function ByteXor(a: bv8, b: bv8): bv8 {
    a ^ b
  }

  /** The keystream block for each value of the counter. */
  function Cipher(key: Key, nonce: Nonce): Word -> Block64 {
    counter => KeyBlock(InitialState(key, counter, nonce))
  }

  function StreamOf(cipher: Word -> Block64): (Word, nat) -> bv8 {
    (counter: Word, j: nat) => if j < 64 then cipher(counter)[j] else 0
  }

  function CipherMode(cipher: Word -> Block64): Mode<Word, bv8> {
    Mode(Succ, StreamOf(cipher), ByteXor)
  }

  function ChaCha(key: Key, nonce: Nonce): Mode<Word, bv8> {
    CipherMode(Cipher(key, nonce))
  }

  /** A mode whose keystream is that of ChaCha20. */
  ghost predicate Runs(m: Mode<Word, bv8>, key: Key, nonce: Nonce) {
    && m.next == Succ && m.op == ByteXor
    && forall c {:trigger InitialState(key, c, nonce)} :: m.Gives(c, KeyBlock(InitialState(key, c, nonce)))
  }

  lemma ChaChaRuns(key: Key, nonce: Nonce)
    ensures Runs(ChaCha(key, nonce), key, nonce)
  {
    forall c: Word ensures ChaCha(key, nonce).Gives(c, KeyBlock(InitialState(key, c, nonce))) {
      CipherGives(Cipher(key, nonce), c);
    }
  }

  lemma CipherGives(cipher: Word -> Block64, counter: Word)
    ensures CipherMode(cipher).Gives(counter, cipher(counter))
  {
  }

  function XorStream(key: Key, counter: Word, nonce: Nonce, buf: seq<bv8>): (r: seq<bv8>)
    ensures |r| == |buf|
  {
    ChaCha(key, nonce).Combined(counter, buf)
  }

  /** Encrypting twice decrypts. */
  lemma Involution(key: Key, counter: Word, nonce: Nonce, buf: seq<bv8>)
    ensures XorStream(key, counter, nonce, XorStream(key, counter, nonce, buf)) == buf
  {
    ChaCha(key, nonce).CombinedTwice(counter, buf);
  }

  /** A stream may be cut between blocks: the rest goes on with the counter moved along. */
  lemma CutBetweenBlocks(key: Key, counter: Word, nonce: Nonce, buf: seq<bv8>, n: nat)
    requires 64 * n <= |buf|
    ensures XorStream(key, counter, nonce, buf) == XorStream(key, counter, nonce, buf[..64 * n])
      + XorStream(key, ChaCha(key, nonce).Advance(counter, n), nonce, buf[64 * n..])
  {
    ChaCha(key, nonce).CombinedCut(counter, buf, n);
  }
}
