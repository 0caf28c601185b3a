/**
 The bitwise CRC-32C (reflected, as in section 12.1 of RFC 3720) and the seals built on it.
 A seal left stale exposes every change that lies within four consecutive bytes.
 */
module Crc32c {
  import opened ShiftRegister

  type Word = bv32

  const POLY: Word := 0x82F63B78

  /** One bit of the message goes through the register. */
  function Step(c: Word): (r: Word) {
    if c & 1 == 1 then (c >> 1) ^ POLY else c >> 1
  }

  function Xor(a: Word, b: Word): Word {
    a ^ b
  }

  function Up(y: Word): Word {
    y << 1
  }

  predicate Clear(y: Word) {
    y & 0x80000000 == 0
  }

  function Embed(b: bv8): Word {
    b as bv32
  }

  const CASTAGNOLI: Register<Word, bv8> :=
    Register((c: Word) => Step(c), (a: Word, b: Word) => Xor(a, b), (y: Word) => Up(y), (y: Word) => Clear(y),
      (b: bv8) => Embed(b), 0)

  function Crc(data: seq<bv8>): (r: Word) {
    CASTAGNOLI.Run(0xFFFFFFFF, data) ^ 0xFFFFFFFF
  }

  /** `crc32c`. */
  method Compute(data: seq<bv8>) returns (crc: Word)
    ensures crc == Crc(data)
  {
    crc := 0xFFFFFFFF;
    for i := 0 to |data|
      invariant CASTAGNOLI.Run(crc, data[i..]) == CASTAGNOLI.Run(0xFFFFFFFF, data)
    {
      crc := ByteThrough(crc, data[i]);
      assert data[i..][1..] == data[i + 1..];
    }
    crc := crc ^ 0xFFFFFFFF;
  }

  /** The inner loop: one byte, bit by bit. */
  method ByteThrough(c: Word, b: bv8) returns (crc: Word)
    ensures crc == CASTAGNOLI.ByteStep(c, b)
  {
    crc := Xor(c, Embed(b));
    ghost var start := crc;
    for k := 0 to BYTE
      invariant CASTAGNOLI.Steps(crc, BYTE - k) == CASTAGNOLI.Steps(start, BYTE)
    {
      crc := Step(crc);
    }
  }

  // The laws of the register

  /** A step can be undone: the highest bit tells whether the polynomial went in. */
  function Unstep(r: Word): (c: Word) {
    if r & 0x80000000 != 0 then ((r ^ POLY) << 1) | 1 else r << 1
  }

  lemma StepUndone(c: Word)
    ensures Unstep(Step(c)) == c
  {
  }

  /** Bits above the lowest are only moved down. */
  lemma StepShift(x: Word, y: Word)
    requires Clear(y)
    ensures Step(Xor(x, Up(y))) == Xor(Step(x), y)
  {
    StepShiftBits(x, y);
    assert Up(y) == y << 1;
    assert Xor(x, y << 1) == x ^ (y << 1);
  }

  lemma StepShiftBits(x: Word, y: Word)
    requires y & 0x80000000 == 0
    ensures Step(x ^ (y << 1)) == Step(x) ^ y
  {
  }

  lemma StepLawsHold()
    ensures CASTAGNOLI.StepLaws()
  {
    forall c, d: Word | Step(c) == Step(d) ensures c == d {
      StepUndone(c);
      StepUndone(d);
    }
    forall x, y: Word | Clear(y) ensures Step(Xor(x, Up(y))) == Xor(Step(x), y) {
      StepShift(x, y);
    }
  }

  lemma AssociativeHolds()
    ensures CASTAGNOLI.Associative()
  {
    forall a, b, c: Word ensures Xor(a, Xor(b, c)) == Xor(Xor(a, b), c) {
      XorAssociative(a, b, c);
    }
  }

  lemma CancelsHolds()
    ensures CASTAGNOLI.Cancels()
  {
    forall a, b: Word, k: Word | Xor(a, k) == Xor(b, k) || Xor(k, a) == Xor(k, b) ensures a == b {
      XorCancels(a, b, k);
    }
  }

  lemma ShiftsHolds()
    ensures CASTAGNOLI.Shifts()
  {
    forall a, b: Word | Clear(a) && Clear(b) ensures Clear(Xor(a, b)) {
      XorClear(a, b);
    }
    forall a, b: Word ensures Up(Xor(a, b)) == Xor(Up(a), Up(b)) {
      XorUp(a, b);
    }
  }

  lemma XorAssociative(a: Word, b: Word, c: Word)
    ensures Xor(a, Xor(b, c)) == Xor(Xor(a, b), c)
  {
  }

  lemma XorCancels(a: Word, b: Word, k: Word)
    requires Xor(a, k) == Xor(b, k) || Xor(k, a) == Xor(k, b)
    ensures a == b
  {
  }

  lemma XorClear(a: Word, b: Word)
    requires Clear(a) && Clear(b)
    ensures Clear(Xor(a, b))
  {
  }

  lemma XorUp(a: Word, b: Word)
    ensures Up(Xor(a, b)) == Xor(Up(a), Up(b))
  {
    assert (a ^ b) << 1 == (a << 1) ^ (b << 1);
  }

  /** Eight clear bits at the top are room for eight shifts. */
  lemma RoomEight(y: Word, n: nat)
    requires y & 0xFF000000 == 0 && CASTAGNOLI.Room(y << 8, n)
    ensures CASTAGNOLI.Room(y, BYTE + n)
  {
    RoomFour(y << 4, n);
    RoomFour(y, 4 + n);
  }

  lemma RoomFour(y: Word, n: nat)
    requires y & 0xF0000000 == 0 && CASTAGNOLI.Room(y << 4, n)
    ensures CASTAGNOLI.Room(y, 4 + n)
  {
    FourBits(y);
    RoomTwo(y << 2, n);
    RoomTwo(y, n + 2);
  }

  lemma FourBits(y: Word)
    requires y & 0xF0000000 == 0
    ensures y & 0xC0000000 == 0 && (y << 2) & 0xC0000000 == 0 && (y << 2) << 2 == y << 4
  {
  }

  lemma RoomTwo(y: Word, n: nat)
    requires y & 0xC0000000 == 0 && CASTAGNOLI.Room(y << 2, n)
    ensures CASTAGNOLI.Room(y, n + 2)
  {
    TwoBits(y);
    RoomOne(y << 1, n);
    RoomOne(y, n + 1);
  }

  lemma TwoBits(y: Word)
    requires y & 0xC0000000 == 0
    ensures y & 0x80000000 == 0 && (y << 1) & 0x80000000 == 0 && (y << 1) << 1 == y << 2
  {
  }

  lemma RoomOne(y: Word, n: nat)
    requires y & 0x80000000 == 0 && CASTAGNOLI.Room(y << 1, n)
    ensures CASTAGNOLI.Room(y, n + 1)
  {
  }

  lemma ClearEight(y: Word)
    requires CASTAGNOLI.Room(y, BYTE)
    ensures y & 0xFF000000 == 0
  {
  }

  lemma EmbedRoom(b: bv8)
    ensures CASTAGNOLI.Room(Embed(b), 3 * BYTE)
  {
    assert Embed(b) == b as bv32;
    EmbedBits(b);
    ThreeRooms(b as bv32);
  }

  lemma ThreeRooms(y: Word)
    requires y & 0xFF000000 == 0 && (y << 8) & 0xFF000000 == 0 && (y << 16) & 0xFF000000 == 0
    ensures CASTAGNOLI.Room(y, 3 * BYTE)
  {
    TwoEights(y);
    TwoRooms(y << 8);
    RoomEight(y, BYTE + BYTE);
  }

  lemma TwoRooms(y: Word)
    requires y & 0xFF000000 == 0 && (y << 8) & 0xFF000000 == 0
    ensures CASTAGNOLI.Room(y, BYTE + BYTE)
  {
    OneRoom(y << 8);
    RoomEight(y, BYTE);
  }

  lemma OneRoom(y: Word)
    requires y & 0xFF000000 == 0
    ensures CASTAGNOLI.Room(y, BYTE)
  {
    assert CASTAGNOLI.Room(y << 8, 0);
    RoomEight(y, 0);
  }

  lemma TwoEights(y: Word)
    ensures (y << 8) << 8 == y << 16
  {
  }

  lemma EmbedBits(b: bv8)
    ensures (b as bv32) & 0xFF000000 == 0 && ((b as bv32) << 8) & 0xFF000000 == 0
      && ((b as bv32) << 16) & 0xFF000000 == 0
  {
  }

  lemma {:induction false} ZeroRoom(n: nat)
    ensures CASTAGNOLI.Room(0, n)
  {
    if n != 0 {
      ZeroRoom(n - 1);
      assert Up(0) == 0;
    }
  }

  lemma EightUps(y: Word)
    ensures CASTAGNOLI.Ups(y, BYTE) == y << 8
  {
  }

  function Low(x: Word): bv8 {
    (x & 0xFF) as bv8
  }

  function Down(x: Word): Word {
    x >> 8
  }

  lemma LowOf(a: bv8, v: Word)
    ensures Low(Xor(Embed(a), CASTAGNOLI.Ups(v, BYTE))) == a
  {
    EightUps(v);
    LowBits(a, v);
  }

  lemma LowBits(a: bv8, v: Word)
    ensures Low(Xor(Embed(a), v << 8)) == a
  {
  }

  lemma DownOf(a: bv8, v: Word)
    requires CASTAGNOLI.Room(v, BYTE)
    ensures Down(Xor(Embed(a), CASTAGNOLI.Ups(v, BYTE))) == v
  {
    EightUps(v);
    ClearEight(v);
    DownBits(a, v);
  }

  lemma DownBits(a: bv8, v: Word)
    requires v & 0xFF000000 == 0
    ensures Down(Xor(Embed(a), v << 8)) == v
  {
  }

  lemma ByteLawsHold()
    ensures CASTAGNOLI.ByteLaws()
  {
    forall b ensures CASTAGNOLI.Room(Embed(b), 3 * BYTE) {
      EmbedRoom(b);
    }
    ZeroRoom(4 * BYTE);
    forall a, b, v, w | CASTAGNOLI.Room(v, BYTE) && CASTAGNOLI.Room(w, BYTE)
      && Xor(Embed(a), CASTAGNOLI.Ups(v, BYTE)) == Xor(Embed(b), CASTAGNOLI.Ups(w, BYTE))
      ensures a == b && v == w
    {
      PartsAgree(a, v, b, w);
    }
  }

  lemma PartsAgree(a: bv8, v: Word, b: bv8, w: Word)
    requires CASTAGNOLI.Room(v, BYTE) && CASTAGNOLI.Room(w, BYTE)
    requires Xor(Embed(a), CASTAGNOLI.Ups(v, BYTE)) == Xor(Embed(b), CASTAGNOLI.Ups(w, BYTE))
    ensures a == b && v == w
  {
    LowOf(a, v);
    LowOf(b, w);
    DownOf(a, v);
    DownOf(b, w);
  }

  lemma Lawful()
    ensures CASTAGNOLI.Lawful()
  {
    StepLawsHold();
    AssociativeHolds();
    CancelsHolds();
    ShiftsHolds();
    ByteLawsHold();
  }

  lemma BurstRuns(front: seq<bv8>, m: seq<bv8>, n: seq<bv8>, back: seq<bv8>)
    requires |m| == |n| <= 4 && m != n
    ensures CASTAGNOLI.Run(0xFFFFFFFF, front + m + back) != CASTAGNOLI.Run(0xFFFFFFFF, front + n + back)
  {
    Lawful();
    if CASTAGNOLI.Run(0xFFFFFFFF, front + m + back) == CASTAGNOLI.Run(0xFFFFFFFF, front + n + back) {
      CASTAGNOLI.Burst(0xFFFFFFFF, front, m, n, back);
    }
  }

  /** Messages that differ, but only within four consecutive bytes, have different checksums. */
  lemma BurstDetected(front: seq<bv8>, m: seq<bv8>, n: seq<bv8>, back: seq<bv8>)
    requires |m| == |n| <= 4 && m != n
    ensures Crc(front + m + back) != Crc(front + n + back)
  {
    var x, y := CASTAGNOLI.Run(0xFFFFFFFF, front + m + back), CASTAGNOLI.Run(0xFFFFFFFF, front + n + back);
    BurstRuns(front, m, n, back);
    if x ^ 0xFFFFFFFF == y ^ 0xFFFFFFFF {
      InvertedSame(x, y);
    }
  }

  lemma InvertedSame(x: Word, y: Word)
    requires x ^ 0xFFFFFFFF == y ^ 0xFFFFFFFF
    ensures x == y
  {
  }

  // Seals

  const CRC_OFF: nat := 124

  /** A word as four bytes, least significant first. */
  function Bytes(w: Word): (bs: seq<bv8>)
    ensures |bs| == 4
  {
    [(w & 0xFF) as bv8, ((w >> 8) & 0xFF) as bv8, ((w >> 16) & 0xFF) as bv8, (w >> 24) as bv8]
  }

  /** The checksum of the first 124 bytes of a page is stored in the four after them. */
  ghost predicate Sealed(buf: seq<bv8>, base: nat)
    requires base + CRC_OFF + 4 <= |buf|
  {
    buf[base + CRC_OFF..base + CRC_OFF + 4] == Bytes(Crc(buf[base..base + CRC_OFF]))
  }

  method Seal(buf: array<bv8>, base: nat)
    requires base + CRC_OFF + 4 <= buf.Length
    modifies buf
    ensures Sealed(buf[..], base)
    ensures forall i :: 0 <= i < buf.Length && !(base + CRC_OFF <= i < base + CRC_OFF + 4) ==> buf[i] == old(buf[i])
  {
    var crc := Compute(buf[base..base + CRC_OFF]);
    var bs, at := Bytes(crc), base + CRC_OFF;
    buf[at], buf[at + 1], buf[at + 2], buf[at + 3] := bs[0], bs[1], bs[2], bs[3];
    assert buf[base..at] == old(buf[base..at]);
    assert buf[..][at..at + 4] == bs && buf[..][base..at] == buf[base..at];
  }

  /** `seal_header`. */
  method SealHeader(buf: array<bv8>)
    requires CRC_OFF + 4 <= buf.Length
    modifies buf
    ensures Sealed(buf[..], 0)
    ensures forall i :: 0 <= i < buf.Length && !(CRC_OFF <= i < CRC_OFF + 4) ==> buf[i] == old(buf[i])
  {
    Seal(buf, 0);
  }

  /** `seal_superblock`. */
  method SealSuperblock(buf: array<bv8>, page: nat)
    requires page * 4096 + CRC_OFF + 4 <= buf.Length
    modifies buf
    ensures Sealed(buf[..], page * 4096)
    ensures forall i :: 0 <= i < buf.Length && !(page * 4096 + CRC_OFF <= i < page * 4096 + CRC_OFF + 4) ==>
      buf[i] == old(buf[i])
  {
    Seal(buf, page * 4096);
  }

  /** Four bytes put together are the word they were taken from. */
  lemma JoinedBytes(w: Word)
    ensures CASTAGNOLI.Joined(Bytes(w)) == w
  {
    var b := Bytes(w);
    JoinedNext(b[3..], 0);
    JoinedNext(b[2..], Joint(b[3], 0));
    JoinedNext(b[1..], Joint(b[2], Joint(b[3], 0)));
    JoinedNext(b, Joint(b[1], Joint(b[2], Joint(b[3], 0))));
    EmbedLow(w);
    EmbedLow(w >> 8);
    EmbedLow(w >> 16);
    EmbedTop(w);
    WordOfBytes(w, b[0], b[1], b[2], b[3]);
  }

  function Joint(b: bv8, v: Word): Word {
    Xor(Embed(b), v << 8)
  }

  lemma JoinedNext(m: seq<bv8>, v: Word)
    requires |m| != 0 && CASTAGNOLI.Joined(m[1..]) == v
    ensures CASTAGNOLI.Joined(m) == Joint(m[0], v)
  {
    EightUps(v);
  }

  lemma WordOfBytes(w: Word, b0: bv8, b1: bv8, b2: bv8, b3: bv8)
    requires Embed(b0) == w & 0xFF && Embed(b1) == (w >> 8) & 0xFF && Embed(b2) == (w >> 16) & 0xFF
    requires Embed(b3) == w >> 24
    ensures Joint(b0, Joint(b1, Joint(b2, Joint(b3, 0)))) == w
  {
    NoShift(w >> 24);
    Rebuilt(w);
  }

  lemma EmbedLow(x: Word)
    ensures Embed((x & 0xFF) as bv8) == x & 0xFF
  {
  }

  lemma EmbedTop(x: Word)
    ensures Embed((x >> 24) as bv8) == x >> 24
  {
  }

  lemma NoShift(x: Word)
    ensures Xor(x, 0 << 8) == x
  {
  }

  lemma Rebuilt(w: Word)
    ensures (w & 0xFF) ^ ((((w >> 8) & 0xFF) ^ ((((w >> 16) & 0xFF) ^ ((w >> 24) << 8)) << 8)) << 8) == w
  {
  }

  /** The register after a message and the inverted register behind it does not depend on the
      message, and no other four bytes bring it there. */
  lemma Residue(c: Word, stored: seq<bv8>)
    requires |stored| == 4
    ensures stored == Bytes(c ^ 0xFFFFFFFF) <==> CASTAGNOLI.Run(c, stored) == CASTAGNOLI.Steps(0xFFFFFFFF, 4 * BYTE)
  {
    var own, j := Bytes(c ^ 0xFFFFFFFF), CASTAGNOLI.Joined(stored);
    RunOfFour(c, stored);
    JoinedBytes(c ^ 0xFFFFFFFF);
    Inverted(c, j);
    if CASTAGNOLI.Steps(Xor(c, j), 4 * BYTE) == CASTAGNOLI.Steps(0xFFFFFFFF, 4 * BYTE) {
      StepsSame(Xor(c, j), 0xFFFFFFFF, 4 * BYTE);
      JoinedSame(stored, own);
    }
  }

  lemma RunOfFour(c: Word, m: seq<bv8>)
    requires |m| == 4
    ensures CASTAGNOLI.Run(c, m) == CASTAGNOLI.Steps(Xor(c, CASTAGNOLI.Joined(m)), 4 * BYTE)
  {
    Lawful();
    CASTAGNOLI.RunJoined(c, m, 4 * BYTE);
  }

  lemma StepsSame(c: Word, d: Word, n: nat)
    requires CASTAGNOLI.Steps(c, n) == CASTAGNOLI.Steps(d, n)
    ensures c == d
  {
    StepLawsHold();
    CASTAGNOLI.StepsInjective(c, d, n);
  }

  lemma JoinedSame(m: seq<bv8>, n: seq<bv8>)
    requires |m| == |n| == 4 && CASTAGNOLI.Joined(m) == CASTAGNOLI.Joined(n)
    ensures m == n
  {
    Lawful();
    CASTAGNOLI.JoinedInjective(m, n);
  }

  lemma Inverted(c: Word, v: Word)
    ensures v == c ^ 0xFFFFFFFF <==> Xor(c, v) == 0xFFFFFFFF
  {
    if v == c ^ 0xFFFFFFFF {
      InvertedSum(c);
    }
    if Xor(c, v) == 0xFFFFFFFF {
      InvertedBack(c, v);
    }
  }

  lemma InvertedSum(c: Word)
    ensures c ^ (c ^ 0xFFFFFFFF) == 0xFFFFFFFF
  {
  }

  lemma InvertedBack(c: Word, v: Word)
    requires c ^ v == 0xFFFFFFFF
    ensures v == c ^ 0xFFFFFFFF
  {
  }

  /** A seal is a property of the 128 bytes as one message. */
  lemma SealedIff(buf: seq<bv8>, base: nat)
    requires base + CRC_OFF + 4 <= |buf|
    ensures Sealed(buf, base)
      <==> CASTAGNOLI.Run(0xFFFFFFFF, buf[base..base + CRC_OFF + 4]) == CASTAGNOLI.Steps(0xFFFFFFFF, 4 * BYTE)
  {
    var end := base + CRC_OFF;
    var data, stored := buf[base..end], buf[end..end + 4];
    Adjacent(buf, base, end, end + 4);
    CASTAGNOLI.RunAppend(0xFFFFFFFF, data, stored);
    Residue(CASTAGNOLI.Run(0xFFFFFFFF, data), stored);
  }

  lemma Adjacent<T>(s: seq<T>, a: nat, b: nat, c: nat)
    requires a <= b <= c <= |s|
    ensures s[a..c] == s[a..b] + s[b..c]
  {
  }

  /** A seal left stale: a change to the 128 bytes, those of the stored checksum among them, that
      lies within four consecutive ones breaks the seal. */
  lemma StaleSeal(good: seq<bv8>, bad: seq<bv8>, base: nat, at: nat)
    requires |good| == |bad| && base + CRC_OFF + 4 <= |good| && Sealed(good, base)
    requires base <= at && at + 4 <= base + CRC_OFF + 4 && good[at..at + 4] != bad[at..at + 4]
    requires forall i :: 0 <= i < |good| && !(at <= i < at + 4) ==> good[i] == bad[i]
    ensures !Sealed(bad, base)
  {
    SealedIff(good, base);
    SealedIff(bad, base);
    Damaged(good, bad, base, at, base + CRC_OFF + 4);
  }

  lemma Damaged(good: seq<bv8>, bad: seq<bv8>, base: nat, at: nat, end: nat)
    requires |good| == |bad| && base <= at && at + 4 <= end <= |good| && good[at..at + 4] != bad[at..at + 4]
    requires forall i :: 0 <= i < |good| && !(at <= i < at + 4) ==> good[i] == bad[i]
    ensures CASTAGNOLI.Run(0xFFFFFFFF, good[base..end]) != CASTAGNOLI.Run(0xFFFFFFFF, bad[base..end])
  {
    AroundFour(good, bad, base, at, end);
    BurstRuns(good[base..at], good[at..at + 4], bad[at..at + 4], good[at + 4..end]);
  }

  lemma AroundFour<T>(s: seq<T>, t: seq<T>, a: nat, b: nat, c: nat)
    requires |s| == |t| && a <= b && b + 4 <= c <= |s|
    requires forall i :: 0 <= i < |s| && !(b <= i < b + 4) ==> s[i] == t[i]
    ensures s[a..c] == s[a..b] + s[b..b + 4] + s[b + 4..c]
    ensures t[a..c] == s[a..b] + t[b..b + 4] + s[b + 4..c]
  {
  }

  lemma BitByBit(c: Word, b: bv8)
    ensures CASTAGNOLI.ByteStep(c, b) == Step(Step(Step(Step(Step(Step(Step(Step(Xor(c, Embed(b))))))))))
  {
    assert BYTE == 8;
  }

  lemma CheckFront()
    ensures CASTAGNOLI.Run(0xFFFFFFFF, [0x31, 0x32, 0x33]) == 0xEF84D04D
  {
    CASTAGNOLI.RunThree(0xFFFFFFFF, 0x31, 0x32, 0x33);
    BitByBit(0xFFFFFFFF, 0x31);
    BitByBit(0x6F0A661C, 0x32);
    BitByBit(0x8CAA3B9F, 0x33);
  }

  lemma CheckMiddle()
    ensures CASTAGNOLI.Run(0xEF84D04D, [0x34, 0x35, 0x36]) == 0xBECA8E79
  {
    CASTAGNOLI.RunThree(0xEF84D04D, 0x34, 0x35, 0x36);
    BitByBit(0xEF84D04D, 0x34);
    BitByBit(0x9C50B11, 0x35);
    BitByBit(0xE72EDCCA, 0x36);
  }

  lemma CheckBack()
    ensures CASTAGNOLI.Run(0xBECA8E79, [0x37, 0x38, 0x39]) == 0x1CF96D7C
  {
    CASTAGNOLI.RunThree(0xBECA8E79, 0x37, 0x38, 0x39);
    BitByBit(0xBECA8E79, 0x37);
    BitByBit(0xEDBD6815, 0x38);
    BitByBit(0x9F787F65, 0x39);
  }

  /** The reference value of CRC-32C for the digits 1 to 9. */
  lemma CheckValue()
    ensures Crc([0x31, 0x32, 0x33, 0x34, 0x35, 0x36, 0x37, 0x38, 0x39]) == 0xE3069283
  {
    var x: seq<bv8>, y: seq<bv8>, z: seq<bv8> := [0x31, 0x32, 0x33], [0x34, 0x35, 0x36], [0x37, 0x38, 0x39];
    assert CASTAGNOLI.Run(0xFFFFFFFF, x + y + z) == 0x1CF96D7C by {
      CheckFront();
      CheckMiddle();
      CheckBack();
      CASTAGNOLI.RunThrice(0xFFFFFFFF, x, y, z, 0xEF84D04D, 0xBECA8E79, 0x1CF96D7C);
    }
    assert x + y + z == [0x31, 0x32, 0x33, 0x34, 0x35, 0x36, 0x37, 0x38, 0x39];
  }
}
