/**
 Poly1305 as section 2.5 of RFC 8439 defines it, and the facts about it that every
 implementation shares: little-endian numbers, arithmetic modulo 2^130 - 5, and the
 evaluation of the message polynomial block by block.
 */
module Poly1305Spec {
  import opened Bits
  import opened Endian

  const P: nat := 0x3_FFFF_FFFF_FFFF_FFFF_FFFF_FFFF_FFFF_FFFB
  const TWO128: nat := 0x1_0000_0000_0000_0000_0000_0000_0000_0000

  type Key = k: seq<byte> | |k| == 32 witness seq(32, i => 0)

  // Arithmetic modulo P

  ghost predicate Multiple(k: int) {
    true
  }

  /** The two differ by a multiple of P. */
  ghost predicate Congruent(x: int, y: int) {
    exists k {:trigger Multiple(k)} :: Multiple(k) && x == y + k * P
  }

  lemma Shifted(x: int, y: int, k: int)
    requires x == y + k * P
    ensures Congruent(x, y)
  {
    assert Multiple(k);
  }

  lemma Witness(x: int, y: int) returns (k: int)
    requires Congruent(x, y)
    ensures x == y + k * P
  {
    k :| Multiple(k) && x == y + k * P;
  }

  lemma SameResidue(x: int, y: int)
    ensures Congruent(x, y) <==> x % P == y % P
  {
    if Congruent(x, y) {
      var k := Witness(x, y);
      ResidueShifted(x, y, k);
    }
    if x % P == y % P {
      Shifted(x, y, x / P - y / P);
    }
  }

  lemma ResidueShifted(x: int, y: int, k: int)
    requires x == y + k * P
    ensures x % P == y % P
  {
  }

  lemma Reflexive(x: int)
    ensures Congruent(x, x)
  {
    Shifted(x, x, 0);
  }

  lemma Symmetric(x: int, y: int)
    requires Congruent(x, y)
    ensures Congruent(y, x)
  {
    var k := Witness(x, y);
    Shifted(y, x, -k);
  }

  lemma Transitive(x: int, y: int, z: int)
    requires Congruent(x, y) && Congruent(y, z)
    ensures Congruent(x, z)
  {
    var j := Witness(x, y);
    var k := Witness(y, z);
    Shifted(x, z, j + k);
  }

  lemma CongruentSum(a: int, b: int, c: int, d: int)
    requires Congruent(a, b) && Congruent(c, d)
    ensures Congruent(a + c, b + d)
  {
    var j := Witness(a, b);
    var k := Witness(c, d);
    Shifted(a + c, b + d, j + k);
  }

  lemma CongruentScaled(a: int, b: int, c: int)
    requires Congruent(a, b)
    ensures Congruent(a * c, b * c)
  {
    var k := Witness(a, b);
    ScaledWitness(a, b, c, k);
    Shifted(a * c, b * c, k * c);
  }

  lemma ScaledWitness(a: int, b: int, c: int, k: int)
    requires a == b + k * P
    ensures a * c == b * c + (k * c) * P
  {
  }

  lemma CongruentProduct(a: int, b: int, c: int, d: int)
    requires Congruent(a, b) && Congruent(c, d)
    ensures Congruent(a * c, b * d)
  {
    CongruentScaled(a, b, c);
    CongruentScaled(c, d, b);
    Transitive(a * c, b * c, b * d);
  }

  lemma Reduced(x: int)
    ensures Congruent(x % P, x)
  {
    Shifted(x % P, x, -(x / P));
  }

  // The function of section 2.5.1

  /** Section 2.5: the top four bits of bytes 3, 7, 11 and 15 are cleared, and the
      bottom two of bytes 4, 8 and 12. */
  function ClampByte(b: nat, i: nat): (c: nat)
    ensures c <= b
  {
    if i % 4 == 3 then b % 0x10
    else if i % 4 == 0 && i != 0 then b - b % 4
    else b
  }

  function Clamp(k: seq<byte>): (c: seq<byte>)
    requires |k| == 16
    ensures |c| == 16
  {
    seq(16, i requires 0 <= i < 16 => ClampByte(k[i], i))
  }

  function R(key: Key): nat {
    LittleEndian(Clamp(key[..16]))
  }

  lemma ClampedValue(key: Key)
    ensures R(key)
         == Word(key[0], key[1], key[2], key[3] % 16)
            + 0x1_0000_0000 * Word(key[4] - key[4] % 4, key[5], key[6], key[7] % 16)
            + 0x1_0000_0000_0000_0000 * Word(key[8] - key[8] % 4, key[9], key[10], key[11] % 16)
            + 0x1_0000_0000_0000_0000_0000_0000 * Word(key[12] - key[12] % 4, key[13], key[14], key[15] % 16)
  {
    SixteenBytes(Clamp(key[..16]));
  }

  function S(key: Key): nat {
    LittleEndian(key[16..])
  }

  /** The accumulator `a` after the blocks of `msg`; the last one may be short. */
  function Accumulate(r: nat, a: nat, msg: seq<byte>): nat
    decreases |msg|
  {
    if |msg| == 0 then a
    else if |msg| <= 16 then ((a + LittleEndian(msg + [1])) * r) % P
    else Accumulate(r, ((a + LittleEndian(msg[..16] + [1])) * r) % P, msg[16..])
  }

  function Tag(key: Key, msg: seq<byte>): (mac: seq<byte>)
    ensures |mac| == 16
  {
    TagFor(R(key), S(key), msg)
  }

  function TagFor(r: nat, s: nat, msg: seq<byte>): (mac: seq<byte>)
    ensures |mac| == 16
  {
    ToBytes((Accumulate(r, 0, msg) + s) % TWO128, 16)
  }

  /** A message given in chunks. */
  function Concat(chunks: seq<seq<byte>>): (m: seq<byte>) {
    if |chunks| == 0 then [] else Concat(chunks[..|chunks| - 1]) + chunks[|chunks| - 1]
  }

  // The same accumulator, in the form the implementations build it: whole blocks first,
  // then a padded rest. The product is kept behind repeated addition.

  function Times(x: nat, r: nat): (p: nat)
    decreases x
  {
    if x == 0 then 0 else (Times(x - 1, r) + r) % P
  }

  lemma {:induction false} TimesIsProduct(x: nat, r: nat)
    ensures Times(x, r) == (x * r) % P
  {
    if x != 0 {
      TimesIsProduct(x - 1, r);
      assert x * r == (x - 1) * r + r;
      Reduced((x - 1) * r);
      Reflexive(r);
      CongruentSum(((x - 1) * r) % P, (x - 1) * r, r, r);
      SameResidue(((x - 1) * r) % P + r, x * r);
    }
  }

  /** One block of the polynomial: `top` is what the padding adds above the block. */
  function Step(r: nat, a: nat, block: seq<byte>, top: nat): nat {
    Times(a + LittleEndian(block) + top, r)
  }

  /** A step on representatives is a step on residues. */
  lemma StepCongruent(r: nat, h: nat, n: nat, product: nat)
    requires Congruent((h + n) * r, product)
    ensures product % P == Times(h % P + n, r)
  {
    Reduced(h);
    Reflexive(n);
    CongruentSum(h % P, h, n, n);
    CongruentScaled(h % P + n, h + n, r);
    Transitive((h % P + n) * r, (h + n) * r, product);
    SameResidue((h % P + n) * r, product);
    TimesIsProduct(h % P + n, r);
  }

  /** Whole blocks only, each with the same `top`; a short rest is ignored. */
  function Absorb(r: nat, a: nat, m: seq<byte>, top: nat): nat
    decreases |m|
  {
    if |m| < 16 then a else Absorb(r, Step(r, a, m[..16], top), m[16..], top)
  }

  function Padded(tail: seq<byte>): (block: seq<byte>)
    requires |tail| < 16
    ensures |block| == 16
  {
    tail + [1] + seq(15 - |tail|, i => 0)
  }

  function Digest(r: nat, a: nat, msg: seq<byte>): nat {
    var w := |msg| - |msg| % 16;
    DigestFrom(r, Absorb(r, a, msg[..w], TWO128), msg[w..])
  }

  function DigestFrom(r: nat, a: nat, tail: seq<byte>): nat
    requires |tail| < 16
  {
    if |tail| == 0 then a else Step(r, a, Padded(tail), 0)
  }

  function DigestTag(r: nat, s: nat, msg: seq<byte>): (mac: seq<byte>)
    ensures |mac| == 16
  {
    ToBytes((Digest(r, 0, msg) + s) % TWO128, 16)
  }

  lemma PaddedBlock(block: seq<byte>)
    requires |block| == 16
    ensures LittleEndian(block + [1]) == LittleEndian(block) + TWO128
  {
    LittleEndianAppend(block, [1]);
    assert LittleEndian([1]) == 1;
    Pow2At128();
  }

  /** Zero padding after the marker byte does not change the number. */
  lemma PaddedTail(tail: seq<byte>)
    requires |tail| < 16
    ensures LittleEndian(Padded(tail)) == LittleEndian(tail + [1])
  {
    ZerosAbove(tail + [1], 15 - |tail|);
  }

  lemma ZerosAbove(x: seq<byte>, n: nat)
    ensures LittleEndian(x + seq(n, i => 0)) == LittleEndian(x)
  {
    LittleEndianAppend(x, seq(n, i => 0));
    LittleEndianZeros(n);
  }

  lemma {:induction false} AbsorbAppend(r: nat, a: nat, x: seq<byte>, y: seq<byte>, top: nat)
    requires |x| % 16 == 0
    ensures Absorb(r, a, x + y, top) == Absorb(r, Absorb(r, a, x, top), y, top)
    decreases |x|
  {
    if |x| == 0 {
      assert x + y == y;
    } else {
      assert (x + y)[..16] == x[..16] && (x + y)[16..] == x[16..] + y;
      AbsorbAppend(r, Step(r, a, x[..16], top), x[16..], y, top);
    }
  }

  /** Whole blocks and a padded rest are exactly the blocks of section 2.5.1. */
  lemma {:induction false} AccumulateWhole(r: nat, a: nat, x: seq<byte>, y: seq<byte>)
    requires |x| % 16 == 0 && |y| < 16
    ensures Accumulate(r, a, x + y) == DigestFrom(r, Absorb(r, a, x, TWO128), y)
    decreases |x|
  {
    if |x| == 0 {
      assert x + y == y;
      if |y| != 0 {
        PaddedTail(y);
        TimesIsProduct(a + LittleEndian(y + [1]), r);
      }
    } else {
      PaddedBlock(x[..16]);
      TimesIsProduct(a + LittleEndian(x[..16]) + TWO128, r);
      assert (x + y)[..16] == x[..16] && (x + y)[16..] == x[16..] + y;
      AccumulateFirst(r, a, x + y);
      AccumulateWhole(r, Step(r, a, x[..16], TWO128), x[16..], y);
    }
  }

  lemma AccumulateFirst(r: nat, a: nat, msg: seq<byte>)
    requires |msg| >= 16
    ensures Accumulate(r, a, msg) == Accumulate(r, ((a + LittleEndian(msg[..16] + [1])) * r) % P, msg[16..])
  {
    assert |msg| == 16 ==> msg[..16] == msg;
  }

  lemma DigestWhole(r: nat, a: nat, msg: seq<byte>, w: nat)
    requires w <= |msg| && w % 16 == 0 && |msg| - w < 16
    ensures Digest(r, a, msg) == DigestFrom(r, Absorb(r, a, msg[..w], TWO128), msg[w..])
  {
    assert |msg| % 16 == |msg| - w;
  }

  /** Whole blocks can be taken off the front. */
  lemma DigestSplit(r: nat, a: nat, x: seq<byte>, y: seq<byte>)
    requires |x| % 16 == 0
    ensures Digest(r, a, x + y) == Digest(r, Absorb(r, a, x, TWO128), y)
  {
    var w := |y| - |y| % 16;
    DigestWhole(r, a, x + y, |x| + w);
    SplitAt(x, y, w);
    AbsorbAppend(r, a, x, y[..w], TWO128);
  }

  lemma SplitAt(x: seq<byte>, y: seq<byte>, w: nat)
    requires w <= |y|
    ensures (x + y)[..|x| + w] == x + y[..w] && (x + y)[|x| + w..] == y[w..]
  {
  }

  /** A buffer that holds the last `left` bytes of a message holds the last `left + |m|` of the
      longer one once m is put behind them. */
  lemma Kept(message: seq<byte>, m: seq<byte>, left: nat)
    requires left <= |message|
    ensures (message + m)[..|message| - left] == message[..|message| - left]
    ensures (message + m)[|message| - left..] == message[|message| - left..] + m
  {
  }

  lemma WholeSum(x: seq<byte>, y: seq<byte>)
    requires |x| % 16 == 0 && |y| % 16 == 0
    ensures |x + y| % 16 == 0
  {
  }

  lemma AbsorbOne(r: nat, a: nat, block: seq<byte>, top: nat)
    requires |block| == 16
    ensures Absorb(r, a, block, top) == Step(r, a, block, top)
  {
    assert block[..16] == block && block[16..] == [];
  }

  lemma AbsorbFirst(r: nat, a: nat, m: seq<byte>, top: nat)
    requires |m| >= 16
    ensures Absorb(r, a, m, top) == Absorb(r, Step(r, a, m[..16], top), m[16..], top)
  {
  }

  /** What the implementations compute is the tag of section 2.5.1. */
  lemma DigestTagIsTag(r: nat, s: nat, msg: seq<byte>)
    ensures DigestTag(r, s, msg) == TagFor(r, s, msg)
  {
    var w := |msg| - |msg| % 16;
    assert msg == msg[..w] + msg[w..];
    AccumulateWhole(r, 0, msg[..w], msg[w..]);
  }

  lemma SumModulo(v: nat, s: nat)
    ensures (v % TWO128 + s) % TWO128 == (v + s) % TWO128
  {
  }
}
