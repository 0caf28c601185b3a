/**
 Poly1305 in five limbs of 26 bits, the streaming context `poly1305_ctx`.
 Every 32-bit and 64-bit operation wraps as it does in C; the lemmas show that in
 every reachable state nothing is lost, that the limbs stand for the accumulator of
 RFC 8439 modulo 2^130 - 5, and that the final tag is the one the RFC defines.
 */
module Poly1305Limbs26 {
  import opened Bits
  import opened Endian
  import opened Poly1305Spec

  const B: nat := 0x400_0000
  const B2: nat := 0x10_0000_0000_0000
  const B3: nat := 0x4000_0000_0000_0000_0000
  const B4: nat := 0x100_0000_0000_0000_0000_0000_0000

  const ONES32: nat := 0xFFFF_FFFF
  const W1: nat := 0x1_0000_0000
  const W2: nat := 0x1_0000_0000_0000_0000
  const W3: nat := 0x1_0000_0000_0000_0000_0000_0000

  const MAXTOP: nat := 5 * 0x800_0040 + 50
  const MAXC: nat := 25 * 0x800_0040 + 50
  const ROW: nat := 5 * (0x800_0040 * 0x400_0000)
  const ROW5: nat := 5 * (0x800_0040 * (5 * 0x400_0000))

  datatype Limbs = Limbs(l0: nat, l1: nat, l2: nat, l3: nat, l4: nat) {
    ghost function Value(): nat {
      l0 + B * l1 + B2 * l2 + B3 * l3 + B4 * l4
    }

    /** What `poly1305_blocks` leaves behind, and what it may be started from. */
    ghost predicate Carried() {
      l0 < B && l1 < B + 0x40 && l2 < B && l3 < B && l4 < B
    }

    ghost predicate Multiplicand() {
      l0 < 2 * B && l1 < 2 * B + 0x40 && l2 < 2 * B && l3 < 2 * B && l4 < 2 * B
    }

    ghost predicate Canonical() {
      l0 < B && l1 < B && l2 < B && l3 < B && l4 < B
    }
  }

  const ZERO: Limbs := Limbs(0, 0, 0, 0, 0)

  // Loading a block and the key

  function LoadBlock(m: seq<byte>, hibit: nat): (b: Limbs)
    requires |m| == 16 && (hibit == 0 || hibit == 0x100_0000)
  {
    OrHibit(Load32(m, 12) / 0x100, hibit);
    Limbs(Load32(m, 0) % B, (Load32(m, 3) / 4) % B, (Load32(m, 6) / 16) % B,
          (Load32(m, 9) / 64) % B, Or(Load32(m, 12) / 0x100, hibit))
  }

  lemma OrHibit(w: nat, hibit: nat)
    requires w < 0x100_0000 && (hibit == 0 || hibit == 0x100_0000)
    ensures Or(w, hibit) == w + hibit
  {
    Pow2Values();
    OrDisjoint(w, 1, 24);
  }

  /** The five overlapping loads cut the sixteen bytes into 26-bit limbs. */
  lemma LoadBlockValue(m: seq<byte>, hibit: nat)
    requires |m| == 16 && (hibit == 0 || hibit == 0x100_0000)
    ensures var b := LoadBlock(m, hibit);
            && b.Value() == LittleEndian(m) + B4 * hibit
            && b.l0 < B && b.l1 < B && b.l2 < B && b.l3 < B && b.l4 < 0x200_0000
  {
    SixteenBytes(m);
    OrHibit(Load32(m, 12) / 0x100, hibit);
    Cuts(m[0], m[1], m[2], m[3], m[4], m[5], m[6], m[7], m[8], m[9], m[10], m[11], m[12], m[13], m[14], m[15]);
  }

  lemma Cuts(b0: nat, b1: nat, b2: nat, b3: nat, b4: nat, b5: nat, b6: nat, b7: nat,
             b8: nat, b9: nat, b10: nat, b11: nat, b12: nat, b13: nat, b14: nat, b15: nat)
    requires b0 < 0x100 && b1 < 0x100 && b2 < 0x100 && b3 < 0x100 && b4 < 0x100 && b5 < 0x100 && b6 < 0x100
      && b7 < 0x100
    requires b8 < 0x100 && b9 < 0x100 && b10 < 0x100 && b11 < 0x100 && b12 < 0x100 && b13 < 0x100 && b14 < 0x100
      && b15 < 0x100
    ensures Word(b0, b1, b2, b3) % B + B * ((Word(b3, b4, b5, b6) / 4) % B) + B2 * ((Word(b6, b7, b8, b9) / 16) % B)
            + B3 * ((Word(b9, b10, b11, b12) / 64) % B) + B4 * (Word(b12, b13, b14, b15) / 0x100)
         == Word(b0, b1, b2, b3) + 0x1_0000_0000 * Word(b4, b5, b6, b7)
            + 0x1_0000_0000_0000_0000 * Word(b8, b9, b10, b11)
            + 0x1_0000_0000_0000_0000_0000_0000 * Word(b12, b13, b14, b15)
    ensures Word(b12, b13, b14, b15) / 0x100 < 0x100_0000
  {
    CutLimb0(b0, b1, b2, b3);
    CutLimb1(b3, b4, b5, b6);
    CutLimb2(b6, b7, b8, b9);
    CutLimb3(b9, b10, b11, b12);
    CutLimb4(b12, b13, b14, b15);
    CutsSum(b0, b1, b2, b3 / 4, b3 % 4, b4, b5, b6 / 16, b6 % 16, b7, b8, b9 / 64, b9 % 64, b10, b11, b12, b13, b14,
      b15);
  }

  lemma CutsSum(b0: nat, b1: nat, b2: nat, q3: nat, r3: nat, b4: nat, b5: nat, q6: nat, r6: nat, b7: nat,
                b8: nat, q9: nat, r9: nat, b10: nat, b11: nat, b12: nat, b13: nat, b14: nat, b15: nat)
    ensures (b0 + 0x100 * b1 + 0x1_0000 * b2 + 0x100_0000 * r3) + B * (q3 + 0x40 * b4 + 0x4000 * b5 + 0x40_0000 * r6)
            + B2 * (q6 + 0x10 * b7 + 0x1000 * b8 + 0x10_0000 * r9)
            + B3 * (q9 + 0x4 * b10 + 0x400 * b11 + 0x4_0000 * b12)
            + B4 * (b13 + 0x100 * b14 + 0x1_0000 * b15)
         == Word(b0, b1, b2, 4 * q3 + r3) + 0x1_0000_0000 * Word(b4, b5, 16 * q6 + r6, b7)
            + 0x1_0000_0000_0000_0000 * Word(b8, 64 * q9 + r9, b10, b11)
            + 0x1_0000_0000_0000_0000_0000_0000 * Word(b12, b13, b14, b15)
  {
  }

  lemma CutLimb0(a: nat, b: nat, c: nat, d: nat)
    requires a < 0x100 && b < 0x100 && c < 0x100 && d < 0x100
    ensures Word(a, b, c, d) % B == a + 0x100 * b + 0x1_0000 * c + 0x100_0000 * (d % 4)
  {
  }

  lemma CutLimb1(a: nat, b: nat, c: nat, d: nat)
    requires a < 0x100 && b < 0x100 && c < 0x100 && d < 0x100
    ensures (Word(a, b, c, d) / 4) % B == a / 4 + 0x40 * b + 0x4000 * c + 0x40_0000 * (d % 16)
  {
    var x := a / 4 + 0x40 * b + 0x4000 * c + 0x40_0000 * d;
    Quotient(Word(a, b, c, d), a % 4, x, 4);
    Quotient(x, a / 4 + 0x40 * b + 0x4000 * c + 0x40_0000 * (d % 16), d / 16, B);
  }

  lemma CutLimb2(a: nat, b: nat, c: nat, d: nat)
    requires a < 0x100 && b < 0x100 && c < 0x100 && d < 0x100
    ensures (Word(a, b, c, d) / 16) % B == a / 16 + 0x10 * b + 0x1000 * c + 0x10_0000 * (d % 64)
  {
    var x := a / 16 + 0x10 * b + 0x1000 * c + 0x10_0000 * d;
    Quotient(Word(a, b, c, d), a % 16, x, 16);
    Quotient(x, a / 16 + 0x10 * b + 0x1000 * c + 0x10_0000 * (d % 64), d / 64, B);
  }

  lemma CutLimb3(a: nat, b: nat, c: nat, d: nat)
    requires a < 0x100 && b < 0x100 && c < 0x100 && d < 0x100
    ensures (Word(a, b, c, d) / 64) % B == a / 64 + 0x4 * b + 0x400 * c + 0x4_0000 * d
  {
    var q := a / 64 + 0x4 * b + 0x400 * c + 0x4_0000 * d;
    assert Word(a, b, c, d) == 64 * q + a % 64 && q < B;
  }

  lemma CutLimb4(a: nat, b: nat, c: nat, d: nat)
    requires a < 0x100 && b < 0x100 && c < 0x100 && d < 0x100
    ensures Word(a, b, c, d) / 0x100 == b + 0x100 * c + 0x1_0000 * d
  {
  }

  /** Clamping limb by limb is clamping the key bytes. */
  method LoadKey(key: Key) returns (r: Limbs)
    ensures r.Canonical()
    ensures r.Value() == R(key)
  {
    var l0 := KeyLimb0(key[0], key[1], key[2], key[3]);
    var l1 := KeyLimb1(key[3], key[4], key[5], key[6]);
    var l2 := KeyLimb2(key[6], key[7], key[8], key[9]);
    var l3 := KeyLimb3(key[9], key[10], key[11], key[12]);
    var l4 := KeyLimb4(key[12], key[13], key[14], key[15]);
    r := Limbs(l0, l1, l2, l3, l4);
    ClampedValue(key);
    CutsSum(key[0], key[1], key[2], (key[3] % 16) / 4, (key[3] % 16) % 4, key[4] - key[4] % 4, key[5],
            key[6] / 16, key[6] % 16, key[7] % 16, key[8] - key[8] % 4, key[9] / 64, key[9] % 64,
            key[10], key[11] % 16, key[12] - key[12] % 4, key[13], key[14], key[15] % 16);
  }

  method KeyLimb0(a: nat, b: nat, c: nat, d: nat) returns (l: nat)
    requires a < 0x100 && b < 0x100 && c < 0x100 && d < 0x100
    ensures l == a + 0x100 * b + 0x1_0000 * c + 0x100_0000 * (ClampByte(d, 3) % 4)
  {
    Pow2Values();
    l := MaskLow(Word(a, b, c, d), 0x3FF_FFFF, 26);
    CutLimb0(a, b, c, d);
  }

  method KeyLimb1(a: nat, b: nat, c: nat, d: nat) returns (l: nat)
    requires a < 0x100 && b < 0x100 && c < 0x100 && d < 0x100
    ensures l == ClampByte(a, 3) / 4 + 0x40 * ClampByte(b, 4) + 0x4000 * c + 0x40_0000 * (d % 16)
  {
    Pow2Values();
    l := MaskTwoFields(Word(a, b, c, d) / 4, 0x3FF_FF03, 2, 8, 18, 4, 0x100, 0x4_0000);
    Fields1(a, b, c, d, Word(a, b, c, d) / 4);
  }

  method KeyLimb2(a: nat, b: nat, c: nat, d: nat) returns (l: nat)
    requires a < 0x100 && b < 0x100 && c < 0x100 && d < 0x100
    ensures l == a / 16 + 0x10 * ClampByte(b, 7) + 0x1000 * ClampByte(c, 8) + 0x10_0000 * (d % 64)
  {
    Pow2Values();
    l := MaskTwoFields(Word(a, b, c, d) / 16, 0x3FF_C0FF, 8, 14, 12, 0x100, 0x4000, 0x1000);
    Fields2(a, b, c, d, Word(a, b, c, d) / 16);
  }

  method KeyLimb3(a: nat, b: nat, c: nat, d: nat) returns (l: nat)
    requires a < 0x100 && b < 0x100 && c < 0x100 && d < 0x100
    ensures l == a / 64 + 0x4 * b + 0x400 * ClampByte(c, 11) + 0x4_0000 * ClampByte(d, 12)
  {
    Pow2Values();
    l := MaskTwoFields(Word(a, b, c, d) / 64, 0x3F0_3FFF, 14, 20, 6, 0x4000, 0x10_0000, 0x40);
    Fields3(a, b, c, d, Word(a, b, c, d) / 64);
  }

  method KeyLimb4(a: nat, b: nat, c: nat, d: nat) returns (l: nat)
    requires a < 0x100 && b < 0x100 && c < 0x100 && d < 0x100
    ensures l == b + 0x100 * c + 0x1_0000 * ClampByte(d, 15)
  {
    Pow2Values();
    l := MaskLow(Word(a, b, c, d) / 0x100, 0xF_FFFF, 20);
    Fields4(a, b, c, d, Word(a, b, c, d) / 0x100);
  }

  lemma Fields1(a: nat, b: nat, c: nat, d: nat, x: nat)
    requires a < 0x100 && b < 0x100 && c < 0x100 && d < 0x100 && x == Word(a, b, c, d) / 4
    ensures (x % 0x100) % 4 + ((x / 0x100) % 0x4_0000) * 0x100
         == ClampByte(a, 3) / 4 + 0x40 * ClampByte(b, 4) + 0x4000 * c + 0x40_0000 * (d % 16)
  {
    var lo, hi := a / 4 + 0x40 * (b % 4), b / 4 + 0x40 * c + 0x4000 * d;
    Quotient(Word(a, b, c, d), a % 4, lo + 0x100 * hi, 4);
    Quotient(x, lo, hi, 0x100);
    Quotient(lo, (a / 4) % 4, (a / 16) + 0x10 * (b % 4), 4);
    Quotient(hi, b / 4 + 0x40 * c + 0x4000 * (d % 16), d / 16, 0x4_0000);
  }

  lemma Fields2(a: nat, b: nat, c: nat, d: nat, x: nat)
    requires a < 0x100 && b < 0x100 && c < 0x100 && d < 0x100 && x == Word(a, b, c, d) / 16
    ensures (x % 0x4000) % 0x100 + ((x / 0x4000) % 0x1000) * 0x4000
         == a / 16 + 0x10 * ClampByte(b, 7) + 0x1000 * ClampByte(c, 8) + 0x10_0000 * (d % 64)
  {
    var lo, hi := a / 16 + 0x10 * b + 0x1000 * (c % 4), c / 4 + 0x40 * d;
    Quotient(Word(a, b, c, d), a % 16, lo + 0x4000 * hi, 16);
    Quotient(x, lo, hi, 0x4000);
    Quotient(lo, a / 16 + 0x10 * (b % 0x10), b / 16 + 0x10 * (c % 4), 0x100);
    Quotient(hi, c / 4 + 0x40 * (d % 64), d / 64, 0x1000);
  }

  lemma Fields3(a: nat, b: nat, c: nat, d: nat, x: nat)
    requires a < 0x100 && b < 0x100 && c < 0x100 && d < 0x100 && x == Word(a, b, c, d) / 64
    ensures (x % 0x10_0000) % 0x4000 + ((x / 0x10_0000) % 0x40) * 0x10_0000
         == a / 64 + 0x4 * b + 0x400 * ClampByte(c, 11) + 0x4_0000 * ClampByte(d, 12)
  {
    var lo, hi := a / 64 + 0x4 * b + 0x400 * c + 0x4_0000 * (d % 4), d / 4;
    Quotient(Word(a, b, c, d), a % 64, lo + 0x10_0000 * hi, 64);
    Quotient(x, lo, hi, 0x10_0000);
    Quotient(lo, a / 64 + 0x4 * b + 0x400 * (c % 0x10), c / 16 + 0x10 * (d % 4), 0x4000);
  }

  lemma Fields4(a: nat, b: nat, c: nat, d: nat, x: nat)
    requires a < 0x100 && b < 0x100 && c < 0x100 && d < 0x100 && x == Word(a, b, c, d) / 0x100
    ensures x % 0x10_0000 == b + 0x100 * c + 0x1_0000 * ClampByte(d, 15)
  {
    Quotient(Word(a, b, c, d), a, b + 0x100 * c + 0x1_0000 * d, 0x100);
    Quotient(x, b + 0x100 * c + 0x1_0000 * (d % 16), d / 16, 0x10_0000);
  }

  lemma LoadPadValue(key: Key)
    ensures Load32(key, 16) + W1 * Load32(key, 20) + W2 * Load32(key, 24) + W3 * Load32(key, 28) == S(key)
  {
    SixteenBytes(key[16..]);
  }

  // One block: add, multiply by r, carry

  function Row(a0: nat, b0: nat, a1: nat, b1: nat, a2: nat, b2: nat, a3: nat, b3: nat, a4: nat, b4: nat): (d: nat) {
    a0 * b0 + a1 * b1 + a2 * b2 + a3 * b3 + a4 * b4
  }

  /** `d += c; c = (uint32_t)(d >> 26); h = (uint32_t)d & 0x3ffffff`: no bit of the sum or
      of the carry is lost as long as the carry comes from a row of five products. */
  method CarryStep(d: nat, c: nat) returns (q: nat, x: nat)
    requires d <= ROW5 && c <= MAXC
    ensures d + c == q * B + x && q <= MAXC && x < B
    ensures d <= ROW ==> q <= MAXTOP
  {
    var sum := Wrap64(d + c);
    q := Wrap32(sum / B);
    x := sum % B;
  }

  /** The delayed carry loses nothing, and takes off a multiple of P. */
  method Carry(d0: nat, d1: nat, d2: nat, d3: nat, d4: nat) returns (h: Limbs)
    requires d0 <= ROW5 && d1 <= ROW5 && d2 <= ROW5 && d3 <= ROW5 && d4 <= ROW
    ensures h.Carried()
    ensures Congruent(d0 + B * d1 + B2 * d2 + B3 * d3 + B4 * d4, h.Value())
  {
    var c0, x0 := CarryStep(d0, 0);
    var c1, x1 := CarryStep(d1, c0);
    var c2, x2 := CarryStep(d2, c1);
    var c3, x3 := CarryStep(d3, c2);
    var c4, x4 := CarryStep(d4, c3);
    var h0 := Wrap32(x0 + Wrap32(c4 * 5));
    h := Limbs(h0 % B, Wrap32(x1 + h0 / B), x2, x3, x4);
    CarrySum(c0, c1, c2, c3, c4, h0 / B, x0, x1, x2, x3, x4, h0 % B);
    Shifted(d0 + B * d1 + B2 * d2 + B3 * d3 + B4 * d4, h.Value(), c4);
  }

  lemma CarrySum(c0: nat, c1: nat, c2: nat, c3: nat, c4: nat, c: nat,
                 x0: nat, x1: nat, x2: nat, x3: nat, x4: nat, y0: nat)
    requires x0 + 5 * c4 == c * B + y0
    ensures (c0 * B + x0) + B * (c1 * B + x1 - c0) + B2 * (c2 * B + x2 - c1) + B3 * (c3 * B + x3 - c2)
            + B4 * (c4 * B + x4 - c3)
         == y0 + B * (x1 + c) + B2 * x2 + B3 * x3 + B4 * x4 + c4 * P
  {
  }

  /** Twenty-five products and a delayed carry: multiplication modulo P. */
  method Multiply(h: Limbs, r: Limbs) returns (p: Limbs)
    requires h.Multiplicand() && r.Canonical()
    ensures p.Carried()
    ensures Congruent(h.Value() * r.Value(), p.Value())
  {
    var d0, d1, d2, d3, d4 := Rows(h, r);
    p := Carry(d0, d1, d2, d3, d4);
    Transitive(h.Value() * r.Value(), d0 + B * d1 + B2 * d2 + B3 * d3 + B4 * d4, p.Value());
  }

  method Rows(h: Limbs, r: Limbs) returns (d0: nat, d1: nat, d2: nat, d3: nat, d4: nat)
    requires h.Multiplicand() && r.Canonical()
    ensures d0 <= ROW5 && d1 <= ROW5 && d2 <= ROW5 && d3 <= ROW5 && d4 <= ROW
    ensures Congruent(h.Value() * r.Value(), d0 + B * d1 + B2 * d2 + B3 * d3 + B4 * d4)
  {
    var s1, s2, s3, s4 := Wrap32(r.l1 * 5), Wrap32(r.l2 * 5), Wrap32(r.l3 * 5), Wrap32(r.l4 * 5);
    d0 := RowOf(h, r.l0, s4, s3, s2, s1, 5 * B);
    d1 := RowOf(h, r.l1, r.l0, s4, s3, s2, 5 * B);
    d2 := RowOf(h, r.l2, r.l1, r.l0, s4, s3, 5 * B);
    d3 := RowOf(h, r.l3, r.l2, r.l1, r.l0, s4, 5 * B);
    d4 := RowOf(h, r.l4, r.l3, r.l2, r.l1, r.l0, B);
    ProductRows(h, r, d0, d1, d2, d3, d4);
    Shifted(h.Value() * r.Value(), d0 + B * d1 + B2 * d2 + B3 * d3 + B4 * d4, Over(h, r));
  }

  lemma ProductRows(h: Limbs, r: Limbs, d0: nat, d1: nat, d2: nat, d3: nat, d4: nat)
    requires d0 == Row(h.l0, r.l0, h.l1, 5 * r.l4, h.l2, 5 * r.l3, h.l3, 5 * r.l2, h.l4, 5 * r.l1)
    requires d1 == Row(h.l0, r.l1, h.l1, r.l0, h.l2, 5 * r.l4, h.l3, 5 * r.l3, h.l4, 5 * r.l2)
    requires d2 == Row(h.l0, r.l2, h.l1, r.l1, h.l2, r.l0, h.l3, 5 * r.l4, h.l4, 5 * r.l3)
    requires d3 == Row(h.l0, r.l3, h.l1, r.l2, h.l2, r.l1, h.l3, r.l0, h.l4, 5 * r.l4)
    requires d4 == Row(h.l0, r.l4, h.l1, r.l3, h.l2, r.l2, h.l3, r.l1, h.l4, r.l0)
    ensures h.Value() * r.Value() == d0 + B * d1 + B2 * d2 + B3 * d3 + B4 * d4 + Over(h, r) * P
  {
    ProductIdentity(h.l0, h.l1, h.l2, h.l3, h.l4, r.l0, r.l1, r.l2, r.l3, r.l4);
    Powers(h.l0, h.l1, h.l2, h.l3, h.l4);
    Powers(r.l0, r.l1, r.l2, r.l3, r.l4);
    Powers(d0, d1, d2, d3, d4);
  }

  /** What the products of weight 2^130 and more amount to, in units of 2^130. */
  ghost function Over(h: Limbs, r: Limbs): int {
    (h.l1 * r.l4 + h.l2 * r.l3 + h.l3 * r.l2 + h.l4 * r.l1) + B * (h.l2 * r.l4 + h.l3 * r.l3 + h.l4 * r.l2)
    + B * B * (h.l3 * r.l4 + h.l4 * r.l3) + B * B * B * (h.l4 * r.l4)
  }

  lemma Powers(x0: int, x1: int, x2: int, x3: int, x4: int)
    ensures x0 + B * x1 + B2 * x2 + B3 * x3 + B4 * x4
         == x0 + B * x1 + B * B * x2 + B * B * B * x3 + B * B * B * B * x4
  {
  }

  /** One row of the product in 64 bits: it does not wrap. */
  method RowOf(h: Limbs, b0: nat, b1: nat, b2: nat, b3: nat, b4: nat, ghost v: nat) returns (d: nat)
    requires h.Multiplicand() && b0 <= v && b1 <= v && b2 <= v && b3 <= v && b4 <= v && v <= 5 * B
    ensures d == Row(h.l0, b0, h.l1, b1, h.l2, b2, h.l3, b3, h.l4, b4)
    ensures d <= 5 * (0x800_0040 * v)
  {
    ProductBound(h.l0, b0, v);
    ProductBound(h.l1, b1, v);
    ProductBound(h.l2, b2, v);
    ProductBound(h.l3, b3, v);
    ProductBound(h.l4, b4, v);
    d := Wrap64(Row(h.l0, b0, h.l1, b1, h.l2, b2, h.l3, b3, h.l4, b4));
  }

  lemma ProductBound(a: nat, b: nat, v: nat)
    requires a <= 0x800_0040 && b <= v
    ensures a * b <= 0x800_0040 * v
  {
    assert a * b <= a * v;
    assert a * v <= 0x800_0040 * v;
  }

  /** Every product of weight 2^130 or more comes back five times, 130 bits lower. */
  lemma ProductIdentity(h0: int, h1: int, h2: int, h3: int, h4: int, r0: int, r1: int, r2: int, r3: int, r4: int)
    ensures (h0 + B * h1 + B * B * h2 + B * B * B * h3 + B * B * B * B * h4)
            * (r0 + B * r1 + B * B * r2 + B * B * B * r3 + B * B * B * B * r4)
         == (h0 * r0 + h1 * (5 * r4) + h2 * (5 * r3) + h3 * (5 * r2) + h4 * (5 * r1))
            + B * (h0 * r1 + h1 * r0 + h2 * (5 * r4) + h3 * (5 * r3) + h4 * (5 * r2))
            + B * B * (h0 * r2 + h1 * r1 + h2 * r0 + h3 * (5 * r4) + h4 * (5 * r3))
            + B * B * B * (h0 * r3 + h1 * r2 + h2 * r1 + h3 * r0 + h4 * (5 * r4))
            + B * B * B * B * (h0 * r4 + h1 * r3 + h2 * r2 + h3 * r1 + h4 * r0)
            + P * ((h1 * r4 + h2 * r3 + h3 * r2 + h4 * r1) + B * (h2 * r4 + h3 * r3 + h4 * r2)
                   + B * B * (h3 * r4 + h4 * r3) + B * B * B * (h4 * r4))
  {
  }

  function AddLimbs(h: Limbs, b: Limbs): (s: Limbs) {
    Limbs(Wrap32(h.l0 + b.l0), Wrap32(h.l1 + b.l1), Wrap32(h.l2 + b.l2), Wrap32(h.l3 + b.l3), Wrap32(h.l4 + b.l4))
  }

  /** One turn of the loop in `poly1305_blocks`. */
  method Block(h: Limbs, r: Limbs, m: seq<byte>, hibit: nat) returns (h': Limbs)
    requires |m| == 16 && (hibit == 0 || hibit == 0x100_0000)
    requires h.Carried() && r.Canonical()
    ensures h'.Carried()
    ensures h'.Value() % P == Step(r.Value(), h.Value() % P, m, B4 * hibit)
  {
    var s := AddBlock(h, m, hibit);
    h' := Multiply(s, r);
    StepCongruent(r.Value(), h.Value(), LittleEndian(m) + B4 * hibit, h'.Value());
  }

  method AddBlock(h: Limbs, m: seq<byte>, hibit: nat) returns (s: Limbs)
    requires |m| == 16 && (hibit == 0 || hibit == 0x100_0000) && h.Carried()
    ensures s.Multiplicand()
    ensures s.Value() == h.Value() + LittleEndian(m) + B4 * hibit
  {
    LoadBlockValue(m, hibit);
    s := AddLimbs(h, LoadBlock(m, hibit));
  }

  // The tag

  /** One carry pass is enough: if it wraps round to the bottom limb, the second limb
      had just been emptied, so that it cannot overflow again. */
  method FullCarry(h: Limbs) returns (f: Limbs)
    requires h.Carried()
    ensures f.Canonical()
    ensures Congruent(h.Value(), f.Value())
  {
    var c1, h1 := Ripple(h.l1, 0);
    var c2, h2 := Ripple(h.l2, c1);
    var c3, h3 := Ripple(h.l3, c2);
    var c4, h4 := Ripple(h.l4, c3);
    var c0, h0 := Ripple(h.l0, Wrap32(c4 * 5));
    f := Limbs(h0, Wrap32(h1 + c0), h2, h3, h4);
    FullSum(h.l0, h.l1, h.l2, h.l3, h.l4, c0, c1, c2, c3, c4, h0, h1, h2, h3, h4);
    Shifted(h.Value(), f.Value(), c4);
  }

  lemma FullSum(l0: nat, l1: nat, l2: nat, l3: nat, l4: nat, c0: nat, c1: nat, c2: nat, c3: nat, c4: nat,
                h0: nat, h1: nat, h2: nat, h3: nat, h4: nat)
    requires l1 == c1 * B + h1 && l2 + c1 == c2 * B + h2 && l3 + c2 == c3 * B + h3 && l4 + c3 == c4 * B + h4
    requires l0 + 5 * c4 == c0 * B + h0
    ensures l0 + B * l1 + B2 * l2 + B3 * l3 + B4 * l4 == (h0 + B * (h1 + c0) + B2 * h2 + B3 * h3 + B4 * h4) + c4 * P
  {
  }

  /** `h += c; c = h >> 26; h &= 0x3ffffff`. */
  method Ripple(h: nat, c: nat) returns (q: nat, x: nat)
    requires h + c <= ONES32
    ensures h + c == q * B + x && x < B
  {
    var sum := Wrap32(h + c);
    q := sum / B;
    x := sum % B;
  }

  /** Constant-time subtraction of P, kept only if it did not borrow. */
  method Freeze(h: Limbs) returns (f: Limbs)
    requires h.Canonical()
    ensures f.Canonical()
    ensures f.Value() == h.Value() % P
  {
    var c0, g0 := Ripple(h.l0, 5);
    var c1, g1 := Ripple(h.l1, c0);
    var c2, g2 := Ripple(h.l2, c1);
    var c3, g3 := Ripple(h.l3, c2);
    var g4, mask := TopLimb(h.l4 + c3);
    f := SelectLimbs(h, Limbs(g0, g1, g2, g3, g4), mask);
    FreezeSum(h.l0, h.l1, h.l2, h.l3, h.l4, c0, c1, c2, c3, g0, g1, g2, g3);
    FreezeValue(h.Value(), g0 + B * g1 + B2 * g2 + B3 * g3, h.l4 + c3);
  }

  /** The top limb less 2^26, and a mask that is all ones exactly when it did not borrow. */
  method TopLimb(top: nat) returns (g: nat, mask: nat)
    requires top <= B
    ensures g <= ONES32
    ensures top < B ==> mask == 0
    ensures top == B ==> mask == ONES32 && g == 0
  {
    g := Wrap32(top + (ONES32 + 1 - B));
    mask := Wrap32(g / 0x8000_0000 + ONES32);
  }

  lemma FreezeSum(h0: nat, h1: nat, h2: nat, h3: nat, h4: nat, c0: nat, c1: nat, c2: nat, c3: nat,
                  g0: nat, g1: nat, g2: nat, g3: nat)
    requires h0 + 5 == c0 * B + g0 && h1 + c0 == c1 * B + g1 && h2 + c1 == c2 * B + g2 && h3 + c2 == c3 * B + g3
    ensures (h0 + B * h1 + B2 * h2 + B3 * h3 + B4 * h4) + 5 == (g0 + B * g1 + B2 * g2 + B3 * g3) + B4 * (h4 + c3)
  {
  }

  /** v + 5 with the part above 2^104 split off: v is reduced exactly when that part is below 2^26. */
  lemma FreezeValue(v: nat, low: nat, top: nat)
    requires v + 5 == low + B4 * top && low < B4 && top <= B
    ensures top < B ==> v % P == v
    ensures top == B ==> v % P == low
  {
    if top == B {
      Quotient(v, low, 1, P);
    }
  }

  method SelectLimbs(h: Limbs, g: Limbs, mask: nat) returns (f: Limbs)
    requires h.Canonical() && g.l0 < B && g.l1 < B && g.l2 < B && g.l3 < B && g.l4 <= ONES32
    requires mask == 0 || mask == ONES32
    ensures f == if mask == 0 then h else g
  {
    Pow2Values();
    SelectIs(h.l0, g.l0, mask, 32);
    SelectIs(h.l1, g.l1, mask, 32);
    SelectIs(h.l2, g.l2, mask, 32);
    SelectIs(h.l3, g.l3, mask, 32);
    SelectIs(h.l4, g.l4, mask, 32);
    f := Limbs(Select(h.l0, g.l0, mask, ONES32), Select(h.l1, g.l1, mask, ONES32), Select(h.l2, g.l2, mask, ONES32),
               Select(h.l3, g.l3, mask, ONES32), Select(h.l4, g.l4, mask, ONES32));
  }

  /** Shift-and-OR packing: the limbs do not overlap, and bits 128 and 129 fall off. */
  method Pack(h: Limbs) returns (w0: nat, w1: nat, w2: nat, w3: nat)
    requires h.Canonical()
    ensures w0 <= ONES32 && w1 <= ONES32 && w2 <= ONES32 && w3 <= ONES32
    ensures w0 + W1 * w1 + W2 * w2 + W3 * w3 == h.Value() % TWO128
  {
    Pow2Values();
    w0 := PackWord(h.l0, h.l1, 0x400_0000, 0x40, 26);
    w1 := PackWord(h.l1 / 0x40, h.l2, 0x10_0000, 0x1000, 20);
    w2 := PackWord(h.l2 / 0x1000, h.l3, 0x4000, 0x4_0000, 14);
    w3 := PackWord(h.l3 / 0x4_0000, h.l4, 0x100, 0x100_0000, 8);
    PackSum(h.l0, h.l1 % 0x40, h.l1 / 0x40, h.l2 % 0x1000, h.l2 / 0x1000, h.l3 % 0x4_0000, h.l3 / 0x4_0000,
            h.l4 % 0x100_0000, h.l4 / 0x100_0000);
    Quotient(h.Value(), w0 + W1 * w1 + W2 * w2 + W3 * w3, h.l4 / 0x100_0000, TWO128);
  }

  /** `low | (next << k)` in 32 bits: of `next`, the part above the word falls off. */
  method PackWord(low: nat, next: nat, shift: nat, cut: nat, ghost k: nat) returns (w: nat)
    requires shift == Pow2(k) && shift * cut == 0x1_0000_0000 && low < shift
    ensures w == low + shift * (next % cut) && w <= ONES32
  {
    ShiftWraps(next, shift, cut);
    w := OrShifted(low, next % cut, Wrap32(next * shift), k);
  }

  lemma ShiftWraps(x: nat, shift: nat, cut: nat)
    requires shift > 0 && cut > 0 && shift * cut == 0x1_0000_0000
    ensures Wrap32(x * shift) == (x % cut) * shift == shift * (x % cut)
    ensures shift * (x % cut) + shift <= 0x1_0000_0000
  {
    var q, r := x / cut, x % cut;
    DivMod(x, cut);
    ShiftSum(q, r, shift, cut);
    ShiftBound(r, shift, cut);
    Quotient(x * shift, r * shift, q, 0x1_0000_0000);
  }

  lemma ShiftSum(q: nat, r: nat, shift: nat, cut: nat)
    ensures (r + q * cut) * shift == r * shift + (shift * cut) * q
  {
  }

  lemma ShiftBound(r: nat, shift: nat, cut: nat)
    requires r < cut
    ensures r * shift == shift * r && shift * r + shift <= shift * cut
  {
    assert shift * cut == shift * r + shift * (cut - r);
    AtLeast(cut - r, shift);
  }

  lemma PackSum(l0: nat, a1: nat, b1: nat, a2: nat, b2: nat, a3: nat, b3: nat, a4: nat, b4: nat)
    ensures l0 + B * (a1 + 0x40 * b1) + B2 * (a2 + 0x1000 * b2) + B3 * (a3 + 0x4_0000 * b3)
      + B4 * (a4 + 0x100_0000 * b4)
         == (l0 + 0x400_0000 * a1) + W1 * (b1 + 0x10_0000 * a2) + W2 * (b2 + 0x4000 * a3) + W3 * (b3 + 0x100 * a4)
            + TWO128 * b4
  {
  }

  /** `f = h + pad + (f >> 32)`, four times: addition modulo 2^128. */
  method AddPad(w0: nat, w1: nat, w2: nat, w3: nat, p0: nat, p1: nat, p2: nat, p3: nat)
    returns (t0: nat, t1: nat, t2: nat, t3: nat)
    requires w0 <= ONES32 && w1 <= ONES32 && w2 <= ONES32 && w3 <= ONES32
    requires p0 <= ONES32 && p1 <= ONES32 && p2 <= ONES32 && p3 <= ONES32
    ensures t0 <= ONES32 && t1 <= ONES32 && t2 <= ONES32 && t3 <= ONES32
    ensures t0 + W1 * t1 + W2 * t2 + W3 * t3
         == ((w0 + W1 * w1 + W2 * w2 + W3 * w3) + (p0 + W1 * p1 + W2 * p2 + W3 * p3)) % TWO128
  {
    var c0, c1, c2, c3;
    t0, c0 := AddWord(w0, p0, 0);
    t1, c1 := AddWord(w1, p1, c0);
    t2, c2 := AddWord(w2, p2, c1);
    t3, c3 := AddWord(w3, p3, c2);
    Quotient((w0 + W1 * w1 + W2 * w2 + W3 * w3) + (p0 + W1 * p1 + W2 * p2 + W3 * p3),
             t0 + W1 * t1 + W2 * t2 + W3 * t3, c3, TWO128);
  }

  method AddWord(w: nat, p: nat, c: nat) returns (t: nat, c': nat)
    requires w <= ONES32 && p <= ONES32 && c <= 1
    ensures w + p + c == t + W1 * c' && t <= ONES32 && c' <= 1
  {
    var f := Wrap64(w + p + c);
    t, c' := Wrap32(f), f / 0x1_0000_0000;
  }

  /** Everything `poly1305_finish` does after the last block. */
  method Squeeze(h: Limbs, p0: nat, p1: nat, p2: nat, p3: nat) returns (mac: seq<byte>)
    requires h.Carried() && p0 <= ONES32 && p1 <= ONES32 && p2 <= ONES32 && p3 <= ONES32
    ensures |mac| == 16
    ensures LittleEndian(mac) == (h.Value() % P + (p0 + W1 * p1 + W2 * p2 + W3 * p3)) % TWO128
  {
    var f := FullCarry(h);
    SameResidue(h.Value(), f.Value());
    f := Freeze(f);
    var w0, w1, w2, w3 := Pack(f);
    var t0, t1, t2, t3 := AddPad(w0, w1, w2, w3, p0, p1, p2, p3);
    mac := StoreWords(t0, t1, t2, t3);
    SumModulo(f.Value(), p0 + W1 * p1 + W2 * p2 + W3 * p3);
  }

  // The streaming context

  class Context {
    const r: Limbs
    const pad: (nat, nat, nat, nat)
    var h: Limbs
    var leftover: nat
    const buffer: array<byte>
    var final: bool
    ghost const rv: nat              // the numbers r and s of the key
    ghost const sv: nat
    ghost var acc: nat               // the accumulator that h stands for
    ghost var absorbed: seq<byte>    // everything given to Update so far

    /** The part of the message that has gone through Blocks. */
    ghost function Whole(): seq<byte>
      reads this
      requires leftover <= |absorbed|
    {
      absorbed[..|absorbed| - leftover]
    }

    ghost predicate Keyed() {
      && r.Canonical() && r.Value() == rv
      && pad.0 <= ONES32 && pad.1 <= ONES32 && pad.2 <= ONES32 && pad.3 <= ONES32
      && pad.0 + W1 * pad.1 + W2 * pad.2 + W3 * pad.3 == sv
    }

    /** The limbs are within the bounds of the carry chain, and stand for the accumulator. */
    ghost predicate Holds()
      reads this`h, this`acc
    {
      Keyed() && h.Carried() && h.Value() % P == acc
    }

    /** The accumulator covers the whole blocks, and the buffer the rest of the message. */
    ghost predicate Buffered()
      reads this, buffer
    {
      && !final && buffer.Length == 16
      && leftover <= 16 && leftover <= |absorbed| && |Whole()| % 16 == 0
      && buffer[..leftover] == absorbed[|absorbed| - leftover..]
      && acc == Absorb(rv, 0, Whole(), TWO128)
    }

    ghost predicate Valid()
      reads this, buffer
    {
      Holds() && Buffered() && leftover < 16
    }

    constructor (key: Key)
      ensures Valid() && fresh(buffer)
      ensures rv == R(key) && sv == S(key) && absorbed == []
    {
      LoadPadValue(key);
      rv := R(key);
      sv := S(key);
      acc := 0;
      absorbed := [];
      var limbs := LoadKey(key);
      r := limbs;
      h := ZERO;
      pad := (Load32(key, 16), Load32(key, 20), Load32(key, 24), Load32(key, 28));
      leftover := 0;
      buffer := new byte[16];
      final := false;
      new;
      assert Whole() == [];
    }

    method Blocks(m: seq<byte>)
      requires Holds()
      modifies this`h, this`acc
      ensures Holds()
      ensures acc == Absorb(rv, old(acc), m, if final then 0 else TWO128)
    {
      var hibit := if final then 0 else 0x100_0000;
      var i := 0;
      while |m| - i >= 16
        invariant 0 <= i <= |m|
        invariant Holds()
        invariant Absorb(rv, acc, m[i..], B4 * hibit) == Absorb(rv, old(acc), m, B4 * hibit)
      {
        assert m[i..][..16] == m[i..i + 16] && m[i..][16..] == m[i + 16..];
        acc := Step(rv, acc, m[i..i + 16], B4 * hibit);
        h := Block(h, r, m[i..i + 16], hibit);
        i := i + 16;
      }
    }

    /** Any split of the message into updates leaves the context in a state that depends
        only on the concatenation. */
    method Update(m: seq<byte>)
      requires Valid()
      modifies this, buffer
      ensures Valid()
      ensures absorbed == old(absorbed) + m
    {
      if leftover == 0 {
        UpdateAligned(m);
      } else {
        var rest := TopUp(m);
        if leftover == 16 {
          Flush();
          UpdateAligned(rest);
        }
      }
    }

    method UpdateAligned(m: seq<byte>)
      requires Valid() && leftover == 0
      modifies this, buffer
      ensures Valid()
      ensures absorbed == old(absorbed) + m
    {
      var want := |m| - |m| % 16;
      if |m| >= 16 {
        Direct(m[..want]);
      }
      if |m| != want {
        Keep(m[want..]);
      }
    }

    method TopUp(m: seq<byte>) returns (rest: seq<byte>)
      requires Buffered() && 0 < leftover < 16
      modifies this`leftover, this`absorbed, buffer
      ensures Buffered()
      ensures |rest| <= |m| && rest == m[|m| - |rest|..]
      ensures absorbed == old(absorbed) + m[..|m| - |rest|]
      ensures leftover < 16 ==> rest == []
    {
      var want := if 16 - leftover > |m| then |m| else 16 - leftover;
      Keep(m[..want]);
      rest := m[want..];
    }

    method Keep(m: seq<byte>)
      requires Buffered() && leftover + |m| <= 16
      modifies this`leftover, this`absorbed, buffer
      ensures Buffered()
      ensures absorbed == old(absorbed) + m && leftover == old(leftover) + |m|
    {
      ghost var was, head := absorbed, buffer[..leftover];
      forall i | 0 <= i < |m| {
        buffer[leftover + i] := m[i];
      }
      assert buffer[..leftover + |m|] == head + m;
      Kept(was, m, leftover);
      absorbed := absorbed + m;
      leftover := leftover + |m|;
    }

    method Flush()
      requires Holds() && Buffered() && leftover == 16
      modifies this`h, this`acc, this`leftover
      ensures Valid() && leftover == 0
    {
      ghost var before := Whole();
      AbsorbAppend(rv, 0, before, buffer[..], TWO128);
      WholeSum(before, buffer[..]);
      Blocks(buffer[..]);
      leftover := 0;
      assert Whole() == before + buffer[..];
    }

    method Direct(m: seq<byte>)
      requires Valid() && leftover == 0 && |m| % 16 == 0
      modifies this`h, this`acc, this`absorbed
      ensures Valid() && absorbed == old(absorbed) + m
    {
      AbsorbAppend(rv, 0, absorbed, m, TWO128);
      WholeSum(absorbed, m);
      assert absorbed[..|absorbed|] == absorbed;
      Blocks(m);
      absorbed := absorbed + m;
      assert absorbed[..|absorbed|] == absorbed && absorbed[|absorbed|..] == buffer[..0];
    }

    /** The tag of everything absorbed. */
    method Finish() returns (mac: seq<byte>)
      requires Valid()
      modifies this, buffer
      ensures absorbed == old(absorbed)
      ensures mac == DigestTag(rv, sv, absorbed)
    {
      PadLast();
      mac := Squeeze(h, pad.0, pad.1, pad.2, pad.3);
      ToBytesUnique(mac, (acc + sv) % TWO128);
    }

    method PadLast()
      requires Valid()
      modifies this`h, this`acc, this`final, buffer
      ensures Holds()
      ensures acc == Digest(rv, 0, absorbed)
    {
      ghost var w := |absorbed| - leftover;
      DigestWhole(rv, 0, absorbed, w);
      if leftover != 0 {
        ghost var tail := absorbed[w..];
        FillUp(tail);
        final := true;
        AbsorbOne(rv, acc, buffer[..], 0);
        Blocks(buffer[..]);
      }
    }

    /** The marker byte, then zeros. */
    method FillUp(ghost tail: seq<byte>)
      requires buffer.Length == 16 && leftover < 16 && buffer[..leftover] == tail
      modifies buffer
      ensures buffer[..] == Padded(tail)
    {
      buffer[leftover] := 1;
      forall i | leftover < i < 16 {
        buffer[i] := 0;
      }
      assert forall i :: 0 <= i < leftover ==> buffer[i] == tail[i];
    }
  }

  /** `poly1305_init`, one `poly1305_update` per chunk, `poly1305_finish`. */
  method Mac(key: Key, chunks: seq<seq<byte>>) returns (mac: seq<byte>)
    ensures mac == Tag(key, Concat(chunks))
  {
    var st := new Context(key);
    for i := 0 to |chunks|
      invariant st.Valid() && fresh(st) && fresh(st.buffer)
      invariant st.absorbed == Concat(chunks[..i])
    {
      assert chunks[..i + 1][..i] == chunks[..i];
      st.Update(chunks[i]);
    }
    assert chunks[..|chunks|] == chunks;
    mac := st.Finish();
    DigestTagIsTag(R(key), S(key), Concat(chunks));
  }
}
