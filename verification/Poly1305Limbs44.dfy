/**
 Poly1305 in three limbs of 44, 44 and 42 bits: the streaming context `poly1305_64`, and
 the field multiplication `fe_mul` that the four-chain evaluation shares with it. Sums
 and products wrap at 64 and 128 bits as in C; the bounds show that none of them does.
 */
module Poly1305Limbs44 {
  import opened Bits
  import opened Endian
  import opened Poly1305Spec

  const B: nat := 0x1000_0000_0000
  const B2: nat := 0x100_0000_0000_0000_0000_0000
  const TOP: nat := 0x400_0000_0000
  const W2: nat := 0x1_0000_0000_0000_0000
  const ONES64: nat := 0xFFFF_FFFF_FFFF_FFFF

  datatype Limbs = Limbs(l0: nat, l1: nat, l2: nat) {
    ghost function Value(): nat {
      l0 + B * l1 + B2 * l2
    }

    /** What a multiplication leaves behind. */
    ghost predicate Carried() {
      l0 < B && l1 < B + 0x40 && l2 < TOP
    }

    /** What a multiplication may be given: a carried value plus one block. */
    ghost predicate Multiplicand() {
      l0 < 2 * B && l1 < 2 * B + 0x40 && l2 < 2 * TOP
    }

    ghost predicate Canonical() {
      l0 < B && l1 < B && l2 < TOP
    }
  }

  const ZERO: Limbs := Limbs(0, 0, 0)

  // Loading

  function Wrap128(x: nat): (r: nat) {
    if x < TWO128 then x else x % TWO128
  }

  function Load64(bs: seq<byte>, off: nat): (r: nat)
    requires off + 8 <= |bs|
    ensures r <= ONES64
  {
    Load32(bs, off) + 0x1_0000_0000 * Load32(bs, off + 4)
  }

  /** `(t0 >> 44) | (t1 << 20)`: bits 44 and up of the two words. */
  method Middle(t0: nat, t1: nat) returns (x: nat)
    requires t0 <= ONES64 && t1 <= ONES64
    ensures x == t0 / B + 0x10_0000 * (t1 % B)
  {
    var high := t1 % B;
    assert Wrap64(t1 * 0x10_0000) == high * 0x10_0000;
    Pow2Values();
    OrDisjoint(t0 / B, high, 20);
    x := Or(t0 / B, Wrap64(t1 * 0x10_0000));
  }

  method OrHibit(x: nat, hibit: nat) returns (r: nat)
    requires x < 0x100_0000_0000 && (hibit == 0 || hibit == 0x100_0000_0000)
    ensures r == x + hibit
  {
    Pow2Values();
    OrDisjoint(x, 1, 40);
    r := Or(x, hibit);
  }

  /** Two 64-bit words cut into limbs. */
  method Split(t0: nat, t1: nat, hibit: nat) returns (b: Limbs)
    requires t0 <= ONES64 && t1 <= ONES64 && (hibit == 0 || hibit == 0x100_0000_0000)
    ensures b.l0 < B && b.l1 < B && b.l2 < TOP / 2
    ensures b.Value() == t0 + W2 * t1 + B2 * hibit
  {
    var x := Middle(t0, t1);
    var y := OrHibit((t1 / 0x100_0000) % TOP, hibit);
    b := Limbs(t0 % B, x % B, y);
    MiddleLow(t0 / B, t1 % 0x100_0000, t1 / 0x100_0000);
    SplitSum(t0 % B, t0 / B, t1 % 0x100_0000, t1 / 0x100_0000);
  }

  lemma MiddleLow(a: nat, lo: nat, hi: nat)
    requires a < 0x10_0000 && lo < 0x100_0000 && hi < 0x100_0000_0000
    ensures (a + 0x10_0000 * ((lo + 0x100_0000 * hi) % B)) % B == a + 0x10_0000 * lo
  {
    Quotient(lo + 0x100_0000 * hi, lo + 0x100_0000 * (hi % 0x10_0000), hi / 0x10_0000, B);
    Quotient(a + 0x10_0000 * (lo + 0x100_0000 * (hi % 0x10_0000)), a + 0x10_0000 * lo, hi % 0x10_0000, B);
  }

  lemma SplitSum(a: nat, b: nat, lo: nat, hi: nat)
    ensures a + B * (b + 0x10_0000 * lo) + B2 * hi == (a + B * b) + W2 * (lo + 0x100_0000 * hi)
  {
  }

  lemma TwoWords(m: seq<byte>)
    requires |m| == 16
    ensures LittleEndian(m) == Load64(m, 0) + W2 * Load64(m, 8)
  {
    SixteenBytes(m);
  }

  /** Clamping limb by limb is clamping the key bytes. */
  method LoadKey(key: Key) returns (r: Limbs)
    ensures r.Canonical()
    ensures r.Value() == R(key)
  {
    var t0, t1 := Load64(key, 0), Load64(key, 8);
    var l0 := KeyLimb0(key[0], key[1], key[2], key[3], key[4], key[5], key[6], key[7], t0);
    var l1 := KeyLimb1(key, t0, t1);
    var l2 := KeyLimb2(key[8], key[9], key[10], key[11], key[12], key[13], key[14], key[15], t1);
    r := Limbs(l0, l1, l2);
    ClampedValue(key);
    ClampedSum(key[0], key[1], key[2], key[3] % 16, key[4] / 4, key[5] % 16, key[5] / 16, key[6], key[7] % 16,
               key[8] / 4, key[9], key[10], key[11] % 16, key[12] / 4, key[13], key[14], key[15] % 16);
  }

  method KeyLimb0(a: nat, b: nat, c: nat, d: nat, e: nat, f: nat, g: nat, h: nat, t0: nat) returns (l: nat)
    requires Bytes(a, b, c, d) && Bytes(e, f, g, h)
    requires t0 == Word(a, b, c, d) + 0x1_0000_0000 * Word(e, f, g, h)
    ensures l == Low(a, b, c, d % 16, e / 4, f % 16)
  {
    Pow2Values();
    Fields0(a, b, c, d, e, f, g, h, t0);
    l := MaskTwoFields(t0, 0xFFC_0FFF_FFFF, 28, 34, 10, 0x1000_0000, 0x4_0000_0000, 0x400);
  }

  method KeyLimb1(key: Key, t0: nat, t1: nat) returns (l: nat)
    requires t0 == Load64(key, 0) && t1 == Load64(key, 8)
    ensures l == Mid(key[5] / 16, key[6], key[7] % 16, key[8] / 4, key[9], key[10])
  {
    var x := Middle(t0, t1);
    MiddleBytes(key[0], key[1], key[2], key[3], key[4], key[5], key[6], key[7], t0);
    MiddleRest(key[8], key[9], key[10], key[11], key[12], key[13], key[14], key[15], t1);
    l := MaskMiddle(key[5] / 16, key[6], key[7], key[8], key[9], key[10],
                    (t1 % B) / 0x100_0000, x);
  }

  lemma MiddleBytes(a: nat, b: nat, c: nat, d: nat, e: nat, f: nat, g: nat, h: nat, t0: nat)
    requires Bytes(a, b, c, d) && Bytes(e, f, g, h)
    requires t0 == Word(a, b, c, d) + 0x1_0000_0000 * Word(e, f, g, h)
    ensures t0 / B == f / 16 + 0x10 * g + 0x1000 * h
  {
    Quotient(t0, Word(a, b, c, d) + 0x1_0000_0000 * (e + 0x100 * (f % 16)), f / 16 + 0x10 * g + 0x1000 * h, B);
  }

  lemma MiddleRest(a: nat, b: nat, c: nat, d: nat, e: nat, f: nat, g: nat, h: nat, t1: nat)
    requires Bytes(a, b, c, d) && Bytes(e, f, g, h)
    requires t1 == Word(a, b, c, d) + 0x1_0000_0000 * Word(e, f, g, h)
    ensures t1 % B == a + 0x100 * b + 0x1_0000 * c + 0x100_0000 * ((t1 % B) / 0x100_0000)
  {
    var top := d + 0x100 * e + 0x1_0000 * (f % 16);
    Quotient(t1, a + 0x100 * b + 0x1_0000 * c + 0x100_0000 * top, f / 16 + 0x10 * g + 0x1000 * h, B);
    Quotient(t1 % B, a + 0x100 * b + 0x1_0000 * c, top, 0x100_0000);
  }

  method MaskMiddle(a: nat, b: nat, c: nat, d: nat, e: nat, f: nat, ghost rest: nat, x: nat) returns (l: nat)
    requires a < 0x10 && Bytes(b, c, d, e) && f < 0x100
    requires x == a + 0x10 * b + 0x1000 * c + 0x10_0000 * (d + 0x100 * e + 0x1_0000 * f + 0x100_0000 * rest)
    ensures l == Mid(a, b, c % 16, d / 4, e, f)
  {
    Pow2Values();
    Fields1(a, b, c, d, e, f, rest, x);
    l := MaskTwoFields(x, 0xFFF_FFC0_FFFF, 16, 22, 22, 0x1_0000, 0x40_0000, 0x40_0000);
  }

  method KeyLimb2(a: nat, b: nat, c: nat, d: nat, e: nat, f: nat, g: nat, h: nat, t1: nat) returns (l: nat)
    requires Bytes(a, b, c, d) && Bytes(e, f, g, h)
    requires t1 == Word(a, b, c, d) + 0x1_0000_0000 * Word(e, f, g, h)
    ensures l == High(d % 16, e / 4, f, g, h % 16)
  {
    Pow2Values();
    Quotient(t1, a + 0x100 * b + 0x1_0000 * c, d + 0x100 * e + 0x1_0000 * f + 0x100_0000 * g + 0x1_0000_0000 * h,
      0x100_0000);
    Fields2(d, e, f, g, h, t1 / 0x100_0000);
    l := MaskTwoFields(t1 / 0x100_0000, 0xF_FFFF_FC0F, 4, 10, 26, 0x10, 0x400, 0x400_0000);
  }

  ghost function Low(b0: nat, b1: nat, b2: nat, c3: nat, q4: nat, r5: nat): nat {
    b0 + 0x100 * b1 + 0x1_0000 * b2 + 0x100_0000 * c3 + 0x4_0000_0000 * q4 + 0x100_0000_0000 * r5
  }

  ghost function Mid(q5: nat, b6: nat, c7: nat, q8: nat, b9: nat, b10: nat): nat {
    q5 + 0x10 * b6 + 0x1000 * c7 + 0x40_0000 * (q8 + 0x40 * b9 + 0x4000 * b10)
  }

  ghost function High(c11: nat, q12: nat, b13: nat, b14: nat, c15: nat): nat {
    c11 + 0x400 * (q12 + 0x40 * b13 + 0x4000 * b14 + 0x40_0000 * c15)
  }

  ghost predicate Bytes(a: nat, b: nat, c: nat, d: nat) {
    a < 0x100 && b < 0x100 && c < 0x100 && d < 0x100
  }

  lemma Fields0(a: nat, b: nat, c: nat, d: nat, e: nat, f: nat, g: nat, h: nat, x: nat)
    requires Bytes(a, b, c, d) && Bytes(e, f, g, h)
    requires x == Word(a, b, c, d) + 0x1_0000_0000 * Word(e, f, g, h)
    ensures (x % 0x4_0000_0000) % 0x1000_0000 + ((x / 0x4_0000_0000) % 0x400) * 0x4_0000_0000
         == a + 0x100 * b + 0x1_0000 * c + 0x100_0000 * (d % 16) + 0x4_0000_0000 * (e / 4) + 0x100_0000_0000 * (f % 16)
  {
    var lo, hi := Word(a, b, c, d) + 0x1_0000_0000 * (e % 4), e / 4 + 0x40 * f + 0x4000 * g + 0x40_0000 * h;
    Quotient(x, lo, hi, 0x4_0000_0000);
    Quotient(lo, a + 0x100 * b + 0x1_0000 * c + 0x100_0000 * (d % 16), d / 16 + 0x10 * (e % 4), 0x1000_0000);
    Quotient(hi, e / 4 + 0x40 * (f % 16), f / 16 + 0x10 * g + 0x1000 * h, 0x400);
  }

  lemma Fields1(a: nat, b: nat, c: nat, d: nat, e: nat, f: nat, rest: nat, x: nat)
    requires a < 0x10 && Bytes(b, c, d, e) && f < 0x100
    requires x == a + 0x10 * b + 0x1000 * c + 0x10_0000 * (d + 0x100 * e + 0x1_0000 * f + 0x100_0000 * rest)
    ensures (x % 0x40_0000) % 0x1_0000 + ((x / 0x40_0000) % 0x40_0000) * 0x40_0000
         == a + 0x10 * b + 0x1000 * (c % 16) + 0x40_0000 * (d / 4 + 0x40 * e + 0x4000 * f)
  {
    var lo, hi := a + 0x10 * b + 0x1000 * c + 0x10_0000 * (d % 4), d / 4 + 0x40 * e + 0x4000 * f + 0x40_0000 * rest;
    Quotient(x, lo, hi, 0x40_0000);
    Quotient(lo, a + 0x10 * b + 0x1000 * (c % 16), c / 16 + 0x10 * (d % 4), 0x1_0000);
    Quotient(hi, d / 4 + 0x40 * e + 0x4000 * f, rest, 0x40_0000);
  }

  lemma Fields2(a: nat, b: nat, c: nat, d: nat, e: nat, x: nat)
    requires Bytes(a, b, c, d) && e < 0x100
    requires x == a + 0x100 * b + 0x1_0000 * c + 0x100_0000 * d + 0x1_0000_0000 * e
    ensures (x % 0x400) % 0x10 + ((x / 0x400) % 0x400_0000) * 0x400
         == a % 16 + 0x400 * (b / 4 + 0x40 * c + 0x4000 * d + 0x40_0000 * (e % 16))
  {
    var lo, hi := a + 0x100 * (b % 4), b / 4 + 0x40 * c + 0x4000 * d + 0x40_0000 * e;
    Quotient(x, lo, hi, 0x400);
    Quotient(lo, a % 16, a / 16 + 0x10 * (b % 4), 0x10);
    Quotient(hi, b / 4 + 0x40 * c + 0x4000 * d + 0x40_0000 * (e % 16), e / 16, 0x400_0000);
  }

  lemma ClampedSum(b0: nat, b1: nat, b2: nat, c3: nat, q4: nat, r5: nat, q5: nat, b6: nat, c7: nat,
                   q8: nat, b9: nat, b10: nat, c11: nat, q12: nat, b13: nat, b14: nat, c15: nat)
    ensures Low(b0, b1, b2, c3, q4, r5) + B * Mid(q5, b6, c7, q8, b9, b10) + B2 * High(c11, q12, b13, b14, c15)
         == Word(b0, b1, b2, c3) + 0x1_0000_0000 * Word(4 * q4, 16 * q5 + r5, b6, c7)
            + 0x1_0000_0000_0000_0000 * Word(4 * q8, b9, b10, c11)
            + 0x1_0000_0000_0000_0000_0000_0000 * Word(4 * q12, b13, b14, c15)
  {
  }

  // Multiplication modulo P

  function Row(a0: nat, b0: nat, a1: nat, b1: nat, a2: nat, b2: nat): (d: nat) {
    a0 * b0 + a1 * b1 + a2 * b2
  }

  /** A row of three 64-bit products in 128 bits: it does not wrap. */
  method RowOf(a: Limbs, b0: nat, b1: nat, b2: nat, ghost v0: nat, ghost v1: nat, ghost v2: nat) returns (d: nat)
    requires a.Multiplicand() && b0 <= v0 && b1 <= v1 && b2 <= v2
    requires v0 <= 20 * (B + 0x40) && v1 <= 20 * (B + 0x40) && v2 <= 20 * (B + 0x40)
    ensures d == Row(a.l0, b0, a.l1, b1, a.l2, b2)
    ensures d <= 2 * B * v0 + (2 * B + 0x40) * v1 + 2 * TOP * v2
  {
    ProductBound(a.l0, b0, 2 * B, v0);
    ProductBound(a.l1, b1, 2 * B + 0x40, v1);
    ProductBound(a.l2, b2, 2 * TOP, v2);
    d := Wrap128(Row(a.l0, b0, a.l1, b1, a.l2, b2));
  }

  lemma ProductBound(a: nat, b: nat, u: nat, v: nat)
    requires a <= u && b <= v
    ensures a * b <= u * v
  {
    assert a * b <= a * v;
    assert a * v <= u * v;
  }

  /** `fe_mul`, and the body of the loop in `poly64_blocks`. */
  method FeMul(a: Limbs, b: Limbs) returns (p: Limbs)
    requires a.Multiplicand() && b.Carried()
    ensures p.Carried()
    ensures Congruent(a.Value() * b.Value(), p.Value())
  {
    var d0, d1, d2 := Rows(a, b);
    p := Carry(d0, d1, d2);
    Transitive(a.Value() * b.Value(), d0 + B * d1 + B2 * d2, p.Value());
  }

  const MAX0: nat := 2 * B * (B + 0x40) + (2 * B + 0x40) * (20 * TOP) + 2 * TOP * (20 * (B + 0x40))
  const MAX1: nat := 2 * B * (B + 0x40) + (2 * B + 0x40) * (B + 0x40) + 2 * TOP * (20 * TOP)
  const MAX2: nat := 2 * B * TOP + (2 * B + 0x40) * (B + 0x40) + 2 * TOP * (B + 0x40)

  method Rows(a: Limbs, b: Limbs) returns (d0: nat, d1: nat, d2: nat)
    requires a.Multiplicand() && b.Carried()
    ensures d0 <= MAX0 && d1 <= MAX1 && d2 <= MAX2
    ensures Congruent(a.Value() * b.Value(), d0 + B * d1 + B2 * d2)
  {
    var s1, s2 := Wrap64(b.l1 * 20), Wrap64(b.l2 * 20);
    d0 := RowOf(a, b.l0, s2, s1, B + 0x40, 20 * TOP, 20 * (B + 0x40));
    d1 := RowOf(a, b.l1, b.l0, s2, B + 0x40, B + 0x40, 20 * TOP);
    d2 := RowOf(a, b.l2, b.l1, b.l0, TOP, B + 0x40, B + 0x40);
    ProductRows(a, b, d0, d1, d2);
    Shifted(a.Value() * b.Value(), d0 + B * d1 + B2 * d2, Over(a, b));
  }

  lemma ProductRows(a: Limbs, b: Limbs, d0: nat, d1: nat, d2: nat)
    requires d0 == Row(a.l0, b.l0, a.l1, 20 * b.l2, a.l2, 20 * b.l1)
    requires d1 == Row(a.l0, b.l1, a.l1, b.l0, a.l2, 20 * b.l2)
    requires d2 == Row(a.l0, b.l2, a.l1, b.l1, a.l2, b.l0)
    ensures a.Value() * b.Value() == d0 + B * d1 + B2 * d2 + Over(a, b) * P
  {
    ProductIdentity(a.l0, a.l1, a.l2, b.l0, b.l1, b.l2);
  }

  /** How many times P has been left out of a product. */
  ghost function Over(a: Limbs, b: Limbs): nat {
    4 * (a.l1 * b.l2 + a.l2 * b.l1) + 4 * B * (a.l2 * b.l2)
  }

  /** 2^132 is 4 * 2^130, which comes back as 20. */
  lemma ProductIdentity(a0: int, a1: int, a2: int, b0: int, b1: int, b2: int)
    ensures (a0 + B * a1 + B * B * a2) * (b0 + B * b1 + B * B * b2)
         == (a0 * b0 + a1 * (20 * b2) + a2 * (20 * b1))
            + B * (a0 * b1 + a1 * b0 + a2 * (20 * b2))
            + B * B * (a0 * b2 + a1 * b1 + a2 * b0)
            + P * (4 * (a1 * b2 + a2 * b1) + 4 * B * (a2 * b2))
  {
  }

  /** The delayed carry: 44, 44 and 42 bits, the overflow folded back five times. */
  method Carry(d0: nat, d1: nat, d2: nat) returns (h: Limbs)
    requires d0 <= MAX0 && d1 <= MAX1 && d2 <= MAX2
    ensures h.Carried()
    ensures Congruent(d0 + B * d1 + B2 * d2, h.Value())
  {
    var c0, x0 := CarryStep(d0, 0, B);
    var c1, x1 := CarryStep(d1, c0, B);
    var c2, x2 := CarryStep(d2, c1, TOP);
    assert c2 <= 12 * B + 0x800;
    var h0 := Wrap64(x0 + Wrap64(c2 * 5));
    h := Limbs(h0 % B, Wrap64(x1 + h0 / B), x2);
    CarrySum(c0, c1, c2, h0 / B, x0, x1, x2, h0 % B);
    Shifted(d0 + B * d1 + B2 * d2, h.Value(), c2);
  }

  /** `d = u128_addu(d, c); c = u128_shr(d); h = u128_low(d)`. */
  method CarryStep(d: nat, c: nat, p: nat) returns (q: nat, x: nat)
    requires d <= MAX0 && c <= 40 * B && (p == B || p == TOP)
    ensures d + c == q * p + x && x < p
    ensures p == B ==> q <= 40 * B
  {
    var sum := Wrap128(d + c);
    if p == B {
      q, x := Wrap64(sum / B), sum % B;
    } else {
      q, x := Wrap64(sum / TOP), sum % TOP;
    }
  }

  lemma CarrySum(c0: nat, c1: nat, c2: nat, c: nat, x0: nat, x1: nat, x2: nat, y0: nat)
    requires x0 + 5 * c2 == c * B + y0
    ensures (c0 * B + x0) + B * (c1 * B + x1 - c0) + B2 * (c2 * TOP + x2 - c1)
         == y0 + B * (x1 + c) + B2 * x2 + c2 * P
  {
  }

  /** One turn of the loop in `poly64_blocks`. */
  method Block(h: Limbs, r: Limbs, m: seq<byte>, hibit: nat) returns (h': Limbs)
    requires |m| == 16 && (hibit == 0 || hibit == 0x100_0000_0000)
    requires h.Carried() && r.Carried()
    ensures h'.Carried()
    ensures h'.Value() % P == Step(r.Value(), h.Value() % P, m, B2 * hibit)
  {
    var s := AddBlock(h, m, hibit);
    h' := FeMul(s, r);
    StepCongruent(r.Value(), h.Value(), LittleEndian(m) + B2 * hibit, h'.Value());
  }

  method AddBlock(h: Limbs, m: seq<byte>, hibit: nat) returns (s: Limbs)
    requires |m| == 16 && (hibit == 0 || hibit == 0x100_0000_0000) && h.Carried()
    ensures s.Multiplicand()
    ensures s.Value() == h.Value() + LittleEndian(m) + B2 * hibit
  {
    TwoWords(m);
    var b := Split(Load64(m, 0), Load64(m, 8), hibit);
    s := Limbs(Wrap64(h.l0 + b.l0), Wrap64(h.l1 + b.l1), Wrap64(h.l2 + b.l2));
  }

  // The tag

  /** One carry pass. If it wraps round to the bottom limb, the middle limb had just been
      emptied, so that a single pass leaves every limb within its own bits. */
  method Pass(h: Limbs) returns (f: Limbs)
    requires h.Carried()
    ensures f.Canonical()
    ensures Congruent(h.Value(), f.Value())
  {
    var c1, h1 := Ripple(h.l1, 0);
    var e2 := Wrap64(h.l2 + c1);
    var c2, h2 := e2 / TOP, e2 % TOP;
    var c0, h0 := Ripple(h.l0, Wrap64(c2 * 5));
    f := Limbs(h0, Wrap64(h1 + c0), h2);
    PassSum(h.l0, h.l1, h.l2, c0, c1, c2, h0, h1, h2);
    Shifted(h.Value(), f.Value(), c2);
  }

  /** `h += c; c = h >> 44; h &= 0xfffffffffff`. */
  method Ripple(h: nat, c: nat) returns (q: nat, x: nat)
    requires h + c < 2 * B
    ensures h + c == q * B + x && x < B && q <= 1
  {
    var sum := Wrap64(h + c);
    q, x := sum / B, sum % B;
  }

  lemma PassSum(l0: nat, l1: nat, l2: nat, c0: nat, c1: nat, c2: nat, h0: nat, h1: nat, h2: nat)
    requires l1 == c1 * B + h1 && l2 + c1 == c2 * TOP + h2 && l0 + 5 * c2 == c0 * B + h0
    ensures l0 + B * l1 + B2 * l2 == (h0 + B * (h1 + c0) + B2 * h2) + c2 * P
  {
  }

  /** Constant-time subtraction of P, kept only if it did not borrow. */
  method Freeze(h: Limbs) returns (f: Limbs)
    requires h.Canonical()
    ensures f.Canonical()
    ensures f.Value() == h.Value() % P
  {
    var c0, g0 := Ripple(h.l0, 5);
    var c1, g1 := Ripple(h.l1, c0);
    var g2, mask := TopLimb(h.l2 + c1);
    f := SelectLimbs(h, Limbs(g0, g1, g2), mask);
    FreezeSum(h.l0, h.l1, h.l2, c0, c1, g0, g1);
    FreezeValue(h.Value(), g0 + B * g1, h.l2 + c1);
  }

  /** The top limb less 2^42, and a mask that is all ones exactly when it did not borrow. */
  method TopLimb(top: nat) returns (g: nat, mask: nat)
    requires top <= TOP
    ensures g <= ONES64
    ensures top < TOP ==> mask == 0
    ensures top == TOP ==> mask == ONES64 && g == 0
  {
    g := Wrap64(top + (W2 - TOP));
    mask := Wrap64(g / 0x8000_0000_0000_0000 + ONES64);
  }

  lemma FreezeSum(h0: nat, h1: nat, h2: nat, c0: nat, c1: nat, g0: nat, g1: nat)
    requires h0 + 5 == c0 * B + g0 && h1 + c0 == c1 * B + g1
    ensures (h0 + B * h1 + B2 * h2) + 5 == (g0 + B * g1) + B2 * (h2 + c1)
  {
  }

  /** v + 5 with the part above 2^88 split off: v is reduced exactly when that part is below 2^42. */
  lemma FreezeValue(v: nat, low: nat, top: nat)
    requires v + 5 == low + B2 * top && low < B2 && top <= TOP
    ensures top < TOP ==> v % P == v
    ensures top == TOP ==> v % P == low
  {
    if top == TOP {
      Quotient(v, low, 1, P);
    }
  }

  method SelectLimbs(h: Limbs, g: Limbs, mask: nat) returns (f: Limbs)
    requires h.Canonical() && g.l0 < B && g.l1 < B && g.l2 <= ONES64
    requires mask == 0 || mask == ONES64
    ensures f == if mask == 0 then h else g
  {
    Pow2At64();
    SelectIs(h.l0, g.l0, mask, 64);
    SelectIs(h.l1, g.l1, mask, 64);
    SelectIs(h.l2, g.l2, mask, 64);
    f := Limbs(Select(h.l0, g.l0, mask, ONES64), Select(h.l1, g.l1, mask, ONES64), Select(h.l2, g.l2, mask, ONES64));
  }

  /** Addition of the pad modulo 2^130. */
  method AddPad(h: Limbs, p0: nat, p1: nat) returns (t: Limbs)
    requires h.Canonical() && p0 <= ONES64 && p1 <= ONES64
    ensures t.Canonical()
    ensures t.Value() % TWO128 == (h.Value() + (p0 + W2 * p1)) % TWO128
  {
    var p := Split(p0, p1, 0);
    var c0, t0 := Ripple(h.l0, p.l0);
    var c1, t1 := Ripple(h.l1, Wrap64(p.l1 + c0));
    var e2 := Wrap64(h.l2 + Wrap64(p.l2 + c1));
    t := Limbs(t0, t1, e2 % TOP);
    PadSum(h.l0, h.l1, h.l2, p.l0, p.l1, p.l2, c0, c1, e2 / TOP, t0, t1, e2 % TOP);
    Above128(h.Value() + (p0 + W2 * p1), t.Value(), 4 * (e2 / TOP));
  }

  lemma PadSum(h0: nat, h1: nat, h2: nat, p0: nat, p1: nat, p2: nat, c0: nat, c1: nat, c2: nat, t0: nat, t1: nat,
      t2: nat)
    requires h0 + p0 == c0 * B + t0 && h1 + (p1 + c0) == c1 * B + t1 && h2 + (p2 + c1) == c2 * TOP + t2
    ensures (h0 + B * h1 + B2 * h2) + (p0 + B * p1 + B2 * p2) == (t0 + B * t1 + B2 * t2) + (4 * c2) * TWO128
  {
  }

  lemma Above128(x: nat, y: nat, k: nat)
    requires x == y + k * TWO128
    ensures x % TWO128 == y % TWO128
  {
  }

  /** Shift-and-OR packing: the limbs do not overlap, and bits 128 and 129 fall off. */
  method Pack(h: Limbs) returns (w0: nat, w1: nat)
    requires h.Canonical()
    ensures w0 <= ONES64 && w1 <= ONES64
    ensures w0 + W2 * w1 == h.Value() % TWO128
  {
    Pow2Values();
    ShiftLow(h.l1);
    ShiftHigh(h.l2);
    w0 := OrShifted(h.l0, h.l1 % 0x10_0000, Wrap64(h.l1 * B), 44);
    w1 := OrShifted(h.l1 / 0x10_0000, h.l2 % 0x100_0000_0000, Wrap64(h.l2 * 0x100_0000), 24);
    PackSum(h.l0, h.l1 % 0x10_0000, h.l1 / 0x10_0000, h.l2 % 0x100_0000_0000, h.l2 / 0x100_0000_0000);
    Quotient(h.Value(), w0 + W2 * w1, h.l2 / 0x100_0000_0000, TWO128);
  }

  lemma ShiftLow(x: nat)
    ensures Wrap64(x * B) == (x % 0x10_0000) * B
  {
    Quotient(x * B, (x % 0x10_0000) * B, x / 0x10_0000, W2);
  }

  lemma ShiftHigh(x: nat)
    ensures Wrap64(x * 0x100_0000) == (x % 0x100_0000_0000) * 0x100_0000
  {
    Quotient(x * 0x100_0000, (x % 0x100_0000_0000) * 0x100_0000, x / 0x100_0000_0000, W2);
  }

  lemma PackSum(l0: nat, a1: nat, b1: nat, a2: nat, b2: nat)
    ensures l0 + B * (a1 + 0x10_0000 * b1) + B2 * (a2 + 0x100_0000_0000 * b2)
         == (l0 + a1 * B) + W2 * (b1 + a2 * 0x100_0000) + TWO128 * b2
  {
  }

  /** Everything the finish does after its carry passes. */
  method Squeeze(h: Limbs, p0: nat, p1: nat) returns (mac: seq<byte>)
    requires h.Canonical() && p0 <= ONES64 && p1 <= ONES64
    ensures |mac| == 16
    ensures LittleEndian(mac) == (h.Value() % P + (p0 + W2 * p1)) % TWO128
  {
    var f := Freeze(h);
    var t := AddPad(f, p0, p1);
    var w0, w1 := Pack(t);
    mac := StoreWords(w0 % 0x1_0000_0000, w0 / 0x1_0000_0000, w1 % 0x1_0000_0000, w1 / 0x1_0000_0000);
  }

  method LoadPad(key: Key) returns (p0: nat, p1: nat)
    ensures p0 <= ONES64 && p1 <= ONES64 && p0 + W2 * p1 == S(key)
  {
    TwoWords(key[16..]);
    p0, p1 := Load64(key[16..], 0), Load64(key[16..], 8);
  }

  // The streaming context

  class Context {
    const r: Limbs
    const pad: (nat, nat)
    var h: Limbs
    var leftover: nat
    const buffer: array<byte>
    var final: bool
    ghost const rv: nat              // the numbers r and s of the key
    ghost const sv: nat
    ghost var acc: nat               // the accumulator that h stands for
    ghost var absorbed: seq<byte>    // everything given to Update so far

    /** The part of the message that has gone through Blocks. */
    ghost function Whole(): seq<byte>
      reads this
      requires leftover <= |absorbed|
    {
      absorbed[..|absorbed| - leftover]
    }

    ghost predicate Keyed() {
      && r.Carried() && r.Value() == rv
      && pad.0 <= ONES64 && pad.1 <= ONES64 && pad.0 + W2 * pad.1 == sv
    }

    /** The limbs are within the bounds of the carry chain, and stand for the accumulator. */
    ghost predicate Holds()
      reads this`h, this`acc
    {
      Keyed() && h.Carried() && h.Value() % P == acc
    }

    /** The accumulator covers the whole blocks, and the buffer the rest of the message. */
    ghost predicate Buffered()
      reads this, buffer
    {
      && !final && buffer.Length == 16
      && leftover <= 16 && leftover <= |absorbed| && |Whole()| % 16 == 0
      && buffer[..leftover] == absorbed[|absorbed| - leftover..]
      && acc == Absorb(rv, 0, Whole(), TWO128)
    }

    ghost predicate Valid()
      reads this, buffer
    {
      Holds() && Buffered() && leftover < 16
    }

    constructor (key: Key)
      ensures Valid() && fresh(buffer)
      ensures rv == R(key) && sv == S(key) && absorbed == []
    {
      rv := R(key);
      sv := S(key);
      acc := 0;
      absorbed := [];
      var limbs := LoadKey(key);
      r := limbs;
      h := ZERO;
      var p0, p1 := LoadPad(key);
      pad := (p0, p1);
      leftover := 0;
      buffer := new byte[16];
      final := false;
      new;
      assert Whole() == [];
    }

    method Blocks(m: seq<byte>)
      requires Holds()
      modifies this`h, this`acc
      ensures Holds()
      ensures acc == Absorb(rv, old(acc), m, if final then 0 else TWO128)
    {
      var hibit := if final then 0 else 0x100_0000_0000;
      var i := 0;
      while |m| - i >= 16
        invariant 0 <= i <= |m|
        invariant Holds()
        invariant Absorb(rv, acc, m[i..], B2 * hibit) == Absorb(rv, old(acc), m, B2 * hibit)
      {
        assert m[i..][..16] == m[i..i + 16] && m[i..][16..] == m[i + 16..];
        acc := Step(rv, acc, m[i..i + 16], B2 * hibit);
        h := Block(h, r, m[i..i + 16], hibit);
        i := i + 16;
      }
    }

    /** Any split of the message into updates leaves the context in a state that depends
        only on the concatenation. */
    method Update(m: seq<byte>)
      requires Valid()
      modifies this, buffer
      ensures Valid()
      ensures absorbed == old(absorbed) + m
    {
      if leftover == 0 {
        UpdateAligned(m);
      } else {
        var rest := TopUp(m);
        if leftover == 16 {
          Flush();
          UpdateAligned(rest);
        }
      }
    }

    method UpdateAligned(m: seq<byte>)
      requires Valid() && leftover == 0
      modifies this, buffer
      ensures Valid()
      ensures absorbed == old(absorbed) + m
    {
      var want := |m| - |m| % 16;
      if |m| >= 16 {
        Direct(m[..want]);
      }
      if |m| != want {
        Keep(m[want..]);
      }
    }

    method TopUp(m: seq<byte>) returns (rest: seq<byte>)
      requires Buffered() && 0 < leftover < 16
      modifies this`leftover, this`absorbed, buffer
      ensures Buffered()
      ensures |rest| <= |m| && rest == m[|m| - |rest|..]
      ensures absorbed == old(absorbed) + m[..|m| - |rest|]
      ensures leftover < 16 ==> rest == []
    {
      var want := if 16 - leftover > |m| then |m| else 16 - leftover;
      Keep(m[..want]);
      rest := m[want..];
    }

    method Keep(m: seq<byte>)
      requires Buffered() && leftover + |m| <= 16
      modifies this`leftover, this`absorbed, buffer
      ensures Buffered()
      ensures absorbed == old(absorbed) + m && leftover == old(leftover) + |m|
    {
      ghost var was, head := absorbed, buffer[..leftover];
      forall i | 0 <= i < |m| {
        buffer[leftover + i] := m[i];
      }
      assert buffer[..leftover + |m|] == head + m;
      Kept(was, m, leftover);
      absorbed := absorbed + m;
      leftover := leftover + |m|;
    }

    method Flush()
      requires Holds() && Buffered() && leftover == 16
      modifies this`h, this`acc, this`leftover
      ensures Valid() && leftover == 0
    {
      ghost var before := Whole();
      AbsorbAppend(rv, 0, before, buffer[..], TWO128);
      WholeSum(before, buffer[..]);
      Blocks(buffer[..]);
      leftover := 0;
      assert Whole() == before + buffer[..];
    }

    method Direct(m: seq<byte>)
      requires Valid() && leftover == 0 && |m| % 16 == 0
      modifies this`h, this`acc, this`absorbed
      ensures Valid() && absorbed == old(absorbed) + m
    {
      AbsorbAppend(rv, 0, absorbed, m, TWO128);
      WholeSum(absorbed, m);
      assert absorbed[..|absorbed|] == absorbed;
      Blocks(m);
      absorbed := absorbed + m;
      assert absorbed[..|absorbed|] == absorbed && absorbed[|absorbed|..] == buffer[..0];
    }

    /** The tag of everything absorbed. */
    method Finish() returns (mac: seq<byte>)
      requires Valid()
      modifies this, buffer
      ensures absorbed == old(absorbed)
      ensures mac == DigestTag(rv, sv, absorbed)
    {
      PadLast();
      var e := Pass(h);
      var f := Pass(e);
      SameResidue(h.Value(), e.Value());
      SameResidue(e.Value(), f.Value());
      mac := Squeeze(f, pad.0, pad.1);
      ToBytesUnique(mac, (acc + sv) % TWO128);
    }

    method PadLast()
      requires Valid()
      modifies this`h, this`acc, this`final, buffer
      ensures Holds()
      ensures acc == Digest(rv, 0, absorbed)
    {
      ghost var w := |absorbed| - leftover;
      DigestWhole(rv, 0, absorbed, w);
      if leftover != 0 {
        ghost var tail := absorbed[w..];
        FillUp(tail);
        final := true;
        AbsorbOne(rv, acc, buffer[..], 0);
        Blocks(buffer[..]);
      }
    }

    /** The marker byte, then zeros. */
    method FillUp(ghost tail: seq<byte>)
      requires buffer.Length == 16 && leftover < 16 && buffer[..leftover] == tail
      modifies buffer
      ensures buffer[..] == Padded(tail)
    {
      buffer[leftover] := 1;
      forall i | leftover < i < 16 {
        buffer[i] := 0;
      }
      assert forall i :: 0 <= i < leftover ==> buffer[i] == tail[i];
    }
  }

  /** `poly64_init`, one `poly64_update` per chunk, `poly64_finish`. */
  method Mac(key: Key, chunks: seq<seq<byte>>) returns (mac: seq<byte>)
    ensures mac == Tag(key, Concat(chunks))
  {
    var st := new Context(key);
    for i := 0 to |chunks|
      invariant st.Valid() && fresh(st) && fresh(st.buffer)
      invariant st.absorbed == Concat(chunks[..i])
    {
      assert chunks[..i + 1][..i] == chunks[..i];
      st.Update(chunks[i]);
    }
    assert chunks[..|chunks|] == chunks;
    mac := st.Finish();
    DigestTagIsTag(R(key), S(key), Concat(chunks));
  }
}
