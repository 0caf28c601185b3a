/**
 Machine integers as the source uses them: fixed-width words are naturals below a
 power of two, wrap-around is written out with `Wrap32` and `Wrap64`, a right shift
 is a division and a left shift a multiplication. The bitwise operators are defined
 bit by bit, and the lemmas say when an OR is a sum and an AND a remainder or a choice.
 Where a carry step keeps the low bits of a limb, as with `& 0x3ffffff`, the remainder is
 written at once.
 */
module Bits {

  type byte = x: nat | x < 0x100
  type u32 = x: nat | x < 0x1_0000_0000
  type u64 = x: nat | x < 0x1_0000_0000_0000_0000

  const U64_MAX: u64 := 0xFFFF_FFFF_FFFF_FFFF

  function Wrap32(x: nat): (r: nat)
    ensures r < 0x1_0000_0000
  {
    if x < 0x1_0000_0000 then x else x % 0x1_0000_0000
  }

  /** A 64-bit increment. */
  function Bump(n: nat): (r: nat) {
    if n == U64_MAX then 0 else n + 1
  }

  function Wrap64(x: nat): (r: nat)
    ensures r < 0x1_0000_0000_0000_0000
  {
    if x < 0x1_0000_0000_0000_0000 then x else x % 0x1_0000_0000_0000_0000
  }

  function Pow2(k: nat): (r: nat)
    ensures r > 0
  {
    if k == 0 then 1 else 2 * Pow2(k - 1)
  }

  function And(a: nat, b: nat): (r: nat)
    ensures r <= a && r <= b
  {
    if a == 0 || b == 0 then 0
    else 2 * And(a / 2, b / 2) + (if a % 2 == 1 && b % 2 == 1 then 1 else 0)
  }

  function Or(a: nat, b: nat): (r: nat)
    decreases a + b
  {
    if a == 0 then b
    else if b == 0 then a
    else 2 * Or(a / 2, b / 2) + (if a % 2 == 1 || b % 2 == 1 then 1 else 0)
  }

  function Xor(a: nat, b: nat): (r: nat)
    decreases a + b
  {
    if a == 0 then b
    else if b == 0 then a
    else 2 * Xor(a / 2, b / 2) + (a + b) % 2
  }

  lemma {:induction false} Pow2Sum(j: nat, k: nat)
    ensures Pow2(j + k) == Pow2(j) * Pow2(k)
  {
    if j != 0 {
      Pow2Sum(j - 1, k);
    }
  }

  lemma Pow2Values()
    ensures Pow2(2) == 4 && Pow2(4) == 0x10 && Pow2(6) == 0x40 && Pow2(10) == 0x400 && Pow2(12) == 0x1000
    ensures Pow2(14) == 0x4000 && Pow2(18) == 0x4_0000 && Pow2(22) == 0x40_0000 && Pow2(28) == 0x1000_0000
    ensures Pow2(34) == 0x4_0000_0000 && Pow2(42) == 0x400_0000_0000
    ensures Pow2(8) == 0x100 && Pow2(16) == 0x1_0000 && Pow2(20) == 0x10_0000 && Pow2(24) == 0x100_0000
    ensures Pow2(26) == 0x400_0000 && Pow2(32) == 0x1_0000_0000
    ensures Pow2(40) == 0x100_0000_0000 && Pow2(44) == 0x1000_0000_0000
  {
  }

  lemma Pow2At64()
    ensures Pow2(64) == 0x1_0000_0000_0000_0000
  {
    Pow2Values();
    Pow2Product(32, 32, 0x1_0000_0000, 0x1_0000_0000);
  }

  lemma Pow2At128()
    ensures Pow2(128) == 0x1_0000_0000_0000_0000_0000_0000_0000_0000
  {
    Pow2At64();
    Pow2Product(64, 64, 0x1_0000_0000_0000_0000, 0x1_0000_0000_0000_0000);
  }

  lemma Pow2Product(j: nat, k: nat, x: nat, y: nat)
    requires Pow2(j) == x && Pow2(k) == y
    ensures Pow2(j + k) == x * y
  {
    Pow2Sum(j, k);
  }

  /** An OR of bits that do not overlap is a sum. */
  lemma {:induction false} OrDisjoint(a: nat, b: nat, k: nat)
    requires a < Pow2(k)
    ensures Or(a, b * Pow2(k)) == a + b * Pow2(k)
  {
    if k != 0 && a != 0 && b != 0 {
      var h := b * Pow2(k - 1);
      assert b * Pow2(k) == 2 * h;
      OrDisjoint(a / 2, b, k - 1);
    }
  }

  /** `low | (x << k)`, where `kept` is what the shift leaves of x in the word. */
  method OrShifted(low: nat, kept: nat, shifted: nat, ghost k: nat) returns (w: nat)
    requires low < Pow2(k) && shifted == kept * Pow2(k)
    ensures w == low + shifted
  {
    OrDisjoint(low, kept, k);
    w := Or(low, shifted);
  }

  /** A shift up by k bits, as k doublings. */
  function Doubled(b: nat, k: nat): (r: nat) {
    if k == 0 then b else 2 * Doubled(b, k - 1)
  }

  lemma {:induction false} DoubledIs(b: nat, k: nat)
    ensures Doubled(b, k) == b * Pow2(k)
  {
    if k != 0 {
      DoubledIs(b, k - 1);
    }
  }

  ghost predicate Halved(x: nat, y: nat) {
    true
  }

  /** An operator that works on each pair of bits by itself. */
  ghost predicate Bitwise(f: (nat, nat) -> nat) {
    && f(0, 0) == 0
    && forall x: nat, y: nat {:trigger Halved(x, y)} :: Halved(x, y) ==>
      f(x, y) == 2 * f(x / 2, y / 2) + f(x % 2, y % 2)
  }

  lemma {:induction false} BitwiseDoubled(f: (nat, nat) -> nat, a: nat, b: nat, m: nat, n: nat, k: nat)
    requires Bitwise(f) && a < Pow2(k) && m < Pow2(k)
    ensures f(a + Doubled(b, k), m + Doubled(n, k)) == f(a, m) + Doubled(f(b, n), k)
  {
    if k != 0 {
      BitwiseDoubled(f, a / 2, b, m / 2, n, k - 1);
      assert Halved(a, m) && Halved(a + Doubled(b, k), m + Doubled(n, k));
      Halves(a, Doubled(b, k - 1));
      Halves(m, Doubled(n, k - 1));
    }
  }

  lemma Halves(a: nat, s: nat)
    ensures (a + 2 * s) / 2 == a / 2 + s && (a + 2 * s) % 2 == a % 2
  {
  }

  lemma AndBitwise()
    ensures Bitwise((x: nat, y: nat) => And(x, y))
  {
    forall x: nat, y: nat ensures And(x, y) == 2 * And(x / 2, y / 2) + And(x % 2, y % 2) {
      AndUnfold(x, y);
    }
  }

  /** A mask applies to the low and to the high part of a word separately. */
  lemma AndSplit(a: nat, b: nat, m: nat, n: nat, k: nat)
    requires a < Pow2(k) && m < Pow2(k)
    ensures And(a + b * Pow2(k), m + n * Pow2(k)) == And(a, m) + And(b, n) * Pow2(k)
  {
    AndBitwise();
    BitwiseDoubled((x: nat, y: nat) => And(x, y), a, b, m, n, k);
    DoubledIs(b, k);
    DoubledIs(n, k);
    DoubledIs(And(b, n), k);
  }

  lemma AndUnfold(a: nat, b: nat)
    ensures And(a, b) == 2 * And(a / 2, b / 2) + (if a % 2 == 1 && b % 2 == 1 then 1 else 0)
  {
  }

  /** A mask of all ones keeps a word that fits under it. */
  lemma {:induction false} AndOnes(a: nat, k: nat)
    requires a < Pow2(k)
    ensures And(a, Pow2(k) - 1) == a
  {
    if k != 0 {
      AndUnfold(a, Pow2(k) - 1);
      AndOnes(a / 2, k - 1);
    }
  }

  lemma DivMod(a: nat, p: nat)
    requires p > 0
    ensures a == a % p + (a / p) * p
    ensures a % p < p && a / p >= 0
  {
  }

  lemma {:induction false} AndLow(a: nat, k: nat)
    ensures And(a, Pow2(k) - 1) == a % Pow2(k)
  {
    var p := Pow2(k);
    var q, r := a / p, a % p;
    DivMod(a, p);
    AndSplit(r, q, Pow2(k) - 1, 0, k);
    AndOnes(r, k);
  }

  /** A mask of two runs of ones, `i` at the bottom and `k` from bit `j` up, keeps two fields. */
  lemma AndTwoFields(x: nat, i: nat, j: nat, k: nat)
    requires i <= j
    ensures And(x, Pow2(i) - 1 + (Pow2(k) - 1) * Pow2(j))
      == (x % Pow2(j)) % Pow2(i) + ((x / Pow2(j)) % Pow2(k)) * Pow2(j)
  {
    var p := Pow2(j);
    DivMod(x, p);
    Pow2Monotone(i, j);
    AndSplit(x % p, x / p, Pow2(i) - 1, Pow2(k) - 1, j);
    AndLow(x % p, i);
    AndLow(x / p, k);
  }

  /** `x & mask` for such a mask. */
  method MaskTwoFields(x: nat, mask: nat, ghost i: nat, ghost j: nat, ghost k: nat,
                       ghost pi: nat, ghost pj: nat, ghost pk: nat) returns (r: nat)
    requires i <= j && pi == Pow2(i) && pj == Pow2(j) && pk == Pow2(k)
    requires mask == pi - 1 + (pk - 1) * pj
    ensures r == (x % pj) % pi + ((x / pj) % pk) * pj
  {
    AndTwoFields(x, i, j, k);
    r := And(x, mask);
  }

  method MaskLow(x: nat, mask: nat, ghost k: nat) returns (r: nat)
    requires mask + 1 == Pow2(k)
    ensures r == x % (mask + 1)
  {
    AndLow(x, k);
    r := And(x, mask);
  }

  lemma Quotient(x: nat, lo: nat, hi: nat, p: nat)
    requires x == lo + p * hi && lo < p
    ensures x / p == hi && x % p == lo
  {
    DivMod(x, p);
    QuotientUnique(p, x / p, hi, x % p, lo);
  }

  lemma QuotientUnique(p: nat, q: int, q': int, r: nat, r': nat)
    requires r < p && r' < p && r + q * p == r' + p * q'
    ensures q == q' && r == r'
  {
    var d := q - q';
    assert d * p == r' - r;
    if d >= 1 {
      AtLeast(d, p);
    } else if d <= -1 {
      AtLeast(-d, p);
    }
  }

  lemma AtLeast(d: nat, p: nat)
    requires d >= 1
    ensures d * p >= p
  {
  }

  lemma {:induction false} Pow2Monotone(i: nat, j: nat)
    requires i <= j
    ensures Pow2(i) <= Pow2(j)
  {
    if i != j {
      Pow2Monotone(i, j - 1);
    }
  }

  lemma XorUnfold(a: nat, b: nat)
    ensures Xor(a, b) == 2 * Xor(a / 2, b / 2) + (a + b) % 2
  {
  }

  lemma {:induction false} XorInverse(a: nat, b: nat)
    ensures Xor(Xor(a, b), b) == a
    decreases a + b
  {
    if a + b != 0 {
      var x, h := Xor(a, b), Xor(a / 2, b / 2);
      XorUnfold(a, b);
      XorInverse(a / 2, b / 2);
      XorBack(a, b, x, h);
    }
  }

  lemma XorBack(a: nat, b: nat, x: nat, h: nat)
    requires x == 2 * h + (a + b) % 2 && Xor(h, b / 2) == a / 2
    ensures Xor(x, b) == a
  {
    XorUnfold(x, b);
    assert x / 2 == h && (x + b) % 2 == a % 2;
  }

  lemma {:induction false} XorBound(a: nat, b: nat, k: nat)
    requires a < Pow2(k) && b < Pow2(k)
    ensures Xor(a, b) < Pow2(k)
  {
    if k != 0 && a != 0 && b != 0 {
      XorBound(a / 2, b / 2, k - 1);
    }
  }

  /** The number four bytes stand for, least significant first. */
  function Word(b0: nat, b1: nat, b2: nat, b3: nat): (r: nat) {
    b0 + 0x100 * b1 + 0x1_0000 * b2 + 0x100_0000 * b3
  }

  /** A 32-bit little-endian load; `WordIsShiftsAndOrs` is how the source writes it. */
  function Load32(bs: seq<byte>, off: nat): (r: nat)
    requires off + 4 <= |bs|
    ensures r < 0x1_0000_0000
  {
    Word(bs[off], bs[off + 1], bs[off + 2], bs[off + 3])
  }

  lemma WordIsShiftsAndOrs(b0: nat, b1: nat, b2: nat, b3: nat)
    requires b0 < 0x100 && b1 < 0x100 && b2 < 0x100 && b3 < 0x100
    ensures Word(b0, b1, b2, b3) == Or(Or(Or(b0, b1 * 0x100), b2 * 0x1_0000), b3 * 0x100_0000)
  {
    Pow2Values();
    OrDisjoint(b0, b1, 8);
    OrDisjoint(b0 + 0x100 * b1, b2, 16);
    OrDisjoint(b0 + 0x100 * b1 + 0x1_0000 * b2, b3, 24);
  }

  /** The four bytes of a word, least significant first. */
  function Store32(w: u32): (bs: seq<byte>)
    ensures |bs| == 4
  {
    [w % 0x100, (w / 0x100) % 0x100, (w / 0x1_0000) % 0x100, w / 0x100_0000]
  }

  /** `(h & ~mask) | (g & mask)`, with a mask that is all zeros or all ones. */
  function Select(h: nat, g: nat, mask: nat, ones: nat): (r: nat)
    requires mask <= ones
  {
    Or(And(h, ones - mask), And(g, mask))
  }

  lemma SelectIs(h: nat, g: nat, mask: nat, k: nat)
    requires h < Pow2(k) && g < Pow2(k)
    requires mask == 0 || mask == Pow2(k) - 1
    ensures Select(h, g, mask, Pow2(k) - 1) == if mask == 0 then h else g
  {
    AndOnes(h, k);
    AndOnes(g, k);
  }
}
