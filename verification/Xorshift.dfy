/**
 The keystream of the spike bit by bit: every step adds to the key, modulo two, itself moved up by
 13 places, then down by 7, then up by 17, and nothing above bit 63 is kept.
 */
module Xorshift {
  import opened Bits
  import opened PageCache

  function Bit(n: nat, i: nat): (b: nat)
    ensures b < 2
    decreases i
  {
    if i == 0 then n % 2 else Bit(n / 2, i - 1)
  }

  function Sum(a: nat, b: nat): nat {
    (a + b) % 2
  }

  lemma {:induction false} XorBit(a: nat, b: nat, i: nat)
    ensures Bit(Xor(a, b), i) == Sum(Bit(a, i), Bit(b, i))
    decreases i
  {
    XorUnfold(a, b);
    Halves(Xor(a, b), Xor(a / 2, b / 2), a, b);
    if i != 0 {
      XorBit(a / 2, b / 2, i - 1);
    }
  }

  lemma Halves(x: nat, h: nat, a: nat, b: nat)
    requires x == 2 * h + (a + b) % 2
    ensures x / 2 == h && x % 2 == Sum(a % 2, b % 2)
  {
  }

  lemma {:induction false} UpBit(n: nat, j: nat, i: nat)
    ensures Bit(n * Pow2(j), i) == if i < j then 0 else Bit(n, i - j)
    decreases j
  {
    if j != 0 {
      assert n * Pow2(j) == 2 * (n * Pow2(j - 1));
      TwiceBit(n * Pow2(j - 1), i);
      if i != 0 {
        UpBit(n, j - 1, i - 1);
      }
    }
  }

  lemma TwiceBit(n: nat, i: nat)
    ensures Bit(2 * n, i) == if i == 0 then 0 else Bit(n, i - 1)
  {
  }

  lemma {:induction false} DownBit(n: nat, j: nat, q: nat, i: nat)
    requires q == n / Pow2(j)
    ensures Bit(q, i) == Bit(n, i + j)
    decreases j
  {
    if j != 0 {
      DownTwice(n, Pow2(j - 1));
      DownBit(n / 2, j - 1, q, i);
    }
  }

  lemma DownTwice(n: nat, p: nat)
    requires p > 0
    ensures n / (2 * p) == n / 2 / p
  {
    DivMod(n / 2, p);
    var q, r := n / 2 / p, n / 2 % p;
    assert n == (2 * r + n % 2) + (2 * p) * q;
    Quotient(n, 2 * r + n % 2, q, 2 * p);
  }

  lemma {:induction false} CutBit(n: nat, m: nat, i: nat)
    requires i < m
    ensures Bit(n % Pow2(m), i) == Bit(n, i)
    decreases m
  {
    CutTwice(n, Pow2(m - 1));
    if i != 0 {
      CutBit(n / 2, m - 1, i - 1);
    }
  }

  lemma CutTwice(n: nat, p: nat)
    requires p > 0
    ensures n % (2 * p) == 2 * (n / 2 % p) + n % 2
  {
    DivMod(n / 2, p);
    var q, r := n / 2 / p, n / 2 % p;
    assert n == (2 * r + n % 2) + (2 * p) * q;
    Quotient(n, 2 * r + n % 2, q, 2 * p);
  }

  lemma {:induction false} HighBit(n: nat, m: nat, i: nat)
    requires n < Pow2(m) && m <= i
    ensures Bit(n, i) == 0
    decreases m
  {
    if m != 0 {
      HighBit(n / 2, m - 1, i - 1);
    } else {
      ZeroBit(i);
    }
  }

  lemma {:induction false} ZeroBit(i: nat)
    ensures Bit(0, i) == 0
  {
    if i != 0 {
      ZeroBit(i - 1);
    }
  }

  /** A 64-bit shift to the left. */
  lemma LeftBit(n: nat, j: nat, p: nat, i: nat)
    requires p == Pow2(j) && i < 64
    ensures Bit(Wrap64(n * p), i) == if i < j then 0 else Bit(n, i - j)
  {
    Pow2At64();
    UpBit(n, j, i);
    CutBit(n * p, 64, i);
  }

  lemma RightBit(n: u64, j: nat, q: nat, i: nat)
    requires q == n / Pow2(j) && i < 64
    ensures Bit(q, i) == if i + j < 64 then Bit(n, i + j) else 0
  {
    Pow2At64();
    DownBit(n, j, q, i);
    if i + j >= 64 {
      HighBit(n, 64, i + j);
    }
  }

  /** Bit i through one step, by way of the two words in between. */
  ghost predicate StepsAt(k: u64, k1: u64, k2: u64, next: u64, i: nat) {
    && Bit(k1, i) == Sum(Bit(k, i), if i < 13 then 0 else Bit(k, i - 13))
    && Bit(k2, i) == Sum(Bit(k1, i), if i < 57 then Bit(k1, i + 7) else 0)
    && Bit(next, i) == Sum(Bit(k2, i), if i < 17 then 0 else Bit(k2, i - 17))
  }

  /** One step, for every key and every bit of it. */
  lemma NextKeyBits(k: u64) returns (k1: u64, k2: u64)
    ensures forall i :: 0 <= i < 64 ==> StepsAt(k, k1, k2, NextKey(k), i)
  {
    k1 := Xor64(k, Wrap64(k * 0x2000));
    k2 := Xor64(k1, k1 / 0x80);
    forall i | 0 <= i < 64 ensures StepsAt(k, k1, k2, NextKey(k), i) {
      StepBit(k, k1, k2, i);
    }
  }

  lemma StepBit(k: u64, k1: u64, k2: u64, i: nat)
    requires k1 == Xor64(k, Wrap64(k * 0x2000)) && k2 == Xor64(k1, k1 / 0x80) && i < 64
    ensures StepsAt(k, k1, k2, NextKey(k), i)
  {
    Shifts();
    AddedLeft(k, 13, 0x2000, i);
    AddedRight(k1, 7, 0x80, i);
    AddedLeft(k2, 17, 0x2_0000, i);
  }

  lemma AddedLeft(k: u64, j: nat, p: nat, i: nat)
    requires p == Pow2(j) && i < 64
    ensures Bit(Xor64(k, Wrap64(k * p)), i) == Sum(Bit(k, i), if i < j then 0 else Bit(k, i - j))
  {
    XorBit(k, Wrap64(k * p), i);
    LeftBit(k, j, p, i);
  }

  lemma AddedRight(k: u64, j: nat, p: nat, i: nat)
    requires p == Pow2(j) && i < 64 && 0 <= k / p <= k
    ensures Bit(Xor64(k, k / p), i) == Sum(Bit(k, i), if i + j < 64 then Bit(k, i + j) else 0)
  {
    XorBit(k, k / p, i);
    RightBit(k, j, k / p, i);
  }

  lemma Shifts()
    ensures Pow2(13) == 0x2000 && Pow2(7) == 0x80 && Pow2(17) == 0x2_0000
  {
    Pow2Values();
  }

  /** Two numbers of 64 bits that agree bit by bit are the same: the law above leaves one key. */
  lemma {:induction false} BitsDecide(a: nat, b: nat, m: nat)
    requires a < Pow2(m) && b < Pow2(m) && forall i :: 0 <= i < m ==> Bit(a, i) == Bit(b, i)
    ensures a == b
    decreases m
  {
    if m != 0 {
      assert Bit(a, 0) == Bit(b, 0);
      forall i | 0 <= i < m - 1 ensures Bit(a / 2, i) == Bit(b / 2, i) {
        assert Bit(a, i + 1) == Bit(b, i + 1);
      }
      BitsDecide(a / 2, b / 2, m - 1);
    }
  }

  /** The keys pages 0, 1 and 2 start from. */
  lemma KnownStarts()
    ensures Start(0) == 0x1234_5678_9123_4567 && Start(1) == 0xB06B_D032_106D_C17C
    ensures Start(2) == 0x4EA3_49EB_8FB8_3D91
  {
  }

  /** Word i of the result is the word of the page with key i + 1 added to it, bit by bit. */
  lemma TransformedBits(page: Content, pageNo: nat, i: nat, b: nat)
    requires i < WORDS
    ensures Bit(Transformed(page, pageNo)[i], b)
      == Sum(Bit(page[i], b), Bit(KeyAt(NextKey, Start(pageNo), i + 1), b))
  {
    KeyedAt(Xor64, NextKey, Start(pageNo), page, i);
    XorBit(page[i], KeyAt(NextKey, Start(pageNo), i + 1), b);
  }

  lemma KeyedAt(op: (u64, u64) -> u64, next: u64 -> u64, start: u64, page: Content, i: nat)
    requires i < WORDS
    ensures Keyed(op, next, start, page)[i] == op(page[i], KeyAt(next, start, i + 1))
  {
  }
}
