/** Numbers as little-endian bytes. */
module Endian {
  import opened Bits

  function LittleEndian(bs: seq<byte>): (n: nat) {
    if |bs| == 0 then 0 else bs[0] + 0x100 * LittleEndian(bs[1..])
  }

  function ToBytes(n: nat, len: nat): (bs: seq<byte>)
    ensures |bs| == len
  {
    if len == 0 then [] else [n % 0x100] + ToBytes(n / 0x100, len - 1)
  }

  lemma {:induction false} LittleEndianAppend(x: seq<byte>, y: seq<byte>)
    ensures LittleEndian(x + y) == LittleEndian(x) + Pow2(8 * |x|) * LittleEndian(y)
  {
    if |x| == 0 {
      assert x + y == y;
    } else {
      var t, v := LittleEndian(x[1..]), LittleEndian(y);
      assert (x + y)[1..] == x[1..] + y;
      LittleEndianAppend(x[1..], y);
      Pow2Byte(|x| - 1);
      Regroup(x[0], t, Pow2(8 * (|x| - 1)), v);
    }
  }

  lemma Pow2Byte(n: nat)
    ensures Pow2(8 * (n + 1)) == 0x100 * Pow2(8 * n)
  {
    Pow2Sum(8, 8 * n);
    assert Pow2(8) == 0x100;
  }

  lemma Regroup(b: nat, t: nat, q: nat, v: nat)
    ensures b + 0x100 * (t + q * v) == b + 0x100 * t + (0x100 * q) * v
  {
  }

  lemma {:induction false} LittleEndianBound(m: seq<byte>)
    ensures LittleEndian(m) < Pow2(8 * |m|)
  {
    if |m| != 0 {
      LittleEndianBound(m[1..]);
      Pow2Byte(|m| - 1);
    }
  }

  lemma {:induction false} LittleEndianZeros(n: nat)
    ensures LittleEndian(seq(n, i => 0)) == 0
  {
    if n != 0 {
      assert seq(n, i => 0 as byte)[1..] == seq(n - 1, i => 0);
      LittleEndianZeros(n - 1);
    }
  }

  lemma {:induction false} NumberBytes(n: nat, len: nat)
    requires n < Pow2(8 * len)
    ensures LittleEndian(ToBytes(n, len)) == n
  {
    if len != 0 {
      Pow2Byte(len - 1);
      NumberBytes(n / 0x100, len - 1);
      assert ToBytes(n, len)[1..] == ToBytes(n / 0x100, len - 1);
    }
  }

  lemma Number64(n: u64)
    ensures LittleEndian(ToBytes(n, 8)) == n
  {
    Pow2At64();
    NumberBytes(n, 8);
  }

  lemma SixteenBytes(m: seq<byte>)
    requires |m| == 16
    ensures LittleEndian(m) == Load32(m, 0) + 0x1_0000_0000 * Load32(m, 4)
             + 0x1_0000_0000_0000_0000 * Load32(m, 8)
             + 0x1_0000_0000_0000_0000_0000_0000 * Load32(m, 12)
  {
    FourBytes(m, 12);
    FourBytes(m, 8);
    FourBytes(m, 4);
    FourBytes(m, 0);
    assert m[0..] == m && m[16..] == [];
  }

  lemma FourBytes(m: seq<byte>, off: nat)
    requires off + 4 <= |m|
    ensures LittleEndian(m[off..]) == Load32(m, off) + 0x1_0000_0000 * LittleEndian(m[off + 4..])
  {
    Head(m, off);
    Head(m, off + 1);
    Head(m, off + 2);
    Head(m, off + 3);
  }

  lemma Head(m: seq<byte>, off: nat)
    requires off < |m|
    ensures LittleEndian(m[off..]) == m[off] + 0x100 * LittleEndian(m[off + 1..])
  {
    assert m[off..][1..] == m[off + 1..];
  }

  /** Sixteen bytes are determined by the number they stand for. */
  lemma {:induction false} ToBytesUnique(bs: seq<byte>, n: nat)
    requires LittleEndian(bs) == n
    ensures ToBytes(n, |bs|) == bs
  {
    if |bs| != 0 {
      var t := LittleEndian(bs[1..]);
      assert n == bs[0] + 0x100 * t;
      assert n % 0x100 == bs[0] && n / 0x100 == t;
      ToBytesUnique(bs[1..], t);
    }
  }

  /** Four words stored one after another. */
  method StoreWords(w0: nat, w1: nat, w2: nat, w3: nat) returns (bs: seq<byte>)
    requires w0 < 0x1_0000_0000 && w1 < 0x1_0000_0000 && w2 < 0x1_0000_0000 && w3 < 0x1_0000_0000
    ensures |bs| == 16
    ensures LittleEndian(bs) == w0 + 0x1_0000_0000 * w1 + 0x1_0000_0000_0000_0000 * w2
                                + 0x1_0000_0000_0000_0000_0000_0000 * w3
  {
    var p := Store32(w0) + Store32(w1);
    bs := p + Store32(w2) + Store32(w3);
    LoadStored(bs, [], w0, Store32(w1) + Store32(w2) + Store32(w3));
    LoadStored(bs, Store32(w0), w1, Store32(w2) + Store32(w3));
    LoadStored(bs, p, w2, Store32(w3));
    LoadStored(bs, p + Store32(w2), w3, []);
    SixteenBytes(bs);
  }

  lemma LoadStored(bs: seq<byte>, before: seq<byte>, w: u32, after: seq<byte>)
    requires bs == before + Store32(w) + after
    ensures Load32(bs, |before|) == w
  {
    var k := |before|;
    assert bs[k] == Store32(w)[0] && bs[k + 1] == Store32(w)[1] && bs[k + 2] == Store32(w)[2]
      && bs[k + 3] == Store32(w)[3];
    StoreLoad(w);
  }

  lemma StoreLoad(w: u32)
    ensures Word(w % 0x100, (w / 0x100) % 0x100, (w / 0x1_0000) % 0x100, w / 0x100_0000) == w
  {
    var x, y := w / 0x100, w / 0x1_0000;
    assert x / 0x100 == y && y / 0x100 == w / 0x100_0000;
    DivMod(w, 0x100);
    DivMod(x, 0x100);
    DivMod(y, 0x100);
  }
}
