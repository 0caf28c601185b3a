/**
 The exact-width frame-of-reference stream: a header with the base and the width, then the
 deltas packed one after another, low bits first.
 */
module ForPacker {
  import opened Bits
  import opened Endian
  import opened Wrappers

  const HEADER: nat := 16

  /** 2 to the power of the place of delta i. */
  function Weight(i: nat, width: nat): (q: nat)
    ensures q > 0
  {
    if i == 0 then 1 else Pow2(width) * Weight(i - 1, width)
  }

  lemma {:induction false} WeightIs(i: nat, width: nat)
    ensures Weight(i, width) == Pow2(i * width)
  {
    if i == 0 {
      assert 0 * width == 0;
    } else {
      WeightIs(i - 1, width);
      assert i * width == width + (i - 1) * width;
      Pow2Sum(width, (i - 1) * width);
    }
  }

  lemma {:induction false} WeightSum(i: nat, j: nat, width: nat)
    ensures Weight(i + j, width) == Weight(i, width) * Weight(j, width)
  {
    if i != 0 {
      WeightSum(i - 1, j, width);
      Associate(Pow2(width), Weight(i - 1, width), Weight(j, width));
    }
  }

  lemma Associate(a: nat, b: nat, c: nat)
    ensures a * (b * c) == (a * b) * c
  {
  }

  /** The number the packed deltas stand for: delta i at bit i * width. */
  function Total(deltas: seq<nat>, width: nat): (t: nat) {
    if |deltas| == 0 then 0
    else Total(deltas[..|deltas| - 1], width) + Weight(|deltas| - 1, width) * deltas[|deltas| - 1]
  }

  ghost predicate Fit(deltas: seq<nat>, width: nat) {
    forall i :: 0 <= i < |deltas| ==> deltas[i] < Pow2(width)
  }

  lemma {:induction false} TotalBound(deltas: seq<nat>, width: nat)
    requires Fit(deltas, width)
    ensures Total(deltas, width) < Weight(|deltas|, width)
  {
    if |deltas| != 0 {
      var n := |deltas| - 1;
      TotalBound(deltas[..n], width);
      Under(Total(deltas[..n], width), Weight(n, width), deltas[n], Pow2(width));
    }
  }

  lemma Under(t: nat, p: nat, d: nat, q: nat)
    requires t < p && d < q
    ensures t + p * d < q * p
  {
    assert q * p == p * d + p * (q - d);
    AtLeast(q - d, p);
  }

  lemma {:induction false} TotalSplit(deltas: seq<nat>, width: nat, i: nat)
    requires i <= |deltas|
    ensures Total(deltas, width) == Total(deltas[..i], width) + Weight(i, width) * Total(deltas[i..], width)
    decreases |deltas|
  {
    if i == |deltas| {
      assert deltas[..i] == deltas;
    } else {
      var n := |deltas| - 1;
      TotalSplit(deltas[..n], width, i);
      assert deltas[..n][..i] == deltas[..i] && deltas[i..][..n - i] == deltas[..n][i..];
      WeightSum(i, n - i, width);
      Spread(Weight(i, width), Total(deltas[..n][i..], width), Weight(n - i, width), deltas[n]);
    }
  }

  lemma Spread(p: nat, t: nat, q: nat, d: nat)
    ensures p * (t + q * d) == p * t + (p * q) * d
  {
  }

  lemma {:induction false} TotalFirst(deltas: seq<nat>, width: nat)
    requires |deltas| > 0
    ensures Total(deltas, width) == deltas[0] + Pow2(width) * Total(deltas[1..], width)
  {
    TotalSplit(deltas, width, 1);
    assert deltas[..1] == [deltas[0]] && [deltas[0]][..0] == [];
    assert Weight(1, width) == Pow2(width);
  }

  /** Every delta can be read back at its own bit. */
  lemma Recoverable(deltas: seq<nat>, width: nat, i: nat)
    requires i < |deltas| && Fit(deltas, width)
    ensures Total(deltas, width) / Pow2(i * width) % Pow2(width) == deltas[i]
  {
    Upper(deltas, width, i);
    FirstField(deltas[i..], width);
  }

  lemma Upper(deltas: seq<nat>, width: nat, i: nat)
    requires i <= |deltas| && Fit(deltas, width)
    ensures Total(deltas, width) / Pow2(i * width) == Total(deltas[i..], width)
  {
    TotalSplit(deltas, width, i);
    TotalBound(deltas[..i], width);
    WeightIs(i, width);
    Quotient(Total(deltas, width), Total(deltas[..i], width), Total(deltas[i..], width), Weight(i, width));
  }

  lemma FirstField(deltas: seq<nat>, width: nat)
    requires |deltas| > 0 && deltas[0] < Pow2(width)
    ensures Total(deltas, width) % Pow2(width) == deltas[0]
  {
    TotalFirst(deltas, width);
    Quotient(Total(deltas, width), deltas[0], Total(deltas[1..], width), Pow2(width));
  }

  // Numbers of any size and sign

  /** The OR of two numbers of which the negative ones have ones without end. */
  function OrInt(a: int, b: int): (r: int)
    decreases if a < 0 then -a else a
  {
    if a == 0 then b
    else if a == -1 then -1
    else 2 * OrInt(a / 2, b / 2) + if a % 2 == 1 || b % 2 == 1 then 1 else 0
  }

  /** On numbers that are not negative it is the OR of machine words. */
  lemma {:induction false} OrIsOr(a: nat, b: nat)
    ensures OrInt(a, b) == Or(a, b)
    decreases a
  {
    if a != 0 {
      OrIsOr(a / 2, b / 2);
      if b == 0 {
        assert Or(a / 2, 0) == a / 2;
      }
    }
  }

  /** A shift up by k bits, as k doublings. */
  function Shifted(b: int, k: nat): (r: int) {
    if k == 0 then b else 2 * Shifted(b, k - 1)
  }

  lemma {:induction false} ShiftedIs(b: int, k: nat)
    ensures Shifted(b, k) == b * Pow2(k)
  {
    if k != 0 {
      ShiftedIs(b, k - 1);
    }
  }

  lemma OrUnfold(a: int, b: int)
    ensures OrInt(a, b) == 2 * OrInt(a / 2, b / 2) + if a % 2 == 1 || b % 2 == 1 then 1 else 0
  {
  }

  /** An OR above the lowest k bits leaves those alone. */
  lemma {:induction false} OrIntShifted(low: nat, a: int, x: int, k: nat)
    requires low < Pow2(k)
    ensures OrInt(low + Shifted(a, k), Shifted(x, k)) == low + Shifted(OrInt(a, x), k)
    decreases k
  {
    if k != 0 {
      OrIntShifted(low / 2, a, x, k - 1);
      OrHalves(low, Shifted(a, k - 1), Shifted(x, k - 1), low + Shifted(a, k), Shifted(x, k),
               Shifted(OrInt(a, x), k), Shifted(OrInt(a, x), k - 1));
    }
  }

  lemma OrHalves(low: nat, a: int, x: int, y: int, z: int, r: int, h: int)
    requires y == low + 2 * a && z == 2 * x && r == 2 * h && OrInt(low / 2 + a, x) == low / 2 + h
    ensures OrInt(y, z) == low + r
  {
    OrUnfold(y, z);
  }

  lemma OrAbove(low: nat, a: int, x: int, k: nat)
    requires low < Pow2(k)
    ensures OrInt(low + a * Pow2(k), x * Pow2(k)) == low + OrInt(a, x) * Pow2(k)
  {
    OrIntShifted(low, a, x, k);
    ShiftedIs(a, k);
    ShiftedIs(x, k);
    ShiftedIs(OrInt(a, x), k);
  }

  // What the packer makes of any deltas

  /** The deltas, each shifted to its own bit, put together with OR. */
  function Packed(deltas: seq<int>, width: nat): (v: int) {
    if |deltas| == 0 then 0
    else OrInt(Packed(deltas[..|deltas| - 1], width), deltas[|deltas| - 1] * Pow2((|deltas| - 1) * width))
  }

  lemma OrSum(a: nat, d: nat, k: nat, w: nat)
    requires a < w == Pow2(k)
    ensures OrInt(a, d * Pow2(k)) == a + w * d
  {
    var x: nat := d * w;
    OrDisjoint(a, d, k);
    OrIsOr(a, x);
  }

  /** Deltas that fit do not overlap. */
  lemma {:induction false} PackedIsTotal(deltas: seq<nat>, width: nat)
    requires Fit(deltas, width)
    ensures Packed(deltas, width) == Total(deltas, width)
  {
    if |deltas| != 0 {
      var n := |deltas| - 1;
      PackedIsTotal(deltas[..n], width);
      TotalBound(deltas[..n], width);
      WeightIs(n, width);
      OrSum(Total(deltas[..n], width), deltas[n], n * width, Weight(n, width));
    }
  }

  /** The number of bytes that bits take. */
  function ByteCount(bits: nat): (n: nat)
    ensures bits <= 8 * n < bits + 8
  {
    (bits + 7) / 8
  }

  lemma TotalFits(deltas: seq<nat>, width: nat)
    requires Fit(deltas, width)
    ensures Packed(deltas, width) % Pow2(8 * ByteCount(|deltas| * width)) == Total(deltas, width)
  {
    var n := |deltas| * width;
    PackedIsTotal(deltas, width);
    TotalBound(deltas, width);
    WeightIs(|deltas|, width);
    Pow2Monotone(n, 8 * ByteCount(n));
    Quotient(Total(deltas, width), Total(deltas, width), 0, Pow2(8 * ByteCount(n)));
  }

  // The packer

  /** `used` bits have come in, and `total` with them: the lowest bits of it are in the stream
      below `pos`, the others in the accumulator, and the rest of the stream is zero. */
  ghost predicate Written(stream: seq<byte>, pos: nat, acc: int, bits: nat, total: int, used: nat) {
    && HEADER <= pos <= |stream| && 8 * (pos - HEADER) + bits == used
    && LittleEndian(stream[HEADER..pos]) + Pow2(8 * (pos - HEADER)) * acc == total
    && forall k :: pos <= k < |stream| ==> stream[k] == 0
  }

  /** `accumulator |= delta << bits`. */
  lemma DeltaWritten(stream: seq<byte>, pos: nat, acc: int, bits: nat, total: int, used: nat, delta: int, width: nat)
    requires Written(stream, pos, acc, bits, total, used)
    ensures Written(stream, pos, OrInt(acc, delta * Pow2(bits)), bits + width, OrInt(total, delta * Pow2(used)),
      used + width)
  {
    LittleEndianBound(stream[HEADER..pos]);
    OrBits(LittleEndian(stream[HEADER..pos]), acc, delta, 8 * (pos - HEADER), bits, delta * Pow2(bits),
      delta * Pow2(used));
  }

  lemma OrBits(low: nat, acc: int, delta: int, m: nat, bits: nat, x: int, y: int)
    requires low < Pow2(m) && x == delta * Pow2(bits) && y == delta * Pow2(m + bits)
    ensures low + Pow2(m) * OrInt(acc, x) == OrInt(low + Pow2(m) * acc, y)
  {
    Pow2Sum(m, bits);
    Reordered(Pow2(m), delta, Pow2(bits), x);
    OrAbove(low, acc, x, m);
  }

  lemma Reordered(p: nat, d: int, q: nat, x: int)
    requires x == d * q
    ensures d * (p * q) == x * p
  {
  }

  lemma ByteWritten(stream: seq<byte>, pos: nat, acc: int, bits: nat, total: int, used: nat, b: byte)
    requires Written(stream, pos, acc, bits, total, used) && bits >= 8 && pos < |stream| && b == acc % 0x100
    ensures Written(stream[pos := b], pos + 1, acc / 0x100, bits - 8, total, used)
  {
    ByteAppended(stream, pos, acc, total, b);
  }

  lemma ByteAppended(stream: seq<byte>, pos: nat, acc: int, total: int, b: byte)
    requires HEADER <= pos < |stream| && b == acc % 0x100
    requires LittleEndian(stream[HEADER..pos]) + Pow2(8 * (pos - HEADER)) * acc == total
    ensures LittleEndian(stream[pos := b][HEADER..pos + 1]) + Pow2(8 * (pos + 1 - HEADER)) * (acc / 0x100) == total
  {
    var next, n := stream[pos := b], pos - HEADER;
    assert next[HEADER..pos + 1] == stream[HEADER..pos] + [b];
    LittleEndianAppend(stream[HEADER..pos], [b]);
    assert LittleEndian([b]) == b;
    Pow2Byte(n);
    Regrouped(Pow2(8 * n), b, acc / 0x100, acc);
  }

  lemma Regrouped(p: nat, b: nat, h: int, acc: int)
    requires acc == b + h * 0x100
    ensures p * b + (0x100 * p) * h == p * acc
  {
  }

  /** A stream that is zero from some byte on stands for the bytes before it. */
  lemma StreamValue(stream: seq<byte>, pos: nat, acc: int, total: int)
    requires HEADER <= pos <= |stream| && forall k :: pos <= k < |stream| ==> stream[k] == 0
    requires LittleEndian(stream[HEADER..pos]) + Pow2(8 * (pos - HEADER)) * acc == total
    ensures LittleEndian(stream[HEADER..]) == total % Pow2(8 * (pos - HEADER))
  {
    var low, zeros := stream[HEADER..pos], seq(|stream| - pos, i => 0 as byte);
    assert stream[HEADER..] == low + zeros;
    LittleEndianAppend(low, zeros);
    LittleEndianZeros(|stream| - pos);
    LittleEndianBound(low);
    Remainder(total, LittleEndian(low), acc, Pow2(8 * (pos - HEADER)));
  }

  lemma Remainder(x: int, lo: nat, hi: int, p: nat)
    requires x == lo + p * hi && lo < p
    ensures x % p == lo
  {
    QuotientUnique(p, x / p, hi, x % p, lo);
  }

  /** The 64-bit two's complement pattern of a base. */
  function Pattern(base: int): (n: nat)
    requires -0x8000_0000_0000_0000 <= base < 0x8000_0000_0000_0000
    ensures n < 0x1_0000_0000_0000_0000
  {
    if base < 0 then base + 0x1_0000_0000_0000_0000 else base
  }

  /** A 64-bit pattern read as a signed number. */
  function Signed(n: nat): (v: int) {
    if n < 0x8000_0000_0000_0000 then n else n - 0x1_0000_0000_0000_0000
  }

  /** The base can be read back from the first eight bytes, the width from the ninth, and the other
      seven are zero. */
  ghost predicate Headed(stream: seq<byte>, base: int, width: nat) {
    && |stream| >= HEADER && Signed(LittleEndian(stream[..8])) == base && stream[8] == width
    && forall k :: 9 <= k < HEADER ==> stream[k] == 0
  }

  method PutHeader(stream: array<byte>, base: int, width: byte)
    requires -0x8000_0000_0000_0000 <= base < 0x8000_0000_0000_0000 && stream.Length >= HEADER
    requires forall k :: 9 <= k < HEADER ==> stream[k] == 0
    modifies stream
    ensures Headed(stream[..], base, width)
    ensures forall k :: 9 <= k < stream.Length ==> stream[k] == old(stream[k])
  {
    var bs := ToBytes(Pattern(base), 8);
    for i := 0 to 8
      invariant forall k :: 0 <= k < i ==> stream[k] == bs[k]
      invariant forall k :: 9 <= k < stream.Length ==> stream[k] == old(stream[k])
    {
      stream[i] := bs[i];
    }
    stream[8] := width;
    assert stream[..][..8] == bs;
    Number64(Pattern(base));
  }

  /** The inner loop: whole bytes leave the accumulator. */
  method Flush(stream: array<byte>, pos: nat, acc: int, bits: nat, ghost total: int, ghost used: nat)
    returns (pos': nat, acc': int, bits': nat)
    requires Written(stream[..], pos, acc, bits, total, used) && HEADER + used / 8 < stream.Length
    modifies stream
    ensures Written(stream[..], pos', acc', bits', total, used) && bits' < 8
    ensures stream[..HEADER] == old(stream[..HEADER])
  {
    pos', acc', bits' := pos, acc, bits;
    while bits' >= 8
      invariant Written(stream[..], pos', acc', bits', total, used)
      invariant stream[..HEADER] == old(stream[..HEADER])
    {
      var b := acc' % 0x100;
      ByteWritten(stream[..], pos', acc', bits', total, used, b);
      ghost var before := stream[..];
      stream[pos'] := b;
      assert stream[..] == before[pos' := b];
      assert stream[..HEADER] == before[..HEADER];
      pos', acc', bits' := pos' + 1, acc' / 0x100, bits' - 8;
    }
  }

  /** One delta comes in, and whole bytes go out. */
  method PutDelta(stream: array<byte>, pos: nat, acc: int, bits: nat, deltas: seq<int>, i: nat, width: nat)
    returns (pos': nat, acc': int, bits': nat)
    requires i < |deltas| && bits < 8
    requires stream.Length == HEADER + ByteCount(|deltas| * width) + 16
    requires Written(stream[..], pos, acc, bits, Packed(deltas[..i], width), i * width)
    modifies stream
    ensures bits' < 8 && stream[..HEADER] == old(stream[..HEADER])
    ensures Written(stream[..], pos', acc', bits', Packed(deltas[..i + 1], width), (i + 1) * width)
  {
    StepUsed(i, |deltas|, width);
    assert deltas[..i + 1][..i] == deltas[..i];
    DeltaWritten(stream[..], pos, acc, bits, Packed(deltas[..i], width), i * width, deltas[i], width);
    var grown := OrInt(acc, deltas[i] * Pow2(bits));
    pos', acc', bits' := Flush(stream, pos, grown, bits + width, Packed(deltas[..i + 1], width), (i + 1) * width);
  }

  method PutLast(stream: array<byte>, pos: nat, acc: int, bits: nat, ghost total: int, ghost used: nat)
    requires Written(stream[..], pos, acc, bits, total, used) && bits < 8 && pos < stream.Length
    modifies stream
    ensures LittleEndian(stream[..][HEADER..]) == total % Pow2(8 * ByteCount(used))
    ensures stream[..HEADER] == old(stream[..HEADER])
  {
    ghost var before := stream[..];
    if bits != 0 {
      var b := acc % 0x100;
      ByteAppended(before, pos, acc, total, b);
      stream[pos] := b;
      assert stream[..] == before[pos := b];
      StreamValue(stream[..], pos + 1, acc / 0x100, total);
      assert ByteCount(used) == pos + 1 - HEADER;
    } else {
      StreamValue(before, pos, acc, total);
      assert ByteCount(used) == pos - HEADER;
    }
    assert stream[..HEADER] == before[..HEADER];
  }

  /** `legacy_for_stream`, given a base and a width that fit the header. */
  method PackFitting(base: int, width: nat, deltas: seq<int>) returns (out: seq<byte>)
    requires -0x8000_0000_0000_0000 <= base < 0x8000_0000_0000_0000 && width < 0x100
    ensures |out| == 32 + ByteCount(|deltas| * width) && Headed(out, base, width)
    ensures LittleEndian(out[HEADER..]) == Packed(deltas, width) % Pow2(8 * ByteCount(|deltas| * width))
  {
    var stream := new byte[HEADER + ByteCount(|deltas| * width) + 16](_ => 0);
    PutHeader(stream, base, width);
    ghost var header := stream[..];
    var acc: int, bits: nat, pos: nat := 0, 0, HEADER;
    assert stream[..][HEADER..HEADER] == [] && 0 * width == 0;
    for i := 0 to |deltas|
      invariant bits < 8 && stream[..HEADER] == header[..HEADER]
      invariant Written(stream[..], pos, acc, bits, Packed(deltas[..i], width), i * width)
    {
      pos, acc, bits := PutDelta(stream, pos, acc, bits, deltas, i, width);
    }
    assert deltas[..|deltas|] == deltas;
    PutLast(stream, pos, acc, bits, Packed(deltas, width), |deltas| * width);
    out := stream[..];
    assert out[..HEADER] == stream[..HEADER];
    KeepHeader(header, out, base, width);
  }

  /** `legacy_for_stream`: an exception exactly when the base or the width does not fit the header.
      Otherwise the bytes behind it are the deltas, of any size and sign, put together with OR and
      cut to the bits they are given. Where every delta fits its width, that is their sum. */
  method Pack(base: int, width: int, deltas: seq<int>) returns (out: Option<seq<byte>>)
    ensures out.Some? <==> -0x8000_0000_0000_0000 <= base < 0x8000_0000_0000_0000 && 0 <= width < 0x100
    ensures out.Some? ==> |out.value| == 32 + ByteCount(|deltas| * width) && Headed(out.value, base, width)
    ensures out.Some? ==>
      LittleEndian(out.value[HEADER..]) == Packed(deltas, width) % Pow2(8 * ByteCount(|deltas| * width))
    ensures out.Some? && (forall i :: 0 <= i < |deltas| ==> 0 <= deltas[i] < Pow2(width)) ==>
      LittleEndian(out.value[HEADER..]) == Total(deltas, width)
  {
    if !(-0x8000_0000_0000_0000 <= base < 0x8000_0000_0000_0000 && 0 <= width < 0x100) {
      return None;
    }
    var stream := PackFitting(base, width, deltas);
    if forall i :: 0 <= i < |deltas| ==> 0 <= deltas[i] < Pow2(width) {
      TotalFits(deltas, width);
    }
    out := Some(stream);
  }

  lemma StepUsed(i: nat, n: nat, width: nat)
    requires i < n
    ensures (i + 1) * width == i * width + width && (i + 1) * width <= n * width
  {
    assert n * width == (i + 1) * width + (n - i - 1) * width;
  }

  lemma KeepHeader(before: seq<byte>, after: seq<byte>, base: int, width: nat)
    requires |before| == |after| && |after| >= HEADER && before[..HEADER] == after[..HEADER]
      && Headed(before, base, width)
    ensures Headed(after, base, width)
  {
    assert before[..8] == before[..HEADER][..8] && after[..8] == after[..HEADER][..8];
    assert forall k :: 8 <= k < HEADER ==> before[k] == before[..HEADER][k] && after[k] == after[..HEADER][k];
  }
}
