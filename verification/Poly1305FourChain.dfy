/**
 Poly1305 as four interleaved Horner chains in r^4 (`poly1305_x4`): the message
 polynomial re-associated, and proved equal to the serial evaluation of RFC 8439.
 */
module Poly1305FourChain {
  import opened Bits
  import opened Endian
  import opened Poly1305Spec
  import opened Poly1305Limbs44

  // The algebra, on integers

  /** a0 r^4 + a1 r^3 + a2 r^2 + a3 r, given the powers of r. */
  ghost function Combined(p4: int, p3: int, p2: int, p1: int, a0: int, a1: int, a2: int, a3: int): int {
    a0 * p4 + a1 * p3 + a2 * p2 + a3 * p1
  }

  ghost function Number(block: seq<byte>): nat {
    LittleEndian(block) + TWO128
  }

  lemma StepIs(r: nat, a: nat, x: int, n: nat)
    requires Congruent(a, x)
    ensures Congruent(Times(a + n, r), (x + n) * r)
  {
    var y := (a + n) * r;
    Reflexive(n);
    CongruentSum(a, x, n, n);
    CongruentScaled(a + n, x + n, r);
    TimesIsProduct(a + n, r);
    Reduced(y);
    Transitive(Times(a + n, r), y, (x + n) * r);
  }

  /** Four serial steps are one step of the polynomial in r^4. */
  lemma FourSteps(r: nat, a: nat, n0: nat, n1: nat, n2: nat, n3: nat)
    ensures Congruent(Times(Times(Times(Times(a + n0, r) + n1, r) + n2, r) + n3, r),
                      Combined(r * r * r * r, r * r * r, r * r, r, a + n0, n1, n2, n3))
  {
    var x1 := (a + n0) * r;
    var x2 := (x1 + n1) * r;
    var x3 := (x2 + n2) * r;
    Reflexive(a);
    StepIs(r, a, a, n0);
    StepIs(r, Times(a + n0, r), x1, n1);
    StepIs(r, Times(Times(a + n0, r) + n1, r), x2, n2);
    StepIs(r, Times(Times(Times(a + n0, r) + n1, r) + n2, r), x3, n3);
    Horner(r, a + n0, n1, n2, n3);
  }

  lemma Horner(r: int, a: int, n1: int, n2: int, n3: int)
    ensures (((a * r + n1) * r + n2) * r + n3) * r == Combined(r * r * r * r, r * r * r, r * r, r, a, n1, n2, n3)
  {
    assert (a * r + n1) * r == a * (r * r) + n1 * r;
    assert (a * (r * r) + n1 * r + n2) * r == a * (r * r * r) + n1 * (r * r) + n2 * r;
    assert (a * (r * r * r) + n1 * (r * r) + n2 * r + n3) * r
        == Combined(r * r * r * r, r * r * r, r * r, r, a, n1, n2, n3);
  }

  lemma AbsorbFour(r: nat, a: nat, m: seq<byte>)
    requires |m| == 64
    ensures Congruent(Absorb(r, a, m, TWO128),
                      Combined(r * r * r * r, r * r * r, r * r, r,
                               a + Number(m[..16]), Number(m[16..32]), Number(m[32..48]), Number(m[48..])))
  {
    var n0, n1, n2, n3 := Number(m[..16]), Number(m[16..32]), Number(m[32..48]), Number(m[48..]);
    FourSteps(r, a, n0, n1, n2, n3);
    AbsorbFourTimes(r, a, m);
  }

  lemma AbsorbFourTimes(r: nat, a: nat, m: seq<byte>)
    requires |m| == 64
    ensures Absorb(r, a, m, TWO128)
         == Times(Times(Times(Times(a + Number(m[..16]), r) + Number(m[16..32]), r) + Number(m[32..48]), r)
           + Number(m[48..]), r)
  {
    var a1 := Step(r, a, m[..16], TWO128);
    var a2 := Step(r, a1, m[16..32], TWO128);
    var a3 := Step(r, a2, m[32..48], TWO128);
    assert m[16..][..16] == m[16..32] && m[16..][16..] == m[32..];
    assert m[32..][..16] == m[32..48] && m[32..][16..] == m[48..] == m[48..][..16];
    AbsorbFirst(r, a, m, TWO128);
    AbsorbFirst(r, a1, m[16..], TWO128);
    AbsorbFirst(r, a2, m[32..], TWO128);
    AbsorbFirst(r, a3, m[48..], TWO128);
  }

  /** Advancing every accumulator by r^4 advances what they combine to. */
  lemma Advance(p4: int, p3: int, p2: int, p1: int, a0: int, a1: int, a2: int, a3: int, n0: int, n1: int, n2: int,
      n3: int)
    ensures Combined(p4, p3, p2, p1, a0 * p4 + n0, a1 * p4 + n1, a2 * p4 + n2, a3 * p4 + n3)
         == Combined(p4, p3, p2, p1, Combined(p4, p3, p2, p1, a0, a1, a2, a3) + n0, n1, n2, n3)
  {
  }

  lemma CombinedCongruent(p4: int, p3: int, p2: int, p1: int,
                          a0: int, a1: int, a2: int, a3: int, b0: int, b1: int, b2: int, b3: int)
    requires Congruent(a0, b0) && Congruent(a1, b1) && Congruent(a2, b2) && Congruent(a3, b3)
    ensures Congruent(Combined(p4, p3, p2, p1, a0, a1, a2, a3), Combined(p4, p3, p2, p1, b0, b1, b2, b3))
  {
    CongruentScaled(a0, b0, p4);
    CongruentScaled(a1, b1, p3);
    CongruentScaled(a2, b2, p2);
    CongruentScaled(a3, b3, p1);
    SumFour(a0 * p4, a1 * p3, a2 * p2, a3 * p1, b0 * p4, b1 * p3, b2 * p2, b3 * p1);
  }

  lemma SumFour(a0: int, a1: int, a2: int, a3: int, b0: int, b1: int, b2: int, b3: int)
    requires Congruent(a0, b0) && Congruent(a1, b1) && Congruent(a2, b2) && Congruent(a3, b3)
    ensures Congruent(a0 + a1 + a2 + a3, b0 + b1 + b2 + b3)
  {
    CongruentSum(a0, b0, a1, b1);
    CongruentSum(a0 + a1, b0 + b1, a2, b2);
    CongruentSum(a0 + a1 + a2, b0 + b1 + b2, a3, b3);
  }

  // The powers of r, the four chains, the serial tail

  /** The numbers r, r^2, r^3, r^4. */
  datatype Exact = Exact(p1: nat, p2: nat, p3: nat, p4: nat) {
    ghost predicate Of(r: nat) {
      p1 == r && p2 == r * r && p3 == r * r * r && p4 == r * r * r * r
    }
  }

  datatype Powers = Powers(r: Limbs, r2: Limbs, r3: Limbs, r4: Limbs) {
    ghost predicate Stand(e: Exact) {
      && r.Carried() && r2.Carried() && r3.Carried() && r4.Carried()
      && Congruent(r.Value(), e.p1) && Congruent(r2.Value(), e.p2)
      && Congruent(r3.Value(), e.p3) && Congruent(r4.Value(), e.p4)
    }
  }

  method ComputePowers(r: Limbs) returns (ps: Powers, ghost e: Exact)
    requires r.Canonical()
    ensures ps.r == r && ps.Stand(e) && e.Of(r.Value())
  {
    var r2 := FeMul(r, r);
    var r3 := FeMul(r2, r);
    var r4 := FeMul(r2, r2);
    ps := Powers(r, r2, r3, r4);
    ghost var v := r.Value();
    Reflexive(v);
    Symmetric(v * v, r2.Value());
    CubeStands(v, r2.Value(), r3.Value());
    FourthStands(v, r2.Value(), r4.Value());
    e := Exact(v, v * v, v * v * v, v * v * v * v);
  }

  lemma CubeStands(v: int, x2: int, x3: int)
    requires Congruent(x2, v * v) && Congruent(x2 * v, x3)
    ensures Congruent(x3, v * v * v)
  {
    CongruentScaled(x2, v * v, v);
    Symmetric(x2 * v, x3);
    Transitive(x3, x2 * v, v * v * v);
  }

  lemma FourthStands(v: int, x2: int, x4: int)
    requires Congruent(x2, v * v) && Congruent(x2 * x2, x4)
    ensures Congruent(x4, v * v * v * v)
  {
    CongruentProduct(x2, v * v, x2, v * v);
    Symmetric(x2 * x2, x4);
    SquareOfSquare(v);
    Transitive(x4, x2 * x2, (v * v) * (v * v));
  }

  lemma SquareOfSquare(v: int)
    ensures (v * v) * (v * v) == v * v * v * v
  {
  }

  /** Four accumulators that stand for the accumulator `a` once combined. */
  ghost predicate Chains(acc: seq<Limbs>, e: Exact, a: nat) {
    && |acc| == 4
    && (forall k :: 0 <= k < 4 ==> acc[k].Multiplicand())
    && Congruent(Combined(e.p4, e.p3, e.p2, e.p1,
                          acc[0].Value(), acc[1].Value(), acc[2].Value(), acc[3].Value()), a)
  }

  /** One lane: `acc = acc * r^4 + block`. */
  method Lane(a: Limbs, ps: Powers, block: seq<byte>, ghost e: Exact) returns (a': Limbs)
    requires a.Multiplicand() && ps.Stand(e) && |block| == 16
    ensures a'.Multiplicand()
    ensures Congruent(a'.Value(), a.Value() * e.p4 + Number(block))
  {
    var p := Scaled(a, ps.r4, e.p4);
    a' := AddBlock(p, block, 0x100_0000_0000);
    Reflexive(Number(block));
    CongruentSum(p.Value(), a.Value() * e.p4, Number(block), Number(block));
  }

  /** A group of four whole blocks. */
  method Group(acc: array<Limbs>, ps: Powers, m: seq<byte>, ghost e: Exact, ghost r: nat, ghost a: nat)
    requires acc.Length == 4 && ps.Stand(e) && e.Of(r) && |m| == 64
    requires Chains(acc[..], e, a)
    modifies acc
    ensures Chains(acc[..], e, Absorb(r, a, m, TWO128))
  {
    ghost var before := acc[..];
    Lanes(acc, ps, m, e);
    GroupStep(before, acc[..], m, e, r, a);
  }

  method Lanes(acc: array<Limbs>, ps: Powers, m: seq<byte>, ghost e: Exact)
    requires acc.Length == 4 && ps.Stand(e) && |m| == 64
    requires forall k :: 0 <= k < 4 ==> acc[k].Multiplicand()
    modifies acc
    ensures forall k :: 0 <= k < 4 ==> acc[k].Multiplicand() && Laned(old(acc[..])[k], acc[k], e, m, k)
  {
    ghost var before := acc[..];
    for lane := 0 to 4
      invariant forall k :: 0 <= k < 4 ==> acc[k].Multiplicand()
      invariant forall k :: 0 <= k < lane ==> Laned(before[k], acc[k], e, m, k)
      invariant forall k :: lane <= k < 4 ==> acc[k] == before[k]
    {
      acc[lane] := LaneOf(acc[lane], ps, m, lane, e);
    }
  }

  method LaneOf(a: Limbs, ps: Powers, m: seq<byte>, k: nat, ghost e: Exact) returns (a': Limbs)
    requires a.Multiplicand() && ps.Stand(e) && |m| == 64 && k < 4
    ensures a'.Multiplicand() && Laned(a, a', e, m, k)
  {
    a' := Lane(a, ps, m[16 * k..16 * k + 16], e);
  }

  ghost predicate Laned(x: Limbs, y: Limbs, e: Exact, m: seq<byte>, k: nat)
    requires k < 4 && |m| == 64
  {
    Congruent(y.Value(), x.Value() * e.p4 + Number(m[16 * k..16 * k + 16]))
  }

  lemma GroupStep(x: seq<Limbs>, y: seq<Limbs>, m: seq<byte>, e: Exact, r: nat, a: nat)
    requires Chains(x, e, a) && |y| == 4 && |m| == 64 && e.Of(r)
    requires forall k :: 0 <= k < 4 ==> y[k].Multiplicand()
    requires forall k :: 0 <= k < 4 ==> Laned(x[k], y[k], e, m, k)
    ensures Chains(y, e, Absorb(r, a, m, TWO128))
  {
    var n0, n1, n2, n3 := Number(m[..16]), Number(m[16..32]), Number(m[32..48]), Number(m[48..]);
    Blocks(m);
    assert Laned(x[0], y[0], e, m, 0) && Laned(x[1], y[1], e, m, 1);
    assert Laned(x[2], y[2], e, m, 2) && Laned(x[3], y[3], e, m, 3);
    AdvanceCongruent(e, a, x[0].Value(), x[1].Value(), x[2].Value(), x[3].Value(),
                     y[0].Value(), y[1].Value(), y[2].Value(), y[3].Value(), n0, n1, n2, n3);
    AbsorbFour(r, a, m);
    var c := Combined(e.p4, e.p3, e.p2, e.p1, a + n0, n1, n2, n3);
    Symmetric(Absorb(r, a, m, TWO128), c);
    Transitive(Combined(e.p4, e.p3, e.p2, e.p1, y[0].Value(), y[1].Value(), y[2].Value(), y[3].Value()), c,
               Absorb(r, a, m, TWO128));
  }

  lemma AdvanceCongruent(e: Exact, a: int, x0: int, x1: int, x2: int, x3: int, y0: int, y1: int, y2: int, y3: int,
                         n0: int, n1: int, n2: int, n3: int)
    requires Congruent(Combined(e.p4, e.p3, e.p2, e.p1, x0, x1, x2, x3), a)
    requires Congruent(y0, x0 * e.p4 + n0) && Congruent(y1, x1 * e.p4 + n1)
    requires Congruent(y2, x2 * e.p4 + n2) && Congruent(y3, x3 * e.p4 + n3)
    ensures Congruent(Combined(e.p4, e.p3, e.p2, e.p1, y0, y1, y2, y3),
                      Combined(e.p4, e.p3, e.p2, e.p1, a + n0, n1, n2, n3))
  {
    CombinedCongruent(e.p4, e.p3, e.p2, e.p1, y0, y1, y2, y3,
                      x0 * e.p4 + n0, x1 * e.p4 + n1, x2 * e.p4 + n2, x3 * e.p4 + n3);
    Advance(e.p4, e.p3, e.p2, e.p1, x0, x1, x2, x3, n0, n1, n2, n3);
    var c := Combined(e.p4, e.p3, e.p2, e.p1, x0, x1, x2, x3);
    Reflexive(n0);
    Reflexive(n1);
    Reflexive(n2);
    Reflexive(n3);
    CongruentSum(c, a, n0, n0);
    CombinedCongruent(e.p4, e.p3, e.p2, e.p1, c + n0, n1, n2, n3, a + n0, n1, n2, n3);
    Transitive(Combined(e.p4, e.p3, e.p2, e.p1, y0, y1, y2, y3), Combined(e.p4, e.p3, e.p2, e.p1, c + n0, n1, n2, n3),
               Combined(e.p4, e.p3, e.p2, e.p1, a + n0, n1, n2, n3));
  }

  lemma Blocks(m: seq<byte>)
    requires |m| == 64
    ensures m[16 * 0..16 * 0 + 16] == m[..16] && m[16 * 1..16 * 1 + 16] == m[16..32]
    ensures m[16 * 2..16 * 2 + 16] == m[32..48] && m[16 * 3..16 * 3 + 16] == m[48..]
  {
  }

  /** H = a0 r^4 + a1 r^3 + a2 r^2 + a3 r, with two rounds of carries. */
  method Combine(acc: seq<Limbs>, ps: Powers, ghost e: Exact, ghost a: nat) returns (h: Limbs)
    requires ps.Stand(e) && Chains(acc, e, a)
    ensures h.Carried()
    ensures Congruent(h.Value(), a)
  {
    var p0 := Scaled(acc[0], ps.r4, e.p4);
    var p1 := Scaled(acc[1], ps.r3, e.p3);
    var p2 := Scaled(acc[2], ps.r2, e.p2);
    var p3 := Scaled(acc[3], ps.r, e.p1);
    h := SumCarried(p0, p1, p2, p3);
    CombinedValue(h.Value(), p0.Value(), p1.Value(), p2.Value(), p3.Value(), e,
                  acc[0].Value(), acc[1].Value(), acc[2].Value(), acc[3].Value(), a);
  }

  lemma CombinedValue(h: int, p0: int, p1: int, p2: int, p3: int, e: Exact, a0: int, a1: int, a2: int, a3: int, a: int)
    requires Congruent(h, p0 + p1 + p2 + p3) && Congruent(Combined(e.p4, e.p3, e.p2, e.p1, a0, a1, a2, a3), a)
    requires Congruent(p0, a0 * e.p4) && Congruent(p1, a1 * e.p3) && Congruent(p2, a2 * e.p2)
      && Congruent(p3, a3 * e.p1)
    ensures Congruent(h, a)
  {
    SumFour(p0, p1, p2, p3, a0 * e.p4, a1 * e.p3, a2 * e.p2, a3 * e.p1);
    Transitive(h, p0 + p1 + p2 + p3, Combined(e.p4, e.p3, e.p2, e.p1, a0, a1, a2, a3));
    Transitive(h, Combined(e.p4, e.p3, e.p2, e.p1, a0, a1, a2, a3), a);
  }

  method Scaled(a: Limbs, p: Limbs, ghost v: nat) returns (s: Limbs)
    requires a.Multiplicand() && p.Carried() && Congruent(p.Value(), v)
    ensures s.Carried()
    ensures Congruent(s.Value(), a.Value() * v)
  {
    s := FeMul(a, p);
    ScaledCongruent(a.Value(), p.Value(), v, s.Value());
  }

  lemma ScaledCongruent(a: int, p: int, v: int, s: int)
    requires Congruent(p, v) && Congruent(a * p, s)
    ensures Congruent(s, a * v)
  {
    CongruentScaled(p, v, a);
    Symmetric(a * p, s);
    Transitive(s, a * p, a * v);
  }

  method SumCarried(p0: Limbs, p1: Limbs, p2: Limbs, p3: Limbs) returns (h: Limbs)
    requires p0.Carried() && p1.Carried() && p2.Carried() && p3.Carried()
    ensures h.Carried()
    ensures Congruent(h.Value(), p0.Value() + p1.Value() + p2.Value() + p3.Value())
  {
    var h0 := Wrap64(p0.l0 + p1.l0 + p2.l0 + p3.l0);
    var h1 := Wrap64(p0.l1 + p1.l1 + p2.l1 + p3.l1);
    var h2 := Wrap64(p0.l2 + p1.l2 + p2.l2 + p3.l2);
    h := TwoPasses(h0, h1, h2);
    SumLimbs(p0, p1, p2, p3);
  }

  lemma SumLimbs(p0: Limbs, p1: Limbs, p2: Limbs, p3: Limbs)
    ensures (p0.l0 + p1.l0 + p2.l0 + p3.l0) + B * (p0.l1 + p1.l1 + p2.l1 + p3.l1) + B2 * (p0.l2 + p1.l2 + p2.l2 + p3.l2)
         == p0.Value() + p1.Value() + p2.Value() + p3.Value()
  {
  }

  method TwoPasses(h0: nat, h1: nat, h2: nat) returns (h: Limbs)
    requires h0 < 4 * B && h1 < 4 * B + 0x100 && h2 < 4 * TOP
    ensures h.Carried()
    ensures Congruent(h.Value(), h0 + B * h1 + B2 * h2)
  {
    var e1 := Wrap64(h1 + h0 / B);
    var e2 := Wrap64(h2 + e1 / B);
    var x0 := Wrap64(h0 % B + Wrap64((e2 / TOP) * 5));
    h := Limbs(x0 % B, Wrap64(e1 % B + x0 / B), e2 % TOP);
    PassesSum(h0, h1, h2, h0 / B, e1 / B, e2 / TOP, x0 / B, h0 % B, e1 % B, e2 % TOP, x0 % B);
    Shifted(h.Value(), h0 + B * h1 + B2 * h2, -(e2 / TOP));
  }

  lemma PassesSum(h0: nat, h1: nat, h2: nat, c0: nat, c1: nat, c2: nat, c: nat, x0: nat, x1: nat, x2: nat, y0: nat)
    requires h0 == c0 * B + x0 && h1 + c0 == c1 * B + x1 && h2 + c1 == c2 * TOP + x2 && x0 + 5 * c2 == c * B + y0
    ensures h0 + B * h1 + B2 * h2 == (y0 + B * (x1 + c) + B2 * x2) + c2 * P
  {
  }

  /** What is left after the groups of four, one ordinary Horner step for each block. */
  method Serial(h: Limbs, r: Limbs, m: seq<byte>) returns (h': Limbs)
    requires h.Carried() && r.Carried()
    ensures h'.Carried()
    ensures h'.Value() % P == Digest(r.Value(), h.Value() % P, m)
  {
    h' := h;
    var i := 0;
    while i < |m|
      invariant 0 <= i <= |m|
      invariant h'.Carried()
      invariant Digest(r.Value(), h'.Value() % P, m[i..]) == Digest(r.Value(), h.Value() % P, m)
    {
      var n := if |m| - i < 16 then |m| - i else 16;
      SerialStep(r.Value(), h'.Value() % P, m, i, n);
      if n == 16 {
        h' := Block(h', r, m[i..i + 16], 0x100_0000_0000);
      } else {
        h' := Block(h', r, Padded(m[i..]), 0);
      }
      i := i + n;
    }
    assert m[i..] == [];
  }

  lemma SerialStep(r: nat, a: nat, m: seq<byte>, i: nat, n: nat)
    requires i < |m| && n == if |m| - i < 16 then |m| - i else 16
    ensures n == 16 ==>
      Digest(r, a, m[i..]) == Digest(r, Step(r, a, m[i..i + 16], TWO128), m[i + 16..])
    ensures n < 16 ==> Digest(r, a, m[i..]) == Step(r, a, Padded(m[i..]), 0) && m[i + n..] == []
  {
    var x := m[i..];
    if n == 16 {
      assert x == m[i..i + 16] + m[i + 16..];
      DigestSplit(r, a, m[i..i + 16], m[i + 16..]);
      AbsorbFirst(r, a, m[i..i + 16], TWO128);
      assert m[i..i + 16][..16] == m[i..i + 16];
    } else {
      assert x[..0] == [] && x[0..] == x;
    }
  }

  /** `poly1305_x4`: the tag of section 2.5.1, for every key and every message. */
  method Mac(key: Key, m: seq<byte>) returns (mac: seq<byte>)
    ensures mac == Tag(key, m)
  {
    var r := LoadKey(key);
    var p0, p1 := LoadPad(key);
    ghost var rv := R(key);
    var h, i := Parallel(r, m);
    h := Serial(h, r, m[i..]);
    var f := Pass(h);
    SameResidue(h.Value(), f.Value());
    mac := Squeeze(f, p0, p1);
    ToBytesUnique(mac, (Digest(rv, 0, m) + S(key)) % TWO128);
    DigestTagIsTag(rv, S(key), m);
  }

  /** Everything up to the last multiple of 64 bytes. */
  method Parallel(r: Limbs, m: seq<byte>) returns (h: Limbs, i: nat)
    requires r.Canonical()
    ensures h.Carried() && i <= |m|
    ensures Digest(r.Value(), h.Value() % P, m[i..]) == Digest(r.Value(), 0, m)
  {
    ghost var a;
    h, i, a := Chained(r, m);
    assert m == m[..i] + m[i..];
    DigestSplit(r.Value(), 0, m[..i], m[i..]);
  }

  method Chained(r: Limbs, m: seq<byte>) returns (h: Limbs, i: nat, ghost a: nat)
    requires r.Canonical()
    ensures h.Carried() && i <= |m| && i % 64 == 0
    ensures a == Absorb(r.Value(), 0, m[..i], TWO128) == h.Value() % P
  {
    var ps, e := ComputePowers(r);
    var acc := new Limbs[4](_ => ZERO);
    i, a := Groups(acc, ps, m, e, r.Value());
    h := Combine(acc[..], ps, e, a);
    Residue(h.Value(), a);
  }

  lemma Residue(x: int, a: nat)
    requires Congruent(x, a) && a < P
    ensures x % P == a
  {
    SameResidue(x, a);
  }

  method Groups(acc: array<Limbs>, ps: Powers, m: seq<byte>, ghost e: Exact, ghost r: nat)
      returns (i: nat, ghost a: nat)
    requires acc.Length == 4 && acc[..] == [ZERO, ZERO, ZERO, ZERO] && ps.Stand(e) && e.Of(r)
    modifies acc
    ensures i <= |m| && i % 64 == 0
    ensures Chains(acc[..], e, a) && a == Absorb(r, 0, m[..i], TWO128) < P
  {
    i, a := 0, 0;
    StartChains(acc[..], e);
    while |m| - i >= 64
      invariant 0 <= i <= |m| && i % 64 == 0
      invariant Chains(acc[..], e, a)
      invariant a == Absorb(r, 0, m[..i], TWO128) < P
    {
      ghost var a' := Grown(r, a, m, i);
      Group(acc, ps, m[i..i + 64], e, r, a);
      a := a';
      i := i + 64;
    }
  }

  lemma StartChains(acc: seq<Limbs>, e: Exact)
    requires acc == [ZERO, ZERO, ZERO, ZERO]
    ensures Chains(acc, e, 0)
  {
    assert Combined(e.p4, e.p3, e.p2, e.p1, 0, 0, 0, 0) == 0;
    Reflexive(0);
  }

  lemma Grown(r: nat, a: nat, m: seq<byte>, i: nat) returns (a': nat)
    requires i + 64 <= |m| && i % 64 == 0 && a < P && a == Absorb(r, 0, m[..i], TWO128)
    ensures a' == Absorb(r, a, m[i..i + 64], TWO128) == Absorb(r, 0, m[..i + 64], TWO128)
    ensures a' < P
  {
    assert m[..i + 64] == m[..i] + m[i..i + 64];
    AbsorbAppend(r, 0, m[..i], m[i..i + 64], TWO128);
    AbsorbReduced(r, a, m[i..i + 64]);
    a' := Absorb(r, a, m[i..i + 64], TWO128);
  }

  lemma {:induction false} AbsorbReduced(r: nat, a: nat, m: seq<byte>)
    requires a < P
    ensures Absorb(r, a, m, TWO128) < P
    decreases |m|
  {
    if |m| >= 16 {
      TimesIsProduct(a + LittleEndian(m[..16]) + TWO128, r);
      AbsorbReduced(r, Step(r, a, m[..16], TWO128), m[16..]);
    }
  }
}
