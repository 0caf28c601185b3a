/**
 The vector drivers: four row registers with shuffles between column and diagonal rounds,
 and one register for each word of the state holding that word of four or eight blocks.
 */
module ChaCha20Vector {
  import opened ChaCha20Spec
  import opened CounterMode
  import opened ChaCha20

  type Vec = seq<Word>

  // Registers

  function Mapped<W>(f: W -> W, v: seq<W>): (r: seq<W>)
    ensures |r| == |v|
  {
    seq(|v|, i requires 0 <= i < |v| => f(v[i]))
  }

  lemma MapThenZip<W(!new)>(op: (W, W) -> W, f: W -> W, g: W -> W, h: W -> W, v: seq<W>)
    requires forall x :: op(f(x), g(x)) == h(x)
    ensures Zipped(op, Mapped(f, v), Mapped(g, v)) == Mapped(h, v)
  {
  }

  /** `rotl_epi32`: two shifts and an OR of whole registers rotate every lane. */
  method RotlLanes(t: Turn, v: Vec) returns (r: Vec)
    requires t.Sound()
    ensures r == Mapped(t.rotate, v)
  {
    r := Zip(WordOr, Mapped(t.left, v), Mapped(t.right, v));
    var join := WordOr;
    forall x ensures join(t.left(x), t.right(x)) == t.rotate(x) {
      assert WordOr(t.left(x), t.right(x)) == t.rotate(x);
    }
    MapThenZip(join, t.left, t.right, t.rotate, v);
  }

  ghost predicate MixedLanes(rotate: Word -> Word, a: Vec, b: Vec, d: Vec, sum: Vec, turned: Vec) {
    && |a| == |b| == |d| == |sum| == |turned|
    && forall l :: 0 <= l < |a| ==> (sum[l], turned[l]) == AddXor(rotate, a[l], b[l], d[l])
  }

  method AddXorRotateLanes(t: Turn, a: Vec, b: Vec, d: Vec) returns (sum: Vec, turned: Vec)
    requires |a| == |b| == |d| && t.Sound()
    ensures MixedLanes(t.rotate, a, b, d, sum, turned)
  {
    sum := Zip(Plus, a, b);
    turned := Zip(WordXor, d, sum);
    turned := RotlLanes(t, turned);
  }

  /** Every lane of four registers goes through its own quarter-round. */
  ghost predicate Lanewise<W(!new)>(qr: Mixer<W>, q: Quad<seq<W>>, r: Quad<seq<W>>) {
    && |q.0| == |q.1| == |q.2| == |q.3| == |r.0| == |r.1| == |r.2| == |r.3|
    && forall l :: 0 <= l < |q.0| ==> (r.0[l], r.1[l], r.2[l], r.3[l]) == qr((q.0[l], q.1[l], q.2[l], q.3[l]))
  }

  method QuarterLanes(q: Quad<Vec>) returns (r: Quad<Vec>)
    requires |q.0| == |q.1| == |q.2| == |q.3|
    ensures Lanewise(QuarterRound, q, r)
  {
    var (a, b, c, d) := q;
    Sound16();
    Sound12();
    Sound8();
    Sound7();
    var a1, d1 := AddXorRotateLanes(TURN16, a, b, d);
    var c1, b1 := AddXorRotateLanes(TURN12, c, d1, b);
    var a2, d2 := AddXorRotateLanes(TURN8, a1, b1, d1);
    var c2, b2 := AddXorRotateLanes(TURN7, c1, d2, b1);
    r := (a2, b2, c2, d2);
  }

  // Rows

  /** `_mm_shuffle_epi32`: two bits of the immediate choose each lane. */
  function Shuffle<W>(v: seq<W>, imm: nat): (r: seq<W>)
    requires |v| == 4 && imm < 256
    ensures |r| == 4
  {
    [v[imm % 4], v[imm / 4 % 4], v[imm / 16 % 4], v[imm / 64]]
  }

  lemma RowsAreAColumnRound<W(!new)>(qr: Mixer<W>, q: Quad<seq<W>>, r: Quad<seq<W>>)
    requires Lanewise(qr, q, r) && |q.0| == 4
    ensures r.0 + r.1 + r.2 + r.3 == ColumnRound(qr, q.0 + q.1 + q.2 + q.3)
  {
    ColumnRoundUpright(qr, q.0 + q.1 + q.2 + q.3);
  }

  /** Rows that slide by one, two and three lanes put the diagonals under one another. */
  lemma SlidDiagonal<W>(q: Quad<seq<W>>, j: nat)
    requires |q.0| == |q.1| == |q.2| == |q.3| == 4 && j < 4
    ensures DiagonalOf(q.0 + q.1 + q.2 + q.3, j)
      == (q.0[j], Shuffle(q.1, 0x39)[j], Shuffle(q.2, 0x4E)[j], Shuffle(q.3, 0x93)[j])
  {
  }

  lemma SlidRowsAreADiagonalRound<W(!new)>(qr: Mixer<W>, q: Quad<seq<W>>, r: Quad<seq<W>>)
    requires |q.0| == |q.1| == |q.2| == |q.3| == 4
    requires Lanewise(qr, (q.0, Shuffle(q.1, 0x39), Shuffle(q.2, 0x4E), Shuffle(q.3, 0x93)), r)
    ensures r.0 + Shuffle(r.1, 0x93) + Shuffle(r.2, 0x4E) + Shuffle(r.3, 0x39)
      == DiagonalRound(qr, q.0 + q.1 + q.2 + q.3)
  {
    var x := q.0 + q.1 + q.2 + q.3;
    forall j | 0 <= j < 4 ensures qr(DiagonalOf(x, j)) == (r.0[j], r.1[j], r.2[j], r.3[j]) {
      SlidDiagonal(q, j);
    }
    SlidBack(r, qr(DiagonalOf(x, 0)), qr(DiagonalOf(x, 1)), qr(DiagonalOf(x, 2)), qr(DiagonalOf(x, 3)));
    DiagonalRoundSlanted(qr, x);
  }

  lemma SlidBack<W>(r: Quad<seq<W>>, q0: Quad<W>, q1: Quad<W>, q2: Quad<W>, q3: Quad<W>)
    requires |r.0| == |r.1| == |r.2| == |r.3| == 4
    requires q0 == (r.0[0], r.1[0], r.2[0], r.3[0]) && q1 == (r.0[1], r.1[1], r.2[1], r.3[1])
    requires q2 == (r.0[2], r.1[2], r.2[2], r.3[2]) && q3 == (r.0[3], r.1[3], r.2[3], r.3[3])
    ensures r.0 + Shuffle(r.1, 0x93) + Shuffle(r.2, 0x4E) + Shuffle(r.3, 0x39) == Slanted(q0, q1, q2, q3)
  {
  }

  method RowRounds(v: Quad<Vec>) returns (r: Quad<Vec>)
    requires |v.0| == |v.1| == |v.2| == |v.3| == 4
    ensures |r.0| == |r.1| == |r.2| == |r.3| == 4
    ensures r.0 + r.1 + r.2 + r.3 == Rounds(QuarterRound, v.0 + v.1 + v.2 + v.3, 10)
  {
    r := v;
    for i := 0 to 10
      invariant |r.0| == |r.1| == |r.2| == |r.3| == 4
      invariant r.0 + r.1 + r.2 + r.3 == Rounds(QuarterRound, v.0 + v.1 + v.2 + v.3, i)
    {
      var q := QuarterLanes(r);
      RowsAreAColumnRound(QuarterRound, r, q);
      var p := QuarterLanes((q.0, Shuffle(q.1, 0x39), Shuffle(q.2, 0x4E), Shuffle(q.3, 0x93)));
      SlidRowsAreADiagonalRound(QuarterRound, q, p);
      r := (p.0, Shuffle(p.1, 0x93), Shuffle(p.2, 0x4E), Shuffle(p.3, 0x39));
    }
  }

  method RowBlock(v: Quad<Vec>, ghost m: Mode<Word, bv8>, ghost c: Word) returns (ks: Block64)
    requires |v.0| == |v.1| == |v.2| == |v.3| == 4 && Stands(m, v.0 + v.1 + v.2 + v.3, c)
    ensures m.Gives(c, ks)
  {
    var r := RowRounds(v);
    var a := Zip(Plus, r.0, v.0);
    var b := Zip(Plus, r.1, v.1);
    var e := Zip(Plus, r.2, v.2);
    var d := Zip(Plus, r.3, v.3);
    ZippedRows(Plus, r, v);
    ks := StoreState(a + b + e + d);
    StandsGives(m, v.0 + v.1 + v.2 + v.3, c);
  }

  lemma ZippedRows<W>(op: (W, W) -> W, r: Quad<seq<W>>, v: Quad<seq<W>>)
    requires |v.0| == |v.1| == |v.2| == |v.3| == 4 && |r.0| == |r.1| == |r.2| == |r.3| == 4
    ensures Zipped(op, r.0, v.0) + Zipped(op, r.1, v.1) + Zipped(op, r.2, v.2) + Zipped(op, r.3, v.3)
      == Zipped(op, r.0 + r.1 + r.2 + r.3, v.0 + v.1 + v.2 + v.3)
  {
  }

  /** Adding one to the first lane of the last row moves the counter on and nothing else. */
  method RowsMoveOn(v: Quad<Vec>, ghost m: Mode<Word, bv8>, ghost c: Word) returns (t: Quad<Vec>)
    requires |v.0| == |v.1| == |v.2| == |v.3| == 4 && Stands(m, v.0 + v.1 + v.2 + v.3, c)
    ensures |t.0| == |t.1| == |t.2| == |t.3| == 4 && Stands(m, t.0 + t.1 + t.2 + t.3, Succ(c))
  {
    var last := Zip(Plus, v.3, [1, 0, 0, 0]);
    t := (v.0, v.1, v.2, last);
    ghost var s := v.0 + v.1 + v.2 + v.3;
    assert s[12] == v.3[0];
    assert last[0] == Plus(v.3[0], 1) && last[1] == Plus(v.3[1], 0);
    assert last[2] == Plus(v.3[2], 0) && last[3] == Plus(v.3[3], 0);
    assert last == v.3[0 := Succ(c)];
    assert t.0 + t.1 + t.2 + t.3 == WithCounter(s, Succ(c));
    StandsAt(m, s, Succ(c));
  }

  /** `chacha20_xor_sse2`: one block at a time, the state in four row registers. */
  method XorRows(key: Key, counter: Word, nonce: Nonce, buf: array<bv8>, ghost m: Mode<Word, bv8>)
    requires Runs(m, key, nonce)
    modifies buf
    ensures buf[..] == m.Combined(counter, old(buf[..]))
  {
    ghost var was, k := buf[..], 0;
    var done := 0;
    var s := Prepare(key, counter, nonce, m);
    var v := (s[..4], s[4..8], s[8..12], s[12..]);
    assert v.0 + v.1 + v.2 + v.3 == s;
    while done < buf.Length
      invariant |v.0| == |v.1| == |v.2| == |v.3| == 4 && Stands(m, v.0 + v.1 + v.2 + v.3, m.Advance(counter, k))
      invariant (done < buf.Length ==> done == 64 * k) && m.Partly(counter, was, buf[..], done)
    {
      var n := if buf.Length - done < 64 then buf.Length - done else 64;
      var ks := RowBlock(v, m, m.Advance(counter, k));
      CombineBlock(ByteXor, buf, done, n, ks, m, counter, was, k);
      done := done + n;
      v := RowsMoveOn(v, m, m.Advance(counter, k));
      k := k + 1;
    }
    m.PartlyAll(counter, was, buf[..]);
  }

  // One register for each word, one lane for each block

  /** The state that one lane holds. */
  function LaneOf<W>(x: seq<seq<W>>, l: nat): (s: seq<W>)
    requires |x| == 16 && forall i :: 0 <= i < 16 ==> l < |x[i]|
    ensures |s| == 16
  {
    seq(16, i requires 0 <= i < 16 => x[i][l])
  }

  ghost predicate Wide<W>(x: seq<seq<W>>, w: nat) {
    |x| == 16 && forall i :: 0 <= i < 16 ==> |x[i]| == w
  }

  lemma LaneAt<W(!new)>(qr: Mixer<W>, x: seq<seq<W>>, w: nat, a: nat, b: nat, c: nat, d: nat, r: Quad<seq<W>>, l: nat)
    requires Wide(x, w) && a < 4 <= b < 8 <= c < 12 <= d < 16 && l < w
    requires Lanewise(qr, (x[a], x[b], x[c], x[d]), r)
    ensures LaneOf(x[a := r.0][b := r.1][c := r.2][d := r.3], l) == At(qr, LaneOf(x, l), a, b, c, d)
  {
    AtPlaces(qr, LaneOf(x, l), a, b, c, d);
  }

  method QuarterAtLanes(x: seq<Vec>, ghost w: nat, a: nat, b: nat, c: nat, d: nat) returns (y: seq<Vec>)
    requires Wide(x, w) && a < 4 <= b < 8 <= c < 12 <= d < 16
    ensures Wide(y, w) && forall l :: 0 <= l < w ==> LaneOf(y, l) == At(QuarterRound, LaneOf(x, l), a, b, c, d)
  {
    var r := QuarterLanes((x[a], x[b], x[c], x[d]));
    y := x[a := r.0][b := r.1][c := r.2][d := r.3];
    forall l | 0 <= l < w ensures LaneOf(y, l) == At(QuarterRound, LaneOf(x, l), a, b, c, d) {
      LaneAt(QuarterRound, x, w, a, b, c, d, r, l);
    }
  }

  method ColumnLanes(x: seq<Vec>, ghost w: nat) returns (y: seq<Vec>)
    requires Wide(x, w)
    ensures Wide(y, w) && forall l :: 0 <= l < w ==> LaneOf(y, l) == ColumnRound(QuarterRound, LaneOf(x, l))
  {
    y := QuarterAtLanes(x, w, 0, 4, 8, 12);
    y := QuarterAtLanes(y, w, 1, 5, 9, 13);
    y := QuarterAtLanes(y, w, 2, 6, 10, 14);
    y := QuarterAtLanes(y, w, 3, 7, 11, 15);
    forall l | 0 <= l < w ensures LaneOf(y, l) == ColumnRound(QuarterRound, LaneOf(x, l)) {
      FourColumnsAreARound(QuarterRound, LaneOf(x, l));
    }
  }

  method DiagonalLanes(x: seq<Vec>, ghost w: nat) returns (y: seq<Vec>)
    requires Wide(x, w)
    ensures Wide(y, w) && forall l :: 0 <= l < w ==> LaneOf(y, l) == DiagonalRound(QuarterRound, LaneOf(x, l))
  {
    y := QuarterAtLanes(x, w, 0, 5, 10, 15);
    y := QuarterAtLanes(y, w, 1, 6, 11, 12);
    y := QuarterAtLanes(y, w, 2, 7, 8, 13);
    y := QuarterAtLanes(y, w, 3, 4, 9, 14);
    forall l | 0 <= l < w ensures LaneOf(y, l) == DiagonalRound(QuarterRound, LaneOf(x, l)) {
      FourDiagonalsAreARound(QuarterRound, LaneOf(x, l));
    }
  }

  method LaneRounds(x: seq<Vec>, ghost w: nat) returns (y: seq<Vec>)
    requires Wide(x, w)
    ensures Wide(y, w) && forall l :: 0 <= l < w ==> LaneOf(y, l) == Rounds(QuarterRound, LaneOf(x, l), 10)
  {
    y := x;
    for i := 0 to 10
      invariant Wide(y, w) && forall l :: 0 <= l < w ==> LaneOf(y, l) == Rounds(QuarterRound, LaneOf(x, l), i)
    {
      y := ColumnLanes(y, w);
      y := DiagonalLanes(y, w);
    }
  }

  /** The same state in every lane, but for the counters. */
  method Spread(s: seq<Word>, counters: Vec) returns (x: seq<Vec>)
    requires |s| == 16
    ensures Wide(x, |counters|)
    ensures forall l :: 0 <= l < |counters| ==> LaneOf(x, l) == WithCounter(s, counters[l])
  {
    var w := |counters|;
    x := seq(16, i requires 0 <= i < 16 => seq(w, _ => s[i]));
    x := x[12 := counters];
  }

  lemma LaneSum(x: seq<Vec>, o: seq<Vec>, y: seq<Vec>, w: nat, l: nat)
    requires Wide(x, w) && Wide(o, w) && Wide(y, w) && l < w
    requires forall i :: 0 <= i < 16 ==> y[i] == Zipped(Plus, x[i], o[i])
    ensures LaneOf(y, l) == Zipped(Plus, LaneOf(x, l), LaneOf(o, l))
  {
  }

  /** The keystream words of a group of blocks, transposed. */
  method GroupWords(s: seq<Word>, counters: Vec, ghost m: Mode<Word, bv8>) returns (words: seq<Vec>)
    requires |s| == 16 && Stands(m, s, s[12])
    ensures Wide(words, |counters|)
    ensures forall l :: 0 <= l < |counters| ==> GivesWords(m, counters[l], LaneOf(words, l))
  {
    ghost var w := |counters|;
    var o := Spread(s, counters);
    var x := LaneRounds(o, w);
    words := [];
    for i := 0 to 16
      invariant |words| == i && forall k :: 0 <= k < i ==> words[k] == Zipped(Plus, x[k], o[k])
    {
      var sum := Zip(Plus, x[i], o[i]);
      words := words + [sum];
    }
    forall l | 0 <= l < w ensures GivesWords(m, counters[l], LaneOf(words, l)) {
      LaneSum(x, o, words, w, l);
      StandsAt(m, s, counters[l]);
      StandsGives(m, WithCounter(s, counters[l]), counters[l]);
    }
  }

  /** The counters of a group, and the counter of the group after it. */
  method LaneCounters(c: Word, w: nat, ghost m: Mode<Word, bv8>) returns (cs: Vec, next: Word)
    requires (w == 4 || w == 8) && m.next == Succ
    ensures |cs| == w && (forall l :: 0 <= l < w ==> cs[l] == m.Advance(c, l)) && next == m.Advance(c, w)
  {
    SmallAdvances(m, c);
    cs := [c + 0, c + 1, c + 2, c + 3];
    next := c + 4;
    if w == 8 {
      cs := cs + [c + 4, c + 5, c + 6, c + 7];
      next := c + 8;
    }
  }

  lemma SmallAdvances(m: Mode<Word, bv8>, c: Word)
    requires m.next == Succ
    ensures m.Advance(c, 0) == c && m.Advance(c, 1) == c + 1 && m.Advance(c, 2) == c + 2 && m.Advance(c, 3) == c + 3
    ensures m.Advance(c, 4) == c + 4 && m.Advance(c, 5) == c + 5 && m.Advance(c, 6) == c + 6
    ensures m.Advance(c, 7) == c + 7 && m.Advance(c, 8) == c + 8
  {
  }

  /** Combine as many blocks of a group as the buffer has room for. */
  method CombineGroup(buf: array<bv8>, start: nat, w: nat, words: seq<Vec>,
                      ghost m: Mode<Word, bv8>, ghost counter: Word, ghost was: seq<bv8>, ghost k: nat)
    returns (done: nat)
    requires w > 0 && m.op == ByteXor && Wide(words, w) && start == 64 * k < buf.Length
    requires forall l :: 0 <= l < w ==> GivesWords(m, m.Advance(counter, k + l), LaneOf(words, l))
    requires m.Partly(counter, was, buf[..], start)
    modifies buf
    ensures start < done <= buf.Length && m.Partly(counter, was, buf[..], done)
    ensures done < buf.Length ==> done == 64 * (k + w)
  {
    var chunk, blk := buf.Length - start, 0;
    done := start;
    while blk < w && chunk > 0
      invariant blk <= w && chunk == buf.Length - done && start <= done <= buf.Length && (blk > 0 ==> start < done)
      invariant chunk > 0 ==> done == 64 * (k + blk)
      invariant m.Partly(counter, was, buf[..], done)
      decreases w - blk
    {
      var n := if chunk < 64 then chunk else 64;
      var ks := StoreState(LaneOf(words, blk));
      CombineBlock(ByteXor, buf, done, n, ks, m, counter, was, k + blk);
      done := done + n;
      chunk := chunk - n;
      blk := blk + 1;
    }
  }

  /** `chacha20_xor_sse2x4` with w = 4 and `chacha20_xor_avx2` with w = 8. */
  method XorLanes(key: Key, counter: Word, nonce: Nonce, buf: array<bv8>, w: nat, ghost m: Mode<Word, bv8>)
    requires Runs(m, key, nonce) && (w == 4 || w == 8)
    modifies buf
    ensures buf[..] == m.Combined(counter, old(buf[..]))
  {
    ghost var was, k: nat := buf[..], 0;
    var done := 0;
    var s := Prepare(key, counter, nonce, m);
    while done < buf.Length
      invariant Stands(m, s, m.Advance(counter, k)) && (done < buf.Length ==> done == 64 * k)
      invariant m.Partly(counter, was, buf[..], done)
    {
      var cs, next := LaneCounters(s[12], w, m);
      var words := GroupWords(s, cs, m);
      forall l | 0 <= l <= w ensures m.Advance(counter, k + l) == m.Advance(s[12], l) {
        m.AdvanceSum(counter, k, l);
      }
      done := CombineGroup(buf, done, w, words, m, counter, was, k);
      StandsAt(m, s, next);
      s := s[12 := next];
      k := k + w;
    }
    m.PartlyAll(counter, was, buf[..]);
  }

  // All five

  datatype Driver = Scalar | Hoisted | Sse2 | Sse2x4 | Avx2

  /** Whichever driver runs, the bytes are those of RFC 8439. */
  method XorWith(driver: Driver, key: Key, counter: Word, nonce: Nonce, buf: array<bv8>)
    modifies buf
    ensures buf[..] == XorStream(key, counter, nonce, old(buf[..]))
  {
    ghost var m := ChaCha(key, nonce);
    ChaChaRuns(key, nonce);
    match driver
    case Scalar => Xor(key, counter, nonce, buf, m);
    case Hoisted => XorHoisted(key, counter, nonce, buf, m);
    case Sse2 => XorRows(key, counter, nonce, buf, m);
    case Sse2x4 => XorLanes(key, counter, nonce, buf, 4, m);
    case Avx2 => XorLanes(key, counter, nonce, buf, 8, m);
  }
}
