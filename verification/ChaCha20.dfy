/**
 The two scalar ChaCha20 drivers: one block at a time with the state rebuilt for each, and with
 the state kept and its counter moved. Each is proved to apply the keystream of RFC 8439 to the
 buffer in place, so they agree byte for byte with each other and with the vector drivers.
 */
module ChaCha20 {
  import opened ChaCha20Spec
  import opened CounterMode

  // Words

  function WordOr(a: Word, b: Word): Word {
    a | b
  }

  /** The two shifts the source joins into a rotation, and the rotation they are to make. */
  datatype Turn = Turn(left: Word -> Word, right: Word -> Word, rotate: Word -> Word) {
    ghost predicate Sound() {
      forall v :: WordOr(left(v), right(v)) == rotate(v)
    }
  }

  const TURN16 := Turn(v => v << 16, v => v >> 16, Left16)
  const TURN12 := Turn(v => v << 12, v => v >> 20, Left12)
  const TURN8 := Turn(v => v << 8, v => v >> 24, Left8)
  const TURN7 := Turn(v => v << 7, v => v >> 25, Left7)

  lemma Sound16() ensures TURN16.Sound() {}
  lemma Sound12() ensures TURN12.Sound() {}
  lemma Sound8() ensures TURN8.Sound() {}
  lemma Sound7() ensures TURN7.Sound() {}

  method AddXorRotate(t: Turn, a: Word, b: Word, d: Word) returns (sum: Word, turned: Word)
    requires t.Sound()
    ensures (sum, turned) == AddXor(t.rotate, a, b, d)
  {
    sum := Plus(a, b);
    turned := WordXor(d, sum);
    turned := WordOr(t.left(turned), t.right(turned));
  }

  method Quarter(q: Quad<Word>) returns (r: Quad<Word>)
    ensures r == QuarterRound(q)
  {
    var (a, b, c, d) := q;
    Sound16();
    Sound12();
    Sound8();
    Sound7();
    a, d := AddXorRotate(TURN16, a, b, d);
    c, b := AddXorRotate(TURN12, c, d, b);
    a, d := AddXorRotate(TURN8, a, b, d);
    c, b := AddXorRotate(TURN7, c, d, b);
    r := (a, b, c, d);
  }

  /** Mix the words at four places of a state. */
  function At<W>(qr: Mixer<W>, x: seq<W>, a: nat, b: nat, c: nat, d: nat): (y: seq<W>)
    requires |x| == 16 && a < 16 && b < 16 && c < 16 && d < 16
    ensures |y| == 16
  {
    var r := qr((x[a], x[b], x[c], x[d]));
    x[a := r.0][b := r.1][c := r.2][d := r.3]
  }

  function FourColumns<W>(qr: Mixer<W>, x: seq<W>): (y: seq<W>)
    requires |x| == 16
    ensures |y| == 16
  {
    At(qr, At(qr, At(qr, At(qr, x, 0, 4, 8, 12), 1, 5, 9, 13), 2, 6, 10, 14), 3, 7, 11, 15)
  }

  function FourDiagonals<W>(qr: Mixer<W>, x: seq<W>): (y: seq<W>)
    requires |x| == 16
    ensures |y| == 16
  {
    At(qr, At(qr, At(qr, At(qr, x, 0, 5, 10, 15), 1, 6, 11, 12), 2, 7, 8, 13), 3, 4, 9, 14)
  }

  /** The sixteen words of four mixed columns, and of four mixed diagonals. */
  function Upright<W>(q0: Quad<W>, q1: Quad<W>, q2: Quad<W>, q3: Quad<W>): (y: seq<W>)
    ensures |y| == 16
  {
    [q0.0, q1.0, q2.0, q3.0, q0.1, q1.1, q2.1, q3.1, q0.2, q1.2, q2.2, q3.2, q0.3, q1.3, q2.3, q3.3]
  }

  function Slanted<W>(q0: Quad<W>, q1: Quad<W>, q2: Quad<W>, q3: Quad<W>): (y: seq<W>)
    ensures |y| == 16
  {
    [q0.0, q1.0, q2.0, q3.0, q3.1, q0.1, q1.1, q2.1, q2.2, q3.2, q0.2, q1.2, q1.3, q2.3, q3.3, q0.3]
  }

  lemma ColumnRoundUpright<W>(qr: Mixer<W>, x: seq<W>)
    requires |x| == 16
    ensures ColumnRound(qr, x)
      == Upright(qr(ColumnOf(x, 0)), qr(ColumnOf(x, 1)), qr(ColumnOf(x, 2)), qr(ColumnOf(x, 3)))
  {
  }

  lemma DiagonalRoundSlanted<W>(qr: Mixer<W>, x: seq<W>)
    requires |x| == 16
    ensures DiagonalRound(qr, x)
      == Slanted(qr(DiagonalOf(x, 0)), qr(DiagonalOf(x, 1)), qr(DiagonalOf(x, 2)), qr(DiagonalOf(x, 3)))
  {
  }

  /** A quarter-round touches the four places it names and no other. */
  lemma AtPlaces<W>(qr: Mixer<W>, x: seq<W>, a: nat, b: nat, c: nat, d: nat)
    requires |x| == 16 && a < 4 <= b < 8 <= c < 12 <= d < 16
    ensures (At(qr, x, a, b, c, d)[a], At(qr, x, a, b, c, d)[b], At(qr, x, a, b, c, d)[c], At(qr, x, a, b, c, d)[d])
      == qr((x[a], x[b], x[c], x[d]))
    ensures forall i :: 0 <= i < 16 && i != a && i != b && i != c && i != d ==> At(qr, x, a, b, c, d)[i] == x[i]
  {
  }

  lemma FourColumnsAreARound<W>(qr: Mixer<W>, x: seq<W>)
    requires |x| == 16
    ensures FourColumns(qr, x) == ColumnRound(qr, x)
  {
    var x1 := At(qr, x, 0, 4, 8, 12);
    var x2 := At(qr, x1, 1, 5, 9, 13);
    var x3 := At(qr, x2, 2, 6, 10, 14);
    AtPlaces(qr, x, 0, 4, 8, 12);
    AtPlaces(qr, x1, 1, 5, 9, 13);
    AtPlaces(qr, x2, 2, 6, 10, 14);
    AtPlaces(qr, x3, 3, 7, 11, 15);
    ColumnRoundUpright(qr, x);
  }

  lemma FourDiagonalsAreARound<W>(qr: Mixer<W>, x: seq<W>)
    requires |x| == 16
    ensures FourDiagonals(qr, x) == DiagonalRound(qr, x)
  {
    var x1 := At(qr, x, 0, 5, 10, 15);
    var x2 := At(qr, x1, 1, 6, 11, 12);
    var x3 := At(qr, x2, 2, 7, 8, 13);
    AtPlaces(qr, x, 0, 5, 10, 15);
    AtPlaces(qr, x1, 1, 6, 11, 12);
    AtPlaces(qr, x2, 2, 7, 8, 13);
    AtPlaces(qr, x3, 3, 4, 9, 14);
    DiagonalRoundSlanted(qr, x);
  }

  // One block

  method QuarterAt(x: seq<Word>, a: nat, b: nat, c: nat, d: nat) returns (y: seq<Word>)
    requires |x| == 16 && a < 16 && b < 16 && c < 16 && d < 16
    ensures y == At(QuarterRound, x, a, b, c, d)
  {
    var r := Quarter((x[a], x[b], x[c], x[d]));
    y := x[a := r.0][b := r.1][c := r.2][d := r.3];
  }

  method ColumnQuarters(s: seq<Word>) returns (x: seq<Word>)
    requires |s| == 16
    ensures x == ColumnRound(QuarterRound, s)
  {
    x := QuarterAt(s, 0, 4, 8, 12);
    x := QuarterAt(x, 1, 5, 9, 13);
    x := QuarterAt(x, 2, 6, 10, 14);
    x := QuarterAt(x, 3, 7, 11, 15);
    FourColumnsAreARound(QuarterRound, s);
  }

  method DiagonalQuarters(s: seq<Word>) returns (x: seq<Word>)
    requires |s| == 16
    ensures x == DiagonalRound(QuarterRound, s)
  {
    x := QuarterAt(s, 0, 5, 10, 15);
    x := QuarterAt(x, 1, 6, 11, 12);
    x := QuarterAt(x, 2, 7, 8, 13);
    x := QuarterAt(x, 3, 4, 9, 14);
    FourDiagonalsAreARound(QuarterRound, s);
  }

  method TenDoubleRounds(s: seq<Word>) returns (x: seq<Word>)
    requires |s| == 16
    ensures x == Rounds(QuarterRound, s, 10)
  {
    x := s;
    for i := 0 to 10
      invariant x == Rounds(QuarterRound, s, i)
    {
      x := ColumnQuarters(x);
      x := DiagonalQuarters(x);
    }
  }

  method LoadState(key: Key, counter: Word, nonce: Nonce) returns (s: seq<Word>)
    ensures s == InitialState(key, counter, nonce)
  {
    s := CONSTANTS;
    for i := 0 to 8
      invariant s == CONSTANTS + seq(i, k requires 0 <= k < i => Load(key, 4 * k))
    {
      s := s + [Load(key, 4 * i)];
    }
    s := s + [counter];
    ghost var front := s;
    for i := 0 to 3
      invariant s == front + seq(i, k requires 0 <= k < i => Load(nonce, 4 * k))
    {
      s := s + [Load(nonce, 4 * i)];
    }
  }

  method Zip<W>(op: (W, W) -> W, x: seq<W>, y: seq<W>) returns (r: seq<W>)
    requires |x| == |y|
    ensures r == Zipped(op, x, y)
  {
    r := x;
    for i := 0 to |x|
      invariant |r| == |x| && forall k :: 0 <= k < i ==> r[k] == op(x[k], y[k])
      invariant forall k :: i <= k < |x| ==> r[k] == x[k]
    {
      r := r[i := op(x[i], y[i])];
    }
  }

  method StoreState(x: seq<Word>) returns (out: Block64)
    requires |x| == 16
    ensures out == Serialize(x)
  {
    var bs: seq<bv8> := [];
    for i := 0 to 16
      invariant |bs| == 4 * i && forall k :: 0 <= k < 4 * i ==> bs[k] == ByteOf(x[k / 4], k % 4)
    {
      bs := bs + [ByteOf(x[i], 0), ByteOf(x[i], 1), ByteOf(x[i], 2), ByteOf(x[i], 3)];
    }
    out := bs;
  }

  /** `chacha20_block`. */
  method Block(key: Key, counter: Word, nonce: Nonce, ghost m: Mode<Word, bv8>) returns (out: Block64)
    requires Runs(m, key, nonce)
    ensures m.Gives(counter, out)
  {
    var s := LoadState(key, counter, nonce);
    var x := TenDoubleRounds(s);
    x := Zip(Plus, x, s);
    out := StoreState(x);
  }

  // Drivers

  /** `chacha20_xor`. */
  method Xor(key: Key, counter: Word, nonce: Nonce, buf: array<bv8>, ghost m: Mode<Word, bv8>)
    requires Runs(m, key, nonce)
    modifies buf
    ensures buf[..] == m.Combined(counter, old(buf[..]))
  {
    ghost var was, k := buf[..], 0;
    var done, c := 0, counter;
    while done < buf.Length
      invariant c == m.Advance(counter, k) && (done < buf.Length ==> done == 64 * k)
      invariant m.Partly(counter, was, buf[..], done)
    {
      var n := if buf.Length - done < 64 then buf.Length - done else 64;
      var ks := Block(key, c, nonce, m);
      CombineBlock(ByteXor, buf, done, n, ks, m, counter, was, k);
      done := done + n;
      c := Succ(c);
      k := k + 1;
    }
    m.PartlyAll(counter, was, buf[..]);
  }

  // A state kept from block to block

  function WithCounter(s: seq<Word>, c: Word): (t: seq<Word>)
    requires |s| == 16
    ensures |t| == 16
  {
    s[12 := c]
  }

  /** A state that stands at a counter, and gives the keystream block of any counter put in it. */
  ghost predicate Stands(m: Mode<Word, bv8>, s: seq<Word>, c: Word) {
    && |s| == 16 && s[12] == c
    && forall d: Word {:trigger WithCounter(s, d)} :: m.Gives(d, KeyBlock(WithCounter(s, d)))
  }

  method Prepare(key: Key, counter: Word, nonce: Nonce, ghost m: Mode<Word, bv8>) returns (s: seq<Word>)
    requires Runs(m, key, nonce)
    ensures Stands(m, s, counter)
  {
    s := LoadState(key, counter, nonce);
    assert s[12] == counter;
    forall d: Word ensures m.Gives(d, KeyBlock(WithCounter(s, d))) {
      CounterPlace(key, nonce, counter, d);
    }
  }

  lemma CounterPlace(key: Key, nonce: Nonce, c: Word, d: Word)
    ensures WithCounter(InitialState(key, c, nonce), d) == InitialState(key, d, nonce)
  {
  }

  lemma StandsAt(m: Mode<Word, bv8>, s: seq<Word>, c: Word)
    requires |s| == 16 && Stands(m, s, s[12])
    ensures Stands(m, WithCounter(s, c), c)
  {
    var t := WithCounter(s, c);
    forall d: Word ensures m.Gives(d, KeyBlock(WithCounter(t, d))) {
      assert WithCounter(t, d) == WithCounter(s, d);
    }
  }

  ghost predicate GivesWords(m: Mode<Word, bv8>, c: Word, x: seq<Word>) {
    |x| == 16 && m.Gives(c, Serialize(x))
  }

  lemma StandsGives(m: Mode<Word, bv8>, s: seq<Word>, c: Word)
    requires Stands(m, s, c)
    ensures m.Gives(c, KeyBlock(s))
  {
    assert WithCounter(s, c) == s;
  }

  method KeyWords(s: seq<Word>, ghost m: Mode<Word, bv8>, ghost c: Word) returns (x: seq<Word>)
    requires Stands(m, s, c)
    ensures GivesWords(m, c, x)
  {
    x := TenDoubleRounds(s);
    x := Zip(Plus, x, s);
    StandsGives(m, s, c);
  }

  /** Combine a block straight from the words of the state. */
  method CombineWords(buf: array<bv8>, done: nat, n: nat, x: seq<Word>,
                      ghost m: Mode<Word, bv8>, ghost counter: Word, ghost was: seq<bv8>, ghost k: nat)
    requires m.op == ByteXor && GivesWords(m, m.Advance(counter, k), x)
    requires m.Partly(counter, was, buf[..], done) && done == 64 * k && n <= 64 && done + n <= buf.Length
    modifies buf
    ensures m.Partly(counter, was, buf[..], done + n)
  {
    for j := 0 to n
      invariant m.Partly(counter, was, buf[..], done + j)
    {
      BlockIndex(k, j);
      ghost var ks := Serialize(x);
      assert ks[j] == ByteOf(x[j / 4], j % 4);
      buf[done + j] := ByteXor(buf[done + j], ByteOf(x[j / 4], j % 4));
    }
  }

  /** `chacha20_xor_hoisted`: the state is built once and only its counter moves. */
  method XorHoisted(key: Key, counter: Word, nonce: Nonce, buf: array<bv8>, ghost m: Mode<Word, bv8>)
    requires Runs(m, key, nonce)
    modifies buf
    ensures buf[..] == m.Combined(counter, old(buf[..]))
  {
    ghost var was, k := buf[..], 0;
    var done := 0;
    var s := Prepare(key, counter, nonce, m);
    while done < buf.Length
      invariant Stands(m, s, m.Advance(counter, k)) && (done < buf.Length ==> done == 64 * k)
      invariant m.Partly(counter, was, buf[..], done)
    {
      var n := if buf.Length - done < 64 then buf.Length - done else 64;
      var x := KeyWords(s, m, m.Advance(counter, k));
      CombineWords(buf, done, n, x, m, counter, was, k);
      done := done + n;
      StandsAt(m, s, Succ(s[12]));
      s := s[12 := Succ(s[12])];
      k := k + 1;
    }
    m.PartlyAll(counter, was, buf[..]);
  }
}
