/**
 Counter-mode streams: a counter that moves on, a 64-byte keystream block for each of its
 values, and a buffer combined with the stream byte by byte. Nothing here depends on what
 the counters and the bytes are.
 */
module CounterMode {

  datatype Mode<!C(!new), !B(!new)> = Mode(next: C -> C, stream: (C, nat) -> B, op: (B, B) -> B) {
    /** The counter after n blocks. */
    function Advance(counter: C, n: nat): C {
      if n == 0 then counter else next(Advance(counter, n - 1))
    }

    function Combined(counter: C, buf: seq<B>): (r: seq<B>)
      ensures |r| == |buf|
    {
      seq(|buf|, i requires 0 <= i < |buf| => op(buf[i], stream(Advance(counter, i / 64), i % 64)))
    }

    /** Combining a second time takes the stream off again. */
    ghost predicate Undoes() {
      forall b: B, k: B :: op(op(b, k), k) == b
    }

    /** The keystream block for a value of the counter. */
    ghost predicate Gives(counter: C, ks: seq<B>) {
      |ks| == 64 && forall j :: 0 <= j < 64 ==> ks[j] == stream(counter, j)
    }

    /** The first `done` bytes carry the stream, the others are untouched. */
    ghost predicate Partly(counter: C, was: seq<B>, now: seq<B>, done: nat) {
      && |now| == |was| && done <= |was|
      && (forall i :: 0 <= i < done ==> now[i] == op(was[i], stream(Advance(counter, i / 64), i % 64)))
      && (forall i :: done <= i < |was| ==> now[i] == was[i])
    }

    lemma PartlyAll(counter: C, was: seq<B>, now: seq<B>)
      requires Partly(counter, was, now, |was|)
      ensures now == Combined(counter, was)
    {
    }

    lemma CombinedByte(counter: C, buf: seq<B>, i: nat, ks: seq<B>)
      requires i < |buf| && Gives(Advance(counter, i / 64), ks)
      ensures Combined(counter, buf)[i] == op(buf[i], ks[i % 64])
    {
    }

    lemma {:induction false} AdvanceSum(counter: C, m: nat, n: nat)
      ensures Advance(counter, m + n) == Advance(Advance(counter, m), n)
    {
      if n != 0 {
        AdvanceSum(counter, m, n - 1);
      }
    }

    lemma CombinedTwice(counter: C, buf: seq<B>)
      requires Undoes()
      ensures Combined(counter, Combined(counter, buf)) == buf
    {
      var once := Combined(counter, buf);
      forall i | 0 <= i < |buf| ensures Combined(counter, once)[i] == buf[i] {
        assert once[i] == op(buf[i], stream(Advance(counter, i / 64), i % 64));
      }
    }

    lemma CombinedCut(counter: C, buf: seq<B>, n: nat)
      requires 64 * n <= |buf|
      ensures Combined(counter, buf) == Combined(counter, buf[..64 * n]) + Combined(Advance(counter, n), buf[64 * n..])
    {
      forall i | 64 * n <= i < |buf|
        ensures Combined(counter, buf)[i] == Combined(Advance(counter, n), buf[64 * n..])[i - 64 * n]
      {
        TailByte(counter, Advance(counter, n), buf, n, i - 64 * n);
      }
    }

    lemma TailByte(counter: C, moved: C, buf: seq<B>, n: nat, j: nat)
      requires 64 * n + j < |buf| && moved == Advance(counter, n)
      ensures Combined(counter, buf)[64 * n + j] == Combined(moved, buf[64 * n..])[j]
    {
      BlockIndex(n, j);
      AdvanceSum(counter, n, j / 64);
    }
  }

  lemma BlockIndex(n: nat, j: nat)
    ensures (64 * n + j) / 64 == n + j / 64 && (64 * n + j) % 64 == j % 64
  {
  }

  /** Combine as much of block k as the buffer has room for. */
  method CombineBlock<C(!new), B(!new)>(op: (B, B) -> B, buf: array<B>, done: nat, n: nat, ks: seq<B>,
                            ghost m: Mode<C, B>, ghost counter: C, ghost was: seq<B>, ghost k: nat)
    requires m.Partly(counter, was, buf[..], done) && done == 64 * k && n <= 64 && done + n <= buf.Length
    requires m.Gives(m.Advance(counter, k), ks) && op == m.op
    modifies buf
    ensures m.Partly(counter, was, buf[..], done + n)
  {
    for j := 0 to n
      invariant m.Partly(counter, was, buf[..], done + j)
    {
      BlockIndex(k, j);
      buf[done + j] := op(buf[done + j], ks[j]);
    }
  }
}
